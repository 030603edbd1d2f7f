/**
 * `Bagit::FileList`: the paths below a source directory, split into files
 * and directories, without those matching an exclusion pattern, computed
 * once and then remembered.
 */
module AssetFileList {
  import opened Wrappers
  import opened Strings

  /** One path that the recursive `Dir.glob` yields, and whether it names a directory. */
  datatype Entry = Entry(path: string, isDirectory: bool)

  /** Which of the three lists a selection builds. */
  datatype EntryKind = AnyEntry | FileEntry | DirectoryEntry

  /**
   * True when the exclusion pattern matches `path`; the pattern is a user
   * supplied regular expression and is modelled as a predicate on paths.
   */
  predicate Excluded(excludes: Option<string -> bool>, path: string)
  {
    excludes.Some? && excludes.value(path)
  }

  /** True when `e` belongs to the list of kind `kind`. */
  predicate Wanted(e: Entry, excludes: Option<string -> bool>, kind: EntryKind)
  {
    !Excluded(excludes, e.path) &&
    match kind
    case AnyEntry => true
    case FileEntry => !e.isDirectory
    case DirectoryEntry => e.isDirectory
  }

  /** The paths of the wanted entries, in enumeration order. */
  function Selected(entries: seq<Entry>, excludes: Option<string -> bool>, kind: EntryKind): (r: seq<string>)
    ensures |r| <= |entries|
  {
    if entries == [] then []
    else if Wanted(entries[0], excludes, kind) then [entries[0].path] + Selected(entries[1..], excludes, kind)
    else Selected(entries[1..], excludes, kind)
  }

  /** The paths of all entries, in enumeration order. */
  function Paths(entries: seq<Entry>): (r: seq<string>)
    ensures |r| == |entries|
    ensures forall k :: 0 <= k < |entries| ==> r[k] == entries[k].path
  {
    if entries == [] then [] else [entries[0].path] + Paths(entries[1..])
  }

  /** The enumeration never yields the same path twice. */
  predicate DistinctPaths(entries: seq<Entry>)
  {
    forall i, j :: 0 <= i < j < |entries| ==> entries[i].path != entries[j].path
  }

  class FileList {
    const sourceDir: string
    const excludes: Option<string -> bool>
    /** What the recursive `Dir.glob` yields below `sourceDir`. */
    const entries: seq<Entry>

    var files: seq<string>
    var directories: seq<string>
    /** `@list`: None until the list has been calculated. */
    var list: Option<seq<string>>
    /** How many times the list has been calculated. */
    ghost var calculations: nat

    /** Once calculated, the three lists are the selections of the enumeration. */
    ghost predicate Valid()
      reads this
    {
      list.Some? ==>
        list.value == Selected(entries, excludes, AnyEntry) &&
        files == Selected(entries, excludes, FileEntry) &&
        directories == Selected(entries, excludes, DirectoryEntry)
    }

    constructor(sourceDir: string, excludes: Option<string -> bool>, entries: seq<Entry>)
      ensures this.sourceDir == sourceDir && this.excludes == excludes && this.entries == entries
      ensures list.None? && files == [] && directories == [] && calculations == 0
      ensures Valid()
    {
      this.sourceDir := sourceDir;
      this.excludes := excludes;
      this.entries := entries;
      files := [];
      directories := [];
      list := None;
      calculations := 0;
    }

    /**
     * `calculate_list`: walks the enumeration once, skipping excluded paths
     * and appending every other path to `list` and to `files` or
     * `directories` by its directory flag.
     */
    method CalculateList() returns (r: seq<string>)
      modifies this
      ensures list == Some(r) && Valid()
      ensures calculations == old(calculations) + 1
    {
      files := [];
      directories := [];
      var all: seq<string> := [];
      var n := 0;
      while n < |entries|
        invariant 0 <= n <= |entries|
        invariant all == Selected(entries[..n], excludes, AnyEntry)
        invariant files == Selected(entries[..n], excludes, FileEntry)
        invariant directories == Selected(entries[..n], excludes, DirectoryEntry)
        invariant calculations == old(calculations)
      {
        var e := entries[n];
        SelectedSnoc(entries[..n], e, excludes);
        assert entries[..n + 1] == entries[..n] + [e];
        if !(excludes.Some? && excludes.value(e.path)) {
          if e.isDirectory {
            directories := directories + [e.path];
          } else {
            files := files + [e.path];
          }
          all := all + [e.path];
        }
        n := n + 1;
      }
      assert entries[..n] == entries;
      list := Some(all);
      calculations := calculations + 1;
      r := all;
    }

    /** `files`: calculates the list when it has not been calculated yet. */
    method Files() returns (r: seq<string>)
      requires Valid()
      modifies this
      ensures Valid() && list.Some?
      ensures r == Selected(entries, excludes, FileEntry)
      ensures calculations == old(calculations) + (if old(list).None? then 1 else 0)
    {
      if list.None? {
        var _ := CalculateList();
      }
      r := files;
    }

    /** `directories`: calculates the list when it has not been calculated yet. */
    method Directories() returns (r: seq<string>)
      requires Valid()
      modifies this
      ensures Valid() && list.Some?
      ensures r == Selected(entries, excludes, DirectoryEntry)
      ensures calculations == old(calculations) + (if old(list).None? then 1 else 0)
    {
      if list.None? {
        var _ := CalculateList();
      }
      r := directories;
    }

    /** `list`: `@list ||= calculate_list`. */
    method List() returns (r: seq<string>)
      requires Valid()
      modifies this
      ensures Valid() && list == Some(r)
      ensures r == Selected(entries, excludes, AnyEntry)
      ensures calculations == old(calculations) + (if old(list).None? then 1 else 0)
    {
      if list.None? {
        r := CalculateList();
      } else {
        r := list.value;
      }
    }
  }

  // ---- properties of the selections ----

  /** Appending an entry to the enumeration appends its path to the lists that want it. */
  lemma {:induction false} SelectedSnoc(s: seq<Entry>, e: Entry, excludes: Option<string -> bool>)
    ensures forall kind :: (Selected(s + [e], excludes, kind) ==
      Selected(s, excludes, kind) + (if Wanted(e, excludes, kind) then [e.path] else []))
  {
    if s != [] {
      assert (s + [e])[1..] == s[1..] + [e];
      SelectedSnoc(s[1..], e, excludes);
    }
  }

  /**
   * A path is in a list exactly when the enumeration holds an entry with
   * that path which the list wants: not excluded, and of the right kind.
   */
  lemma {:induction false} SelectedMembership(entries: seq<Entry>, excludes: Option<string -> bool>, kind: EntryKind, p: string)
    ensures p in Selected(entries, excludes, kind) <==>
      exists k :: 0 <= k < |entries| && entries[k].path == p && Wanted(entries[k], excludes, kind)
  {
    if entries != [] {
      SelectedMembership(entries[1..], excludes, kind, p);
      if exists k :: 0 <= k < |entries| && entries[k].path == p && Wanted(entries[k], excludes, kind) {
        var k :| 0 <= k < |entries| && entries[k].path == p && Wanted(entries[k], excludes, kind);
        if k > 0 {
          assert entries[1..][k - 1] == entries[k];
        }
      }
      if exists k :: 0 <= k < |entries[1..]| && entries[1..][k].path == p && Wanted(entries[1..][k], excludes, kind) {
        var k :| 0 <= k < |entries[1..]| && entries[1..][k].path == p && Wanted(entries[1..][k], excludes, kind);
        assert entries[k + 1] == entries[1..][k];
      }
    }
  }

  /** A path the pattern matches is in none of the three lists. */
  lemma ExcludedNowhere(entries: seq<Entry>, excludes: Option<string -> bool>, p: string)
    requires Excluded(excludes, p)
    ensures p !in Selected(entries, excludes, AnyEntry)
    ensures p !in Selected(entries, excludes, FileEntry)
    ensures p !in Selected(entries, excludes, DirectoryEntry)
  {
    SelectedMembership(entries, excludes, AnyEntry, p);
    SelectedMembership(entries, excludes, FileEntry, p);
    SelectedMembership(entries, excludes, DirectoryEntry, p);
  }

  /**
   * Exclusion is decided path by path: an entry the pattern does not match
   * is listed even when the pattern matches its parent directory.
   */
  lemma KeptPerPath(entries: seq<Entry>, excludes: Option<string -> bool>, k: nat)
    requires k < |entries| && !Excluded(excludes, entries[k].path)
    ensures entries[k].path in Selected(entries, excludes, AnyEntry)
    ensures entries[k].path in Selected(entries, excludes, if entries[k].isDirectory then DirectoryEntry else FileEntry)
  {
    SelectedMembership(entries, excludes, AnyEntry, entries[k].path);
    SelectedMembership(entries, excludes, if entries[k].isDirectory then DirectoryEntry else FileEntry, entries[k].path);
  }

  /** Without a pattern every enumerated path is listed, in enumeration order. */
  lemma {:induction false} NoPatternKeepsAll(entries: seq<Entry>)
    ensures Selected(entries, None, AnyEntry) == Paths(entries)
  {
    if entries != [] {
      NoPatternKeepsAll(entries[1..]);
    }
  }

  /** Each list keeps the enumeration order: it is a subsequence of the enumerated paths. */
  lemma {:induction false} SelectedInOrder(entries: seq<Entry>, excludes: Option<string -> bool>, kind: EntryKind)
    ensures IsSubsequence(Selected(entries, excludes, kind), Paths(entries))
  {
    if entries != [] {
      SelectedInOrder(entries[1..], excludes, kind);
      var rest := Selected(entries[1..], excludes, kind);
      assert Paths(entries) == [entries[0].path] + Paths(entries[1..]);
      if Wanted(entries[0], excludes, kind) {
        assert ([entries[0].path] + rest)[1..] == rest;
      } else {
        SubsequenceCons(rest, Paths(entries[1..]), entries[0].path);
      }
    }
  }

  /** `list` is split without loss between `files` and `directories`. */
  lemma {:induction false} ListIsPartitioned(entries: seq<Entry>, excludes: Option<string -> bool>)
    ensures multiset(Selected(entries, excludes, AnyEntry)) ==
      multiset(Selected(entries, excludes, FileEntry)) + multiset(Selected(entries, excludes, DirectoryEntry))
  {
    if entries != [] {
      ListIsPartitioned(entries[1..], excludes);
    }
  }

  /**
   * Since the enumeration yields each path once, every listed path is in
   * exactly one of `files` and `directories`, by its directory flag.
   */
  lemma ExactlyOneKind(entries: seq<Entry>, excludes: Option<string -> bool>, k: nat)
    requires DistinctPaths(entries)
    requires k < |entries| && !Excluded(excludes, entries[k].path)
    ensures entries[k].path in Selected(entries, excludes, FileEntry) <==> !entries[k].isDirectory
    ensures entries[k].path in Selected(entries, excludes, DirectoryEntry) <==> entries[k].isDirectory
  {
    var p := entries[k].path;
    SelectedMembership(entries, excludes, FileEntry, p);
    SelectedMembership(entries, excludes, DirectoryEntry, p);
    forall i | 0 <= i < |entries| && i != k
      ensures entries[i].path != p
    {
      if i < k {
        assert entries[i].path != entries[k].path;
      } else if k < i {
        assert entries[k].path != entries[i].path;
      }
    }
  }
}
