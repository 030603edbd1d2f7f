/**
 * `Bagger::FTPSync`: cleaning old revisions and unlisted files out of a
 * remote directory tree, and a one-way sync of a local tree to a remote
 * one. The FTP session is not modelled as a connection: a run is a
 * function from the remote (and local) trees to the sequence of FTP
 * commands it issues, each located by the directories entered from the
 * starting directory.
 */
module FtpSync {
  import opened Wrappers
  import opened Strings
  import opened RubyPath

  /** A command sent to the server: the directory it is issued in, relative to the start, and its argument. */
  datatype Action =
    | Delete(dir: seq<string>, name: string)
    | Upload(dir: seq<string>, name: string)
    | MakeDir(dir: seq<string>, name: string)

  // ---- the suffix check of `clean_up` ----

  /** `/[A-Z]/ =~ s`: some character of `s` is a capital letter. */
  function HasCapital(s: string): (b: bool)
    ensures b <==> exists k :: 0 <= k < |s| && 'A' <= s[k] <= 'Z'
  {
    if s == [] then false
    else if 'A' <= s[0] <= 'Z' then true
    else
      var b := HasCapital(s[1..]);
      assert forall k :: 1 <= k < |s| ==> s[k] == s[1..][k - 1];
      b
  }

  /** Letters and digits only: inside `[^...]` such a suffix stands for its own characters. */
  predicate PlainSuffix(suffix: string)
  {
    forall k :: 0 <= k < |suffix| ==> ('a' <= suffix[k] <= 'z' || 'A' <= suffix[k] <= 'Z' || '0' <= suffix[k] <= '9')
  }

  // ---- the revision pattern `\.[0-9]{1,5}[^<suffix>]?\.` ----

  predicate IsDigit(c: char)
  {
    '0' <= c <= '9'
  }

  /**
   * The pattern matches `name` at `i` with `n` digits and `skip` (none or
   * one) characters outside the suffix between the digits and the second dot.
   */
  predicate RevisionMatch(name: string, suffix: string, i: nat, n: nat, skip: nat)
  {
    1 <= n <= 5 && skip <= 1 && i + n + skip + 2 <= |name| &&
    name[i] == '.' &&
    (forall k :: i < k <= i + n ==> IsDigit(name[k])) &&
    (skip == 1 ==> name[i + n + 1] !in suffix) &&
    name[i + n + skip + 1] == '.'
  }

  /** How many digits, at most `max`, stand in `name` from `j` on. */
  function DigitRun(name: string, j: nat, max: nat): (n: nat)
    ensures n <= max && (n > 0 ==> j + n <= |name|)
    ensures forall k :: j <= k < j + n ==> IsDigit(name[k])
    ensures n < max ==> j + n >= |name| || !IsDigit(name[j + n])
    decreases max
  {
    if max == 0 || j >= |name| || !IsDigit(name[j]) then 0
    else 1 + DigitRun(name, j + 1, max - 1)
  }

  /** The match can close at `e`: a dot, or one character outside the suffix and then a dot. */
  predicate ClosesAt(name: string, suffix: string, e: nat)
  {
    (e < |name| && name[e] == '.') || (e + 1 < |name| && name[e] !in suffix && name[e + 1] == '.')
  }

  /** Taking between 1 and `r` digits after the dot at `i`, the match can close. */
  predicate ClosesWithin(name: string, suffix: string, i: nat, r: nat)
  {
    r > 0 && (ClosesAt(name, suffix, i + 1 + r) || ClosesWithin(name, suffix, i, r - 1))
  }

  predicate MatchesAt(name: string, suffix: string, i: nat)
  {
    i < |name| && name[i] == '.' && ClosesWithin(name, suffix, i, DigitRun(name, i + 1, 5))
  }

  predicate MatchesFrom(name: string, suffix: string, i: nat)
    decreases |name| - i
  {
    i < |name| && (MatchesAt(name, suffix, i) || MatchesFrom(name, suffix, i + 1))
  }

  /** `file =~ /\.[0-9]{1,5}[^#{suffix_to_keep}]?\./`: the file is an old revision to delete. */
  predicate IsOldRevision(name: string, suffix: string)
  {
    MatchesFrom(name, suffix, 0)
  }

  /** The search finds a match wherever the pattern matches. */
  lemma RevisionMatchFound(name: string, suffix: string, i: nat, n: nat, skip: nat)
    requires RevisionMatch(name, suffix, i, n, skip)
    ensures IsOldRevision(name, suffix)
  {
    var r := DigitRun(name, i + 1, 5);
    assert ClosesAt(name, suffix, i + 1 + n);
    assert n <= r by {
      DigitRunAtLeast(name, i + 1, 5, n);
    }
    assert MatchesAt(name, suffix, i) by {
      ClosesWithinFrom(name, suffix, i, r, n);
    }
    MatchesFromReaches(name, suffix, 0, i);
  }

  /** And a match the search finds is a match of the pattern. */
  lemma RevisionMatchWitness(name: string, suffix: string) returns (i: nat, n: nat, skip: nat)
    requires IsOldRevision(name, suffix)
    ensures RevisionMatch(name, suffix, i, n, skip)
  {
    i := MatchesFromWitness(name, suffix, 0);
    n := ClosesWithinWitness(name, suffix, i, DigitRun(name, i + 1, 5));
    skip := if i + 1 + n < |name| && name[i + 1 + n] == '.' then 0 else 1;
  }

  lemma {:induction false} DigitRunAtLeast(name: string, j: nat, max: nat, n: nat)
    requires n <= max && j + n <= |name|
    requires forall k :: j <= k < j + n ==> IsDigit(name[k])
    ensures DigitRun(name, j, max) >= n
    decreases max
  {
    if n > 0 {
      DigitRunAtLeast(name, j + 1, max - 1, n - 1);
    }
  }

  lemma {:induction false} ClosesWithinFrom(name: string, suffix: string, i: nat, r: nat, n: nat)
    requires 1 <= n <= r && ClosesAt(name, suffix, i + 1 + n)
    ensures ClosesWithin(name, suffix, i, r)
    decreases r
  {
    if n < r {
      ClosesWithinFrom(name, suffix, i, r - 1, n);
    }
  }

  lemma {:induction false} MatchesFromReaches(name: string, suffix: string, j: nat, i: nat)
    requires j <= i && MatchesAt(name, suffix, i)
    ensures MatchesFrom(name, suffix, j)
    decreases i - j
  {
    if j < i {
      MatchesFromReaches(name, suffix, j + 1, i);
    }
  }

  lemma {:induction false} MatchesFromWitness(name: string, suffix: string, j: nat) returns (i: nat)
    requires MatchesFrom(name, suffix, j)
    ensures j <= i && MatchesAt(name, suffix, i)
    decreases |name| - j
  {
    if MatchesAt(name, suffix, j) {
      i := j;
    } else {
      i := MatchesFromWitness(name, suffix, j + 1);
    }
  }

  lemma {:induction false} ClosesWithinWitness(name: string, suffix: string, i: nat, r: nat) returns (n: nat)
    requires ClosesWithin(name, suffix, i, r)
    ensures 1 <= n <= r && ClosesAt(name, suffix, i + 1 + n)
    decreases r
  {
    if ClosesAt(name, suffix, i + 1 + r) {
      n := r;
    } else {
      n := ClosesWithinWitness(name, suffix, i, r - 1);
    }
  }

  /** `[0-9]{1,5}[^<suffix>]?` matches the whole of `mid`. */
  predicate RevisionText(mid: string, suffix: string)
  {
    (1 <= |mid| <= 5 && forall k :: 0 <= k < |mid| ==> IsDigit(mid[k])) ||
    (2 <= |mid| <= 6 && (forall k :: 0 <= k < |mid| - 1 ==> IsDigit(mid[k])) && mid[|mid| - 1] !in suffix)
  }

  /**
   * A name with exactly two dots, `stem.mid.ext`, is an old revision
   * exactly when `mid` is one to five digits, possibly followed by one
   * character that is not in the suffix to keep.
   */
  lemma TwoDotName(stem: string, mid: string, ext: string, suffix: string)
    requires '.' !in stem && '.' !in mid && '.' !in ext
    ensures IsOldRevision(stem + "." + mid + "." + ext, suffix) <==> RevisionText(mid, suffix)
  {
    TwoDots(stem, mid, ext);
    if RevisionText(mid, suffix) {
      RevisionTextMatches(stem, mid, ext, suffix);
    }
    if IsOldRevision(stem + "." + mid + "." + ext, suffix) {
      var i, n, skip := RevisionMatchWitness(stem + "." + mid + "." + ext, suffix);
      MatchBetweenDots(stem, mid, ext, suffix, i, n, skip);
    }
  }

  lemma RevisionTextMatches(stem: string, mid: string, ext: string, suffix: string)
    requires RevisionText(mid, suffix)
    ensures IsOldRevision(stem + "." + mid + "." + ext, suffix)
  {
    var name := stem + "." + mid + "." + ext;
    assert forall k :: 0 <= k < |mid| ==> name[|stem| + 1 + k] == mid[k];
    var skip := if 1 <= |mid| <= 5 && forall k :: 0 <= k < |mid| ==> IsDigit(mid[k]) then 0 else 1;
    RevisionMatchFound(name, suffix, |stem|, |mid| - skip, skip);
  }

  lemma MatchBetweenDots(stem: string, mid: string, ext: string, suffix: string, i: nat, n: nat, skip: nat)
    requires var name := stem + "." + mid + "." + ext;
      forall k :: 0 <= k < |name| ==> (name[k] == '.' <==> k == |stem| || k == |stem| + 1 + |mid|)
    requires RevisionMatch(stem + "." + mid + "." + ext, suffix, i, n, skip)
    ensures RevisionText(mid, suffix)
  {
    var name := stem + "." + mid + "." + ext;
    assert i == |stem| && i + n + skip + 1 == |stem| + 1 + |mid|;
    assert forall k :: 0 <= k < |mid| ==> name[|stem| + 1 + k] == mid[k];
  }

  /** The dots of `stem.mid.ext` are the two written between the pieces. */
  lemma TwoDots(stem: string, mid: string, ext: string)
    requires '.' !in stem && '.' !in mid && '.' !in ext
    ensures var name := stem + "." + mid + "." + ext;
      forall k :: 0 <= k < |name| ==> (name[k] == '.' <==> k == |stem| || k == |stem| + 1 + |mid|)
  {
    var name := stem + "." + mid + "." + ext;
    forall k | 0 <= k < |name|
      ensures name[k] == '.' <==> k == |stem| || k == |stem| + 1 + |mid|
    {
      if k < |stem| {
        assert name[k] == stem[k];
      } else if |stem| < k < |stem| + 1 + |mid| {
        assert name[k] == mid[k - |stem| - 1];
      } else if k > |stem| + 1 + |mid| {
        assert name[k] == ext[k - |stem| - 2 - |mid|];
      }
    }
  }

  // ---- remote listings ----

  /** The end of the run of white space (when `space`) or of other characters that starts at `j`. */
  function RunEnd(s: string, j: nat, space: bool): (e: nat)
    requires j <= |s|
    ensures j <= e <= |s|
    ensures forall k :: j <= k < e ==> IsSpace(s[k]) == space
    ensures e == |s| || IsSpace(s[e]) != space
    decreases |s| - j
  {
    if j == |s| || IsSpace(s[j]) != space then j else RunEnd(s, j + 1, space)
  }

  predicate AllDigits(s: string)
  {
    forall k :: 0 <= k < |s| ==> IsDigit(s[k])
  }

  /**
   * `s`, then what is left of it after each column dropped from its front
   * in turn: a column is a run of non-space characters and the run of white
   * space after it.
   */
  function Remainders(s: string): (r: seq<string>)
    ensures |r| > 0 && r[0] == s
    decreases |s|
  {
    var f := RunEnd(s, 0, false);
    var e := RunEnd(s, f, true);
    if f == 0 || e == f then [s] else [s] + Remainders(s[e..])
  }

  /** The run of non-space characters `s` starts with. */
  function FirstColumn(s: string): string
  {
    s[..RunEnd(s, 0, false)]
  }

  /**
   * The `gsub` of `get_remote_dir_and_file_names`: the name in an `ls -l`
   * line is what follows its mode, links, owner, group, size, month, day
   * and time columns, the second of which is a number; a line without
   * them is kept whole.
   */
  function ListingName(line: string): string
  {
    var r := Remainders(line);
    if |r| > 8 && AllDigits(FirstColumn(r[1])) then r[8] else line
  }

  /** The text of listing columns: each column followed by its separator. */
  function Columns(cols: seq<string>, seps: seq<string>): string
    requires |cols| == |seps|
  {
    if cols == [] then [] else cols[0] + seps[0] + Columns(cols[1..], seps[1..])
  }

  predicate NoSpace(s: string)
  {
    forall k :: 0 <= k < |s| ==> !IsSpace(s[k])
  }

  predicate AllSpace(s: string)
  {
    forall k :: 0 <= k < |s| ==> IsSpace(s[k])
  }

  /** Columns without white space, separators of white space only, none of them empty. */
  predicate ColumnLayout(cols: seq<string>, seps: seq<string>)
  {
    |cols| == |seps| &&
    (forall k :: 0 <= k < |cols| ==> cols[k] != [] && NoSpace(cols[k])) &&
    (forall k :: 0 <= k < |seps| ==> seps[k] != [] && AllSpace(seps[k]))
  }

  /** The name of a line laid out as `ls -l` prints it is what follows the eight columns. */
  lemma ListingNameOfColumns(cols: seq<string>, seps: seq<string>, name: string)
    requires |cols| == 8 && ColumnLayout(cols, seps) && AllDigits(cols[1])
    requires name == [] || !IsSpace(name[0])
    ensures ListingName(Columns(cols, seps) + name) == name
  {
    RemaindersOfColumns(cols, seps, name);
    LayoutTail(cols, seps);
    FirstColumnOfColumns(cols[1..], seps[1..], name);
    TailsSecond(cols, seps, name);
    ListingNameAfter(Columns(cols, seps) + name, Tails(cols, seps, name), name);
  }

  /** When eight columns, the second a number, come off before the name, the name is what is left. */
  lemma ListingNameAfter(line: string, t: seq<string>, name: string)
    requires Remainders(line) == t + Remainders(name) && |t| == 8
    requires AllDigits(FirstColumn(t[1]))
    ensures ListingName(line) == name
  {
    assert Remainders(line)[1] == t[1] && Remainders(line)[8] == name;
  }

  /** The first column of laid out columns is the first of them. */
  lemma FirstColumnOfColumns(cols: seq<string>, seps: seq<string>, name: string)
    requires ColumnLayout(cols, seps) && cols != []
    requires name == [] || !IsSpace(name[0])
    ensures FirstColumn(Columns(cols, seps) + name) == cols[0]
  {
    var rest := Columns(cols[1..], seps[1..]);
    LayoutTail(cols, seps);
    ColumnsStartWithName(cols[1..], seps[1..], name);
    assert Columns(cols, seps) == cols[0] + seps[0] + rest;
    ConcatAssoc(cols[0] + seps[0], rest, name);
    assert cols[0] != [] && NoSpace(cols[0]) && seps[0] != [] && AllSpace(seps[0]);
    FirstColumnIs(cols[0], seps[0], rest + name);
  }

  /** The text from each column on: the columns from there and the name. */
  function Tails(cols: seq<string>, seps: seq<string>, name: string): (t: seq<string>)
    requires |cols| == |seps|
    ensures |t| == |cols|
  {
    if cols == [] then [] else [Columns(cols, seps) + name] + Tails(cols[1..], seps[1..], name)
  }

  lemma TailsSecond(cols: seq<string>, seps: seq<string>, name: string)
    requires |cols| == |seps| && |cols| >= 2
    ensures Tails(cols, seps, name)[1] == Columns(cols[1..], seps[1..]) + name
  {
  }

  /** Dropping the columns one by one passes through each later column, then goes on in the name. */
  lemma {:induction false} RemaindersOfColumns(cols: seq<string>, seps: seq<string>, name: string)
    requires ColumnLayout(cols, seps)
    requires name == [] || !IsSpace(name[0])
    ensures Remainders(Columns(cols, seps) + name) == Tails(cols, seps, name) + Remainders(name)
    decreases |cols|
  {
    if cols == [] {
      assert Columns(cols, seps) + name == name;
    } else {
      var c, s := cols[0], seps[0];
      var rest := Columns(cols[1..], seps[1..]);
      assert Columns(cols, seps) + name == c + s + (rest + name);
      LayoutTail(cols, seps);
      ColumnsStartWithName(cols[1..], seps[1..], name);
      RemaindersStep(c, s, rest + name);
      RemaindersOfColumns(cols[1..], seps[1..], name);
      ConcatAssoc([Columns(cols, seps) + name], Tails(cols[1..], seps[1..], name), Remainders(name));
    }
  }

  /** The layout carries over to the columns after the first. */
  lemma LayoutTail(cols: seq<string>, seps: seq<string>)
    requires ColumnLayout(cols, seps) && cols != []
    ensures ColumnLayout(cols[1..], seps[1..])
  {
    assert forall k :: 0 <= k < |cols| - 1 ==> cols[1..][k] == cols[k + 1] && seps[1..][k] == seps[k + 1];
  }

  /** What follows the columns starts with a character that is not white space, or is empty. */
  lemma ColumnsStartWithName(cols: seq<string>, seps: seq<string>, name: string)
    requires ColumnLayout(cols, seps)
    requires name == [] || !IsSpace(name[0])
    ensures var t := Columns(cols, seps) + name; t == [] || !IsSpace(t[0])
  {
    if cols != [] {
      assert (Columns(cols, seps) + name)[0] == cols[0][0];
    }
  }

  /** Where a column and its separator stand at the front, dropping a column leaves the rest. */
  lemma RemaindersStep(c: string, s: string, rest: string)
    requires c != [] && NoSpace(c) && s != [] && AllSpace(s)
    requires rest == [] || !IsSpace(rest[0])
    ensures Remainders(c + s + rest) == [c + s + rest] + Remainders(rest)
  {
    var line := c + s + rest;
    ColumnRuns(c, s, rest);
    assert line[|c| + |s|..] == rest;
  }

  /** The first column of a column, its separator and more is that column. */
  lemma FirstColumnIs(c: string, s: string, rest: string)
    requires c != [] && NoSpace(c) && s != [] && AllSpace(s)
    requires rest == [] || !IsSpace(rest[0])
    ensures FirstColumn(c + s + rest) == c
  {
    ColumnRuns(c, s, rest);
    assert (c + s + rest)[..|c|] == c;
  }

  lemma ColumnRuns(c: string, s: string, rest: string)
    requires c != [] && NoSpace(c) && s != [] && AllSpace(s)
    requires rest == [] || !IsSpace(rest[0])
    ensures RunEnd(c + s + rest, 0, false) == |c|
    ensures RunEnd(c + s + rest, |c|, true) == |c| + |s|
  {
    var line := c + s + rest;
    assert forall k :: 0 <= k < |c| ==> line[k] == c[k];
    assert forall k :: |c| <= k < |c| + |s| ==> line[k] == s[k - |c|];
    if rest != [] {
      assert line[|c| + |s|] == rest[0];
    }
    RunEndIs(line, 0, |c|, false);
    RunEndIs(line, |c|, |c| + |s|, true);
  }

  /** A run ends where the first character of the other kind stands. */
  lemma RunEndIs(s: string, j: nat, e: nat, space: bool)
    requires j <= e <= |s|
    requires forall k :: j <= k < e ==> IsSpace(s[k]) == space
    requires e == |s| || IsSpace(s[e]) != space
    ensures RunEnd(s, j, space) == e
  {
  }

  /** The directories and files a listing names, in listing order. */
  datatype Listing = Listing(dirs: seq<string>, files: seq<string>)

  predicate IsFileLine(line: string)
  {
    |line| > 0 && line[0] == '-'
  }

  predicate IsDirLine(line: string)
  {
    |line| > 0 && line[0] == 'd'
  }

  /**
   * `get_remote_dir_and_file_names`: a line starting with `-` names a file,
   * one starting with `d` a directory, and every other line is skipped.
   */
  function Classify(lines: seq<string>): (r: Listing)
    ensures |r.dirs| + |r.files| <= |lines|
  {
    if lines == [] then Listing([], [])
    else
      var r := Classify(lines[1..]);
      if IsFileLine(lines[0]) then Listing(r.dirs, [ListingName(lines[0])] + r.files)
      else if IsDirLine(lines[0]) then Listing([ListingName(lines[0])] + r.dirs, r.files)
      else r
  }

  /** The files of a listing are the names of its `-` lines. */
  lemma {:induction false} ClassifyFiles(lines: seq<string>, name: string)
    ensures name in Classify(lines).files <==>
      exists k :: 0 <= k < |lines| && IsFileLine(lines[k]) && ListingName(lines[k]) == name
  {
    if lines != [] {
      ClassifyFiles(lines[1..], name);
      if exists k :: 0 <= k < |lines| && IsFileLine(lines[k]) && ListingName(lines[k]) == name {
        var k :| 0 <= k < |lines| && IsFileLine(lines[k]) && ListingName(lines[k]) == name;
        if k > 0 {
          assert lines[1..][k - 1] == lines[k];
        }
      }
      if exists k :: 0 <= k < |lines[1..]| && IsFileLine(lines[1..][k]) && ListingName(lines[1..][k]) == name {
        var k :| 0 <= k < |lines[1..]| && IsFileLine(lines[1..][k]) && ListingName(lines[1..][k]) == name;
        assert lines[k + 1] == lines[1..][k];
      }
    }
  }

  /** The directories of a listing are the names of its `d` lines. */
  lemma {:induction false} ClassifyDirs(lines: seq<string>, name: string)
    ensures name in Classify(lines).dirs <==>
      exists k :: 0 <= k < |lines| && IsDirLine(lines[k]) && ListingName(lines[k]) == name
  {
    if lines != [] {
      ClassifyDirs(lines[1..], name);
      if exists k :: 0 <= k < |lines| && IsDirLine(lines[k]) && ListingName(lines[k]) == name {
        var k :| 0 <= k < |lines| && IsDirLine(lines[k]) && ListingName(lines[k]) == name;
        if k > 0 {
          assert lines[1..][k - 1] == lines[k];
        }
      }
      if exists k :: 0 <= k < |lines[1..]| && IsDirLine(lines[1..][k]) && ListingName(lines[1..][k]) == name {
        var k :| 0 <= k < |lines[1..]| && IsDirLine(lines[1..][k]) && ListingName(lines[1..][k]) == name;
        assert lines[k + 1] == lines[1..][k];
      }
    }
  }

  // ---- local directories ----

  /** A local directory: what `Dir.glob("*")` yields in it. */
  datatype LocalDir = LocalDir(entries: seq<LocalEntry>)

  /** A file, or a directory with its content. */
  datatype LocalEntry = LocalEntry(name: string, isFile: bool, content: LocalDir)

  /** `get_local_dir_and_file_names`: files by `File.file?`, everything else as a directory. */
  function LocalListing(entries: seq<LocalEntry>): (r: Listing)
    ensures |r.dirs| + |r.files| == |entries|
  {
    if entries == [] then Listing([], [])
    else
      var r := LocalListing(entries[1..]);
      if entries[0].isFile then Listing(r.dirs, [entries[0].name] + r.files)
      else Listing([entries[0].name] + r.dirs, r.files)
  }

  /** The local files and directories are the names of the file and the other entries. */
  lemma {:induction false} LocalListingMembership(entries: seq<LocalEntry>, name: string)
    ensures name in LocalListing(entries).files <==>
      exists k :: 0 <= k < |entries| && entries[k].isFile && entries[k].name == name
    ensures name in LocalListing(entries).dirs <==>
      exists k :: 0 <= k < |entries| && !entries[k].isFile && entries[k].name == name
  {
    if entries != [] {
      LocalListingMembership(entries[1..], name);
      assert forall k :: 1 <= k < |entries| ==> entries[k] == entries[1..][k - 1];
      assert forall k :: 0 <= k < |entries[1..]| ==> entries[1..][k] == entries[k + 1];
    }
  }

  /** `Dir.chdir(name)`: the directory entry called `name`. */
  function LocalDirIndex(l: LocalDir, name: string): (k: nat)
    requires name in LocalListing(l.entries).dirs
    ensures k < |l.entries| && !l.entries[k].isFile && l.entries[k].name == name
  {
    LocalListingMembership(l.entries, name);
    LocalDirFrom(l, name, 0)
  }

  function LocalDirFrom(l: LocalDir, name: string, i: nat): (k: nat)
    requires exists k :: i <= k < |l.entries| && !l.entries[k].isFile && l.entries[k].name == name
    ensures i <= k < |l.entries| && !l.entries[k].isFile && l.entries[k].name == name
    decreases |l.entries| - i
  {
    if !l.entries[i].isFile && l.entries[i].name == name then i else LocalDirFrom(l, name, i + 1)
  }

  function LocalSub(l: LocalDir, name: string): LocalDir
    requires name in LocalListing(l.entries).dirs
  {
    l.entries[LocalDirIndex(l, name)].content
  }

  // ---- remote directories ----

  /** A remote directory: the lines `ls` prints in it, each with the directory it names when it is a `d` line. */
  datatype RemoteDir = RemoteDir(entries: seq<RemoteEntry>)

  datatype RemoteEntry = RemoteEntry(line: string, content: RemoteDir)

  function Lines(d: RemoteDir): seq<string>
  {
    seq(|d.entries|, k requires 0 <= k < |d.entries| => d.entries[k].line)
  }

  function RemoteListing(d: RemoteDir): Listing
  {
    Classify(Lines(d))
  }

  /** `ftp.chdir(name)`: the directory of the first `d` line that names `name`. */
  function RemoteDirIndex(d: RemoteDir, name: string): (k: nat)
    requires name in RemoteListing(d).dirs
    ensures k < |d.entries| && IsDirLine(d.entries[k].line) && ListingName(d.entries[k].line) == name
  {
    ClassifyDirs(Lines(d), name);
    RemoteDirFrom(d, name, 0)
  }

  /** `e` is a `d` line naming `name`. */
  predicate NamesDir(e: RemoteEntry, name: string)
  {
    IsDirLine(e.line) && ListingName(e.line) == name
  }

  function RemoteDirFrom(d: RemoteDir, name: string, i: nat): (k: nat)
    requires exists k :: i <= k < |d.entries| && NamesDir(d.entries[k], name)
    ensures i <= k < |d.entries| && NamesDir(d.entries[k], name)
    decreases |d.entries| - i
  {
    var w :| i <= w < |d.entries| && NamesDir(d.entries[w], name);
    if NamesDir(d.entries[i], name) then i
    else
      assert i < w;
      RemoteDirFrom(d, name, i + 1)
  }

  function RemoteSub(d: RemoteDir, name: string): RemoteDir
    requires name in RemoteListing(d).dirs
  {
    d.entries[RemoteDirIndex(d, name)].content
  }

  // ---- locations ----

  /** The directory `a` is `at` or lies below it. */
  predicate Under(a: seq<string>, at: seq<string>)
  {
    |at| <= |a| && a[..|at|] == at
  }

  /** What lies below a child of `at` lies below `at`, under that child. */
  lemma UnderChild(at: seq<string>, x: string)
    ensures Under(at, at)
    ensures forall a :: Under(a, at + [x]) ==> Under(a, at) && |a| > |at| && a[|at|] == x
  {
    assert at[..|at|] == at;
    forall a | Under(a, at + [x])
      ensures Under(a, at) && |a| > |at| && a[|at|] == x
    {
      assert a[..|at|] == a[..|at| + 1][..|at|];
    }
  }

  /** The entries `names` of the directory `at`. */
  function Located(at: seq<string>, names: seq<string>): (r: seq<(seq<string>, string)>)
    ensures forall p :: p in r <==> p.0 == at && p.1 in names
  {
    if names == [] then [] else [(at, names[0])] + Located(at, names[1..])
  }

  /** Files or directories, the two kinds of entries a listing names. */
  datatype Kind = Files | Dirs

  function Named(listing: Listing, kind: Kind): seq<string>
  {
    if kind == Files then listing.files else listing.dirs
  }

  /** The entries of kind `kind` the listings show in `d` and in the directories below it, each with its directory. */
  function RemoteTree(d: RemoteDir, at: seq<string>, kind: Kind): (r: seq<(seq<string>, string)>)
    ensures forall p :: p in r ==> Under(p.0, at)
    decreases d, 1
  {
    var listing := RemoteListing(d);
    UnderChild(at, "");
    Located(at, Named(listing, kind)) + RemoteTreeIn(d, listing.dirs, at, kind)
  }

  function RemoteTreeIn(d: RemoteDir, names: seq<string>, at: seq<string>, kind: Kind): (r: seq<(seq<string>, string)>)
    requires forall x :: x in names ==> x in RemoteListing(d).dirs
    ensures forall p :: p in r ==> Under(p.0, at) && |p.0| > |at| && p.0[|at|] in names
    decreases d, 0, |names|
  {
    if names == [] then []
    else
      var k := RemoteDirIndex(d, names[0]);
      UnderChild(at, names[0]);
      RemoteTree(d.entries[k].content, at + [names[0]], kind) + RemoteTreeIn(d, names[1..], at, kind)
  }

  /** The entries of kind `kind` in `l` and in the directories below it, each with its directory. */
  function LocalTree(l: LocalDir, at: seq<string>, kind: Kind): (r: seq<(seq<string>, string)>)
    ensures forall p :: p in r ==> Under(p.0, at)
    decreases l, 1
  {
    var listing := LocalListing(l.entries);
    UnderChild(at, "");
    Located(at, Named(listing, kind)) + LocalTreeIn(l, listing.dirs, at, kind)
  }

  function LocalTreeIn(l: LocalDir, names: seq<string>, at: seq<string>, kind: Kind): (r: seq<(seq<string>, string)>)
    requires forall x :: x in names ==> x in LocalListing(l.entries).dirs
    ensures forall p :: p in r ==> Under(p.0, at) && |p.0| > |at| && p.0[|at|] in names
    decreases l, 0, |names|
  {
    if names == [] then []
    else
      var k := LocalDirIndex(l, names[0]);
      UnderChild(at, names[0]);
      LocalTree(l.entries[k].content, at + [names[0]], kind) + LocalTreeIn(l, names[1..], at, kind)
  }

  // ---- clean_up ----

  /**
   * `clean_up`: raises `ArgumentError` unless the suffix to keep is given
   * and holds a capital letter, and otherwise cleans the target directory.
   */
  function CleanUp(target: RemoteDir, suffix: Option<string>, dryRun: bool): (r: Result<seq<Action>, string>)
    requires suffix.Some? ==> PlainSuffix(suffix.value)
    ensures r.Failure? <==> suffix.None? || forall k :: 0 <= k < |suffix.value| ==> !('A' <= suffix.value[k] <= 'Z')
  {
    if suffix.None? || !HasCapital(suffix.value) then Failure("please provide a suffix to keep")
    else Success(CleanUpFolder(target, [], suffix.value, dryRun))
  }

  /** The deletes `clean_up_folder` issues for the files of one listing. */
  function DeleteOld(files: seq<string>, at: seq<string>, suffix: string, dryRun: bool): (r: seq<Action>)
    ensures forall x :: x in r <==> !dryRun && x.Delete? && x.dir == at && x.name in files && IsOldRevision(x.name, suffix)
  {
    if files == [] then []
    else
      (if !dryRun && IsOldRevision(files[0], suffix) then [Delete(at, files[0])] else []) +
      DeleteOld(files[1..], at, suffix, dryRun)
  }

  /**
   * `clean_up_folder`: deletes the files of the listing that look like an
   * old revision (unless it is a dry run), then cleans each directory of
   * the listing in turn.
   */
  function CleanUpFolder(d: RemoteDir, at: seq<string>, suffix: string, dryRun: bool): (r: seq<Action>)
    ensures forall x :: x in r ==> x.Delete? && !dryRun
    decreases d, 1
  {
    var listing := RemoteListing(d);
    DeleteOld(listing.files, at, suffix, dryRun) + CleanUpDirs(d, listing.dirs, at, suffix, dryRun)
  }

  function CleanUpDirs(d: RemoteDir, names: seq<string>, at: seq<string>, suffix: string, dryRun: bool): (r: seq<Action>)
    requires forall x :: x in names ==> x in RemoteListing(d).dirs
    ensures forall x :: x in r ==> x.Delete? && !dryRun
    decreases d, 0, |names|
  {
    if names == [] then []
    else
      var k := RemoteDirIndex(d, names[0]);
      CleanUpFolder(d.entries[k].content, at + [names[0]], suffix, dryRun) + CleanUpDirs(d, names[1..], at, suffix, dryRun)
  }

  /**
   * The files deleted are exactly the files of the tree that look like an
   * old revision, and none in a dry run.
   */
  lemma {:induction false} CleanUpDeletes(d: RemoteDir, at: seq<string>, suffix: string, dryRun: bool, a: seq<string>, f: string)
    ensures Delete(a, f) in CleanUpFolder(d, at, suffix, dryRun) <==>
      !dryRun && (a, f) in RemoteTree(d, at, Files) && IsOldRevision(f, suffix)
    decreases d, 1
  {
    CleanUpDirsDeletes(d, RemoteListing(d).dirs, at, suffix, dryRun, a, f);
  }

  lemma {:induction false} CleanUpDirsDeletes(d: RemoteDir, names: seq<string>, at: seq<string>, suffix: string, dryRun: bool, a: seq<string>, f: string)
    requires forall x :: x in names ==> x in RemoteListing(d).dirs
    ensures Delete(a, f) in CleanUpDirs(d, names, at, suffix, dryRun) <==>
      !dryRun && (a, f) in RemoteTreeIn(d, names, at, Files) && IsOldRevision(f, suffix)
    decreases d, 0, |names|
  {
    if names != [] {
      var k := RemoteDirIndex(d, names[0]);
      CleanUpDeletes(d.entries[k].content, at + [names[0]], suffix, dryRun, a, f);
      CleanUpDirsDeletes(d, names[1..], at, suffix, dryRun, a, f);
    }
  }

  // ---- clean_up_with_manifest ----

  /** The path `ftp.pwd` reports after entering the directories `segs` from `pwd`. */
  function PathFrom(pwd: string, segs: seq<string>): string
    decreases |segs|
  {
    if segs == [] then pwd else PathFrom(Join(pwd, segs[0]), segs[1..])
  }

  /** The deletes `clean_up_folder_with_manifest` issues for the files of one listing. */
  function DeleteUnlisted(files: seq<string>, at: seq<string>, pwd: string, manifest: seq<string>, dryRun: bool): (r: seq<Action>)
    ensures forall x :: x in r <==> !dryRun && x.Delete? && x.dir == at && x.name in files && Join(pwd, x.name) !in manifest
  {
    if files == [] then []
    else
      (if !dryRun && Join(pwd, files[0]) !in manifest then [Delete(at, files[0])] else []) +
      DeleteUnlisted(files[1..], at, pwd, manifest, dryRun)
  }

  /**
   * `clean_up_folder_with_manifest`: deletes the files of the listing whose
   * full path, the server's working directory `pwd` joined with the name,
   * is not in the manifest (unless it is a dry run), then does the same in
   * each directory of the listing.
   */
  function CleanUpWithManifest(d: RemoteDir, at: seq<string>, pwd: string, manifest: seq<string>, dryRun: bool): (r: seq<Action>)
    ensures forall x :: x in r ==> x.Delete? && !dryRun
    decreases d, 1
  {
    var listing := RemoteListing(d);
    DeleteUnlisted(listing.files, at, pwd, manifest, dryRun) + ManifestDirs(d, listing.dirs, at, pwd, manifest, dryRun)
  }

  function ManifestDirs(d: RemoteDir, names: seq<string>, at: seq<string>, pwd: string, manifest: seq<string>, dryRun: bool): (r: seq<Action>)
    requires forall x :: x in names ==> x in RemoteListing(d).dirs
    ensures forall x :: x in r ==> x.Delete? && !dryRun
    decreases d, 0, |names|
  {
    if names == [] then []
    else
      var k := RemoteDirIndex(d, names[0]);
      CleanUpWithManifest(d.entries[k].content, at + [names[0]], Join(pwd, names[0]), manifest, dryRun) +
      ManifestDirs(d, names[1..], at, pwd, manifest, dryRun)
  }

  /**
   * The files deleted are exactly the files of the tree whose full path is
   * not in the manifest, and none in a dry run.
   */
  lemma {:induction false} ManifestDeletes(d: RemoteDir, at: seq<string>, pwd: string, manifest: seq<string>, dryRun: bool, a: seq<string>, f: string)
    ensures Delete(a, f) in CleanUpWithManifest(d, at, pwd, manifest, dryRun) <==>
      !dryRun && (a, f) in RemoteTree(d, at, Files) && Join(PathFrom(pwd, a[|at|..]), f) !in manifest
    decreases d, 1
  {
    ManifestDirsDeletes(d, RemoteListing(d).dirs, at, pwd, manifest, dryRun, a, f);
    if a == at {
      assert a[|at|..] == [];
    }
  }

  lemma {:induction false} ManifestDirsDeletes(d: RemoteDir, names: seq<string>, at: seq<string>, pwd: string, manifest: seq<string>, dryRun: bool, a: seq<string>, f: string)
    requires forall x :: x in names ==> x in RemoteListing(d).dirs
    ensures Delete(a, f) in ManifestDirs(d, names, at, pwd, manifest, dryRun) <==>
      !dryRun && (a, f) in RemoteTreeIn(d, names, at, Files) && Join(PathFrom(pwd, a[|at|..]), f) !in manifest
    decreases d, 0, |names|
  {
    if names != [] {
      var x := names[0];
      var k := RemoteDirIndex(d, x);
      ManifestDeletes(d.entries[k].content, at + [x], Join(pwd, x), manifest, dryRun, a, f);
      ManifestDirsDeletes(d, names[1..], at, pwd, manifest, dryRun, a, f);
      UnderChild(at, x);
      if Under(a, at + [x]) {
        PathFromChild(pwd, at, x, a);
      }
    }
  }

  /** Entering the child `x` of `at` first, then the rest, reaches the same path. */
  lemma PathFromChild(pwd: string, at: seq<string>, x: string, a: seq<string>)
    requires Under(a, at + [x])
    ensures |at| < |a| && PathFrom(pwd, a[|at|..]) == PathFrom(Join(pwd, x), a[|at| + 1..])
  {
    UnderChild(at, x);
    assert a[|at|..][0] == x && a[|at|..][1..] == a[|at| + 1..];
  }

  // ---- sync_folder ----

  /** `upload_file` for each of `names`, in order, in the directory `at`. */
  function PutAll(names: seq<string>, at: seq<string>): (r: seq<Action>)
    ensures |r| == |names| && forall k :: 0 <= k < |names| ==> r[k] == Upload(at, names[k])
    ensures forall x :: x in r <==> x.Upload? && x.dir == at && x.name in names
  {
    if names == [] then [] else [Upload(at, names[0])] + PutAll(names[1..], at)
  }

  /**
   * `upload_folder`: makes the directory `name` in `at`, uploads its
   * directories one by one, then puts its files.
   */
  function UploadFolder(l: LocalDir, at: seq<string>, name: string): (r: seq<Action>)
    ensures forall x :: x in r ==> !x.Delete? && Under(x.dir, at)
    ensures forall x :: x in r && x.Upload? ==> |x.dir| > |at| && x.dir[|at|] == name
    decreases l, 1
  {
    var listing := LocalListing(l.entries);
    UnderChild(at, name);
    [MakeDir(at, name)] + UploadDirs(l, listing.dirs, at + [name]) + PutAll(listing.files, at + [name])
  }

  function UploadDirs(l: LocalDir, names: seq<string>, at: seq<string>): (r: seq<Action>)
    requires forall x :: x in names ==> x in LocalListing(l.entries).dirs
    ensures forall x :: x in r ==> !x.Delete? && Under(x.dir, at)
    ensures forall x :: x in r && x.Upload? ==> |x.dir| > |at| && x.dir[|at|] in names
    decreases l, 0, |names|
  {
    if names == [] then []
    else
      var k := LocalDirIndex(l, names[0]);
      UploadFolder(l.entries[k].content, at, names[0]) + UploadDirs(l, names[1..], at)
  }

  /**
   * `sync_folder`: puts the local files the remote listing lacks, uploads
   * the local directories it lacks, and syncs the directories both have.
   */
  function SyncFolder(l: LocalDir, d: RemoteDir, at: seq<string>): (r: seq<Action>)
    ensures forall x :: x in r ==> !x.Delete? && Under(x.dir, at)
    decreases l, 1
  {
    var local := LocalListing(l.entries);
    var remote := RemoteListing(d);
    var newDirs := Minus(local.dirs, remote.dirs);
    var newFiles := Minus(local.files, remote.files);
    var existingDirs := Minus(local.dirs, newDirs);
    UnderChild(at, "");
    PutAll(newFiles, at) + UploadDirs(l, newDirs, at) + SyncDirs(l, d, existingDirs, at)
  }

  function SyncDirs(l: LocalDir, d: RemoteDir, names: seq<string>, at: seq<string>): (r: seq<Action>)
    requires forall x :: x in names ==> x in LocalListing(l.entries).dirs && x in RemoteListing(d).dirs
    ensures forall x :: x in r ==> !x.Delete? && Under(x.dir, at) && |x.dir| > |at| && x.dir[|at|] in names
    decreases l, 0, |names|
  {
    if names == [] then []
    else
      var x := names[0];
      var k := LocalDirIndex(l, x);
      var j := RemoteDirIndex(d, x);
      UnderChild(at, x);
      SyncFolder(l.entries[k].content, d.entries[j].content, at + [x]) + SyncDirs(l, d, names[1..], at)
  }

  /** An uploaded folder puts exactly the files of the local tree below it. */
  lemma {:induction false} UploadPuts(l: LocalDir, at: seq<string>, name: string, a: seq<string>, f: string)
    ensures Upload(a, f) in UploadFolder(l, at, name) <==> (a, f) in LocalTree(l, at + [name], Files)
    decreases l, 1
  {
    UploadDirsPuts(l, LocalListing(l.entries).dirs, at + [name], a, f);
  }

  lemma {:induction false} UploadDirsPuts(l: LocalDir, names: seq<string>, at: seq<string>, a: seq<string>, f: string)
    requires forall x :: x in names ==> x in LocalListing(l.entries).dirs
    ensures Upload(a, f) in UploadDirs(l, names, at) <==> (a, f) in LocalTreeIn(l, names, at, Files)
    decreases l, 0, |names|
  {
    if names != [] {
      var k := LocalDirIndex(l, names[0]);
      UploadPuts(l.entries[k].content, at, names[0], a, f);
      UploadDirsPuts(l, names[1..], at, a, f);
    }
  }

  /** An entry below `at` is in the local directories `names` when it is below the one its path enters. */
  lemma {:induction false} LocalTreeInByName(l: LocalDir, names: seq<string>, at: seq<string>, kind: Kind, a: seq<string>, f: string)
    requires forall x :: x in names ==> x in LocalListing(l.entries).dirs
    requires Under(a, at) && |a| > |at|
    ensures (a, f) in LocalTreeIn(l, names, at, kind) <==>
      a[|at|] in names && (a, f) in LocalTree(LocalSub(l, a[|at|]), at + [a[|at|]], kind)
    decreases |names|
  {
    if names != [] {
      UnderChild(at, names[0]);
      LocalTreeInByName(l, names[1..], at, kind, a, f);
    }
  }

  /** An entry below `at` is in the remote directories `names` when it is below the one its path enters. */
  lemma {:induction false} RemoteTreeInByName(d: RemoteDir, names: seq<string>, at: seq<string>, kind: Kind, a: seq<string>, f: string)
    requires forall x :: x in names ==> x in RemoteListing(d).dirs
    requires Under(a, at) && |a| > |at|
    ensures (a, f) in RemoteTreeIn(d, names, at, kind) <==>
      a[|at|] in names && (a, f) in RemoteTree(RemoteSub(d, a[|at|]), at + [a[|at|]], kind)
    decreases |names|
  {
    if names != [] {
      UnderChild(at, names[0]);
      RemoteTreeInByName(d, names[1..], at, kind, a, f);
    }
  }

  /** A command below `at` comes from syncing the directory its path enters. */
  lemma {:induction false} SyncDirsByName(l: LocalDir, d: RemoteDir, names: seq<string>, at: seq<string>, act: Action)
    requires forall x :: x in names ==> x in LocalListing(l.entries).dirs && x in RemoteListing(d).dirs
    requires Under(act.dir, at) && |act.dir| > |at|
    ensures act in SyncDirs(l, d, names, at) <==>
      act.dir[|at|] in names && act in SyncFolder(LocalSub(l, act.dir[|at|]), RemoteSub(d, act.dir[|at|]), at + [act.dir[|at|]])
    decreases |names|
  {
    if names != [] {
      UnderChild(at, names[0]);
      SyncDirsByName(l, d, names[1..], at, act);
    }
  }

  /**
   * A sync puts exactly the files of the local tree that the remote tree
   * does not have at the same place.
   */
  lemma {:induction false} SyncPuts(l: LocalDir, d: RemoteDir, at: seq<string>, a: seq<string>, f: string)
    ensures Upload(a, f) in SyncFolder(l, d, at) <==> (a, f) in LocalTree(l, at, Files) && (a, f) !in RemoteTree(d, at, Files)
    decreases l, 1
  {
    var local := LocalListing(l.entries);
    var remote := RemoteListing(d);
    var newDirs := Minus(local.dirs, remote.dirs);
    var existingDirs := Minus(local.dirs, newDirs);
    UploadDirsPuts(l, newDirs, at, a, f);
    if Under(a, at) && |a| > |at| {
      var x := a[|at|];
      LocalTreeInByName(l, local.dirs, at, Files, a, f);
      LocalTreeInByName(l, newDirs, at, Files, a, f);
      RemoteTreeInByName(d, remote.dirs, at, Files, a, f);
      SyncDirsByName(l, d, existingDirs, at, Upload(a, f));
      if x in existingDirs {
        var k := LocalDirIndex(l, x);
        SyncPuts(l.entries[k].content, RemoteSub(d, x), at + [x], a, f);
      }
    }
  }

  /** An uploaded folder makes itself and exactly the directories of the local tree below it. */
  lemma {:induction false} UploadMakesDirs(l: LocalDir, at: seq<string>, name: string, a: seq<string>, n: string)
    ensures MakeDir(a, n) in UploadFolder(l, at, name) <==> (a == at && n == name) || (a, n) in LocalTree(l, at + [name], Dirs)
    decreases l, 1
  {
    UploadDirsMakeDirs(l, LocalListing(l.entries).dirs, at + [name], a, n);
    UnderChild(at, name);
  }

  lemma {:induction false} UploadDirsMakeDirs(l: LocalDir, names: seq<string>, at: seq<string>, a: seq<string>, n: string)
    requires forall x :: x in names ==> x in LocalListing(l.entries).dirs
    ensures MakeDir(a, n) in UploadDirs(l, names, at) <==> (a == at && n in names) || (a, n) in LocalTreeIn(l, names, at, Dirs)
    decreases l, 0, |names|
  {
    if names != [] {
      var k := LocalDirIndex(l, names[0]);
      UploadMakesDirs(l.entries[k].content, at, names[0], a, n);
      UploadDirsMakeDirs(l, names[1..], at, a, n);
    }
  }

  /**
   * A sync makes exactly the directories of the local tree that the remote
   * tree does not have at the same place.
   */
  lemma {:induction false} SyncMakesDirs(l: LocalDir, d: RemoteDir, at: seq<string>, a: seq<string>, n: string)
    ensures MakeDir(a, n) in SyncFolder(l, d, at) <==> (a, n) in LocalTree(l, at, Dirs) && (a, n) !in RemoteTree(d, at, Dirs)
    decreases l, 1
  {
    var local := LocalListing(l.entries);
    var remote := RemoteListing(d);
    var newDirs := Minus(local.dirs, remote.dirs);
    var existingDirs := Minus(local.dirs, newDirs);
    UploadDirsMakeDirs(l, newDirs, at, a, n);
    if Under(a, at) && |a| > |at| {
      var x := a[|at|];
      LocalTreeInByName(l, local.dirs, at, Dirs, a, n);
      LocalTreeInByName(l, newDirs, at, Dirs, a, n);
      RemoteTreeInByName(d, remote.dirs, at, Dirs, a, n);
      SyncDirsByName(l, d, existingDirs, at, MakeDir(a, n));
      if x in existingDirs {
        var k := LocalDirIndex(l, x);
        SyncMakesDirs(l.entries[k].content, RemoteSub(d, x), at + [x], a, n);
      }
    }
  }
}
