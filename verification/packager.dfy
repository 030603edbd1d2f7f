/**
 * `Bagger::Packager`: copies the assets of a source directory to a target
 * directory under revisioned names, records for every file its new url and
 * size in the file-info table, and, when a combined stylesheet is
 * configured, renames it after its digest and records it too.
 */
module BaggerPackager {
  import opened Wrappers
  import opened Strings
  import opened RubyPath
  import opened CssUrlChanger
  import opened AssetFileList

  // ---- Ruby hashes, which keep their keys in insertion order ----

  type Table<V> = seq<(string, V)>

  function Keys<V>(h: Table<V>): (r: seq<string>)
    ensures |r| == |h|
    ensures forall k :: 0 <= k < |h| ==> r[k] == h[k].0
  {
    if h == [] then [] else [h[0].0] + Keys(h[1..])
  }

  /** `h[key]`. */
  function Get<V>(h: Table<V>, key: string): (r: Option<V>)
    ensures r.Some? <==> key in Keys(h)
  {
    if h == [] then None
    else if h[0].0 == key then Some(h[0].1)
    else Get(h[1..], key)
  }

  /** `h[key] = v`: an existing key keeps its place, a new key goes last. */
  function Put<V>(h: Table<V>, key: string, v: V): Table<V>
  {
    if h == [] then [(key, v)]
    else if h[0].0 == key then [(key, v)] + h[1..]
    else [h[0]] + Put(h[1..], key, v)
  }

  predicate DistinctKeys<V>(h: Table<V>)
  {
    forall i, j :: 0 <= i < j < |h| ==> h[i].0 != h[j].0
  }

  /** The hash as a map from its keys to their values. */
  function AsMap<V>(h: Table<V>): (m: map<string, V>)
    ensures forall key :: key in m <==> Get(h, key).Some?
    ensures forall key :: key in m ==> m[key] == Get(h, key).value
  {
    if h == [] then map[] else AsMap(h[1..])[h[0].0 := h[0].1]
  }

  /** Storing a value: it is found under its key, every other key is unaffected. */
  lemma {:induction false} PutGet<V>(h: Table<V>, key: string, v: V)
    ensures Get(Put(h, key, v), key) == Some(v)
    ensures forall other :: other != key ==> Get(Put(h, key, v), other) == Get(h, other)
  {
    if h != [] && h[0].0 != key {
      PutGet(h[1..], key, v);
      assert Put(h, key, v)[1..] == Put(h[1..], key, v);
    } else if h != [] {
      assert Put(h, key, v)[1..] == h[1..];
    }
  }

  /** A stored key keeps its place; a new key goes last. */
  lemma {:induction false} PutKeys<V>(h: Table<V>, key: string, v: V)
    ensures Keys(Put(h, key, v)) == if key in Keys(h) then Keys(h) else Keys(h) + [key]
  {
    if h != [] && h[0].0 != key {
      var rest := Keys(h[1..]);
      assert Keys(h) == [h[0].0] + rest;
      KeysCons(h[0], Put(h[1..], key, v));
      PutKeys(h[1..], key, v);
      if key !in rest {
        ConcatAssoc([h[0].0], rest, [key]);
      }
    } else if h != [] {
      KeysCons((key, v), h[1..]);
    }
  }

  /** The keys of a hash with one more row in front. */
  lemma KeysCons<V>(row: (string, V), h: Table<V>)
    ensures Keys([row] + h) == [row.0] + Keys(h)
  {
    assert ([row] + h)[1..] == h;
  }

  /** Storing a value keeps the keys distinct. */
  lemma PutDistinct<V>(h: Table<V>, key: string, v: V)
    requires DistinctKeys(h)
    ensures DistinctKeys(Put(h, key, v))
  {
    PutKeys(h, key, v);
    var r := Put(h, key, v);
    var ks := Keys(h);
    if key !in ks {
      forall i, j | 0 <= i < j < |r| ensures r[i].0 != r[j].0 {
        assert Keys(r)[i] == r[i].0 && Keys(r)[j] == r[j].0;
        if j < |h| {
          assert r[i].0 == ks[i] == h[i].0;
        }
      }
    } else {
      forall i, j | 0 <= i < j < |r| ensures r[i].0 != r[j].0 {
        assert Keys(r)[i] == r[i].0 && Keys(r)[j] == r[j].0;
      }
    }
  }

  // ---- revision and digest naming ----

  /** One row of the file-info table: the `:url` and `:size_in_bytes` of a file. */
  datatype FileInfo = FileInfo(url: string, sizeInBytes: nat)

  /** The revision part of a versioned extension: "." + revision, or nothing. */
  function RevisionTag(revision: Option<string>): string
  {
    match revision
    case Some(rev) => "." + rev
    case None => ""
  }

  /**
   * `versioned_extension_for_file`: "." + revision + suffix + extension, or
   * suffix + extension when the file has no revision.
   */
  function VersionedExtension(file: string, revision: Option<string>, suffix: string): string
  {
    RevisionTag(revision) + suffix + ExtName(file)
  }

  /**
   * `file_with_revision`: the first occurrence of the extension in the path
   * is replaced by the versioned extension, whose backslash escapes `sub`
   * reads; a path without extension gets the versioned extension appended.
   */
  function FileWithRevision(file: string, revision: Option<string>, suffix: string): string
  {
    var ext := ExtName(file);
    if ext != "" then Sub(file, ext, VersionedExtension(file, revision, suffix))
    else file + VersionedExtension(file, revision, suffix)
  }

  /** `s[0, n]`: at most the first `n` characters. */
  function Prefix(s: string, n: nat): (r: string)
    ensures |r| == if |s| <= n then |s| else n
    ensures r == s[..|r|]
  {
    if |s| <= n then s else s[..n]
  }

  /**
   * `append_digest_to_combined_css_file_name` (the name only): the combined
   * file, in its directory below the target, renamed to
   * `<basename without ".css">.<first 8 digest characters>.css`.
   */
  function DigestedCssPath(targetDir: string, cssPath: string, digest: string): string
  {
    Join(DirName(Join(targetDir, cssPath)), BaseNameWithout(cssPath, ".css") + "." + Prefix(digest, 8) + ".css")
  }

  /**
   * The url of the combined stylesheet in `update_file_info_for_combined_css`:
   * the directory of the configured path, normalised against "/" and
   * without its leading slash, joined with the new file name.
   */
  function CombinedCssUrl(cssPath: string, fileName: string): string
    requires !IsHomeRelative(cssPath)
  {
    Join(DirName(ExpandPath(cssPath, "/", "/"))[1..], fileName)
  }

  // ---- the tables ----

  /** The table the `package` loop builds: one row per file, in order. */
  function BuildTable(files: seq<string>, infoOf: string -> FileInfo): Table<FileInfo>
  {
    if files == [] then []
    else Put(BuildTable(files[..|files| - 1], infoOf), files[|files| - 1], infoOf(files[|files| - 1]))
  }

  /**
   * `process_combined_css`'s map: every row re-keyed by the target directory
   * joined with its path, and holding only the url.
   */
  function RewriterTable(targetDir: string, h: Table<FileInfo>): Table<UrlInfo>
  {
    if h == [] then []
    else
      var last := h[|h| - 1];
      Put(RewriterTable(targetDir, h[..|h| - 1]), Join(targetDir, last.0), UrlInfo(Some(last.1.url)))
  }

  /** One more file is one more row stored. */
  lemma BuildTableStep(files: seq<string>, n: nat, infoOf: string -> FileInfo)
    requires n < |files|
    ensures BuildTable(files[..n + 1], infoOf) == Put(BuildTable(files[..n], infoOf), files[n], infoOf(files[n]))
  {
    assert files[..n + 1][..n] == files[..n];
  }

  /** Paths below the target directory: `File.join(target_dir, p)` for each. */
  function TargetPaths(targetDir: string, dirs: seq<string>): (r: seq<string>)
    ensures |r| == |dirs|
    ensures forall k :: 0 <= k < |dirs| ==> r[k] == Join(targetDir, dirs[k])
  {
    if dirs == [] then [] else [Join(targetDir, dirs[0])] + TargetPaths(targetDir, dirs[1..])
  }

  class Packager {
    const sourceDir: string
    const targetDir: string
    /** `options[:revision_suffix] || ''`. */
    const revisionSuffix: string
    /** `options[:css_packager_options][:combined_css_file_path]`, when both are given. */
    const combinedCssPath: Option<string>
    const assets: FileList
    /** `@file_info`. */
    var fileInfo: Table<FileInfo>

    ghost predicate Valid()
      reads this, assets
    {
      assets.Valid() && DistinctKeys(fileInfo)
    }

    constructor(sourceDir: string, targetDir: string, excludes: Option<string -> bool>, entries: seq<Entry>,
                revisionSuffix: Option<string>, combinedCssPath: Option<string>)
      ensures this.sourceDir == sourceDir && this.targetDir == targetDir
      ensures this.revisionSuffix == revisionSuffix.GetOr("") && this.combinedCssPath == combinedCssPath
      ensures fresh(assets) && assets.entries == entries && assets.excludes == excludes && assets.list.None?
      ensures fileInfo == [] && Valid()
    {
      this.sourceDir := sourceDir;
      this.targetDir := targetDir;
      this.revisionSuffix := revisionSuffix.GetOr("");
      this.combinedCssPath := combinedCssPath;
      assets := new FileList(sourceDir, excludes, entries);
      fileInfo := [];
    }

    /** The revisioned name of `file`; `revisionOf` is the revision control's answer for a path. */
    function TargetFile(file: string, revisionOf: string -> Option<string>): string
    {
      FileWithRevision(file, revisionOf(Join(sourceDir, file)), revisionSuffix)
    }

    /** `file_info_hash(target_file, File.join(@target_dir, target_file))`; `sizeOf` is `File.size`. */
    function InfoFor(file: string, revisionOf: string -> Option<string>, sizeOf: string -> nat): FileInfo
    {
      FileInfo(TargetFile(file, revisionOf), sizeOf(Join(targetDir, TargetFile(file, revisionOf))))
    }

    /** The row `package` records for `file`, as a function of the path. */
    function InfoOf(revisionOf: string -> Option<string>, sizeOf: string -> nat): string -> FileInfo
    {
      f => InfoFor(f, revisionOf, sizeOf)
    }

    /** `copy_file_to_target(file, target_file)`: from the source path to the revisioned target path. */
    function CopyOf(file: string, revisionOf: string -> Option<string>): (string, string)
    {
      (Join(sourceDir, file), Join(targetDir, TargetFile(file, revisionOf)))
    }

    /** The copies `package` makes, one per file, in order. */
    function Copies(files: seq<string>, revisionOf: string -> Option<string>): (r: seq<(string, string)>)
      ensures |r| == |files|
    {
      if files == [] then []
      else Copies(files[..|files| - 1], revisionOf) + [CopyOf(files[|files| - 1], revisionOf)]
    }

    /**
     * `package`: creates the directories, copies every file under its
     * revisioned name while filling `@file_info`, then combines the
     * stylesheets when a combined file is configured. Returns the directories
     * created, the copies made and the map handed to the url rewriter.
     * `combinedDigest` is the MD5 hex digest of the combined file.
     */
    method Package(revisionOf: string -> Option<string>, sizeOf: string -> nat, combinedDigest: string)
      returns (mkdirs: seq<string>, copies: seq<(string, string)>, rewriterMap: Option<UrlMap>)
      requires Valid()
      requires combinedCssPath.Some? ==> !IsHomeRelative(combinedCssPath.value)
      modifies this, assets
      ensures Valid()
      ensures assets.calculations == old(assets.calculations) + (if old(assets.list).None? then 1 else 0)
      ensures mkdirs == TargetPaths(targetDir, Selected(assets.entries, assets.excludes, DirectoryEntry))
      ensures copies == Copies(Selected(assets.entries, assets.excludes, FileEntry), revisionOf)
      ensures var table := BuildTable(Selected(assets.entries, assets.excludes, FileEntry), InfoOf(revisionOf, sizeOf));
        match combinedCssPath
        case None => fileInfo == table && rewriterMap.None?
        case Some(cssPath) =>
          rewriterMap == Some(AsMap(RewriterTable(targetDir, table))) &&
          fileInfo == Put(table, cssPath, CombinedEntry(cssPath, combinedDigest, sizeOf))
    {
      var dirs := assets.Directories();
      mkdirs := TargetPaths(targetDir, dirs);
      var files := assets.Files();
      copies := CopyFiles(files, revisionOf, sizeOf);
      rewriterMap := None;
      if combinedCssPath.Some? {
        var rewriter := ProcessCombinedCss();
        rewriterMap := Some(AsMap(rewriter));
        var newFile := DigestedCssPath(targetDir, combinedCssPath.value, combinedDigest);
        UpdateFileInfoForCombinedCss(BaseName(newFile), newFile, sizeOf);
      }
    }

    /**
     * The loop of `package`: copies each file to its revisioned name and
     * records its row in a fresh `@file_info`.
     */
    method CopyFiles(files: seq<string>, revisionOf: string -> Option<string>, sizeOf: string -> nat)
      returns (copies: seq<(string, string)>)
      modifies this
      ensures fileInfo == BuildTable(files, InfoOf(revisionOf, sizeOf)) && DistinctKeys(fileInfo)
      ensures copies == Copies(files, revisionOf)
    {
      fileInfo := [];
      copies := [];
      var n := 0;
      while n < |files|
        invariant 0 <= n <= |files|
        invariant fileInfo == BuildTable(files[..n], InfoOf(revisionOf, sizeOf)) && DistinctKeys(fileInfo)
        invariant copies == Copies(files[..n], revisionOf)
      {
        var file := files[n];
        copies := copies + [CopyOf(file, revisionOf)];
        var info := InfoFor(file, revisionOf, sizeOf);
        PutDistinct(fileInfo, file, info);
        fileInfo := Put(fileInfo, file, info);
        BuildTableStep(files, n, InfoOf(revisionOf, sizeOf));
        CopiesStep(files, n, revisionOf);
        n := n + 1;
      }
      PrefixWhole(files);
    }

    /** One more file is one more copy. */
    lemma CopiesStep(files: seq<string>, n: nat, revisionOf: string -> Option<string>)
      requires n < |files|
      ensures Copies(files[..n + 1], revisionOf) == Copies(files[..n], revisionOf) + [CopyOf(files[n], revisionOf)]
    {
      assert files[..n + 1][..n] == files[..n];
    }

    /** The combined stylesheet's row, as `combine_css` records it. */
    function CombinedEntry(cssPath: string, digest: string, sizeOf: string -> nat): FileInfo
      requires !IsHomeRelative(cssPath)
    {
      var newFile := DigestedCssPath(targetDir, cssPath, digest);
      FileInfo(CombinedCssUrl(cssPath, BaseName(newFile)), sizeOf(newFile))
    }

    /** `process_combined_css`: the rewriter's map, built row by row from `@file_info`. */
    method ProcessCombinedCss() returns (r: Table<UrlInfo>)
      ensures r == RewriterTable(targetDir, fileInfo)
    {
      r := [];
      var n := 0;
      while n < |fileInfo|
        invariant 0 <= n <= |fileInfo|
        invariant r == RewriterTable(targetDir, fileInfo[..n])
      {
        var row := fileInfo[n];
        assert fileInfo[..n + 1][..n] == fileInfo[..n];
        r := Put(r, Join(targetDir, row.0), UrlInfo(Some(row.1.url)));
        n := n + 1;
      }
      assert fileInfo[..n] == fileInfo;
    }

    /**
     * `update_file_info_for_combined_css`: records the renamed combined
     * stylesheet under its configured path.
     */
    method UpdateFileInfoForCombinedCss(fileName: string, newFilePath: string, sizeOf: string -> nat)
      requires combinedCssPath.Some? && !IsHomeRelative(combinedCssPath.value)
      requires DistinctKeys(fileInfo)
      modifies this
      ensures fileInfo == Put(old(fileInfo), combinedCssPath.value,
                              FileInfo(CombinedCssUrl(combinedCssPath.value, fileName), sizeOf(newFilePath)))
      ensures DistinctKeys(fileInfo)
    {
      var cssPath := combinedCssPath.value;
      var info := FileInfo(CombinedCssUrl(cssPath, fileName), sizeOf(newFilePath));
      PutDistinct(fileInfo, cssPath, info);
      fileInfo := Put(fileInfo, cssPath, info);
    }
  }

  // ---- properties of the naming ----

  /** No part of the versioned extension holds a backslash that `sub` would read. */
  predicate NoEscapes(e: string, revision: Option<string>, suffix: string)
  {
    '\\' !in e && '\\' !in suffix && (revision.Some? ==> '\\' !in revision.value)
  }

  /** Then the versioned extension ".<rev><suffix>.e" holds no backslash either. */
  lemma NoEscapesVersioned(e: string, revision: Option<string>, suffix: string)
    requires NoEscapes(e, revision, suffix)
    ensures '\\' !in RevisionTag(revision) + suffix + ("." + e)
  {
  }

  /**
   * The revision goes right before the extension: "stem.e" becomes
   * "stem.<rev><suffix>.e", or "stem<suffix>.e" without a revision.
   */
  lemma RevisionBeforeExtension(stem: string, e: string, revision: Option<string>, suffix: string)
    requires stem != "" && '.' !in stem && '/' !in stem
    requires e != "" && '.' !in e && '/' !in e
    requires NoEscapes(e, revision, suffix)
    ensures FileWithRevision(stem + "." + e, revision, suffix) ==
      stem + RevisionTag(revision) + suffix + "." + e
  {
    var ext := "." + e;
    var tag := RevisionTag(revision);
    Regroup(stem, tag, suffix, e);
    ExtNameOfStemExt(stem, e);
    ExtensionOnlyAtEnd(stem, e);
    assert VersionedExtension(stem + ext, revision, suffix) == tag + suffix + ext;
    NoEscapesVersioned(e, revision, suffix);
    RevisionAtEnd(stem, ext, revision, suffix);
  }

  /** A stem without dots holds no earlier occurrence of "." + e. */
  lemma ExtensionOnlyAtEnd(stem: string, e: string)
    requires '.' !in stem
    ensures forall i :: 0 <= i < |stem| ==> !OccursAt(stem + ("." + e), "." + e, i)
  {
    var ext := "." + e;
    forall i | 0 <= i < |stem| ensures !OccursAt(stem + ext, ext, i) {
      assert (stem + ext)[i] == stem[i];
    }
  }

  /** The regroupings of the name's parts that the lemma above needs. */
  lemma Regroup(stem: string, tag: string, suffix: string, e: string)
    ensures stem + "." + e == stem + ("." + e)
    ensures stem + (tag + suffix + ("." + e)) == stem + tag + suffix + "." + e
  {
  }

  /** An extension found only at the end of the name is versioned there. */
  lemma RevisionAtEnd(stem: string, ext: string, revision: Option<string>, suffix: string)
    requires ext != "" && ExtName(stem + ext) == ext
    requires forall i :: 0 <= i < |stem| ==> !OccursAt(stem + ext, ext, i)
    requires '\\' !in VersionedExtension(stem + ext, revision, suffix)
    ensures FileWithRevision(stem + ext, revision, suffix) == stem + VersionedExtension(stem + ext, revision, suffix)
  {
    SubLiteral(stem + ext, ext, VersionedExtension(stem + ext, revision, suffix));
    ReplaceFirstAtEnd(stem, ext, VersionedExtension(stem + ext, revision, suffix));
  }

  /**
   * A path without a dot has no extension and gets ".<rev><suffix>"
   * appended: `some_file_without_extension` becomes
   * `some_file_without_extension.1956`.
   */
  lemma RevisionAppendedWithoutExtension(file: string, revision: Option<string>, suffix: string)
    requires '.' !in file
    ensures FileWithRevision(file, revision, suffix) == file + RevisionTag(revision) + suffix
  {
    var tag := RevisionTag(revision);
    assert tag + suffix + "" == tag + suffix;
    ExtNameWithoutDot(file);
    assert VersionedExtension(file, revision, suffix) == tag + suffix;
    ConcatAssoc(file, tag, suffix);
  }

  /**
   * In general the versioned extension, its escapes read, replaces the
   * FIRST occurrence of the extension text, which starts no later than the
   * extension itself.
   */
  lemma RevisionAtFirstOccurrence(file: string, revision: Option<string>, suffix: string) returns (j: nat)
    requires ExtName(file) != ""
    ensures j <= ExtNameStart(file).value
    ensures OccursAt(file, ExtName(file), j)
    ensures forall i :: 0 <= i < j ==> !OccursAt(file, ExtName(file), i)
    ensures var pre, post := file[..j], file[j + |ExtName(file)|..];
      FileWithRevision(file, revision, suffix) ==
      pre + SubExpand(VersionedExtension(file, revision, suffix), ExtName(file), pre, post) + post
  {
    j := SubBefore(file, ExtName(file), VersionedExtension(file, revision, suffix), ExtNameStart(file).value);
  }

  /**
   * So an extension text that also occurs earlier in the name is versioned
   * there: `a.js` + `t.js` becomes `a.<rev>.js` + `t.js` (so `a.jst.js`
   * becomes `a.1956.jst.js`), not `a.jst.1956.js`.
   */
  lemma EarlierOccurrenceVersioned(a: string, e: string, b: string, revision: Option<string>, suffix: string)
    requires a != "" && '.' !in a && '/' !in a
    requires e != "" && '.' !in e && '/' !in e
    requires '/' !in b
    requires NoEscapes(e, revision, suffix)
    ensures FileWithRevision(a + "." + e + b + "." + e, revision, suffix) ==
      a + RevisionTag(revision) + suffix + "." + e + b + "." + e
  {
    var ext := "." + e;
    var file := a + ext + (b + ext);
    var tag := RevisionTag(revision);
    RegroupTwice(a, tag, suffix, e, b);
    ExtNameRepeated(a, e, b);
    var v := VersionedExtension(file, revision, suffix);
    assert v == tag + suffix + ext;
    NoEscapesVersioned(e, revision, suffix);
    ExtensionFirstAfter(a, e, b + ext, v);
  }

  /** The extension of `a.e` + `b.e` is ".e". */
  lemma ExtNameRepeated(a: string, e: string, b: string)
    requires a != "" && '.' !in a && '/' !in a
    requires e != "" && '.' !in e && '/' !in e
    requires '/' !in b
    ensures ExtName(a + ("." + e) + (b + ("." + e))) == "." + e
  {
    var ext := "." + e;
    var stem := a + ext + b;
    assert a + ext + (b + ext) == stem + "." + e;
    forall k | 0 <= k < |stem| ensures stem[k] != '/' {
      if k < |a| {
        assert stem[k] == a[k];
      } else if k < |a| + |ext| {
        assert stem[k] == ext[k - |a|];
      } else {
        assert stem[k] == b[k - |a| - |ext|];
      }
    }
    assert stem[0] == a[0];
    ExtNameOfStemExt(stem, e);
  }

  /**
   * With a dot-free `a`, the first ".e" of `a + ".e" + rest` is right after
   * `a`, and a backslash-free `v` replaces it there.
   */
  lemma ExtensionFirstAfter(a: string, e: string, rest: string, v: string)
    requires '.' !in a && '\\' !in v
    ensures Sub(a + ("." + e) + rest, "." + e, v) == a + v + rest
  {
    var ext := "." + e;
    var file := a + ext + rest;
    forall i | 0 <= i < |a| ensures !OccursAt(file, ext, i) {
      assert file[i] == a[i];
    }
    assert file[|a|..|a| + |ext|] == ext;
    ReplaceFirstAt(file, ext, v, |a|);
    assert file[..|a|] == a && file[|a| + |ext|..] == rest;
    SubLiteral(file, ext, v);
  }

  /** The regroupings of the name's parts that the lemma above needs. */
  lemma RegroupTwice(a: string, tag: string, suffix: string, e: string, b: string)
    ensures a + "." + e + b + "." + e == a + ("." + e) + (b + ("." + e))
    ensures a + (tag + suffix + ("." + e)) + (b + ("." + e)) == a + tag + suffix + "." + e + b + "." + e
  {
  }

  /**
   * Without a revision and with an empty suffix every name whose extension
   * holds no backslash is kept.
   */
  lemma NoRevisionNoSuffixUnchanged(file: string)
    requires '\\' !in ExtName(file)
    ensures FileWithRevision(file, None, "") == file
  {
    var ext := ExtName(file);
    assert VersionedExtension(file, None, "") == ext;
    SubLiteral(file, ext, ext);
    ReplaceFirstSame(file, ext);
  }

  /**
   * A backslash escape in the suffix is read by `sub`: with the suffix
   * `\0`, which stands for the matched text, "stem.e" at a revision becomes
   * "stem.<rev>.e.e" ("bar.png" at 1956 becomes "bar.1956.png.png").
   */
  lemma MatchEscapeRepeatsExtension(stem: string, e: string, rev: string)
    requires stem != "" && '.' !in stem && '/' !in stem
    requires e != "" && '.' !in e && '/' !in e && '\\' !in e
    requires '\\' !in rev
    ensures FileWithRevision(stem + "." + e, Some(rev), "\\0") == stem + "." + rev + "." + e + "." + e
  {
    var ext := "." + e;
    var tag := "." + rev;
    assert stem + "." + e == stem + ext;
    assert stem + "." + rev + "." + e + "." + e == stem + (tag + (ext + ext));
    assert tag + "\\0" + ext == tag + ("\\0" + ext);
    ExtNameOfStemExt(stem, e);
    ExtensionOnlyAtEnd(stem, e);
    assert VersionedExtension(stem + ext, Some(rev), "\\0") == tag + ("\\0" + ext);
    SubAtEnd(stem, ext, tag + ("\\0" + ext));
    MatchEscapeExpands(tag, ext, stem, []);
  }

  /** The digested name is `<basename without ".css">.<first 8 digest characters>.css`. */
  lemma DigestedCssName(targetDir: string, cssPath: string, digest: string)
    requires '/' !in BaseNameWithout(cssPath, ".css") && '/' !in digest
    ensures BaseName(DigestedCssPath(targetDir, cssPath, digest)) ==
      BaseNameWithout(cssPath, ".css") + "." + Prefix(digest, 8) + ".css"
  {
    var name := BaseNameWithout(cssPath, ".css") + "." + Prefix(digest, 8) + ".css";
    DigestedNameHasNoSlash(BaseNameWithout(cssPath, ".css"), digest);
    BaseNameOfJoin(DirName(Join(targetDir, cssPath)), name);
  }

  /** The digested file name is a single path component. */
  lemma DigestedNameHasNoSlash(b: string, digest: string)
    requires '/' !in b && '/' !in digest
    ensures '/' !in b + "." + Prefix(digest, 8) + ".css"
  {
    var d := Prefix(digest, 8);
    SlashFreePrefix(digest, |d|);
    assert b + "." + d + ".css" == b + ("." + d + ".css");
  }

  /** A prefix of a string without a slash has no slash. */
  lemma SlashFreePrefix(s: string, n: nat)
    requires '/' !in s && n <= |s|
    ensures '/' !in s[..n]
  {
    forall k | 0 <= k < n ensures s[..n][k] != '/' {
      assert s[..n][k] == s[k];
    }
  }

  // ---- properties of the tables ----

  /** The keys of a hash grown by one row at the end. */
  lemma KeysSnoc<V>(h: Table<V>, row: (string, V))
    ensures Keys(h + [row]) == Keys(h) + [row.0]
  {
    var r := Keys(h + [row]);
    assert |r| == |Keys(h) + [row.0]|;
    forall k | 0 <= k < |r| ensures r[k] == (Keys(h) + [row.0])[k] {
      assert (h + [row])[k].0 == r[k];
    }
  }

  /** Target paths of a list grown by one path at the end. */
  lemma TargetPathsSnoc(targetDir: string, paths: seq<string>, p: string)
    ensures TargetPaths(targetDir, paths + [p]) == TargetPaths(targetDir, paths) + [Join(targetDir, p)]
  {
    var r := TargetPaths(targetDir, paths + [p]);
    assert |r| == |TargetPaths(targetDir, paths) + [Join(targetDir, p)]|;
    forall k | 0 <= k < |r| ensures r[k] == (TargetPaths(targetDir, paths) + [Join(targetDir, p)])[k] {
      assert (paths + [p])[k] == if k < |paths| then paths[k] else p;
    }
  }

  /**
   * After the loop of `package`, `@file_info[f]` is the row of `f` for
   * every packaged file `f`, and nothing else has a row.
   */
  lemma {:induction false} BuildTableGet(files: seq<string>, infoOf: string -> FileInfo, f: string)
    ensures Get(BuildTable(files, infoOf), f) == if f in files then Some(infoOf(f)) else None
  {
    if files != [] {
      var init := files[..|files| - 1];
      var last := files[|files| - 1];
      var before := BuildTable(init, infoOf);
      assert BuildTable(files, infoOf) == Put(before, last, infoOf(last));
      assert f in files <==> f in init || f == last by {
        assert files == init + [last];
      }
      BuildTableGet(init, infoOf, f);
      PutGet(before, last, infoOf(last));
    }
  }

  /** The rows are in file order, one per file, when the files are distinct. */
  lemma {:induction false} BuildTableKeys(files: seq<string>, infoOf: string -> FileInfo)
    requires forall i, j :: 0 <= i < j < |files| ==> files[i] != files[j]
    ensures Keys(BuildTable(files, infoOf)) == files
  {
    if files != [] {
      var init := files[..|files| - 1];
      var last := files[|files| - 1];
      assert files == init + [last];
      assert forall i, j :: 0 <= i < j < |init| ==> init[i] != init[j] by {
        forall i, j | 0 <= i < j < |init| ensures init[i] != init[j] {
          assert init[i] == files[i] && init[j] == files[j];
        }
      }
      BuildTableKeys(init, infoOf);
      assert last !in init by {
        forall k | 0 <= k < |init| ensures init[k] != last {
          assert init[k] == files[k];
        }
      }
      PutKeys(BuildTable(init, infoOf), last, infoOf(last));
    }
  }

  /**
   * `process_combined_css` keys every row by its path below the target
   * directory, in the order of `@file_info`, one row each.
   */
  lemma {:induction false} RewriterKeys(targetDir: string, h: Table<FileInfo>)
    requires DistinctKeys(h)
    requires forall i :: 0 <= i < |h| ==> !IsAbsolute(h[i].0)
    ensures Keys(RewriterTable(targetDir, h)) == TargetPaths(targetDir, Keys(h))
  {
    if h != [] {
      var init := h[..|h| - 1];
      var last := h[|h| - 1];
      var key := Join(targetDir, last.0);
      InitKeeps(h, init);
      RewriterKeys(targetDir, init);
      var before := RewriterTable(targetDir, init);
      assert RewriterTable(targetDir, h) == Put(before, key, UrlInfo(Some(last.1.url)));
      NewTargetKey(targetDir, h);
      PutKeys(before, key, UrlInfo(Some(last.1.url)));
      assert Keys(RewriterTable(targetDir, h)) == TargetPaths(targetDir, Keys(init)) + [key];
      KeysInit(h);
      TargetPathsSnoc(targetDir, Keys(init), last.0);
    }
  }

  /** The keys of a hash are those of all rows but the last, then the last key. */
  lemma KeysInit<V>(h: Table<V>)
    requires h != []
    ensures Keys(h) == Keys(h[..|h| - 1]) + [h[|h| - 1].0]
  {
    var init := h[..|h| - 1];
    var r := Keys(init) + [h[|h| - 1].0];
    assert |Keys(h)| == |r|;
    assert forall k :: 0 <= k < |h| ==> Keys(h)[k] == r[k] by {
      forall k | 0 <= k < |h| ensures Keys(h)[k] == r[k] {
        if k < |init| {
          assert init[k] == h[k];
        }
      }
    }
  }

  /** The rows before the last keep distinct, relative keys. */
  lemma InitKeeps(h: Table<FileInfo>, init: Table<FileInfo>)
    requires h != [] && init == h[..|h| - 1] && DistinctKeys(h)
    requires forall i :: 0 <= i < |h| ==> !IsAbsolute(h[i].0)
    ensures DistinctKeys(init)
    ensures forall i :: 0 <= i < |init| ==> !IsAbsolute(init[i].0)
  {
    forall i, j | 0 <= i < j < |init| ensures init[i].0 != init[j].0 {
      assert init[i] == h[i] && init[j] == h[j];
    }
    forall i | 0 <= i < |init| ensures !IsAbsolute(init[i].0) {
      assert init[i] == h[i];
    }
  }

  /** The target path of the last row is not the target path of an earlier one. */
  lemma NewTargetKey(targetDir: string, h: Table<FileInfo>)
    requires h != [] && DistinctKeys(h)
    requires forall i :: 0 <= i < |h| ==> !IsAbsolute(h[i].0)
    ensures Join(targetDir, h[|h| - 1].0) !in TargetPaths(targetDir, Keys(h[..|h| - 1]))
  {
    var init := h[..|h| - 1];
    var last := h[|h| - 1];
    var t := TargetPaths(targetDir, Keys(init));
    forall k | 0 <= k < |init| ensures t[k] != Join(targetDir, last.0) {
      assert init[k] == h[k];
      JoinInjective(targetDir, init[k].0, last.0);
    }
  }

  /**
   * Under the target path of each row `process_combined_css`'s map holds
   * that row's url and nothing else.
   */
  lemma {:induction false} RewriterGet(targetDir: string, h: Table<FileInfo>, k: nat)
    requires k < |h| && DistinctKeys(h)
    requires forall i :: 0 <= i < |h| ==> !IsAbsolute(h[i].0)
    ensures Get(RewriterTable(targetDir, h), Join(targetDir, h[k].0)) == Some(UrlInfo(Some(h[k].1.url)))
  {
    var init := h[..|h| - 1];
    var last := h[|h| - 1];
    var key := Join(targetDir, last.0);
    PutGet(RewriterTable(targetDir, init), key, UrlInfo(Some(last.1.url)));
    if k < |h| - 1 {
      assert init[k] == h[k];
      JoinInjective(targetDir, h[k].0, last.0);
      RewriterGet(targetDir, init, k);
    }
  }

  /**
   * The map `package` hands to the url rewriter sends the target path of
   * every packaged file to the file's revisioned url.
   */
  lemma RewriterMapsPackagedFiles(targetDir: string, files: seq<string>, infoOf: string -> FileInfo, k: nat)
    requires k < |files|
    requires forall i, j :: 0 <= i < j < |files| ==> files[i] != files[j]
    requires forall i :: 0 <= i < |files| ==> !IsAbsolute(files[i])
    ensures var m := AsMap(RewriterTable(targetDir, BuildTable(files, infoOf)));
      Join(targetDir, files[k]) in m && m[Join(targetDir, files[k])] == UrlInfo(Some(infoOf(files[k]).url))
  {
    var h := BuildTable(files, infoOf);
    BuildTableKeys(files, infoOf);
    BuildTableGet(files, infoOf, files[k]);
    assert h[k].0 == files[k];
    assert Get(h, files[k]) == Some(h[k].1) by {
      GetAt(h, k);
    }
    RewriterGet(targetDir, h, k);
  }

  /** In a hash with distinct keys the value under the key of row `k` is that row's. */
  lemma {:induction false} GetAt<V>(h: Table<V>, k: nat)
    requires k < |h| && DistinctKeys(h)
    ensures Get(h, h[k].0) == Some(h[k].1)
  {
    if k > 0 {
      assert h[1..][k - 1] == h[k];
      GetAt(h[1..], k - 1);
    }
  }

  /**
   * The url recorded for the combined stylesheet: the directory of its
   * configured path joined with the new file name.
   */
  lemma CombinedUrlIsDirectoryJoin(dirSegs: seq<string>, name: string, fileName: string)
    requires dirSegs != [] && AllPlain(dirSegs) && IsPlain(name)
    requires !IsHomeRelative(JoinWith(dirSegs + [name], "/"))
    ensures CombinedCssUrl(JoinWith(dirSegs + [name], "/"), fileName) == Join(JoinWith(dirSegs, "/"), fileName)
  {
    var segs := dirSegs + [name];
    var cssPath := JoinWith(segs, "/");
    assert AllPlain(segs);
    SplitJoin(segs);
    ExpandPlainFromRoot(cssPath, "/");
    DirNameOfRendered(dirSegs, name);
  }

  /**
   * A combined stylesheet configured right in the target directory gets
   * an absolute url: `File.join("", name)` is "/" + name.
   */
  lemma TopLevelCombinedUrl(name: string, fileName: string)
    requires IsPlain(name) && !IsHomeRelative(name)
    requires fileName != "" && fileName[0] != '/'
    ensures CombinedCssUrl(name, fileName) == "/" + fileName
  {
    assert Join("", fileName) == "/" + fileName by {
      assert "" + "/" + fileName == "/" + fileName;
    }
    var e := ExpandPath(name, "/", "/");
    assert e == "/" + name by {
      SplitJoin([name]);
      ExpandPlainFromRoot(name, "/");
    }
    assert DirName(e)[1..] == "" by {
      DirNameOfTopLevel(name);
    }
  }
}
