/**
 * `Bagger::CssPackager`: concatenates the stylesheets of a directory into
 * one text. Every file is read as lines, the `@import url(...)` lines that
 * carry no absolute URI are dropped, and the file texts are joined with a
 * blank line between them; an excluded file leaves an empty slot.
 */
module CssPackager {
  import opened Wrappers
  import opened Strings

  /**
   * The pattern `@import\s+url\(.+\)` matches at `i`: "@import", `w >= 1`
   * white-space characters, "url(", `c >= 1` characters none of which is a
   * newline, and ")".
   */
  predicate ImportMatchAt(line: string, i: int, w: int, c: int)
  {
    0 <= i && 1 <= w && 1 <= c && i + 11 + w + c < |line| &&
    line[i..i + 7] == "@import" &&
    (forall m :: i + 7 <= m < i + 7 + w ==> IsSpace(line[m])) &&
    line[i + 7 + w..i + 11 + w] == "url(" &&
    (forall m :: i + 11 + w <= m < i + 11 + w + c ==> line[m] != '\n') &&
    line[i + 11 + w + c] == ')'
  }

  /** The number of white-space characters from `q` on. */
  function SpacesFrom(line: string, q: nat): (n: nat)
    requires q <= |line|
    ensures q + n <= |line|
    ensures forall m :: q <= m < q + n ==> IsSpace(line[m])
    ensures q + n == |line| || !IsSpace(line[q + n])
    decreases |line| - q
  {
    if q < |line| && IsSpace(line[q]) then 1 + SpacesFrom(line, q + 1) else 0
  }

  /** Where the line's first newline at or after `p` is, or its length. */
  function LineEnd(line: string, p: nat): (e: nat)
    requires p <= |line|
    ensures p <= e <= |line|
    ensures forall m :: p <= m < e ==> line[m] != '\n'
    ensures e < |line| ==> line[e] == '\n'
  {
    match NewlineIndex(line[p..])
    case None =>
      assert forall m :: p <= m < |line| ==> line[m] == line[p..][m - p];
      |line|
    case Some(k) =>
      assert forall m :: p <= m < p + k ==> line[m] == line[p..][..k][m - p];
      p + k
  }

  /** "url(" ending at `p` is followed by at least one character and a ")" on the same line. */
  predicate ClosesAfter(line: string, p: nat)
  {
    p <= |line| && p + 1 <= LineEnd(line, p) && ')' in line[p + 1..LineEnd(line, p)]
  }

  /** The pattern matches at `i`, with the white-space run `SpacesFrom` finds. */
  predicate ImportAt(line: string, i: nat)
  {
    i + 7 <= |line| && line[i..i + 7] == "@import" &&
    var w := SpacesFrom(line, i + 7);
    1 <= w && i + 11 + w <= |line| && line[i + 7 + w..i + 11 + w] == "url(" &&
    ClosesAfter(line, i + 11 + w)
  }

  /** `line =~ /@import\s+url\(.+\)/`, searched from position `i` on. */
  function ImportFrom(line: string, i: nat): bool
    decreases |line| - i
  {
    if |line| <= i then false
    else ImportAt(line, i) || ImportFrom(line, i + 1)
  }

  /** `line =~ /@import\s+url\(.+\)/`. */
  function MatchesImport(line: string): (b: bool)
    ensures b <==> exists i, w, c :: ImportMatchAt(line, i, w, c)
  {
    ImportFromSpec(line, 0);
    ImportFrom(line, 0)
  }

  /**
   * A line `process_file` drops: it holds an `@import url(...)` and
   * `URI.extract` finds no URI in it. `URI.extract` is the predicate
   * `extractsUri`.
   */
  predicate Dropped(line: string, extractsUri: string -> bool)
  {
    MatchesImport(line) && !extractsUri(line)
  }

  /** The lines that are not dropped, in their order. */
  function KeptLines(lines: seq<string>, extractsUri: string -> bool): (r: seq<string>)
    ensures |r| <= |lines|
  {
    if lines == [] then []
    else if Dropped(lines[0], extractsUri) then KeptLines(lines[1..], extractsUri)
    else [lines[0]] + KeptLines(lines[1..], extractsUri)
  }

  /** `process_file`: the file's lines without the dropped ones, joined. */
  function ProcessFile(text: string, extractsUri: string -> bool): string
  {
    Concat(KeptLines(SplitLines(text), extractsUri))
  }

  /** What each path contributes: "" when excluded, its processed text otherwise. */
  function Slots(paths: seq<string>, read: string -> string, excludes: Option<string -> bool>,
                 extractsUri: string -> bool): (r: seq<string>)
    ensures |r| == |paths|
    ensures forall k :: 0 <= k < |paths| ==>
      r[k] == if excludes.Some? && excludes.value(paths[k]) then "" else ProcessFile(read(paths[k]), extractsUri)
  {
    if paths == [] then []
    else
      [if excludes.Some? && excludes.value(paths[0]) then "" else ProcessFile(read(paths[0]), extractsUri)] +
      Slots(paths[1..], read, excludes, extractsUri)
  }

  /**
   * `join_asset_file_contents`: the slots of the paths, in the given (sorted)
   * order, joined with a blank line. `read` is the files' contents.
   */
  function JoinAssetFileContents(paths: seq<string>, read: string -> string, excludes: Option<string -> bool>,
                                 extractsUri: string -> bool): string
  {
    JoinWith(Slots(paths, read, excludes, extractsUri), "\n\n")
  }

  // ---- the matcher agrees with the pattern ----

  /** `ImportAt` holds exactly when some match starts at `i`. */
  lemma ImportAtSpec(line: string, i: nat)
    ensures ImportAt(line, i) <==> exists w, c :: ImportMatchAt(line, i, w, c)
  {
    if ImportAt(line, i) {
      var w, c := ImportAtWitness(line, i);
    }
    if exists w, c :: ImportMatchAt(line, i, w, c) {
      var w, c :| ImportMatchAt(line, i, w, c);
      ImportMatchFound(line, i, w, c);
    }
  }

  /** A match at `i` found by `ImportAt` is a match of the pattern. */
  lemma ImportAtWitness(line: string, i: nat) returns (w: int, c: int)
    requires ImportAt(line, i)
    ensures ImportMatchAt(line, i, w, c)
  {
    w := SpacesFrom(line, i + 7);
    var p := i + 11 + w;
    c := CloseParen(line, p);
  }

  /** A ")" that closes "url(" ending at `p`, as an offset from `p`, with no newline before it. */
  lemma CloseParen(line: string, p: nat) returns (c: int)
    requires p <= |line| && ClosesAfter(line, p)
    ensures 1 <= c && p + c < |line| && line[p + c] == ')'
    ensures forall m :: p <= m < p + c ==> line[m] != '\n'
  {
    var e := LineEnd(line, p);
    var x :| 0 <= x < |line[p + 1..e]| && line[p + 1..e][x] == ')';
    c := x + 1;
    assert line[p + c] == ')';
  }

  /** Every match of the pattern at `i` is found by `ImportAt`. */
  lemma ImportMatchFound(line: string, i: nat, w: int, c: int)
    requires ImportMatchAt(line, i, w, c)
    ensures ImportAt(line, i)
  {
    ImportMatchRun(line, i, w, c);
    CloseParenCloses(line, i + 11 + w, c);
  }

  /** A ")" at `p + c` with no newline before it closes "url(" ending at `p`. */
  lemma CloseParenCloses(line: string, p: nat, c: nat)
    requires 1 <= c && p + c < |line| && line[p + c] == ')'
    requires forall m :: p <= m < p + c ==> line[m] != '\n'
    ensures ClosesAfter(line, p)
  {
    var e := LineEnd(line, p);
    assert p + c < e || p + c == e;
    assert line[p + 1..e][c - 1] == ')';
  }

  /** In a match, the white-space run is the whole run `SpacesFrom` finds. */
  lemma ImportMatchRun(line: string, i: nat, w: int, c: int)
    requires ImportMatchAt(line, i, w, c)
    ensures SpacesFrom(line, i + 7) == w
  {
    assert line[i + 7 + w] == line[i + 7 + w..i + 11 + w][0] == 'u';
    SpacesAtLeast(line, i + 7, w);
  }

  lemma {:induction false} SpacesAtLeast(line: string, q: nat, w: nat)
    requires q + w <= |line|
    requires forall m :: q <= m < q + w ==> IsSpace(line[m])
    ensures SpacesFrom(line, q) >= w
    decreases w
  {
    if w > 0 {
      SpacesAtLeast(line, q + 1, w - 1);
    }
  }

  lemma {:induction false} ImportFromSpec(line: string, i: nat)
    ensures ImportFrom(line, i) <==> exists j, w, c :: i <= j && ImportMatchAt(line, j, w, c)
    decreases |line| - i
  {
    if |line| > i {
      ImportAtSpec(line, i);
      ImportFromSpec(line, i + 1);
      if exists j, w, c :: i <= j && ImportMatchAt(line, j, w, c) {
        var j, w, c :| i <= j && ImportMatchAt(line, j, w, c);
        if j == i {
          assert exists w', c' :: ImportMatchAt(line, i, w', c');
        } else {
          assert i + 1 <= j && ImportMatchAt(line, j, w, c);
        }
      }
    }
  }

  // ---- properties of the packager ----

  /**
   * A line is dropped if and only if it matches `@import\s+url\(.+\)` and
   * `URI.extract` finds nothing in it; every other line is kept verbatim,
   * in order, with nothing added between lines.
   */
  lemma {:induction false} KeptLinesSpec(lines: seq<string>, extractsUri: string -> bool)
    ensures forall line :: line in KeptLines(lines, extractsUri) <==>
      line in lines && !((exists i, w, c :: ImportMatchAt(line, i, w, c)) && !extractsUri(line))
    ensures IsSubsequence(KeptLines(lines, extractsUri), lines)
  {
    if lines != [] {
      KeptLinesSpec(lines[1..], extractsUri);
      var rest := KeptLines(lines[1..], extractsUri);
      assert lines == [lines[0]] + lines[1..];
      if Dropped(lines[0], extractsUri) {
        SubsequenceCons(rest, lines[1..], lines[0]);
      } else {
        assert ([lines[0]] + rest)[1..] == rest;
      }
    }
  }

  /** `reject` decides line by line: a single line is kept exactly when it is not dropped. */
  lemma KeptLine(line: string, extractsUri: string -> bool)
    ensures KeptLines([line], extractsUri) == if Dropped(line, extractsUri) then [] else [line]
  {
    assert [line][1..] == [];
  }

  /**
   * The kept lines of two runs of lines are those of the first followed by
   * those of the second, so every kept line keeps its place and its
   * repetitions.
   */
  lemma {:induction false} KeptLinesAppend(a: seq<string>, b: seq<string>, extractsUri: string -> bool)
    ensures KeptLines(a + b, extractsUri) == KeptLines(a, extractsUri) + KeptLines(b, extractsUri)
  {
    if a == [] {
      assert a + b == b;
    } else {
      assert (a + b)[0] == a[0] && (a + b)[1..] == a[1..] + b;
      KeptLinesAppend(a[1..], b, extractsUri);
      if !Dropped(a[0], extractsUri) {
        ConcatAssoc([a[0]], KeptLines(a[1..], extractsUri), KeptLines(b, extractsUri));
      }
    }
  }

  /** A text none of whose lines is dropped comes out unchanged. */
  lemma {:induction false} NothingDroppedUnchanged(text: string, extractsUri: string -> bool)
    requires forall line :: line in SplitLines(text) ==> !Dropped(line, extractsUri)
    ensures ProcessFile(text, extractsUri) == text
  {
    KeepAll(SplitLines(text), extractsUri);
    ConcatSplitLines(text);
  }

  lemma {:induction false} KeepAll(lines: seq<string>, extractsUri: string -> bool)
    requires forall line :: line in lines ==> !Dropped(line, extractsUri)
    ensures KeptLines(lines, extractsUri) == lines
  {
    if lines != [] {
      assert lines[0] in lines;
      assert forall line :: line in lines[1..] ==> line in lines;
      KeepAll(lines[1..], extractsUri);
    }
  }

  /**
   * A line starting "@import url(" followed by a non-empty target on the
   * same line and ")" matches the pattern, so it is dropped whenever
   * `URI.extract` finds no URI in it: "@import url('zones.css')" goes.
   */
  lemma ImportLineDropped(target: string, rest: string, extractsUri: string -> bool)
    requires target != "" && '\n' !in target
    requires !extractsUri("@import url(" + target + ")" + rest)
    ensures Dropped("@import url(" + target + ")" + rest, extractsUri)
  {
    var pre := "@import url(";
    var line := pre + target + ")" + rest;
    assert line[..12] == pre;
    assert line[0..7] == pre[0..7] == "@import";
    assert line[7] == ' ';
    assert line[8..12] == pre[8..12] == "url(";
    assert line[12..12 + |target|] == target;
    assert line[12 + |target|] == ')';
    assert ImportMatchAt(line, 0, 1, |target|);
  }

  /** A line without "@import" is never dropped. */
  lemma WithoutImportKept(line: string, extractsUri: string -> bool)
    requires forall i :: !OccursAt(line, "@import", i)
    ensures !Dropped(line, extractsUri)
  {
    forall i, w, c ensures !ImportMatchAt(line, i, w, c) {
      assert !OccursAt(line, "@import", i);
    }
  }

  /**
   * Excluding a file is the same as packaging it as an empty file: it
   * contributes "", and the separators around its slot remain.
   */
  lemma {:induction false} ExclusionLeavesEmptySlot(paths: seq<string>, read: string -> string,
                                                   excluded: string -> bool, extractsUri: string -> bool)
    ensures JoinAssetFileContents(paths, read, Some(excluded), extractsUri) ==
      JoinAssetFileContents(paths, p => if excluded(p) then "" else read(p), None, extractsUri)
  {
    var blanked := p => if excluded(p) then "" else read(p);
    assert SplitLines("") == [];
    assert Slots(paths, read, Some(excluded), extractsUri) == Slots(paths, blanked, None, extractsUri);
  }

  /**
   * The output holds every non-excluded file's processed text, in path
   * order: for `i < j` the text of `paths[i]` comes before that of `paths[j]`.
   */
  lemma FilesInPathOrder(paths: seq<string>, read: string -> string, excludes: Option<string -> bool>,
                         extractsUri: string -> bool, i: nat, j: nat)
    returns (pre: string, mid: string, post: string)
    requires i < j < |paths|
    requires !(excludes.Some? && excludes.value(paths[i]))
    requires !(excludes.Some? && excludes.value(paths[j]))
    ensures JoinAssetFileContents(paths, read, excludes, extractsUri) ==
      pre + ProcessFile(read(paths[i]), extractsUri) + mid + ProcessFile(read(paths[j]), extractsUri) + post
  {
    pre, mid, post := JoinWithOrdered(Slots(paths, read, excludes, extractsUri), "\n\n", i, j);
  }

  /** The output is the slots with one blank-line separator between each two of them. */
  lemma OutputLength(paths: seq<string>, read: string -> string, excludes: Option<string -> bool>,
                     extractsUri: string -> bool)
    requires paths != []
    ensures |JoinAssetFileContents(paths, read, excludes, extractsUri)| ==
      |Concat(Slots(paths, read, excludes, extractsUri))| + 2 * (|paths| - 1)
  {
    JoinWithLength(Slots(paths, read, excludes, extractsUri), "\n\n");
  }
}
