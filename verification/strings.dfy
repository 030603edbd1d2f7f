/**
 * Ruby's String and Array operations that the packager relies on:
 * `IO#readlines` line splitting, `Array#join`, `String#sub` with a literal
 * pattern, and `Array#-`.
 */
module Strings {
  import opened Wrappers

  /** True when `pat` occurs in `s` starting at index `j`. */
  predicate OccursAt(s: string, pat: string, j: int)
  {
    0 <= j && j + |pat| <= |s| && s[j..j + |pat|] == pat
  }

  /** Ruby's `\s`: space, tab, newline, vertical tab, form feed, carriage return. */
  predicate IsSpace(c: char)
  {
    c == ' ' || c == '\t' || c == '\n' || c == '\U{000B}' || c == '\U{000C}' || c == '\r'
  }

  /** The index of the first occurrence of the newline character, if any. */
  function NewlineIndex(s: string): (r: Option<nat>)
    ensures r.Some? ==> r.value < |s| && s[r.value] == '\n' && '\n' !in s[..r.value]
    ensures r.None? ==> '\n' !in s
  {
    if |s| == 0 then None
    else if s[0] == '\n' then Some(0)
    else
      match NewlineIndex(s[1..])
      case None => None
      case Some(i) => Some(i + 1)
  }

  /**
   * `IO#readlines` with the default separator: every line keeps its
   * terminating newline; a last line without one is kept as it is.
   */
  function SplitLines(text: string): seq<string>
    decreases |text|
  {
    match NewlineIndex(text)
    case None => if text == "" then [] else [text]
    case Some(i) => [text[..i + 1]] + SplitLines(text[i + 1..])
  }

  /** A line as `readlines` yields it: not empty, and a newline only at its end. */
  predicate IsLine(line: string)
  {
    |line| > 0 && '\n' !in line[..|line| - 1]
  }

  /** `Array#join` with no separator. */
  function Concat(parts: seq<string>): string
  {
    if parts == [] then "" else parts[0] + Concat(parts[1..])
  }

  /** `Array#join(sep)`. */
  function JoinWith(parts: seq<string>, sep: string): string
  {
    if parts == [] then ""
    else if |parts| == 1 then parts[0]
    else parts[0] + sep + JoinWith(parts[1..], sep)
  }

  /** Joining the lines `readlines` produced gives back the text. */
  lemma {:induction false} ConcatSplitLines(text: string)
    ensures Concat(SplitLines(text)) == text
    decreases |text|
  {
    match NewlineIndex(text)
    case None =>
    case Some(i) =>
      ConcatSplitLines(text[i + 1..]);
      assert text == text[..i + 1] + text[i + 1..];
  }

  /** Pieces as `readlines` produces them: lines, and only the last may lack its newline. */
  predicate AreLines(lines: seq<string>)
  {
    forall k :: 0 <= k < |lines| ==>
      (IsLine(lines[k]) && (k < |lines| - 1 ==> lines[k][|lines[k]| - 1] == '\n'))
  }

  lemma {:induction false} SplitLinesAreLines(text: string)
    ensures AreLines(SplitLines(text))
    decreases |text|
  {
    match NewlineIndex(text)
    case None =>
    case Some(i) =>
      SplitLinesAreLines(text[i + 1..]);
      var head, rest := text[..i + 1], SplitLines(text[i + 1..]);
      assert head[..|head| - 1] == text[..i];
      assert IsLine(head) && head[|head| - 1] == '\n';
      var lines := [head] + rest;
      assert SplitLines(text) == lines;
      forall k | 0 <= k < |lines|
        ensures IsLine(lines[k]) && (k < |lines| - 1 ==> lines[k][|lines[k]| - 1] == '\n')
      {
        if k > 0 {
          assert lines[k] == rest[k - 1];
        }
      }
  }

  /** The appended piece is a slice of the concatenation. */
  lemma {:induction false} ConcatAppend(parts: seq<string>, last: string)
    ensures Concat(parts + [last]) == Concat(parts) + last
  {
    if parts != [] {
      assert (parts + [last])[1..] == parts[1..] + [last];
      ConcatAppend(parts[1..], last);
    }
  }

  /** `JoinWith` places `parts[k]` between the separators that surround it. */
  lemma {:induction false} JoinWithContains(parts: seq<string>, sep: string, k: nat)
    requires k < |parts|
    ensures exists pre, post :: JoinWith(parts, sep) == pre + parts[k] + post
  {
    if |parts| == 1 {
      assert JoinWith(parts, sep) == "" + parts[0] + "";
    } else if k == 0 {
      assert JoinWith(parts, sep) == "" + parts[0] + (sep + JoinWith(parts[1..], sep));
    } else {
      JoinWithContains(parts[1..], sep, k - 1);
      var pre, post :| JoinWith(parts[1..], sep) == pre + parts[1..][k - 1] + post;
      assert JoinWith(parts, sep) == (parts[0] + sep + pre) + parts[k] + post;
    }
  }

  /** `JoinWith` keeps the order of the parts: `parts[i]` comes before `parts[j]`. */
  lemma {:induction false} JoinWithOrdered(parts: seq<string>, sep: string, i: nat, j: nat)
    returns (pre: string, mid: string, post: string)
    requires i < j < |parts|
    ensures JoinWith(parts, sep) == pre + parts[i] + mid + parts[j] + post
  {
    var rest := JoinWith(parts[1..], sep);
    assert JoinWith(parts, sep) == parts[0] + sep + rest;
    if i == 0 {
      JoinWithContains(parts[1..], sep, j - 1);
      var p, q :| rest == p + parts[1..][j - 1] + q;
      assert parts[1..][j - 1] == parts[j];
      pre, mid, post := "", sep + p, q;
      assert parts[0] + sep + (p + parts[j] + q) == pre + parts[i] + mid + parts[j] + post;
    } else {
      var p, m, q := JoinWithOrdered(parts[1..], sep, i - 1, j - 1);
      assert parts[1..][i - 1] == parts[i] && parts[1..][j - 1] == parts[j];
      pre, mid, post := parts[0] + sep + p, m, q;
      assert parts[0] + sep + (p + parts[i] + m + parts[j] + q) == pre + parts[i] + mid + parts[j] + post;
    }
  }

  /** `JoinWith` of n parts holds n - 1 separators' worth of extra length. */
  lemma {:induction false} JoinWithLength(parts: seq<string>, sep: string)
    ensures |parts| > 0 ==>
      |JoinWith(parts, sep)| == |Concat(parts)| + (|parts| - 1) * |sep|
  {
    if |parts| > 1 {
      JoinWithLength(parts[1..], sep);
    }
  }

  /** The index of the first occurrence of `pat` in `s`, or None. */
  function IndexOf(s: string, pat: string): (r: Option<nat>)
    ensures r.Some? ==> OccursAt(s, pat, r.value)
    ensures r.Some? ==> forall j :: 0 <= j < r.value ==> !OccursAt(s, pat, j)
    ensures r.None? ==> forall j :: !OccursAt(s, pat, j)
    decreases |s|
  {
    if |pat| > |s| then None
    else if s[..|pat|] == pat then Some(0)
    else
      match IndexOf(s[1..], pat)
      case None =>
        assert forall j :: 0 < j ==> OccursAt(s, pat, j) == OccursAt(s[1..], pat, j - 1);
        None
      case Some(i) =>
        assert forall j :: 0 < j ==> OccursAt(s, pat, j) == OccursAt(s[1..], pat, j - 1);
        Some(i + 1)
  }

  /** `s.sub(pat, rep)` with a literal string pattern: the first occurrence only. */
  function ReplaceFirst(s: string, pat: string, rep: string): string
  {
    match IndexOf(s, pat)
    case None => s
    case Some(j) => s[..j] + rep + s[j + |pat|..]
  }

  /** The replacement happens at the first occurrence and leaves the rest intact. */
  lemma ReplaceFirstAt(s: string, pat: string, rep: string, j: nat)
    requires OccursAt(s, pat, j)
    requires forall i :: 0 <= i < j ==> !OccursAt(s, pat, i)
    ensures ReplaceFirst(s, pat, rep) == s[..j] + rep + s[j + |pat|..]
  {
    var r := IndexOf(s, pat);
    assert r.Some? && r.value == j;
  }

  /** The prefix of a sequence up to its length is the sequence itself. */
  lemma PrefixWhole<T>(s: seq<T>)
    ensures s[..|s|] == s
  {
  }

  /** Concatenation is associative. */
  lemma ConcatAssoc<T>(a: seq<T>, b: seq<T>, c: seq<T>)
    ensures a + b + c == a + (b + c)
  {
  }

  /** Replacing a pattern by itself changes nothing. */
  lemma ReplaceFirstSame(s: string, pat: string)
    ensures ReplaceFirst(s, pat, pat) == s
  {
    match IndexOf(s, pat)
    case None =>
    case Some(j) =>
      assert s[j..j + |pat|] == pat;
      assert s[..j] + s[j..j + |pat|] + s[j + |pat|..] == s;
  }

  /** A pattern found only at the end of `s + pat` is replaced there. */
  lemma ReplaceFirstAtEnd(s: string, pat: string, rep: string)
    requires forall i :: 0 <= i < |s| ==> !OccursAt(s + pat, pat, i)
    ensures ReplaceFirst(s + pat, pat, rep) == s + rep
  {
    var t := s + pat;
    assert t[|s|..|s| + |pat|] == pat;
    ReplaceFirstAt(t, pat, rep, |s|);
    assert t[..|s|] == s && t[|s| + |pat|..] == [];
  }

  /**
   * The text `sub` inserts for the replacement `rep`. In `rep`, `\0` and
   * `\&` stand for the matched text, `\`` for the text before the match,
   * `\'` for the text after it and `\\` for one backslash. `\1` to `\9`
   * and `\+` name groups, which a string pattern does not have, so they
   * stand for nothing. Any other backslash is kept with the character after
   * it.
   */
  function SubExpand(rep: string, matched: string, pre: string, post: string): string
    decreases |rep|
  {
    if rep == [] then []
    else if rep[0] != '\\' || |rep| == 1 then [rep[0]] + SubExpand(rep[1..], matched, pre, post)
    else
      var c := rep[1];
      var piece :=
        if c == '0' || c == '&' then matched
        else if c == '`' then pre
        else if c == '\'' then post
        else if c == '\\' then "\\"
        else if '1' <= c <= '9' || c == '+' then ""
        else rep[..2];
      piece + SubExpand(rep[2..], matched, pre, post)
  }

  /**
   * `s.sub(pat, rep)` with a string pattern: the first occurrence of `pat`
   * is replaced by `rep`, with the escapes of `rep` read.
   */
  function Sub(s: string, pat: string, rep: string): string
  {
    match IndexOf(s, pat)
    case None => s
    case Some(j) => s[..j] + SubExpand(rep, pat, s[..j], s[j + |pat|..]) + s[j + |pat|..]
  }

  /** A replacement without a backslash is inserted as it is. */
  lemma {:induction false} SubExpandLiteral(rep: string, matched: string, pre: string, post: string)
    requires '\\' !in rep
    ensures SubExpand(rep, matched, pre, post) == rep
    decreases |rep|
  {
    if rep != [] {
      assert rep[0] != '\\';
      assert '\\' !in rep[1..] by {
        forall k | 0 <= k < |rep| - 1 ensures rep[1..][k] != '\\' {
          assert rep[1..][k] == rep[k + 1];
        }
      }
      SubExpandLiteral(rep[1..], matched, pre, post);
    }
  }

  /** A backslash-free start of the replacement is inserted as it is. */
  lemma {:induction false} SubExpandLiteralPrefix(a: string, b: string, matched: string, pre: string, post: string)
    requires '\\' !in a
    ensures SubExpand(a + b, matched, pre, post) == a + SubExpand(b, matched, pre, post)
    decreases |a|
  {
    if a == [] {
      assert a + b == b;
    } else {
      assert (a + b)[0] == a[0] != '\\';
      assert (a + b)[1..] == a[1..] + b;
      assert '\\' !in a[1..] by {
        forall k | 0 <= k < |a| - 1 ensures a[1..][k] != '\\' {
          assert a[1..][k] == a[k + 1];
        }
      }
      SubExpandLiteralPrefix(a[1..], b, matched, pre, post);
    }
  }

  /**
   * `\0` after a backslash-free start inserts the matched text once more:
   * with a backslash-free `m` matched, `a` + `\0` + `m` expands to
   * `a` + `m` + `m`.
   */
  lemma MatchEscapeExpands(a: string, m: string, pre: string, post: string)
    requires '\\' !in a && '\\' !in m
    ensures SubExpand(a + ("\\0" + m), m, pre, post) == a + (m + m)
  {
    var esc := "\\0" + m;
    assert esc[0] == '\\' && esc[1] == '0' && esc[2..] == m;
    SubExpandLiteral(m, m, pre, post);
    assert SubExpand(esc, m, pre, post) == m + m;
    SubExpandLiteralPrefix(a, esc, m, pre, post);
  }

  /** Without a backslash in the replacement, `sub` is the literal replacement. */
  lemma SubLiteral(s: string, pat: string, rep: string)
    requires '\\' !in rep
    ensures Sub(s, pat, rep) == ReplaceFirst(s, pat, rep)
  {
    if IndexOf(s, pat).Some? {
      var j := IndexOf(s, pat).value;
      SubExpandLiteral(rep, pat, s[..j], s[j + |pat|..]);
    }
  }

  /** An occurrence of `pat` only at the very end is where `sub` replaces. */
  lemma SubAtEnd(s: string, pat: string, rep: string)
    requires forall i :: 0 <= i < |s| ==> !OccursAt(s + pat, pat, i)
    ensures Sub(s + pat, pat, rep) == s + SubExpand(rep, pat, s, [])
  {
    var t := s + pat;
    assert t[|s|..|s| + |pat|] == pat && t[..|s|] == s && t[|s| + |pat|..] == [];
    var j := SubBefore(t, pat, rep, |s|);
    assert j == |s|;
  }

  /**
   * Given an occurrence of `pat` at `at`, the first occurrence `j` is no
   * later; `sub` replaces there, literally when `rep` has no backslash, and
   * everything after the occurrence at `at` ends the result unchanged.
   */
  lemma SubBefore(s: string, pat: string, rep: string, at: nat) returns (j: nat)
    requires OccursAt(s, pat, at)
    ensures j <= at && OccursAt(s, pat, j) && forall i :: 0 <= i < j ==> !OccursAt(s, pat, i)
    ensures Sub(s, pat, rep) == s[..j] + SubExpand(rep, pat, s[..j], s[j + |pat|..]) + s[j + |pat|..]
    ensures var r := Sub(s, pat, rep); s[at + |pat|..] == r[|r| - (|s| - (at + |pat|))..]
    ensures '\\' !in rep ==> Sub(s, pat, rep) == s[..j] + rep + s[j + |pat|..]
  {
    j := IndexOf(s, pat).value;
    if '\\' !in rep {
      SubExpandLiteral(rep, pat, s[..j], s[j + |pat|..]);
    }
    var tail := s[j + |pat|..];
    assert s[at + |pat|..] == tail[at - j..];
  }

  /** `Array#-`: the elements of `a` that do not occur in `b`, order and repeats kept. */
  function Minus<T(==,!new)>(a: seq<T>, b: seq<T>): (r: seq<T>)
    ensures forall x :: x in r <==> x in a && x !in b
    ensures IsSubsequence(r, a)
  {
    if a == [] then []
    else if a[0] in b then
      var rest := Minus(a[1..], b);
      SubsequenceCons(rest, a[1..], a[0]);
      rest
    else
      [a[0]] + Minus(a[1..], b)
  }

  /** `Array#-` keeps a single element exactly when it is not in `b`. */
  lemma MinusOne<T(!new)>(x: T, b: seq<T>)
    ensures Minus([x], b) == if x in b then [] else [x]
  {
    assert [x][1..] == [];
  }

  /**
   * `Array#-` works element by element: the elements kept from `a1 + a2`
   * are those kept from `a1` followed by those kept from `a2`, each in its
   * place and as often as it occurs.
   */
  lemma {:induction false} MinusAppend<T(!new)>(a1: seq<T>, a2: seq<T>, b: seq<T>)
    ensures Minus(a1 + a2, b) == Minus(a1, b) + Minus(a2, b)
  {
    if a1 == [] {
      assert a1 + a2 == a2;
    } else {
      assert (a1 + a2)[0] == a1[0] && (a1 + a2)[1..] == a1[1..] + a2;
      MinusAppend(a1[1..], a2, b);
      if a1[0] !in b {
        ConcatAssoc([a1[0]], Minus(a1[1..], b), Minus(a2, b));
      }
    }
  }

  /** `sub` is an order-preserving selection of elements of `s`. */
  predicate IsSubsequence<T(==)>(sub: seq<T>, s: seq<T>)
  {
    if sub == [] then true
    else if s == [] then false
    else if sub[0] == s[0] then IsSubsequence(sub[1..], s[1..])
    else IsSubsequence(sub, s[1..])
  }

  /** A subsequence of `s` stays one when an element is put in front of `s`. */
  lemma {:induction false} SubsequenceCons<T>(sub: seq<T>, s: seq<T>, x: T)
    requires IsSubsequence(sub, s)
    ensures IsSubsequence(sub, [x] + s)
    decreases |s|, 1
  {
    assert ([x] + s)[1..] == s;
    if sub != [] && sub[0] == x {
      SubsequenceTail(sub, s);
    }
  }

  /** Dropping the first element of a subsequence leaves a subsequence. */
  lemma {:induction false} SubsequenceTail<T>(sub: seq<T>, s: seq<T>)
    requires sub != [] && IsSubsequence(sub, s)
    ensures IsSubsequence(sub[1..], s)
    decreases |s|, 0
  {
    assert [s[0]] + s[1..] == s;
    if sub[0] == s[0] {
      SubsequenceCons(sub[1..], s[1..], s[0]);
    } else {
      SubsequenceTail(sub, s[1..]);
      SubsequenceCons(sub[1..], s[1..], s[0]);
    }
  }
}
