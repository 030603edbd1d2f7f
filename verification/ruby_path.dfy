/**
 * The path functions of Ruby's `File` class that the packager calls, as they
 * behave on a Unix system: `basename`, `dirname`, `extname`, `join` and
 * `expand_path` (without `~` expansion).
 */
module RubyPath {
  import opened Wrappers
  import opened Strings

  predicate IsAbsolute(p: string)
  {
    |p| > 0 && p[0] == '/'
  }

  /** A path that `expand_path` would resolve against a home directory. */
  predicate IsHomeRelative(p: string)
  {
    |p| > 0 && p[0] == '~'
  }

  /** The index of the last occurrence of `c` in `s`, if any. */
  function LastIndex(s: string, c: char): (r: Option<nat>)
    ensures r.Some? ==> r.value < |s| && s[r.value] == c && c !in s[r.value + 1..]
    ensures r.None? ==> c !in s
  {
    if |s| == 0 then None
    else if s[|s| - 1] == c then Some(|s| - 1)
    else
      match LastIndex(s[..|s| - 1], c)
      case None => None
      case Some(i) =>
        assert s[i + 1..] == s[..|s| - 1][i + 1..] + [s[|s| - 1]];
        Some(i)
  }

  /** The last occurrence is the one with no later occurrence. */
  lemma LastIndexIs(s: string, c: char, i: nat)
    requires i < |s| && s[i] == c && c !in s[i + 1..]
    ensures LastIndex(s, c) == Some(i)
  {
    var r := LastIndex(s, c);
    assert c in s;
    var j := r.value;
    forall m | j < m < |s| ensures s[m] != c {
      assert s[m] == s[j + 1..][m - j - 1];
    }
    forall m | i < m < |s| ensures s[m] != c {
      assert s[m] == s[i + 1..][m - i - 1];
    }
  }

  /** `s` without the run of slashes at its end. */
  function StripTrailingSlashes(s: string): (r: string)
    ensures |r| <= |s| && r == s[..|r|]
    ensures r == "" || r[|r| - 1] != '/'
    ensures forall k :: |r| <= k < |s| ==> s[k] == '/'
  {
    if |s| > 0 && s[|s| - 1] == '/' then StripTrailingSlashes(s[..|s| - 1]) else s
  }

  /** The number of dots `s` starts with. */
  function LeadingDots(s: string): (n: nat)
    ensures n <= |s| && (n < |s| ==> s[n] != '.')
  {
    if |s| > 0 && s[0] == '.' then 1 + LeadingDots(s[1..]) else 0
  }

  /** Where the last component of `p` starts (trailing slashes ignored). */
  function BaseNameStart(p: string): (start: nat)
    ensures start <= |StripTrailingSlashes(p)|
  {
    match LastIndex(StripTrailingSlashes(p), '/')
    case None => 0
    case Some(i) => i + 1
  }

  /** `File.basename(p)`: the last component, trailing slashes ignored. */
  function BaseName(p: string): string
  {
    var t := StripTrailingSlashes(p);
    if t == "" then (if p == "" then "" else "/") else t[BaseNameStart(p)..]
  }

  /**
   * `File.basename(p, suffix)`: the suffix is removed when the basename ends
   * with it and something is left over.
   */
  function BaseNameWithout(p: string, suffix: string): string
  {
    var b := BaseName(p);
    if |b| > |suffix| && b[|b| - |suffix|..] == suffix then b[..|b| - |suffix|] else b
  }

  /** `File.dirname(p)`: everything before the last component, "." when there is none. */
  function DirName(p: string): (r: string)
    ensures r != ""
  {
    var t := StripTrailingSlashes(p);
    if t == "" then (if p == "" then "." else "/")
    else
      match LastIndex(t, '/')
      case None => "."
      case Some(i) =>
        var d := StripTrailingSlashes(t[..i]);
        if d == "" then "/" else d
  }

  /**
   * Where `File.extname(p)` starts in `p` (Ruby 1.9 on Unix): the last dot of
   * the basename, not counting the dots the basename starts with, and not
   * the basename's last character.
   */
  function ExtNameStart(p: string): (r: Option<nat>)
    ensures r.Some? ==> var t := StripTrailingSlashes(p);
      BaseNameStart(p) <= r.value && r.value + 1 < |t| && t[r.value] == '.' && '.' !in t[r.value + 1..]
  {
    var t := StripTrailingSlashes(p);
    var b := BaseNameStart(p);
    LastDotAfter(t, b + LeadingDots(t[b..]))
  }

  /** The last dot of `t` from `s` on, unless it is the last character of `t`. */
  function LastDotAfter(t: string, s: nat): (r: Option<nat>)
    requires s <= |t|
    ensures r.Some? ==> s <= r.value && r.value + 1 < |t| && t[r.value] == '.' && '.' !in t[r.value + 1..]
  {
    match LastIndex(t[s..], '.')
    case None => None
    case Some(k) =>
      LastDotIn(t, s, k);
      if s + k == |t| - 1 then None else Some(s + k)
  }

  /** `File.extname(p)`: the extension with its dot, or "". */
  function ExtName(p: string): (r: string)
    ensures r != "" <==> ExtNameStart(p).Some?
    ensures r != "" ==> |r| >= 2 && r[0] == '.' && '.' !in r[1..] && '/' !in r
    ensures r != "" ==> OccursAt(p, r, ExtNameStart(p).value)
  {
    match ExtNameStart(p)
    case None => ""
    case Some(j) =>
      var t := StripTrailingSlashes(p);
      NoSlashAfterBase(p, j);
      ExtensionShape(p, t, j);
      t[j..]
  }

  /** A suffix of the slash-free end of `p` that starts with its only dot. */
  lemma ExtensionShape(p: string, t: string, j: nat)
    requires |t| <= |p| && t == p[..|t|]
    requires j + 1 < |t| && t[j] == '.' && '.' !in t[j + 1..] && '/' !in t[j..]
    ensures var r := t[j..]; |r| >= 2 && r[0] == '.' && '.' !in r[1..] && '/' !in r && OccursAt(p, r, j)
  {
    var r := t[j..];
    assert r[1..] == t[j + 1..];
    assert p[j..j + |r|] == r;
  }

  /** The last dot of `t[s..]`, found at `k`, is the last dot of `t` from `s` on. */
  lemma LastDotIn(t: string, s: nat, k: nat)
    requires s <= |t| && LastIndex(t[s..], '.') == Some(k)
    ensures s + k < |t| && t[s + k] == '.' && '.' !in t[s + k + 1..]
  {
    var w := t[s..];
    assert t[s + k] == w[k];
    assert t[s + k + 1..] == w[k + 1..];
  }

  /** Nothing from the start of the basename on is a slash. */
  lemma NoSlashAfterBase(p: string, j: nat)
    requires BaseNameStart(p) <= j <= |StripTrailingSlashes(p)|
    ensures '/' !in StripTrailingSlashes(p)[j..]
  {
    var t := StripTrailingSlashes(p);
    forall m | j <= m < |t| ensures t[m] != '/' {
      match LastIndex(t, '/')
      case None =>
      case Some(i) =>
        assert t[m] == t[i + 1..][m - i - 1];
    }
  }

  /**
   * `File.join(a, b)`: one slash between the parts. When `b` starts with a
   * slash the slashes at the end of `a` are dropped; `File.join("", b)` is
   * "/" + b.
   */
  function Join(a: string, b: string): string
  {
    if |b| > 0 && b[0] == '/' then StripTrailingSlashes(a) + b
    else if |a| > 0 && a[|a| - 1] == '/' then a + b
    else a + "/" + b
  }

  /** A path component that `expand_path` keeps as it is. */
  predicate IsPlain(seg: string)
  {
    seg != "" && seg != "." && seg != ".." && '/' !in seg
  }

  predicate AllPlain(segs: seq<string>)
  {
    forall k :: 0 <= k < |segs| ==> IsPlain(segs[k])
  }

  /** `s` cut at every slash; empty components are kept. */
  function SplitSlash(s: string): (r: seq<string>)
    ensures |r| > 0
  {
    match LastIndex(s, '/')
    case None => [s]
    case Some(i) => SplitSlash(s[..i]) + [s[i + 1..]]
  }

  /**
   * Resolves the components `segs` on top of the already resolved `acc`:
   * empty components and "." are dropped, ".." removes the last resolved
   * component (and stays at the root when there is none).
   */
  function Resolve(acc: seq<string>, segs: seq<string>): (r: seq<string>)
    requires AllPlain(acc)
    ensures AllPlain(r)
    decreases |segs|
  {
    if segs == [] then acc
    else
      var s := segs[0];
      if s == "" || s == "." then Resolve(acc, segs[1..])
      else if s == ".." then Resolve(if acc == [] then [] else acc[..|acc| - 1], segs[1..])
      else if '/' in s then Resolve(acc, segs[1..])
      else Resolve(acc + [s], segs[1..])
  }

  /** The absolute path of resolved components. */
  function Render(segs: seq<string>): (r: string)
    ensures IsAbsolute(r)
  {
    "/" + JoinWith(segs, "/")
  }

  /** An absolute path with no empty, "." or ".." components and no trailing slash. */
  predicate IsNormalAbsolute(p: string)
  {
    p == "/" || (IsAbsolute(p) && AllPlain(SplitSlash(p[1..])))
  }

  /** The directory `expand_path` resolves a relative path against. */
  function AbsoluteDir(dir: string, cwd: string): string
  {
    if IsAbsolute(dir) then dir else cwd + "/" + dir
  }

  /**
   * `File.expand_path(path, dir)` with the process working directory `cwd`:
   * an absolute `path` is normalised on its own, a relative one after `dir`
   * (itself taken relative to `cwd`).
   */
  function ExpandPath(path: string, dir: string, cwd: string): (r: string)
    requires !IsHomeRelative(path) && !IsHomeRelative(dir) && IsAbsolute(cwd)
    ensures IsAbsolute(r)
  {
    var full := if IsAbsolute(path) then path else AbsoluteDir(dir, cwd) + "/" + path;
    Render(Resolve([], SplitSlash(full)))
  }

  // ---- lemmas about the path functions ----

  /** Cutting a joined sequence of slash-free components gives the components back. */
  lemma {:induction false} SplitJoin(segs: seq<string>)
    requires |segs| > 0
    requires forall k :: 0 <= k < |segs| ==> '/' !in segs[k]
    ensures SplitSlash(JoinWith(segs, "/")) == segs
  {
    if |segs| > 1 {
      var init, last := segs[..|segs| - 1], segs[|segs| - 1];
      assert init + [last] == segs;
      JoinWithSnoc(init, last, "/");
      SplitAtSlash(JoinWith(init, "/"), last);
      SplitJoin(init);
    }
  }

  /** The pieces of `x + "/" + y` on both sides of the slash after `x`. */
  lemma AroundSlash(x: string, y: string)
    ensures var s := x + "/" + y; |s| == |x| + 1 + |y| && s[..|x|] == x && s[|x|] == '/' && s[|x| + 1..] == y
  {
  }

  /** Cutting at a slash after which there is none. */
  lemma SplitAtSlash(a: string, b: string)
    requires '/' !in b
    ensures SplitSlash(a + "/" + b) == SplitSlash(a) + [b]
  {
    AroundSlash(a, b);
    LastIndexIs(a + "/" + b, '/', |a|);
  }

  lemma {:induction false} JoinWithSnoc(init: seq<string>, last: string, sep: string)
    requires |init| > 0
    ensures JoinWith(init + [last], sep) == JoinWith(init, sep) + sep + last
  {
    if |init| == 1 {
      assert (init + [last])[1..] == [last];
    } else {
      assert (init + [last])[1..] == init[1..] + [last];
      JoinWithSnoc(init[1..], last, sep);
    }
  }

  /** A rendered sequence of plain components is a normal absolute path. */
  lemma RenderIsNormal(segs: seq<string>)
    requires AllPlain(segs)
    ensures IsNormalAbsolute(Render(segs))
  {
    if segs != [] {
      SplitJoin(segs);
      assert Render(segs)[1..] == JoinWith(segs, "/");
    }
  }

  /** Resolving a concatenation resolves its parts one after the other. */
  lemma {:induction false} ResolveAppend(acc: seq<string>, a: seq<string>, b: seq<string>)
    requires AllPlain(acc)
    ensures Resolve(acc, a + b) == Resolve(Resolve(acc, a), b)
    decreases |a|
  {
    if a == [] {
      assert a + b == b;
    } else {
      assert (a + b)[0] == a[0];
      assert (a + b)[1..] == a[1..] + b;
      var s := a[0];
      if s == "" || s == "." || '/' in s {
        ResolveAppend(acc, a[1..], b);
        assert Resolve(acc, a) == Resolve(acc, a[1..]);
      } else if s == ".." {
        var up := if acc == [] then [] else acc[..|acc| - 1];
        ResolveAppend(up, a[1..], b);
        assert Resolve(acc, a) == Resolve(up, a[1..]);
      } else {
        ResolveAppend(acc + [s], a[1..], b);
        assert Resolve(acc, a) == Resolve(acc + [s], a[1..]);
      }
    }
  }

  /** Plain components are pushed one by one. */
  lemma {:induction false} ResolvePlain(acc: seq<string>, segs: seq<string>)
    requires AllPlain(acc) && AllPlain(segs)
    ensures Resolve(acc, segs) == acc + segs
    decreases |segs|
  {
    if segs != [] {
      ResolvePlain(acc + [segs[0]], segs[1..]);
      assert acc + [segs[0]] + segs[1..] == acc + segs;
    }
  }

  /** Cutting "x/y" cuts "x" and "y" and puts the pieces together. */
  lemma {:induction false} SplitSlashConcat(x: string, y: string)
    ensures SplitSlash(x + "/" + y) == SplitSlash(x) + SplitSlash(y)
    decreases |y|
  {
    var s := x + "/" + y;
    match LastIndex(y, '/')
    case None =>
      SplitAtSlash(x, y);
    case Some(i) =>
      var a, b := x + "/" + y[..i], y[i + 1..];
      assert s == a + "/" + b by {
        assert y == y[..i] + "/" + b;
      }
      SplitAtSlash(a, b);
      SplitSlashConcat(x, y[..i]);
      ConcatAssoc(SplitSlash(x), SplitSlash(y[..i]), [b]);
  }

  /** The first piece of an absolute path is empty. */
  lemma {:induction false} SplitSlashAbsolute(s: string)
    requires IsAbsolute(s)
    ensures SplitSlash(s)[0] == ""
    decreases |s|
  {
    var i := LastIndex(s, '/').value;
    if i > 0 {
      assert s[..i][0] == '/';
      SplitSlashAbsolute(s[..i]);
    } else {
      assert SplitSlash(s[..i]) == [""];
    }
  }

  /** Resolving a rendered path gives its components back. */
  lemma ResolveRender(segs: seq<string>)
    requires AllPlain(segs)
    ensures Resolve([], SplitSlash(Render(segs))) == segs
  {
    var p := Render(segs);
    assert p == "" + "/" + JoinWith(segs, "/");
    SplitSlashConcat("", JoinWith(segs, "/"));
    assert SplitSlash("") == [""];
    if segs == [] {
      assert SplitSlash(p) == ["", ""];
      assert Resolve([], ["", ""]) == Resolve([], [""]) == Resolve([], []);
    } else {
      SplitJoin(segs);
      assert SplitSlash(p) == [""] + segs;
      ResolvePlain([], segs);
      assert Resolve([], [""] + segs) == Resolve([], segs);
    }
  }

  /** The components of a normal absolute path. */
  lemma NormalSegments(p: string) returns (segs: seq<string>)
    requires IsNormalAbsolute(p)
    ensures AllPlain(segs) && p == Render(segs)
    ensures Resolve([], SplitSlash(p)) == segs
  {
    if p == "/" {
      segs := [];
      assert SplitSlash("") == [""];
      assert p == "" + "/" + "";
      SplitSlashConcat("", "");
      assert SplitSlash(p) == ["", ""];
      assert Resolve([], ["", ""]) == Resolve([], [""]) == Resolve([], []);
    } else {
      segs := SplitSlash(p[1..]);
      assert |segs| > 0;
      JoinSplit(p[1..]);
      assert p == "/" + p[1..];
      assert p == "" + "/" + p[1..];
      SplitSlashConcat("", p[1..]);
      assert SplitSlash("") == [""];
      assert SplitSlash(p) == [""] + segs;
      ResolvePlain([], segs);
      assert Resolve([], [""] + segs) == Resolve([], segs);
    }
  }

  /** Joining the pieces of a cut puts the string back together. */
  lemma {:induction false} JoinSplit(s: string)
    ensures JoinWith(SplitSlash(s), "/") == s
    decreases |s|
  {
    match LastIndex(s, '/')
    case None =>
    case Some(i) =>
      JoinSplit(s[..i]);
      JoinWithSnoc(SplitSlash(s[..i]), s[i + 1..], "/");
      assert s == s[..i] + "/" + s[i + 1..];
  }

  /** A normal absolute path expands to itself, whatever the directory. */
  lemma ExpandNormalIsIdentity(p: string, dir: string, cwd: string)
    requires IsNormalAbsolute(p)
    requires !IsHomeRelative(dir) && IsAbsolute(cwd)
    ensures ExpandPath(p, dir, cwd) == p
  {
    var segs := NormalSegments(p);
  }

  /** A relative path is resolved on top of the resolved directory. */
  lemma ExpandRelative(path: string, dir: string, cwd: string)
    requires !IsHomeRelative(path) && !IsHomeRelative(dir) && IsAbsolute(cwd)
    requires !IsAbsolute(path)
    ensures ExpandPath(path, dir, cwd) ==
      Render(Resolve(Resolve([], SplitSlash(AbsoluteDir(dir, cwd))), SplitSlash(path)))
  {
    var d := AbsoluteDir(dir, cwd);
    SplitSlashConcat(d, path);
    ResolveAppend([], SplitSlash(d), SplitSlash(path));
  }

  /** What `expand_path` returns is normalised: no empty, "." or ".." components. */
  lemma ExpandPathIsNormal(path: string, dir: string, cwd: string)
    requires !IsHomeRelative(path) && !IsHomeRelative(dir) && IsAbsolute(cwd)
    ensures IsNormalAbsolute(ExpandPath(path, dir, cwd))
  {
    var full := if IsAbsolute(path) then path else AbsoluteDir(dir, cwd) + "/" + path;
    RenderIsNormal(Resolve([], SplitSlash(full)));
  }

  /**
   * Expanding against `dir` is expanding against `dir`'s own expansion:
   * Ruby normalises the directory first, and the result does not change.
   */
  lemma ExpandAgainstExpandedDir(path: string, dir: string, cwd: string)
    requires !IsHomeRelative(path) && !IsHomeRelative(dir) && IsAbsolute(cwd)
    ensures ExpandPath(path, dir, cwd) == ExpandPath(path, ExpandPath(dir, cwd, cwd), cwd)
  {
    if IsAbsolute(path) {
      var e := ExpandPath(dir, cwd, cwd);
      assert ExpandPath(path, dir, cwd) == Render(Resolve([], SplitSlash(path)));
      assert ExpandPath(path, e, cwd) == Render(Resolve([], SplitSlash(path)));
    } else {
      var d := AbsoluteDir(dir, cwd);
      var e := ExpandPath(dir, cwd, cwd);
      assert e == Render(Resolve([], SplitSlash(d)));
      ResolveRender(Resolve([], SplitSlash(d)));
      assert AbsoluteDir(e, cwd) == e;
      ExpandRelative(path, dir, cwd);
      ExpandRelative(path, e, cwd);
      var base := Resolve([], SplitSlash(d));
      assert Resolve([], SplitSlash(AbsoluteDir(e, cwd))) == base;
      calc {
        ExpandPath(path, dir, cwd);
        Render(Resolve(base, SplitSlash(path)));
        ExpandPath(path, e, cwd);
      }
    }
  }

  /**
   * A relative path of plain components is appended to the directory:
   * "image/tooltip.png" against "/css" is "/css/image/tooltip.png".
   */
  lemma ExpandPlainRelative(rel: string, dirSegs: seq<string>, cwd: string)
    requires dirSegs != [] && AllPlain(dirSegs) && IsAbsolute(cwd)
    requires !IsHomeRelative(rel) && AllPlain(SplitSlash(rel))
    ensures ExpandPath(rel, Render(dirSegs), cwd) == Render(dirSegs) + "/" + rel
  {
    var dir := Render(dirSegs);
    var relSegs := SplitSlash(rel);
    assert !IsAbsolute(rel) by {
      if IsAbsolute(rel) { SplitSlashAbsolute(rel); }
    }
    assert AbsoluteDir(dir, cwd) == dir;
    calc {
      ExpandPath(rel, dir, cwd);
      { ExpandRelative(rel, dir, cwd); }
      Render(Resolve(Resolve([], SplitSlash(dir)), relSegs));
      { ResolveRender(dirSegs); }
      Render(Resolve(dirSegs, relSegs));
      { ResolvePlain(dirSegs, relSegs); }
      "/" + JoinWith(dirSegs + relSegs, "/");
      { JoinWithAppend(dirSegs, relSegs, "/"); }
      "/" + JoinWith(dirSegs, "/") + "/" + JoinWith(relSegs, "/");
      { JoinSplit(rel); }
      dir + "/" + rel;
    }
  }

  /** A leading "./" changes nothing: "./image/tooltip.png" resolves like "image/tooltip.png". */
  lemma ExpandDotRelative(rel: string, dir: string, cwd: string)
    requires !IsAbsolute(rel) && !IsHomeRelative(rel)
    requires !IsHomeRelative(dir) && IsAbsolute(cwd)
    ensures ExpandPath("./" + rel, dir, cwd) == ExpandPath(rel, dir, cwd)
  {
    var dotted := "./" + rel;
    assert dotted == "." + "/" + rel;
    SplitSlashConcat(".", rel);
    assert SplitSlash(".") == ["."];
    assert !IsAbsolute(dotted) && !IsHomeRelative(dotted);
    ExpandRelative(dotted, dir, cwd);
    var base := Resolve([], SplitSlash(AbsoluteDir(dir, cwd)));
    assert Resolve(base, ["."] + SplitSlash(rel)) == Resolve(base, SplitSlash(rel));
    ExpandRelative(rel, dir, cwd);
  }

  /**
   * A leading "../" steps out of the last directory component:
   * "../images/relative.png" against "/css" is "/images/relative.png".
   */
  lemma ExpandParentRelative(rel: string, dirSegs: seq<string>, last: string, cwd: string)
    requires AllPlain(dirSegs) && IsPlain(last) && IsAbsolute(cwd)
    requires !IsAbsolute(rel) && !IsHomeRelative(rel)
    ensures ExpandPath("../" + rel, Render(dirSegs + [last]), cwd) == ExpandPath(rel, Render(dirSegs), cwd)
  {
    var inner := dirSegs + [last];
    assert AllPlain(inner) by {
      forall k | 0 <= k < |inner| ensures IsPlain(inner[k]) {
        if k < |dirSegs| { assert inner[k] == dirSegs[k]; }
      }
    }
    SplitParent(rel);
    ExpandOnRendered("../" + rel, inner, cwd);
    ExpandOnRendered(rel, dirSegs, cwd);
    ResolveParent(inner, SplitSlash(rel));
    assert inner[..|inner| - 1] == dirSegs;
  }

  /** Cutting "../rel" gives ".." followed by the pieces of `rel`. */
  lemma SplitParent(rel: string)
    ensures SplitSlash("../" + rel) == [".."] + SplitSlash(rel)
  {
    assert "../" + rel == ".." + "/" + rel;
    SplitSlashConcat("..", rel);
    assert SplitSlash("..") == [".."] by {
      assert LastIndex("..", '/') == None;
    }
  }

  /** A leading ".." drops the last resolved component. */
  lemma ResolveParent(acc: seq<string>, rest: seq<string>)
    requires acc != [] && AllPlain(acc)
    ensures Resolve(acc, [".."] + rest) == Resolve(acc[..|acc| - 1], rest)
  {
    assert ([".."] + rest)[0] == ".." && ([".."] + rest)[1..] == rest;
  }

  /** A relative path expands against a normalised directory by resolving on top of its components. */
  lemma ExpandOnRendered(path: string, segs: seq<string>, cwd: string)
    requires AllPlain(segs) && IsAbsolute(cwd)
    requires !IsAbsolute(path) && !IsHomeRelative(path)
    ensures ExpandPath(path, Render(segs), cwd) == Render(Resolve(segs, SplitSlash(path)))
  {
    var dir := Render(segs);
    assert AbsoluteDir(dir, cwd) == dir;
    ExpandRelative(path, dir, cwd);
    ResolveRender(segs);
  }

  /** The directory of a path not starting with `~` does not start with `~` either. */
  lemma DirNameNotHomeRelative(p: string)
    requires !IsHomeRelative(p)
    ensures !IsHomeRelative(DirName(p))
  {
    var t := StripTrailingSlashes(p);
    if t != "" {
      match LastIndex(t, '/')
      case None =>
      case Some(i) =>
        var d := StripTrailingSlashes(t[..i]);
        if d != "" {
          assert d[0] == t[..i][0] == p[0];
        }
    }
  }

  /** The directory of a normalised absolute file path is the path of its parent. */
  lemma DirNameOfRendered(dirSegs: seq<string>, name: string)
    requires dirSegs != [] && AllPlain(dirSegs) && IsPlain(name)
    ensures DirName(Render(dirSegs + [name])) == Render(dirSegs)
  {
    RenderSnoc(dirSegs, name);
    RenderEndsInName(dirSegs);
    DirNameOfChild(Render(dirSegs), name);
  }

  /** Rendering one more component appends a slash and the component. */
  lemma RenderSnoc(segs: seq<string>, name: string)
    requires segs != []
    ensures Render(segs + [name]) == Render(segs) + "/" + name
  {
    JoinWithSnoc(segs, name, "/");
  }

  /** A rendered non-empty sequence of plain components does not end in a slash. */
  lemma RenderEndsInName(segs: seq<string>)
    requires segs != [] && AllPlain(segs)
    ensures var d := Render(segs); d[|d| - 1] != '/'
  {
    var d := Render(segs);
    var last := segs[|segs| - 1];
    assert IsPlain(last);
    if |segs| > 1 {
      var init := segs[..|segs| - 1];
      assert init + [last] == segs;
      RenderSnoc(init, last);
    } else {
      assert d == "/" + last;
    }
    assert d[|d| - 1] == last[|last| - 1];
  }

  /** The directory of a name right below the root is the root. */
  lemma DirNameOfTopLevel(name: string)
    requires name != "" && '/' !in name
    ensures DirName("/" + name) == "/"
  {
    var p := "/" + name;
    assert StripTrailingSlashes(p) == p by {
      assert p[|p| - 1] == name[|name| - 1];
      NoTrailingSlash(p);
    }
    assert LastIndex(p, '/') == Some(0) by {
      assert p[1..] == name;
      LastIndexIs(p, '/', 0);
    }
    assert p[..0] == "";
  }

  /** `File.dirname(d + "/" + name)` is `d` for a single component `name`. */
  lemma DirNameOfChild(d: string, name: string)
    requires d != "" && d[|d| - 1] != '/'
    requires name != "" && '/' !in name
    ensures DirName(d + "/" + name) == d
  {
    var p := d + "/" + name;
    assert StripTrailingSlashes(p) == p by {
      assert p[|p| - 1] == name[|name| - 1];
      NoTrailingSlash(p);
    }
    assert LastIndex(p, '/') == Some(|d|) by {
      assert p[|d| + 1..] == name;
      LastIndexIs(p, '/', |d|);
    }
    assert p[..|d|] == d;
    NoTrailingSlash(d);
  }

  /** The extension of "stem.e" is ".e" when `e` has no dot and the stem does not start with one. */
  lemma ExtNameOfStemExt(stem: string, e: string)
    requires stem != "" && stem[0] != '.' && '/' !in stem
    requires e != "" && '.' !in e && '/' !in e
    ensures ExtName(stem + "." + e) == "." + e
  {
    var p := stem + "." + e;
    assert p[|stem|..] == "." + e && p[|stem| + 1..] == e;
    assert '/' !in p by {
      forall k | 0 <= k < |p| ensures p[k] != '/' {
        if k < |stem| { assert p[k] == stem[k]; }
        else if k > |stem| { assert p[k] == e[k - |stem| - 1]; }
      }
    }
    assert p[0] == stem[0] && p[|stem|] == '.';
    ExtNameStartOfName(p, |stem|);
    NoTrailingSlash(p);
  }

  /**
   * In a name without a slash that does not start with a dot, the extension
   * starts at the last dot when something follows it.
   */
  lemma ExtNameStartOfName(p: string, j: nat)
    requires j + 1 < |p| && p[j] == '.' && '.' !in p[j + 1..]
    requires '/' !in p && p[0] != '.'
    ensures ExtNameStart(p) == Some(j)
  {
    assert p[|p| - 1] != '/';
    NoTrailingSlash(p);
    assert LastIndex(p, '/') == None;
    assert p[0..] == p;
    LastIndexIs(p, '.', j);
  }

  /** A name without a dot has no extension. */
  lemma ExtNameWithoutDot(p: string)
    requires '.' !in p
    ensures ExtName(p) == ""
  {
    var t := StripTrailingSlashes(p);
    var s := BaseNameStart(p) + LeadingDots(t[BaseNameStart(p)..]);
    assert forall k :: s <= k < |t| ==> t[k] == p[k];
    assert '.' !in t[s..];
  }

  /** The basename of "x/n" is `n` for a single component `n`. */
  lemma BaseNameAfterSlash(x: string, n: string)
    requires n != "" && '/' !in n
    ensures BaseName(x + "/" + n) == n
  {
    var p := x + "/" + n;
    assert p[|p| - 1] == n[|n| - 1];
    NoTrailingSlash(p);
    assert p[|x| + 1..] == n;
    LastIndexIs(p, '/', |x|);
  }

  /** `File.basename(File.join(a, n))` is `n` for a single component `n`. */
  lemma BaseNameOfJoin(a: string, n: string)
    requires n != "" && '/' !in n
    ensures BaseName(Join(a, n)) == n
  {
    assert n[0] != '/';
    if |a| > 0 && a[|a| - 1] == '/' {
      assert Join(a, n) == a[..|a| - 1] + "/" + n;
      BaseNameAfterSlash(a[..|a| - 1], n);
    } else {
      BaseNameAfterSlash(a, n);
    }
  }

  /** Joining a directory with different relative paths gives different paths. */
  lemma JoinInjective(t: string, p: string, q: string)
    requires !IsAbsolute(p) && !IsAbsolute(q)
    ensures Join(t, p) == Join(t, q) <==> p == q
  {
    var pre := if |t| > 0 && t[|t| - 1] == '/' then t else t + "/";
    assert Join(t, p) == pre + p && Join(t, q) == pre + q;
    assert (pre + p)[|pre|..] == p && (pre + q)[|pre|..] == q;
  }

  /** A relative path of plain components expands against "/" to "/" followed by it. */
  lemma ExpandPlainFromRoot(rel: string, cwd: string)
    requires !IsHomeRelative(rel) && AllPlain(SplitSlash(rel)) && IsAbsolute(cwd)
    ensures ExpandPath(rel, "/", cwd) == "/" + rel
  {
    var segs := SplitSlash(rel);
    assert !IsAbsolute(rel) by {
      if IsAbsolute(rel) { SplitSlashAbsolute(rel); }
    }
    assert SplitSlash("/") == ["", ""] by {
      SplitSlashConcat("", "");
      assert "" + "/" + "" == "/";
    }
    assert "/" + "/" + rel == "/" + "/" + rel;
    SplitSlashConcat("/", rel);
    calc {
      ExpandPath(rel, "/", cwd);
      Render(Resolve([], SplitSlash("/" + "/" + rel)));
      Render(Resolve([], ["", ""] + segs));
      { ResolveAppend([], ["", ""], segs); }
      Render(Resolve([], segs));
      { ResolvePlain([], segs); assert [] + segs == segs; }
      Render(segs);
      { JoinSplit(rel); }
      "/" + rel;
    }
  }

  /** Stripping trailing slashes changes nothing when there are none. */
  lemma NoTrailingSlash(s: string)
    requires s != [] && s[|s| - 1] != '/'
    ensures StripTrailingSlashes(s) == s
  {
  }

  lemma {:induction false} JoinWithAppend(a: seq<string>, b: seq<string>, sep: string)
    requires |a| > 0 && |b| > 0
    ensures JoinWith(a + b, sep) == JoinWith(a, sep) + sep + JoinWith(b, sep)
  {
    if |a| == 1 {
      assert (a + b)[1..] == b;
    } else {
      assert (a + b)[1..] == a[1..] + b;
      JoinWithAppend(a[1..], b, sep);
    }
  }

  /**
   * For a path with a directory part, no doubled slash and no trailing slash,
   * `File.join(File.dirname(p), File.basename(p))` gives `p` back.
   */
  lemma JoinDirNameBaseName(p: string)
    requires '/' in p && p[|p| - 1] != '/'
    requires forall k :: 0 <= k < |p| - 1 ==> !(p[k] == '/' && p[k + 1] == '/')
    ensures Join(DirName(p), BaseName(p)) == p
  {
    var i := LastIndex(p, '/').value;
    if i > 0 {
      assert p[i] == '/';
      assert p[i - 1] != '/';
    }
    JoinDirNameBaseNameAt(p, i);
  }

  /** The round trip when the last slash of `p`, at `i`, is not doubled. */
  lemma JoinDirNameBaseNameAt(p: string, i: nat)
    requires i + 1 < |p| && p[i] == '/' && '/' !in p[i + 1..]
    requires i > 0 ==> p[i - 1] != '/'
    ensures Join(DirName(p), BaseName(p)) == p
  {
    var d, b := p[..i], p[i + 1..];
    LastSlashParts(p, i);
    if i == 0 {
      assert Join("/", b) == d + "/" + b;
    } else {
      assert Join(d, b) == d + "/" + b;
    }
    Reassemble(p, i);
  }

  /** A path is its part before position `i`, the slash at `i` and its part after. */
  lemma Reassemble(p: string, i: nat)
    requires i < |p| && p[i] == '/'
    ensures p[..i] + "/" + p[i + 1..] == p
  {
  }

  /** Basename and dirname of a path whose last slash, at `i`, is neither doubled nor trailing. */
  lemma LastSlashParts(p: string, i: nat)
    requires i + 1 < |p| && p[i] == '/' && '/' !in p[i + 1..]
    requires i > 0 ==> p[i - 1] != '/'
    ensures BaseName(p) == p[i + 1..] && p[i + 1] != '/'
    ensures DirName(p) == if i == 0 then "/" else p[..i]
    ensures i > 0 ==> p[..i] != "" && p[i - 1] != '/'
  {
    var d, b := p[..i], p[i + 1..];
    assert b != "" && b[0] != '/' && p[|p| - 1] == b[|b| - 1];
    assert LastIndex(StripTrailingSlashes(p), '/') == Some(i) by {
      LastIndexIs(p, '/', i);
      NoTrailingSlash(p);
    }
    if i == 0 {
      assert StripTrailingSlashes(d) == "";
    } else {
      assert d[|d| - 1] != '/';
      NoTrailingSlash(d);
    }
  }
}
