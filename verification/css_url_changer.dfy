/**
 * `Bagit::CssUrlChanger`: rewrites the first quoted, colon-free `url(...)`
 * reference of every line of a stylesheet to the url the packager recorded
 * for the file it points to.
 */
module CssUrlChanger {
  import opened Wrappers
  import opened Strings
  import opened RubyPath

  /** The value the rewriter looks up: only its `url` entry is read. */
  datatype UrlInfo = UrlInfo(url: Option<string>)

  type UrlMap = map<string, UrlInfo>

  predicate IsQuote(c: char)
  {
    c == '\'' || c == '"'
  }

  /**
   * The pattern `url\(['"]([^:]+)['"]\)` matches at `i` with a capture of
   * length `k`: "url(", a quote, `k` characters none of which is a colon,
   * a quote and ")". The two quotes need not be the same.
   */
  predicate MatchAt(line: string, i: int, k: int)
  {
    0 <= i && 1 <= k && i + k + 7 <= |line| &&
    line[i..i + 4] == "url(" && IsQuote(line[i + 4]) &&
    ':' !in line[i + 5..i + 5 + k] &&
    IsQuote(line[i + 5 + k]) && line[i + 6 + k] == ')'
  }

  /** The longest capture of at most `k` characters for a match at `i`. */
  function LongestCapture(line: string, i: nat, k: nat): (r: Option<nat>)
    ensures r.Some? ==> 1 <= r.value <= k && MatchAt(line, i, r.value)
    ensures r.Some? ==> forall k' :: r.value < k' <= k ==> !MatchAt(line, i, k')
    ensures r.None? ==> forall k' :: k' <= k ==> !MatchAt(line, i, k')
  {
    if k == 0 then None
    else if MatchAt(line, i, k) then Some(k)
    else LongestCapture(line, i, k - 1)
  }

  /** The leftmost match starting at `i` or later, with its greedy capture. */
  function FindUrlFrom(line: string, i: nat): (r: Option<(nat, nat)>)
    ensures r.Some? ==> i <= r.value.0 && MatchAt(line, r.value.0, r.value.1)
    ensures r.Some? ==> forall j, k :: i <= j < r.value.0 ==> !MatchAt(line, j, k)
    ensures r.Some? ==> forall k :: r.value.1 < k ==> !MatchAt(line, r.value.0, k)
    ensures r.None? ==> forall j, k :: i <= j ==> !MatchAt(line, j, k)
    decreases |line| - i
  {
    if |line| < i + 8 then None
    else
      match LongestCapture(line, i, |line| - i - 7)
      case Some(k) => Some((i, k))
      case None => FindUrlFrom(line, i + 1)
  }

  /**
   * `line.match(/url\(['"]([^:]+)['"]\)/)`: the position of the leftmost
   * match and the length of its capture, which is the longest one possible
   * there.
   */
  function FindUrl(line: string): (r: Option<(nat, nat)>)
    ensures r.Some? <==> exists j, k :: MatchAt(line, j, k)
    ensures r.Some? ==> MatchAt(line, r.value.0, r.value.1)
    ensures r.Some? ==> forall j, k :: j < r.value.0 ==> !MatchAt(line, j, k)
    ensures r.Some? ==> forall k :: r.value.1 < k ==> !MatchAt(line, r.value.0, k)
  {
    FindUrlFrom(line, 0)
  }

  /** `match[1]`: the captured payload of a match. */
  function Capture(line: string, i: nat, k: nat): (c: string)
    requires MatchAt(line, i, k)
    ensures |c| == k && OccursAt(line, c, i + 5) && ':' !in c
  {
    line[i + 5..i + 5 + k]
  }

  /** The payload of the line's match, if any, does not start with `~`. */
  predicate NoHomePayload(line: string)
  {
    match FindUrl(line)
    case None => true
    case Some(m) => line[m.0 + 5] != '~'
  }

  /**
   * One step of `process_lines_with_map`: the payload of the first match is
   * expanded against `baseDir`; when the map has a url for it, the first
   * literal occurrence of the payload in the line is replaced by that url,
   * whose backslash escapes `sub!` reads.
   */
  function ProcessLine(line: string, baseDir: string, urlMap: UrlMap, cwd: string): string
    requires NoHomePayload(line) && !IsHomeRelative(baseDir) && IsAbsolute(cwd)
  {
    match FindUrl(line)
    case None => line
    case Some(m) =>
      var payload := Capture(line, m.0, m.1);
      var key := ExpandPath(payload, baseDir, cwd);
      if key in urlMap && urlMap[key].url.Some? then
        Sub(line, payload, urlMap[key].url.value)
      else line
  }

  /** Every line processed on its own, in order. */
  function ProcessLines(lines: seq<string>, baseDir: string, urlMap: UrlMap, cwd: string): (r: seq<string>)
    requires forall k :: 0 <= k < |lines| ==> NoHomePayload(lines[k])
    requires !IsHomeRelative(baseDir) && IsAbsolute(cwd)
    ensures |r| == |lines|
    ensures forall k :: 0 <= k < |lines| ==> r[k] == ProcessLine(lines[k], baseDir, urlMap, cwd)
  {
    if lines == [] then []
    else
      var rest := ProcessLines(lines[1..], baseDir, urlMap, cwd);
      assert forall k :: 0 < k < |lines| ==> rest[k - 1] == ProcessLine(lines[k], baseDir, urlMap, cwd);
      [ProcessLine(lines[0], baseDir, urlMap, cwd)] + rest
  }

  /**
   * `process_lines_with_map`: rewrites the lines in place, one by one; the
   * array keeps its length and order.
   */
  method ProcessLinesWithMap(lines: array<string>, baseDir: string, urlMap: UrlMap, cwd: string)
    requires forall k :: 0 <= k < lines.Length ==> NoHomePayload(lines[k])
    requires !IsHomeRelative(baseDir) && IsAbsolute(cwd)
    modifies lines
    ensures forall k :: 0 <= k < lines.Length ==> lines[k] == ProcessLine(old(lines[k]), baseDir, urlMap, cwd)
  {
    ghost var original := lines[..];
    var n := 0;
    while n < lines.Length
      invariant 0 <= n <= lines.Length
      invariant forall k :: 0 <= k < n ==> lines[k] == ProcessLine(original[k], baseDir, urlMap, cwd)
      invariant forall k :: n <= k < lines.Length ==> lines[k] == original[k]
    {
      lines[n] := ProcessLine(lines[n], baseDir, urlMap, cwd);
      n := n + 1;
    }
  }

  /**
   * `process_file_with_map` on the file's text: the lines are read with
   * their newlines, rewritten relative to the file's directory and written
   * back joined.
   */
  method ProcessFileWithMap(file: string, text: string, urlMap: UrlMap, cwd: string) returns (newText: string)
    requires forall line :: line in SplitLines(text) ==> NoHomePayload(line)
    requires !IsHomeRelative(file) && IsAbsolute(cwd)
    ensures newText == Concat(ProcessLines(SplitLines(text), DirName(file), urlMap, cwd))
    ensures (forall line :: line in SplitLines(text) ==> FindUrl(line).None?) ==> newText == text
  {
    var baseDir := DirName(file);
    DirNameNotHomeRelative(file);
    var lines := SplitLines(text);
    var buffer := new string[|lines|](k requires 0 <= k < |lines| => lines[k]);
    assert buffer[..] == lines;
    ProcessLinesWithMap(buffer, baseDir, urlMap, cwd);
    ProcessedEach(buffer[..], lines, baseDir, urlMap, cwd);
    newText := Concat(buffer[..]);
    if forall line :: line in lines ==> FindUrl(line).None? {
      UnmatchedLinesKept(lines, baseDir, urlMap, cwd);
      ConcatSplitLines(text);
    }
  }

  /** Lines rewritten one by one are the lines `ProcessLines` gives. */
  lemma ProcessedEach(done: seq<string>, lines: seq<string>, baseDir: string, urlMap: UrlMap, cwd: string)
    requires forall k :: 0 <= k < |lines| ==> NoHomePayload(lines[k])
    requires !IsHomeRelative(baseDir) && IsAbsolute(cwd)
    requires |done| == |lines|
    requires forall k :: 0 <= k < |lines| ==> done[k] == ProcessLine(lines[k], baseDir, urlMap, cwd)
    ensures done == ProcessLines(lines, baseDir, urlMap, cwd)
  {
  }

  /** Lines none of which has a match come out as they are. */
  lemma UnmatchedLinesKept(lines: seq<string>, baseDir: string, urlMap: UrlMap, cwd: string)
    requires forall line :: line in lines ==> FindUrl(line).None?
    requires !IsHomeRelative(baseDir) && IsAbsolute(cwd)
    ensures forall k :: 0 <= k < |lines| ==> NoHomePayload(lines[k])
    ensures ProcessLines(lines, baseDir, urlMap, cwd) == lines
  {
    assert forall k :: 0 <= k < |lines| ==> FindUrl(lines[k]).None? by {
      forall k | 0 <= k < |lines| ensures FindUrl(lines[k]).None? {
        assert lines[k] in lines;
      }
    }
  }

  // ---- properties of the rewriter ----

  /** A line without a quoted, colon-free `url(...)` is returned unchanged. */
  lemma NoMatchUnchanged(line: string, baseDir: string, urlMap: UrlMap, cwd: string)
    requires forall j, k :: !MatchAt(line, j, k)
    requires !IsHomeRelative(baseDir) && IsAbsolute(cwd)
    ensures NoHomePayload(line)
    ensures ProcessLine(line, baseDir, urlMap, cwd) == line
  {
  }

  /**
   * A url whose payload reaches a colon before any quote (`attach://`,
   * `http://`, `data:`) is never matched: when it is the only `url(` of the
   * line, the line is unchanged.
   */
  lemma ColonPayloadUntouched(line: string, at: nat, c: nat, baseDir: string, urlMap: UrlMap, cwd: string)
    requires OccursAt(line, "url(", at) && at + 5 + c < |line|
    requires forall j :: OccursAt(line, "url(", j) ==> j == at
    requires line[at + 5 + c] == ':'
    requires forall m :: at + 5 <= m < at + 5 + c ==> !IsQuote(line[m])
    requires !IsHomeRelative(baseDir) && IsAbsolute(cwd)
    ensures FindUrl(line).None?
    ensures ProcessLine(line, baseDir, urlMap, cwd) == line
  {
    forall j, k ensures !MatchAt(line, j, k) {
      if 0 <= j && 1 <= k && j + k + 7 <= |line| && line[j..j + 4] == "url(" {
        assert OccursAt(line, "url(", j);
        if k > c {
          assert line[j + 5..j + 5 + k][c] == ':';
        } else {
          assert !IsQuote(line[j + 5 + k]);
        }
      }
    }
  }

  /**
   * When the expanded payload has a url in the map, the result is the line
   * with the FIRST literal occurrence of the payload replaced: that
   * occurrence starts no later than the match's own capture (it may lie
   * before it, e.g. in a selector), and the line is changed in that one
   * place only, to the url with its escapes read; a url without a
   * backslash is inserted as it is.
   */
  lemma ProcessLineRewrites(line: string, baseDir: string, urlMap: UrlMap, cwd: string)
    returns (j: nat, payload: string, url: string)
    requires NoHomePayload(line) && !IsHomeRelative(baseDir) && IsAbsolute(cwd)
    requires FindUrl(line).Some?
    requires var m := FindUrl(line).value;
      var key := ExpandPath(Capture(line, m.0, m.1), baseDir, cwd);
      key in urlMap && urlMap[key].url.Some?
    ensures payload == Capture(line, FindUrl(line).value.0, FindUrl(line).value.1)
    ensures var key := ExpandPath(payload, baseDir, cwd); key in urlMap && urlMap[key].url == Some(url)
    ensures j <= FindUrl(line).value.0 + 5 && OccursAt(line, payload, j)
    ensures forall i :: 0 <= i < j ==> !OccursAt(line, payload, i)
    ensures ProcessLine(line, baseDir, urlMap, cwd) ==
      line[..j] + SubExpand(url, payload, line[..j], line[j + |payload|..]) + line[j + |payload|..]
    ensures '\\' !in url ==> ProcessLine(line, baseDir, urlMap, cwd) == line[..j] + url + line[j + |payload|..]
  {
    var m := FindUrl(line).value;
    payload := Capture(line, m.0, m.1);
    url := urlMap[ExpandPath(payload, baseDir, cwd)].url.value;
    ProcessLineIsSub(line, baseDir, urlMap, cwd);
    j := SubBefore(line, payload, url, m.0 + 5);
  }

  /** With a url in the map, the line goes through `sub!` with that url. */
  lemma ProcessLineIsSub(line: string, baseDir: string, urlMap: UrlMap, cwd: string)
    requires NoHomePayload(line) && !IsHomeRelative(baseDir) && IsAbsolute(cwd)
    requires FindUrl(line).Some?
    requires var m := FindUrl(line).value;
      var key := ExpandPath(Capture(line, m.0, m.1), baseDir, cwd);
      key in urlMap && urlMap[key].url.Some?
    ensures var m := FindUrl(line).value;
      var payload := Capture(line, m.0, m.1);
      ProcessLine(line, baseDir, urlMap, cwd) == Sub(line, payload, urlMap[ExpandPath(payload, baseDir, cwd)].url.value)
  {
  }

  /** When the expanded payload has no url in the map, the line is unchanged. */
  lemma ProcessLineKeeps(line: string, baseDir: string, urlMap: UrlMap, cwd: string)
    requires NoHomePayload(line) && !IsHomeRelative(baseDir) && IsAbsolute(cwd)
    requires FindUrl(line).Some?
    requires var m := FindUrl(line).value;
      var key := ExpandPath(Capture(line, m.0, m.1), baseDir, cwd);
      !(key in urlMap && urlMap[key].url.Some?)
    ensures ProcessLine(line, baseDir, urlMap, cwd) == line
  {
  }

  /**
   * The lookup key of a "./"-relative payload in a stylesheet at
   * `<dir>/<name>` is `<dir>/<payload without "./">`:
   * `./image/tooltip.png` in `/css/style.css` is looked up as
   * `/css/image/tooltip.png`.
   */
  lemma DotRelativeKey(dirSegs: seq<string>, name: string, rel: string, cwd: string)
    requires dirSegs != [] && AllPlain(dirSegs) && IsPlain(name)
    requires !IsHomeRelative(rel) && AllPlain(SplitSlash(rel))
    requires IsAbsolute(cwd)
    ensures !IsHomeRelative(DirName(Render(dirSegs + [name])))
    ensures ExpandPath("./" + rel, DirName(Render(dirSegs + [name])), cwd) == Render(dirSegs) + "/" + rel
  {
    DirNameOfRendered(dirSegs, name);
    assert !IsAbsolute(rel) by {
      if IsAbsolute(rel) { SplitSlashAbsolute(rel); }
    }
    ExpandDotRelative(rel, Render(dirSegs), cwd);
    ExpandPlainRelative(rel, dirSegs, cwd);
  }
}
