/**
 * Marker-delimited template sections (`replace_section` in kathekon/cli.py).
 *
 * The source rewrites every `<!--START_SECTION:name-->...<!--END_SECTION:name-->`
 * region with a DOTALL, non-greedy regular expression. Here the expression is
 * replaced by an explicit left-to-right scanner over the two literal markers,
 * and the lemmas state what the regular expression promises: leftmost matches,
 * each ending at the first end marker, markers kept, text outside untouched.
 */
module Sections {
  import opened Wrappers

  /** `p` occurs in `s` starting at index `i`. */
  predicate OccursAt(s: string, p: string, i: int) {
    0 <= i && i + |p| <= |s| && s[i..i + |p|] == p
  }

  /** `p` occurs somewhere in `s`. */
  ghost predicate Contains(s: string, p: string) {
    exists i :: OccursAt(s, p, i)
  }

  /** The first index at or after `from` where `p` occurs in `s`, if any. */
  function FindFrom(s: string, p: string, from: nat): (r: Option<nat>)
    ensures r.Some? ==> from <= r.value && OccursAt(s, p, r.value)
    ensures r.Some? ==> forall k :: from <= k < r.value ==> !OccursAt(s, p, k)
    ensures r.None? ==> forall k :: from <= k ==> !OccursAt(s, p, k)
    decreases |s| - from
  {
    if from + |p| > |s| then None
    else if s[from..from + |p|] == p then Some(from)
    else FindFrom(s, p, from + 1)
  }

  /** A character the regular expression treats literally when spliced in as a section name. */
  predicate IsNameChar(c: char) {
    'a' <= c <= 'z' || 'A' <= c <= 'Z' || '0' <= c <= '9' || c == '-' || c == '_'
  }

  /** A section name whose characters have no special meaning in a regular expression. */
  predicate ValidSectionName(name: string) {
    forall k :: 0 <= k < |name| ==> IsNameChar(name[k])
  }

  function StartMarker(name: string): string {
    "<!--START_SECTION:" + name + "-->"
  }

  function EndMarker(name: string): string {
    "<!--END_SECTION:" + name + "-->"
  }

  /** What a match becomes: the start marker, a newline, the body, a newline, the end marker. */
  function Rewritten(open: string, body: string, close: string): string {
    open + "\n" + body + "\n" + close
  }

  /**
   * The scanner: at each position, if the start marker begins there and an end
   * marker follows it, the whole match is rewritten as start marker, newline,
   * body, newline, end marker, and scanning resumes after the match; otherwise
   * the character is copied and scanning moves on by one.
   */
  function ReplaceDelimited(s: string, open: string, close: string, body: string): string
    requires |open| > 0
    decreases |s|
  {
    if |s| == 0 then ""
    else if OccursAt(s, open, 0) && FindFrom(s, close, |open|).Some? then
      var j := FindFrom(s, close, |open|).value;
      Rewritten(open, body, close) + ReplaceDelimited(s[j + |close|..], open, close, body)
    else
      [s[0]] + ReplaceDelimited(s[1..], open, close, body)
  }

  /**
   * `replace_section(content, section_name, replacement)`. `ReplaceUnchanged`,
   * `LeftmostSection`, `ReplaceAtSection` and `ReplaceSectionIdempotent` state
   * what it computes.
   */
  function ReplaceSection(content: string, name: string, replacement: string): string
    requires ValidSectionName(name)
    requires '\\' !in replacement
  {
    ReplaceDelimited(content, StartMarker(name), EndMarker(name), replacement)
  }

  /** Some start marker is followed, later and without overlap, by an end marker. */
  ghost predicate HasSection(s: string, open: string, close: string) {
    exists a, b :: a + |open| <= b && OccursAt(s, open, a) && OccursAt(s, close, b)
  }

  /** No start marker beginning before `i` is followed by an end marker. */
  ghost predicate NoSectionBefore(s: string, open: string, close: string, i: int) {
    forall a, b :: 0 <= a < i && a + |open| <= b ==> !(OccursAt(s, open, a) && OccursAt(s, close, b))
  }

  /** A non-greedy match from index `i`: `close` at `j` is the first end marker after the start marker. */
  ghost predicate SectionAt(s: string, open: string, close: string, i: int, j: int) {
    && OccursAt(s, open, i)
    && i + |open| <= j
    && OccursAt(s, close, j)
    && forall k :: i + |open| <= k < j ==> !OccursAt(s, close, k)
  }

  lemma OccursShift(s: string, p: string, d: nat, i: int)
    requires d <= |s| && 0 <= i
    ensures OccursAt(s[d..], p, i) <==> OccursAt(s, p, i + d)
  {
    if i + |p| <= |s| - d {
      assert s[d..][i..i + |p|] == s[i + d..i + d + |p|];
    }
  }

  /** Text before the first match is copied unchanged. */
  lemma {:induction false} ReplaceCopy(s: string, open: string, close: string, body: string, i: nat)
    requires |open| > 0 && i <= |s|
    requires NoSectionBefore(s, open, close, i)
    ensures ReplaceDelimited(s, open, close, body) == s[..i] + ReplaceDelimited(s[i..], open, close, body)
    decreases i
  {
    if i > 0 {
      CopyFirst(s, open, close, body);
      NoSectionShift(s, open, close, i);
      ReplaceCopy(s[1..], open, close, body, i - 1);
      assert s[1..][i - 1..] == s[i..];
      assert [s[0]] + s[1..][..i - 1] == s[..i];
      AppendAssoc([s[0]], s[1..][..i - 1], ReplaceDelimited(s[i..], open, close, body));
    }
  }

  /** A first character that starts no match is copied. */
  lemma CopyFirst(s: string, open: string, close: string, body: string)
    requires |open| > 0 && |s| > 0
    requires NoSectionBefore(s, open, close, 1)
    ensures ReplaceDelimited(s, open, close, body) == [s[0]] + ReplaceDelimited(s[1..], open, close, body)
  {
    var r := FindFrom(s, close, |open|);
    if r.Some? {
      assert !OccursAt(s, open, 0) by {
        assert OccursAt(s, close, r.value);
      }
    }
  }

  lemma NoSectionShift(s: string, open: string, close: string, i: nat)
    requires 0 < i <= |s|
    requires NoSectionBefore(s, open, close, i)
    ensures NoSectionBefore(s[1..], open, close, i - 1)
  {
    forall a, b | 0 <= a < i - 1 && a + |open| <= b
      ensures !(OccursAt(s[1..], open, a) && OccursAt(s[1..], close, b))
    {
      OccursShift(s, open, 1, a);
      OccursShift(s, close, 1, b);
    }
  }

  /** Without a start marker followed by an end marker, the content is returned unchanged. */
  lemma ReplaceUnchanged(s: string, open: string, close: string, body: string)
    requires |open| > 0
    requires !HasSection(s, open, close)
    ensures ReplaceDelimited(s, open, close, body) == s
  {
    ReplaceCopy(s, open, close, body, |s|);
    assert s[..|s|] == s;
  }

  /**
   * The leftmost match, ending at the first end marker after its start marker,
   * keeps both markers, puts exactly newline + body + newline between them,
   * preserves everything before it, and scanning continues after its end marker.
   */
  lemma ReplaceAtSection(s: string, open: string, close: string, body: string, i: nat, j: nat)
    requires |open| > 0
    requires SectionAt(s, open, close, i, j) && NoSectionBefore(s, open, close, i)
    ensures ReplaceDelimited(s, open, close, body)
         == s[..i] + Rewritten(open, body, close) + ReplaceDelimited(s[j + |close|..], open, close, body)
  {
    ReplaceCopy(s, open, close, body, i);
    ReplaceFromSection(s, open, close, body, i, j);
    AppendAssoc(s[..i], Rewritten(open, body, close), ReplaceDelimited(s[j + |close|..], open, close, body));
  }

  /** Scanning from the start of a match rewrites it and continues after its end marker. */
  lemma ReplaceFromSection(s: string, open: string, close: string, body: string, i: nat, j: nat)
    requires |open| > 0
    requires SectionAt(s, open, close, i, j)
    ensures ReplaceDelimited(s[i..], open, close, body)
         == Rewritten(open, body, close) + ReplaceDelimited(s[j + |close|..], open, close, body)
  {
    var t := s[i..];
    SectionShift(s, open, close, i, j);
    ReplaceMatchAtStart(t, open, close, body, j - i);
    assert t[j - i + |close|..] == s[j + |close|..];
  }

  lemma AppendAssoc(a: string, b: string, c: string)
    ensures a + b + c == a + (b + c)
  {
  }

  /** A match at `i` is, in the text from `i` on, a start marker at 0 whose first end marker is at `j - i`. */
  lemma SectionShift(s: string, open: string, close: string, i: nat, j: nat)
    requires SectionAt(s, open, close, i, j)
    ensures OccursAt(s[i..], open, 0) && FindFrom(s[i..], close, |open|) == Some(j - i)
  {
    var t := s[i..];
    OccursShift(s, open, i, 0);
    OccursShift(s, close, i, j - i);
    forall k | |open| <= k < j - i
      ensures !OccursAt(t, close, k)
    {
      OccursShift(s, close, i, k);
    }
    FindFromFirst(t, close, |open|, j - i);
  }

  /** The first occurrence at or after `from` is found. */
  lemma FindFromFirst(s: string, p: string, from: nat, j: nat)
    requires from <= j && OccursAt(s, p, j)
    requires forall k :: from <= k < j ==> !OccursAt(s, p, k)
    ensures FindFrom(s, p, from) == Some(j)
  {
  }

  /** A match that starts at index 0 and ends at the first end marker after the start marker. */
  lemma ReplaceMatchAtStart(t: string, open: string, close: string, body: string, j: nat)
    requires |open| > 0
    requires OccursAt(t, open, 0) && FindFrom(t, close, |open|) == Some(j)
    ensures ReplaceDelimited(t, open, close, body)
         == Rewritten(open, body, close) + ReplaceDelimited(t[j + |close|..], open, close, body)
  {
  }

  /** Whenever some section exists, there is a leftmost one, and it ends at its first end marker. */
  lemma LeftmostSection(s: string, open: string, close: string, n: nat) returns (i: nat, j: nat)
    requires |open| > 0
    requires HasSection(s, open, close) && NoSectionBefore(s, open, close, n)
    ensures SectionAt(s, open, close, i, j) && NoSectionBefore(s, open, close, i)
    decreases |s| - n
  {
    if OccursAt(s, open, n) && FindFrom(s, close, n + |open|).Some? {
      i, j := n, FindFrom(s, close, n + |open|).value;
    } else {
      var a, b :| a + |open| <= b && OccursAt(s, open, a) && OccursAt(s, close, b);
      assert n <= a < |s|;
      i, j := LeftmostSection(s, open, close, n + 1);
    }
  }

  /**
   * Rewriting twice with the same body gives the result of rewriting once,
   * provided the body cannot produce an end marker of its own.
   */
  lemma {:induction false} ReplaceIdempotent(s: string, open: string, close: string, body: string)
    requires |open| > 0
    requires '\n' !in close && !Contains(body, close)
    ensures var t := ReplaceDelimited(s, open, close, body);
            ReplaceDelimited(t, open, close, body) == t
    decreases |s|
  {
    if !HasSection(s, open, close) {
      ReplaceUnchanged(s, open, close, body);
    } else {
      var i, j := LeftmostSection(s, open, close, 0);
      ReplaceAtSection(s, open, close, body, i, j);
      var rest := s[j + |close|..];
      var r := ReplaceDelimited(rest, open, close, body);
      ReplaceIdempotent(rest, open, close, body);
      var t := s[..i] + Rewritten(open, body, close) + r;
      var e := RewrittenStaysLeftmost(s, open, close, body, r, i, j);
      ReplaceAtSection(t, open, close, body, i, e);
      assert t[..i] == s[..i];
      assert t[e + |close|..] == r;
    }
  }

  /**
   * Once the leftmost match is rewritten, the rewritten text is again the
   * leftmost match, ending at its own end marker `e`.
   */
  lemma RewrittenStaysLeftmost(s: string, open: string, close: string, body: string, r: string, i: nat, j: nat)
    returns (e: nat)
    requires '\n' !in close && !Contains(body, close)
    requires SectionAt(s, open, close, i, j) && NoSectionBefore(s, open, close, i)
    ensures var t := s[..i] + Rewritten(open, body, close) + r;
            && e == i + |open| + |body| + 2
            && SectionAt(t, open, close, i, e) && NoSectionBefore(t, open, close, i)
  {
    var w := Rewritten(open, body, close);
    var t := s[..i] + w + r;
    e := i + |open| + |body| + 2;
    RewrittenFirstClose(open, body, close);
    assert t[i..] == w + r;
    forall k | i + |open| <= k < e
      ensures !OccursAt(t, close, k)
    {
      OccursShift(t, close, i, k - i);
      OccursPrefix(w, r, close, k - i);
    }
    OccursShift(t, open, i, 0);
    OccursPrefix(w, r, open, 0);
    OccursShift(t, close, i, e - i);
    OccursPrefix(w, r, close, e - i);
    assert t[..i + |open|] == s[..i + |open|];
    forall a, b | 0 <= a < i && a + |open| <= b
      ensures !(OccursAt(t, open, a) && OccursAt(t, close, b))
    {
      assert t[a..a + |open|] == s[a..a + |open|];
      assert !OccursAt(s, open, a) by {
        assert a + |open| <= j && OccursAt(s, close, j);
      }
    }
  }

  /** An occurrence that ends within `w` is decided by `w` alone. */
  lemma OccursPrefix(w: string, r: string, p: string, k: nat)
    requires k + |p| <= |w|
    ensures OccursAt(w + r, p, k) <==> OccursAt(w, p, k)
  {
    assert (w + r)[k..k + |p|] == w[k..k + |p|];
  }

  /**
   * In the rewritten match, the first end marker after the start marker is the
   * one at its end: the newlines around the body cannot belong to an end marker,
   * and the body holds none.
   */
  lemma RewrittenFirstClose(open: string, body: string, close: string)
    requires '\n' !in close && !Contains(body, close)
    ensures var w := Rewritten(open, body, close);
            && |w| == |open| + |body| + 2 + |close|
            && w[..|open|] == open
            && w[|w| - |close|..] == close
            && forall k :: |open| <= k < |open| + |body| + 2 ==> !OccursAt(w, close, k)
  {
    var w := Rewritten(open, body, close);
    assert !OccursAt(body, close, 0);
    forall k | |open| <= k < |open| + |body| + 2
      ensures !OccursAt(w, close, k)
    {
      if k == |open| {
        assert w[k] == '\n';
      } else if k + |close| <= |open| + |body| + 1 {
        var k' := k - |open| - 1;
        assert w[k..k + |close|] == body[k'..k' + |close|];
        assert !OccursAt(body, close, k');
      } else {
        assert w[|open| + |body| + 1] == '\n';
        if k + |close| <= |w| {
          assert w[k..k + |close|][|open| + |body| + 1 - k] == '\n';
        }
      }
    }
  }
  /** The shape of the two markers for a name the regular expression reads literally. */
  lemma MarkerShape(name: string)
    requires ValidSectionName(name)
    ensures StartMarker(name)[0] == '<' && '<' !in StartMarker(name)[1..]
    ensures EndMarker(name)[0] == '<' && '<' !in EndMarker(name)[1..]
    ensures StartMarker(name)[4] == 'S' && EndMarker(name)[4] == 'E'
    ensures |StartMarker(name)| == 21 + |name| && StartMarker(name)[18..18 + |name|] == name
    ensures '\n' !in EndMarker(name)
  {
    forall k | 0 <= k < |name|
      ensures name[k] != '<' && name[k] != '\n'
    {
      assert IsNameChar(name[k]);
    }
    StartShape(name);
    EndShape(name);
  }

  lemma StartShape(name: string)
    requires '<' !in name
    ensures StartMarker(name)[0] == '<' && '<' !in StartMarker(name)[1..]
    ensures StartMarker(name)[4] == 'S'
    ensures |StartMarker(name)| == 21 + |name| && StartMarker(name)[18..18 + |name|] == name
  {
    assert StartMarker(name)[1..] == "!--START_SECTION:" + name + "-->";
  }

  lemma EndShape(name: string)
    requires '<' !in name && '\n' !in name
    ensures EndMarker(name)[0] == '<' && '<' !in EndMarker(name)[1..]
    ensures EndMarker(name)[4] == 'E' && '\n' !in EndMarker(name)
  {
    assert EndMarker(name)[1..] == "!--END_SECTION:" + name + "-->";
  }

  /** `replace_section` is idempotent when the replacement holds no end marker of its section. */
  lemma ReplaceSectionIdempotent(content: string, name: string, replacement: string)
    requires ValidSectionName(name) && '\\' !in replacement
    requires !Contains(replacement, EndMarker(name))
    ensures var once := ReplaceSection(content, name, replacement);
            ReplaceSection(once, name, replacement) == once
  {
    MarkerShape(name);
    ReplaceIdempotent(content, StartMarker(name), EndMarker(name), replacement);
  }

  /** A document that is a single section: its old body is replaced and its markers are kept. */
  lemma ReplaceSingleSection(name: string, oldBody: string, replacement: string)
    requires ValidSectionName(name) && '\\' !in replacement && '<' !in oldBody
    ensures ReplaceSection(StartMarker(name) + oldBody + EndMarker(name), name, replacement)
         == StartMarker(name) + "\n" + replacement + "\n" + EndMarker(name)
  {
    var open, close := StartMarker(name), EndMarker(name);
    MarkerShape(name);
    ReplaceOwnBlock(oldBody, "", open, close, replacement);
    assert open + oldBody + close + "" == open + oldBody + close;
    assert ReplaceDelimited("", open, close, replacement) == "";
  }

  /** Text without a `<` can hold no marker, so it is copied unchanged. */
  lemma ReplacePlain(u: string, v: string, open: string, close: string, body: string)
    requires |open| > 0 && open[0] == '<' && '<' !in u
    ensures ReplaceDelimited(u + v, open, close, body) == u + ReplaceDelimited(v, open, close, body)
  {
    var s := u + v;
    forall a | 0 <= a < |u|
      ensures !OccursAt(s, open, a)
    {
      assert s[a] == u[a];
      if a + |open| <= |s| {
        assert s[a..a + |open|][0] == s[a];
      }
    }
    ReplaceCopy(s, open, close, body, |u|);
    assert s[..|u|] == u && s[|u|..] == v;
  }

  /**
   * A marker that begins with `<`, holds no other `<`, and differs from the start
   * marker at index `k` is copied unchanged.
   */
  lemma ReplaceForeignMarker(mk: string, v: string, open: string, close: string, body: string, k: nat)
    requires |open| > 0 && open[0] == '<'
    requires |mk| > 0 && '<' !in mk[1..]
    requires k < |mk| && k < |open| && mk[k] != open[k]
    ensures ReplaceDelimited(mk + v, open, close, body) == mk + ReplaceDelimited(v, open, close, body)
  {
    var s := mk + v;
    forall a | 0 <= a < |mk|
      ensures !OccursAt(s, open, a)
    {
      if a == 0 {
        if |open| <= |s| {
          assert s[..|open|][k] == mk[k];
        }
      } else {
        assert s[a] == mk[1..][a - 1];
        if a + |open| <= |s| {
          assert s[a..a + |open|][0] == s[a];
        }
      }
    }
    ReplaceCopy(s, open, close, body, |mk|);
    assert s[..|mk|] == mk && s[|mk|..] == v;
  }

  /** A section whose old body holds no `<` is rewritten, and scanning goes on after it. */
  lemma ReplaceOwnBlock(m: string, v: string, open: string, close: string, body: string)
    requires |open| > 0 && |close| > 0 && close[0] == '<' && '<' !in m
    ensures ReplaceDelimited(open + m + close + v, open, close, body)
         == Rewritten(open, body, close) + ReplaceDelimited(v, open, close, body)
  {
    var t := open + m + close + v;
    var j := |open| + |m|;
    forall k | |open| <= k < j
      ensures !OccursAt(t, close, k)
    {
      assert t[k] == m[k - |open|];
      if k + |close| <= |t| {
        assert t[k..k + |close|][0] == t[k];
      }
    }
    assert t[..|open|] == open;
    assert t[j..j + |close|] == close;
    FindFromFirst(t, close, |open|, j);
    ReplaceMatchAtStart(t, open, close, body, j);
    assert t[j + |close|..] == v;
  }
  /** A section delimited by markers other than `open`, whose body holds no `<`, is copied unchanged. */
  lemma ReplaceForeignBlock(o: string, m: string, c: string, v: string, open: string, close: string, body: string, k: nat)
    requires |open| > 4 && open[0] == '<'
    requires |o| > 0 && '<' !in o[1..] && k < |o| && k < |open| && o[k] != open[k]
    requires |c| > 4 && '<' !in c[1..] && c[4] != open[4]
    requires '<' !in m
    ensures ReplaceDelimited(o + m + c + v, open, close, body) == o + m + c + ReplaceDelimited(v, open, close, body)
  {
    var r := ReplaceDelimited(v, open, close, body);
    AppendAssoc(o + m, c, v);
    AppendAssoc(o, m, c + v);
    ReplaceForeignMarker(o, m + (c + v), open, close, body, k);
    ReplacePlain(m, c + v, open, close, body);
    ReplaceForeignMarker(c, v, open, close, body, 4);
    AppendAssoc(o + m, c, r);
    AppendAssoc(o, m, c + r);
  }
}
