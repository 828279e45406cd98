/**
 * The scanner: the text is cut at the matches into gaps, copied as they are, and matched
 * spans, each wrapped in the colour its group selects.
 */
module Scanner {
  import opened Wrappers
  import opened Regex
  import Colors
  import Compiler

  /** Python's `s[lo:hi]` for non-negative bounds: clamped to the string, empty when lo >= hi. */
  function Slice(s: string, lo: nat, hi: nat): (r: string)
    ensures lo <= hi <= |s| ==> r == s[lo..hi]
    ensures hi <= lo ==> r == []
    ensures |r| <= |s|
  {
    var h := if hi < |s| then hi else |s|;
    if lo < h then s[lo..h] else []
  }

  /** Adjacent slices join up. */
  lemma SliceJoin(s: string, a: nat, b: nat, c: nat)
    requires a <= b <= c <= |s|
    ensures Slice(s, a, b) + Slice(s, b, c) == Slice(s, a, c)
  {
    assert s[a..b] + s[b..c] == s[a..c];
  }

  /** `m.group(0)`: the matched text. */
  function MatchedText(txt: string, m: Match): string {
    Slice(txt, m.start, m.end)
  }

  /** `s.startswith("g_")`: the prefix of every generated group name. */
  predicate HasGroupPrefix(s: string) {
    |s| >= 2 && s[0] == 'g' && s[1] == '_'
  }

  /** Python's `d.get(k, "")`. */
  function Get(d: map<string, string>, k: string): string
  {
    if k in d then d[k] else ""
  }

  /** The group a match is attributed to: its `lastgroup` when that is set and starts with `g_`, else "". */
  function FoundGroup(m: Match): (g: string)
  {
    if m.lastgroup.Some? && HasGroupPrefix(m.lastgroup.value) then m.lastgroup.value else ""
  }

  /**
   * The colour of a match: a word-group match takes the colour its exact text has in the
   * word map; any other match the colour its group has in the group table.
   */
  function MatchColor(txt: string, m: Match, wordsColorMap: map<string, string>, regexColorMap: map<string, string>): string
  {
    var g := FoundGroup(m);
    if g == Compiler.WordGroup then Get(wordsColorMap, MatchedText(txt, m)) else Get(regexColorMap, g)
  }

  /** The dispatch of MatchColor, case by case. */
  lemma MatchColorDispatch(txt: string, m: Match, wordsColorMap: map<string, string>, regexColorMap: map<string, string>)
    requires "" !in regexColorMap
    ensures m.lastgroup == Some(Compiler.WordGroup) ==>
      MatchColor(txt, m, wordsColorMap, regexColorMap) == Get(wordsColorMap, MatchedText(txt, m))
    ensures m.lastgroup.Some? && m.lastgroup.value != Compiler.WordGroup && HasGroupPrefix(m.lastgroup.value) ==>
      MatchColor(txt, m, wordsColorMap, regexColorMap) == Get(regexColorMap, m.lastgroup.value)
    ensures m.lastgroup.None? || !HasGroupPrefix(m.lastgroup.value) ==>
      MatchColor(txt, m, wordsColorMap, regexColorMap) == ""
    ensures m.lastgroup == Some(Compiler.WordGroup) && MatchedText(txt, m) !in wordsColorMap ==>
      Colors.Highlight(MatchedText(txt, m), MatchColor(txt, m, wordsColorMap, regexColorMap)) == MatchedText(txt, m)
  {
    assert HasGroupPrefix(Compiler.WordGroup);
    assert "" !in Colors.ColorDict;
  }

  /** A match attributed to no generated group comes out exactly as matched. */
  lemma UnnamedMatchUncolored(txt: string, m: Match, wordsColorMap: map<string, string>, regexColorMap: map<string, string>)
    requires "" !in regexColorMap
    requires m.lastgroup.None? || !HasGroupPrefix(m.lastgroup.value)
    ensures Colors.Highlight(MatchedText(txt, m), MatchColor(txt, m, wordsColorMap, regexColorMap)) == MatchedText(txt, m)
  {
    MatchColorDispatch(txt, m, wordsColorMap, regexColorMap);
    assert "" !in Colors.ColorDict;
  }

  /** A piece of the output: a gap copied verbatim, or a matched span with its colour. */
  datatype Segment = Verbatim(text: string) | Colored(text: string, color: string)

  /** What a segment contributes to the output. */
  function Paint(seg: Segment): string {
    match seg
    case Verbatim(t) => t
    case Colored(t, c) => Colors.Highlight(t, c)
  }

  /** The output: every segment painted, in order. */
  function Render(segs: seq<Segment>): string {
    if segs == [] then "" else Paint(segs[0]) + Render(segs[1..])
  }

  /** The segments' texts without any colour. */
  function Plain(segs: seq<Segment>): string {
    if segs == [] then "" else segs[0].text + Plain(segs[1..])
  }

  /**
   * The pieces of `txt` from `lastend` on, cut at `ms`: for each match the gap before it
   * and the match itself, then the tail after the last match.
   */
  function Segments(txt: string, lastend: nat, ms: seq<Match>, wordsColorMap: map<string, string>, regexColorMap: map<string, string>): seq<Segment>
    decreases |ms|
  {
    if ms == [] then [Verbatim(Slice(txt, lastend, |txt|))]
    else
      [Verbatim(Slice(txt, lastend, ms[0].start)), Colored(MatchedText(txt, ms[0]), MatchColor(txt, ms[0], wordsColorMap, regexColorMap))]
      + Segments(txt, ms[0].end, ms[1..], wordsColorMap, regexColorMap)
  }

  /** What the scanner produces for `txt` and its matches. */
  function HighlightedText(txt: string, ms: seq<Match>, wordsColorMap: map<string, string>, regexColorMap: map<string, string>): string {
    Render(Segments(txt, 0, ms, wordsColorMap, regexColorMap))
  }

  lemma RenderPair(a: Segment, b: Segment, rest: seq<Segment>)
    ensures Render([a, b] + rest) == Paint(a) + Paint(b) + Render(rest)
  {
    assert ([a, b] + rest)[1..] == [b] + rest;
    assert ([b] + rest)[1..] == rest;
  }

  /** Rendering the segments from `lastend` on: the first gap, the first match coloured, the rest. */
  lemma RenderStep(txt: string, lastend: nat, ms: seq<Match>, wordsColorMap: map<string, string>, regexColorMap: map<string, string>)
    ensures ms == [] ==> Render(Segments(txt, lastend, ms, wordsColorMap, regexColorMap)) == Slice(txt, lastend, |txt|)
    ensures ms != [] ==>
      Render(Segments(txt, lastend, ms, wordsColorMap, regexColorMap))
        == Slice(txt, lastend, ms[0].start)
           + Colors.Highlight(MatchedText(txt, ms[0]), MatchColor(txt, ms[0], wordsColorMap, regexColorMap))
           + Render(Segments(txt, ms[0].end, ms[1..], wordsColorMap, regexColorMap))
  {
    if ms != [] {
      RenderPair(Verbatim(Slice(txt, lastend, ms[0].start)),
        Colored(MatchedText(txt, ms[0]), MatchColor(txt, ms[0], wordsColorMap, regexColorMap)),
        Segments(txt, ms[0].end, ms[1..], wordsColorMap, regexColorMap));
    } else {
      assert Segments(txt, lastend, ms, wordsColorMap, regexColorMap)[1..] == [];
    }
  }

  /** One match over the whole text: the output is the whole text in that match's colour. */
  lemma WholeTextMatch(txt: string, ms: seq<Match>, wordsColorMap: map<string, string>, regexColorMap: map<string, string>)
    requires |ms| == 1 && ms[0].start == 0 && ms[0].end == |txt|
    ensures HighlightedText(txt, ms, wordsColorMap, regexColorMap) == Colors.Highlight(txt, MatchColor(txt, ms[0], wordsColorMap, regexColorMap))
  {
    RenderStep(txt, 0, ms, wordsColorMap, regexColorMap);
    RenderStep(txt, |txt|, ms[1..], wordsColorMap, regexColorMap);
    assert ms[1..] == [];
    assert MatchedText(txt, ms[0]) == txt[0..|txt|] == txt;
  }

  /**
   * Regrouping of a four-part concatenation. The scanning loop in the writer calls it to
   * keep the string reasoning of its loop body small.
   */
  lemma ConcatAssoc(a: string, b: string, c: string, d: string)
    ensures a + (b + c + d) == a + b + c + d
  {
  }

  lemma PlainPair(a: Segment, b: Segment, rest: seq<Segment>)
    ensures Plain([a, b] + rest) == a.text + b.text + Plain(rest)
  {
    assert ([a, b] + rest)[1..] == [b] + rest;
    assert ([b] + rest)[1..] == rest;
  }

  /** There are two segments per match and one more for the tail. */
  lemma {:induction false} SegmentsLength(txt: string, lastend: nat, ms: seq<Match>, wordsColorMap: map<string, string>, regexColorMap: map<string, string>)
    ensures |Segments(txt, lastend, ms, wordsColorMap, regexColorMap)| == 2 * |ms| + 1
    decreases |ms|
  {
    if ms != [] {
      SegmentsLength(txt, ms[0].end, ms[1..], wordsColorMap, regexColorMap);
    }
  }

  /**
   * The segments alternate: segment 2k is the gap from the end of match k - 1 (or from
   * `lastend`) to the start of match k, and segment 2k + 1 is match k with its colour.
   */
  lemma {:induction false} SegmentsAt(txt: string, lastend: nat, ms: seq<Match>, wordsColorMap: map<string, string>, regexColorMap: map<string, string>, k: nat)
    requires k < |ms|
    ensures var segs := Segments(txt, lastend, ms, wordsColorMap, regexColorMap);
      && |segs| == 2 * |ms| + 1
      && segs[2 * k] == Verbatim(Slice(txt, if k == 0 then lastend else ms[k - 1].end, ms[k].start))
      && segs[2 * k + 1] == Colored(MatchedText(txt, ms[k]), MatchColor(txt, ms[k], wordsColorMap, regexColorMap))
    decreases k
  {
    SegmentsLength(txt, lastend, ms, wordsColorMap, regexColorMap);
    if k == 0 {
      SegmentsFirst(txt, lastend, ms, wordsColorMap, regexColorMap);
    } else {
      SegmentsAt(txt, ms[0].end, ms[1..], wordsColorMap, regexColorMap, k - 1);
      SegmentsShift(txt, lastend, ms, wordsColorMap, regexColorMap, k);
    }
  }

  /** The first two segments are the gap before the first match and that match. */
  lemma SegmentsFirst(txt: string, lastend: nat, ms: seq<Match>, wordsColorMap: map<string, string>, regexColorMap: map<string, string>)
    requires ms != []
    ensures var segs := Segments(txt, lastend, ms, wordsColorMap, regexColorMap);
      && |segs| >= 2
      && segs[0] == Verbatim(Slice(txt, lastend, ms[0].start))
      && segs[1] == Colored(MatchedText(txt, ms[0]), MatchColor(txt, ms[0], wordsColorMap, regexColorMap))
  {
  }

  /** Past the first match, the segments are those of the remaining matches, two places on. */
  lemma SegmentsShift(txt: string, lastend: nat, ms: seq<Match>, wordsColorMap: map<string, string>, regexColorMap: map<string, string>, k: nat)
    requires 0 < k < |ms|
    requires |Segments(txt, ms[0].end, ms[1..], wordsColorMap, regexColorMap)| == 2 * (|ms| - 1) + 1
    ensures var segs := Segments(txt, lastend, ms, wordsColorMap, regexColorMap);
      var rest := Segments(txt, ms[0].end, ms[1..], wordsColorMap, regexColorMap);
      && |segs| == |rest| + 2
      && segs[2 * k] == rest[2 * (k - 1)]
      && segs[2 * k + 1] == rest[2 * (k - 1) + 1]
      && ms[1..][k - 1] == ms[k]
      && (if k - 1 == 0 then ms[0].end else ms[1..][k - 2].end) == ms[k - 1].end
  {
  }

  /** The last segment is the tail after the last match. */
  lemma {:induction false} SegmentsTail(txt: string, lastend: nat, ms: seq<Match>, wordsColorMap: map<string, string>, regexColorMap: map<string, string>)
    ensures var segs := Segments(txt, lastend, ms, wordsColorMap, regexColorMap);
      && |segs| == 2 * |ms| + 1
      && segs[2 * |ms|] == Verbatim(Slice(txt, if ms == [] then lastend else ms[|ms| - 1].end, |txt|))
    decreases |ms|
  {
    SegmentsLength(txt, lastend, ms, wordsColorMap, regexColorMap);
    if ms != [] {
      SegmentsTail(txt, ms[0].end, ms[1..], wordsColorMap, regexColorMap);
      if |ms| > 1 {
        assert ms[1..][|ms| - 2] == ms[|ms| - 1];
      }
    }
  }

  /** The matches cover `txt` in order from `lastend` on. */
  predicate OrderedFrom(ms: seq<Match>, lastend: nat, n: nat) {
    && lastend <= n
    && WellFormedMatches(ms, n)
    && (ms != [] ==> lastend <= ms[0].start)
  }

  lemma OrderedFromTail(ms: seq<Match>, lastend: nat, n: nat)
    requires OrderedFrom(ms, lastend, n) && ms != []
    ensures OrderedFrom(ms[1..], ms[0].end, n)
  {
    if |ms| > 1 {
      assert ms[1..][0] == ms[1];
    }
  }

  /** The uncoloured segments spell the text from `lastend` on. */
  lemma {:induction false} PlainSegments(txt: string, lastend: nat, ms: seq<Match>, wordsColorMap: map<string, string>, regexColorMap: map<string, string>)
    requires OrderedFrom(ms, lastend, |txt|)
    ensures Plain(Segments(txt, lastend, ms, wordsColorMap, regexColorMap)) == txt[lastend..]
    decreases |ms|
  {
    if ms != [] {
      var m := ms[0];
      assert lastend <= m.start <= m.end <= |txt|;
      var gap := Verbatim(Slice(txt, lastend, m.start));
      var span := Colored(MatchedText(txt, m), MatchColor(txt, m, wordsColorMap, regexColorMap));
      var rest := Segments(txt, m.end, ms[1..], wordsColorMap, regexColorMap);
      assert Segments(txt, lastend, ms, wordsColorMap, regexColorMap) == [gap, span] + rest;
      OrderedFromTail(ms, lastend, |txt|);
      PlainSegments(txt, m.end, ms[1..], wordsColorMap, regexColorMap);
      PlainPair(gap, span, rest);
      SliceJoin(txt, lastend, m.start, m.end);
      SliceJoin(txt, lastend, m.end, |txt|);
    }
  }

  /**
   * Gaps are copied verbatim: for matches as `re.finditer` yields them, the gaps and the
   * matched spans, colours taken off, are the input text exactly.
   */
  lemma VerbatimPreservation(txt: string, ms: seq<Match>, wordsColorMap: map<string, string>, regexColorMap: map<string, string>)
    requires WellFormedMatches(ms, |txt|)
    ensures Plain(Segments(txt, 0, ms, wordsColorMap, regexColorMap)) == txt
  {
    PlainSegments(txt, 0, ms, wordsColorMap, regexColorMap);
  }

  /** Rendering changes nothing where no segment names a colour of the table. */
  lemma {:induction false} RenderUncolored(segs: seq<Segment>)
    requires forall i :: 0 <= i < |segs| && segs[i].Colored? ==> segs[i].color !in Colors.ColorDict
    ensures Render(segs) == Plain(segs)
  {
    if segs != [] {
      RenderUncolored(segs[1..]);
    }
  }

  /** Stripping each coloured span of its escapes recovers the uncoloured text span by span. */
  lemma {:induction false} StripEachSpan(segs: seq<Segment>)
    ensures forall i :: 0 <= i < |segs| ==>
      (if segs[i].Colored? then Colors.StripHighlight(Paint(segs[i]), segs[i].color) else Paint(segs[i])) == segs[i].text
  {
    forall i | 0 <= i < |segs| && segs[i].Colored? {
      Colors.StripHighlightRoundTrip(segs[i].text, segs[i].color);
    }
  }

  /**
   * Reads a written text back span by span: each coloured span has its escapes stripped,
   * each gap is taken as it is.
   */
  function StripRender(segs: seq<Segment>): string {
    if segs == [] then ""
    else
      (if segs[0].Colored? then Colors.StripHighlight(Paint(segs[0]), segs[0].color) else Paint(segs[0]))
      + StripRender(segs[1..])
  }

  /** Reading a written text back span by span gives the uncoloured text. */
  lemma {:induction false} StripRenderPlain(segs: seq<Segment>)
    ensures StripRender(segs) == Plain(segs)
  {
    if segs != [] {
      StripEachSpan(segs);
      StripRenderPlain(segs[1..]);
    }
  }

  /** With nothing mapped, every match takes the empty colour. */
  lemma {:induction false} SegmentColorsEmpty(txt: string, lastend: nat, ms: seq<Match>)
    ensures forall i :: 0 <= i < |Segments(txt, lastend, ms, map[], map[])| && Segments(txt, lastend, ms, map[], map[])[i].Colored? ==>
      Segments(txt, lastend, ms, map[], map[])[i].color !in Colors.ColorDict
    decreases |ms|
  {
    assert "" !in Colors.ColorDict;
    if ms != [] {
      SegmentColorsEmpty(txt, ms[0].end, ms[1..]);
      var rest := Segments(txt, ms[0].end, ms[1..], map[], map[]);
      var segs := Segments(txt, lastend, ms, map[], map[]);
      assert forall i :: 2 <= i < |segs| ==> segs[i] == rest[i - 2];
    }
  }

  /**
   * With an empty word map and an empty group table, the scanner is the identity on any
   * text, for any well-formed match list.
   */
  lemma EmptyMappingIdentity(txt: string, ms: seq<Match>)
    requires WellFormedMatches(ms, |txt|)
    ensures HighlightedText(txt, ms, map[], map[]) == txt
  {
    var segs := Segments(txt, 0, ms, map[], map[]);
    SegmentColorsEmpty(txt, 0, ms);
    RenderUncolored(segs);
    VerbatimPreservation(txt, ms, map[], map[]);
  }
}
