/**
 * The writer: the colour mode is chosen once at construction, the highlighter is built
 * from the mapping, and every write sends the (possibly coloured) text to the output
 * stream and flushes it.
 */
module Writer {
  import opened Wrappers
  import opened Regex
  import Colors
  import Compiler
  import Scanner

  /** The output stream as the writer sees it: the texts written so far and the flushes. */
  class OutputStream {
    var written: seq<string>
    var flushes: nat

    constructor ()
      ensures written == [] && flushes == 0
    {
      written := [];
      flushes := 0;
    }

    method Write(s: string)
      modifies this
      ensures written == old(written) + [s] && flushes == old(flushes)
    {
      written := written + [s];
    }

    method Flush()
      modifies this
      ensures written == old(written) && flushes == old(flushes) + 1
    {
      flushes := flushes + 1;
    }
  }

  /**
   * The colour mode: "on" highlights, "off" does not, "auto" highlights exactly when the
   * stream supports colour; any other mode is refused.
   */
  function SelectMode(colorMode: string, supportsColor: bool): (r: Result<bool, Compiler.InitError>)
    ensures r.Ok? <==> colorMode == "auto" || colorMode == "on" || colorMode == "off"
    ensures r.Err? ==> r.error == Compiler.UnsupportedColorMode
    ensures r.Ok? ==> (r.value <==> colorMode == "on" || (colorMode == "auto" && supportsColor))
  {
    if colorMode == "auto" then Ok(supportsColor)
    else if colorMode == "on" then Ok(true)
    else if colorMode == "off" then Ok(false)
    else Err(Compiler.UnsupportedColorMode)
  }

  class HighlightedWriter {
    const outputStream: OutputStream
    const highlight: bool
    const wordsColorMap: map<string, string>
    const regexColorMap: map<string, string>
    /** The combined pattern. */
    const regex: string
    /** The regular-expression library the writer scans with. */
    const engine: Engine
    /** Never set from the constructor's argument, so always the class default. */
    const flushAfterWrite: bool := true

    constructor (outputStream: OutputStream, highlight: bool, compiled: Compiler.Compiled, engine: Engine)
      ensures this.outputStream == outputStream && this.highlight == highlight && this.engine == engine
      ensures wordsColorMap == compiled.wordsColorMap && regexColorMap == compiled.regexColorMap && regex == compiled.regex
    {
      this.outputStream := outputStream;
      this.highlight := highlight;
      this.wordsColorMap := compiled.wordsColorMap;
      this.regexColorMap := compiled.regexColorMap;
      this.regex := compiled.regex;
      this.engine := engine;
    }

    /** The writer state that a successful construction from `compiled` leaves. */
    ghost predicate BuiltFrom(outputStream: OutputStream, highlight: bool, compiled: Compiler.Compiled, engine: Engine) {
      && this.outputStream == outputStream && this.highlight == highlight && this.engine == engine
      && wordsColorMap == compiled.wordsColorMap && regexColorMap == compiled.regexColorMap && regex == compiled.regex
    }

    /**
     * Construction. The colour mode is resolved first, so a bad mode raises before any
     * pattern is looked at; then the mapping is compiled. `supportsColor` is the answer of
     * the terminal-capability check, consulted only in "auto" mode. The `flushAfterWrite`
     * argument is accepted and not kept. There are no default arguments: callers pass the
     * source's defaults (`true`, "auto", `Compiler.DefaultWordRegex`) explicitly.
     */
    static method Create(outputStream: OutputStream, colorMapping: Compiler.ColorMapping, flushAfterWrite: bool,
                         colorMode: string, wordMatchRegex: string, e: Engine, supportsColor: bool)
      returns (r: Result<HighlightedWriter, Compiler.InitError>)
      ensures SelectMode(colorMode, supportsColor).Err? ==> r == Err(Compiler.UnsupportedColorMode)
      ensures SelectMode(colorMode, supportsColor).Ok? && Compiler.CompileResult(colorMapping, wordMatchRegex, e).Err? ==>
        r == Err(Compiler.CompileResult(colorMapping, wordMatchRegex, e).error)
      ensures SelectMode(colorMode, supportsColor).Ok? && Compiler.CompileResult(colorMapping, wordMatchRegex, e).Ok? ==>
        && r.Ok? && fresh(r.value)
        && r.value.BuiltFrom(outputStream, SelectMode(colorMode, supportsColor).value,
                             Compiler.CompileResult(colorMapping, wordMatchRegex, e).value, e)
      ensures r.Ok? ==> r.value.flushAfterWrite
    {
      var mode := SelectMode(colorMode, supportsColor);
      if mode.Err? {
        return Err(mode.error);
      }
      var compiled := Compiler.Compile(colorMapping, wordMatchRegex, e);
      if compiled.Err? {
        return Err(compiled.error);
      }
      var w := new HighlightedWriter(outputStream, mode.value, compiled.value, e);
      r := Ok(w);
    }

    /** What `write` sends for `txt`. */
    function Output(txt: string): string {
      if highlight then Scanner.HighlightedText(txt, engine.findIter(regex, txt), wordsColorMap, regexColorMap)
      else txt
    }

    /** Scans `txt` with the combined pattern, copying gaps and colouring matches. */
    method CreateHighlightedText(txt: string) returns (outtxt: string)
      ensures outtxt == Scanner.HighlightedText(txt, engine.findIter(regex, txt), wordsColorMap, regexColorMap)
    {
      var matches := engine.findIter(regex, txt);
      ghost var whole := Scanner.Render(Scanner.Segments(txt, 0, matches, wordsColorMap, regexColorMap));
      outtxt := "";
      var lastend: nat := 0;
      for i := 0 to |matches|
        invariant outtxt + Scanner.Render(Scanner.Segments(txt, lastend, matches[i..], wordsColorMap, regexColorMap)) == whole
      {
        var m := matches[i];
        ghost var before := outtxt;
        ghost var restText := Scanner.Render(Scanner.Segments(txt, m.end, matches[i + 1..], wordsColorMap, regexColorMap));
        ghost var gap := Scanner.Slice(txt, lastend, m.start);
        ghost var span := Colors.Highlight(Scanner.MatchedText(txt, m), Scanner.MatchColor(txt, m, wordsColorMap, regexColorMap));
        assert before + gap + span + restText == whole by {
          Scanner.RenderStep(txt, lastend, matches[i..], wordsColorMap, regexColorMap);
          assert matches[i..][0] == m && matches[i..][1..] == matches[i + 1..];
          Scanner.ConcatAssoc(before, gap, span, restText);
        }
        outtxt := outtxt + Scanner.Slice(txt, lastend, m.start);
        lastend := m.end;

        var foundGroup := "";
        if m.lastgroup.Some? && Scanner.HasGroupPrefix(m.lastgroup.value) {
          foundGroup := m.lastgroup.value;
        }
        var group0 := Scanner.Slice(txt, m.start, m.end);
        var color := "";
        if foundGroup == "g_word" {
          color := Scanner.Get(wordsColorMap, group0);
          outtxt := outtxt + Colors.Highlight(group0, color);
        } else {
          color := Scanner.Get(regexColorMap, foundGroup);
          outtxt := outtxt + Colors.Highlight(group0, color);
        }
        assert color == Scanner.MatchColor(txt, m, wordsColorMap, regexColorMap);
        assert outtxt == before + gap + span;
      }
      Scanner.RenderStep(txt, lastend, matches[|matches|..], wordsColorMap, regexColorMap);
      outtxt := outtxt + Scanner.Slice(txt, lastend, |txt|);
    }

    /** Sends `txt`, coloured when highlighting is on, to the stream, and flushes it. */
    method Write(txt: string)
      modifies outputStream
      ensures outputStream.written == old(outputStream.written) + [Output(txt)]
      ensures outputStream.flushes == old(outputStream.flushes) + 1
    {
      var t := txt;
      if highlight {
        t := CreateHighlightedText(txt);
      }
      outputStream.Write(t);
      if flushAfterWrite {
        outputStream.Flush();
      }
    }

    /** Writes `txt` followed by a newline, in one write. */
    method Writeln(txt: string)
      modifies outputStream
      ensures outputStream.written == old(outputStream.written) + [Output(txt + "\n")]
      ensures outputStream.flushes == old(outputStream.flushes) + 1
    {
      Write(txt + "\n");
    }
  }

  /** With highlighting off, a write forwards the text unchanged. */
  lemma PassThroughOutput(w: HighlightedWriter, txt: string)
    requires !w.highlight
    ensures w.Output(txt) == txt
  {
  }

  /**
   * With highlighting on, the written text is built from the gaps and matched spans of the
   * scan. Read back span by span, with each span's colour escapes stripped, it is the input.
   * It is the input whenever the word map and the group table are both empty.
   */
  lemma HighlightedOutputPreservesText(w: HighlightedWriter, txt: string)
    requires w.highlight && ScansWellFormed(w.engine)
    ensures var segs := Scanner.Segments(txt, 0, w.engine.findIter(w.regex, txt), w.wordsColorMap, w.regexColorMap);
      && w.Output(txt) == Scanner.Render(segs)
      && Scanner.Plain(segs) == txt
      && Scanner.StripRender(segs) == txt
    ensures w.wordsColorMap == map[] && w.regexColorMap == map[] ==> w.Output(txt) == txt
  {
    var ms := w.engine.findIter(w.regex, txt);
    assert WellFormedMatches(ms, |txt|);
    Scanner.VerbatimPreservation(txt, ms, w.wordsColorMap, w.regexColorMap);
    Scanner.StripRenderPlain(Scanner.Segments(txt, 0, ms, w.wordsColorMap, w.regexColorMap));
    if w.wordsColorMap == map[] && w.regexColorMap == map[] {
      Scanner.EmptyMappingIdentity(txt, ms);
    }
  }
}
