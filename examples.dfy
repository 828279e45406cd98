/** Worked examples: one mapping and one scan each, for a keyword and for a comment pattern. */
module Examples {
  import opened Wrappers
  import opened Regex
  import Colors
  import Decimal
  import Compiler
  import Scanner

  /** `{"for": "blue"}` with the default word pattern: one word key, no regex key. */
  lemma KeywordMappingCompiles(e: Engine)
    requires Compiler.StandardWordRegex(e)
    requires e.compiles(Compiler.DefaultWordRegex)
    requires e.compiles(Compiler.CombinedRegex([], Compiler.DefaultWordRegex))
    ensures Compiler.CompileResult([("for", "blue")], Compiler.DefaultWordRegex, e)
      == Ok(Compiler.Compiled(map["for" := "blue"], map[], Compiler.NamedGroup(Compiler.WordGroup, Compiler.DefaultWordRegex)))
  {
    var mapping: Compiler.ColorMapping := [("for", "blue")];
    assert mapping[..0] == [];
    Compiler.DefaultClassification("for", e);
    assert !Compiler.IsHighlighterRegex("for", Compiler.DefaultWordRegex, e);
    assert Compiler.RegexMappings(mapping, Compiler.DefaultWordRegex, e) == [];
    assert Compiler.WordsColorMap(mapping[..0], Compiler.DefaultWordRegex, e) == map[];
    assert Compiler.WordsColorMap(mapping, Compiler.DefaultWordRegex, e) == map["for" := "blue"];
    assert Compiler.FirstUncompilable([], e) == None;
    assert Compiler.RegexColorMap([]) == map[];
    Compiler.CombinedRegexEndsWithWordGroup([], Compiler.DefaultWordRegex);
  }

  /** `for` in blue is `ESC[34m` + `for` + `ESC[0m`. */
  lemma BlueKeyword()
    ensures Colors.Highlight("for", "blue") == [Colors.ESC, '[', '3', '4', 'm'] + "for" + Colors.Reset
  {
    Colors.HighlightBytes("for", 4);
    assert Decimal.DigitChar(4) == '4';
  }

  /** After the keyword, the rest of `for x` comes out as it is. */
  lemma KeywordScanRest()
    ensures Scanner.Render(Scanner.Segments("for x", 3, [Match(4, 5, Some("g_word"))], map["for" := "blue"], map[])) == " " + "x"
  {
    var txt := "for x";
    var ms := [Match(4, 5, Some("g_word"))];
    var words: map<string, string> := map["for" := "blue"];
    var gap := Scanner.Slice(txt, 3, 4);
    assert gap == " " by {
      assert txt[3..4] == [txt[3]];
    }
    var span := Colors.Highlight(Scanner.MatchedText(txt, ms[0]), Scanner.MatchColor(txt, ms[0], words, map[]));
    assert span == "x" by {
      assert Scanner.HasGroupPrefix("g_word");
      assert Scanner.MatchedText(txt, ms[0]) == "x" by {
        assert txt[4..5] == [txt[4]];
      }
      assert Scanner.MatchColor(txt, ms[0], words, map[]) == "";
      Colors.UnknownColor("x");
    }
    var tail := Scanner.Render(Scanner.Segments(txt, 5, [], words, map[]));
    assert tail == "" by {
      Scanner.RenderStep(txt, 5, [], words, map[]);
    }
    assert Scanner.Render(Scanner.Segments(txt, 3, ms, words, map[])) == gap + span + tail by {
      Scanner.RenderStep(txt, 3, ms, words, map[]);
      assert ms[1..] == [];
    }
  }

  /** Scanning `for x`: the keyword is wrapped in blue, the space and the word `x` pass through. */
  lemma KeywordScan()
    ensures Scanner.HighlightedText("for x", [Match(0, 3, Some("g_word")), Match(4, 5, Some("g_word"))], map["for" := "blue"], map[])
      == [Colors.ESC, '[', '3', '4', 'm'] + "for" + Colors.Reset + " " + "x"
  {
    var txt := "for x";
    var ms := [Match(0, 3, Some("g_word")), Match(4, 5, Some("g_word"))];
    var words: map<string, string> := map["for" := "blue"];
    var gap := Scanner.Slice(txt, 0, 0);
    assert gap == "";
    var span := Colors.Highlight(Scanner.MatchedText(txt, ms[0]), Scanner.MatchColor(txt, ms[0], words, map[]));
    assert span == [Colors.ESC, '[', '3', '4', 'm'] + "for" + Colors.Reset by {
      assert Scanner.HasGroupPrefix("g_word");
      assert Scanner.MatchedText(txt, ms[0]) == "for" by {
        assert txt[0..3] == txt[..3];
      }
      assert Scanner.MatchColor(txt, ms[0], words, map[]) == "blue";
      BlueKeyword();
    }
    var rest := Scanner.Render(Scanner.Segments(txt, 3, ms[1..], words, map[]));
    assert rest == " " + "x" by {
      assert ms[1..] == [Match(4, 5, Some("g_word"))];
      KeywordScanRest();
    }
    assert Scanner.HighlightedText(txt, ms, words, map[]) == gap + span + rest by {
      Scanner.RenderStep(txt, 0, ms, words, map[]);
    }
  }

  /**
   * `{"#.*": "green"}`: `#` cannot start a word, so the key is regex group g_0. Every
   * engine that meets `Compiler.StandardWordRegex` meets the first requirement, by
   * `Compiler.DefaultClassification`.
   */
  lemma CommentMappingCompiles(e: Engine)
    requires Compiler.IsHighlighterRegex("#.*", Compiler.DefaultWordRegex, e)
    requires e.compiles(Compiler.DefaultWordRegex) && e.compiles("#.*")
    requires e.compiles(Compiler.CombinedRegex([("#.*", "green")], Compiler.DefaultWordRegex))
    ensures Compiler.CompileResult([("#.*", "green")], Compiler.DefaultWordRegex, e).Ok?
    ensures Compiler.CompileResult([("#.*", "green")], Compiler.DefaultWordRegex, e).value.regexColorMap == map["g_0" := "green"]
    ensures Compiler.CompileResult([("#.*", "green")], Compiler.DefaultWordRegex, e).value.wordsColorMap == map[]
  {
    var mapping: Compiler.ColorMapping := [("#.*", "green")];
    assert mapping[..0] == [];
    assert Compiler.RegexMappings(mapping, Compiler.DefaultWordRegex, e) == mapping;
    assert Compiler.FirstUncompilable(mapping, e) == None;
    assert Compiler.WordsColorMap(mapping[..0], Compiler.DefaultWordRegex, e) == map[];
    assert Compiler.WordsColorMap(mapping, Compiler.DefaultWordRegex, e) == map[];
    assert Compiler.GroupName(0) == "g_0";
  }

  /** The whole comment in green is `ESC[32m` + the comment + `ESC[0m`. */
  lemma GreenComment(txt: string)
    ensures Colors.Highlight(txt, "green") == [Colors.ESC, '[', '3', '2', 'm'] + txt + Colors.Reset
  {
    assert Colors.Highlight(txt, Colors.Hues[2]) == [Colors.ESC, '[', '3', Decimal.DigitChar(2), 'm'] + txt + Colors.Reset by {
      Colors.HighlightBytes(txt, 2);
    }
    assert Colors.Hues[2] == "green";
    assert Decimal.DigitChar(2) == '2';
  }

  /**
   * Scanning `# comment for` once the comment group has matched from `#` to the end: one
   * green span, and the keyword `for` inside it is not coloured on its own.
   */
  lemma CommentScan()
    ensures Scanner.HighlightedText("# comment for", [Match(0, 13, Some("g_0"))], map["for" := "blue"], map["g_0" := "green"])
      == [Colors.ESC, '[', '3', '2', 'm'] + "# comment for" + Colors.Reset
  {
    var txt := "# comment for";
    var ms := [Match(0, 13, Some("g_0"))];
    var words: map<string, string> := map["for" := "blue"];
    var groups: map<string, string> := map["g_0" := "green"];
    assert Scanner.MatchColor(txt, ms[0], words, groups) == "green" by {
      assert Scanner.HasGroupPrefix("g_0");
    }
    Scanner.WholeTextMatch(txt, ms, words, groups);
    GreenComment(txt);
  }
}
