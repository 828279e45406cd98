/**
 * The fixed colour table and the wrapping of a text in ANSI Select Graphic Rendition
 * escapes (ECMA-48 section 8.3.117: parameters 30 to 37 select the foreground colour,
 * parameter 1 selects bold, parameter 0 resets all attributes).
 */
module Colors {
  import opened Wrappers
  import Decimal

  /** The escape control character, 0x1B. */
  const ESC: char := '\U{1B}'

  /** A table entry: the SGR foreground code and the optional bold parameter. */
  datatype ColorEntry = ColorEntry(code: nat, bold: Option<nat>)

  /** The eight base hues, in the order of their SGR codes 30 to 37. */
  const Hues: seq<string> := ["black", "red", "green", "yellow", "blue", "magenta", "cyan", "white"]

  /** The sixteen colour names the writer understands. */
  const ColorDict: map<string, ColorEntry> := map[
    "black"          := ColorEntry(30, None),
    "bright-black"   := ColorEntry(30, Some(1)),
    "red"            := ColorEntry(31, None),
    "bright-red"     := ColorEntry(31, Some(1)),
    "green"          := ColorEntry(32, None),
    "bright-green"   := ColorEntry(32, Some(1)),
    "yellow"         := ColorEntry(33, None),
    "bright-yellow"  := ColorEntry(33, Some(1)),
    "blue"           := ColorEntry(34, None),
    "bright-blue"    := ColorEntry(34, Some(1)),
    "magenta"        := ColorEntry(35, None),
    "bright-magenta" := ColorEntry(35, Some(1)),
    "cyan"           := ColorEntry(36, None),
    "bright-cyan"    := ColorEntry(36, Some(1)),
    "white"          := ColorEntry(37, None),
    "bright-white"   := ColorEntry(37, Some(1))
  ]

  /** The sequence that switches to an entry's colour: `ESC[<code>m` or `ESC[<code>;<bold>m`. */
  function Opener(e: ColorEntry): (o: string)
    ensures |o| >= 4 && o[0] == ESC && o[1] == '[' && o[|o| - 1] == 'm'
  {
    match e.bold
    case None => [ESC, '['] + Decimal.NatToString(e.code) + "m"
    case Some(b) => [ESC, '['] + Decimal.NatToString(e.code) + ";" + Decimal.NatToString(b) + "m"
  }

  /** The sequence that restores the default rendition: `ESC[0m`. */
  const Reset: string := [ESC, '[', '0', 'm']

  /**
   * Wraps `txt` in the colour named `color`. A name missing from the table, the empty
   * name included, leaves the text exactly as it is; a known name never does.
   */
  function Highlight(txt: string, color: string): (r: string)
    ensures r == txt <==> color !in ColorDict
    ensures color in ColorDict ==> |r| == |Opener(ColorDict[color])| + |txt| + |Reset|
  {
    if color in ColorDict then Opener(ColorDict[color]) + txt + Reset else txt
  }

  /** The empty name, which the scanner uses for "no colour", leaves a text as it is. */
  lemma UnknownColor(txt: string)
    ensures Highlight(txt, "") == txt
  {
    assert "" !in ColorDict;
  }

  /** Removes the escapes that Highlight adds for `color`; the partner of Highlight. */
  function StripHighlight(s: string, color: string): string
  {
    if color in ColorDict then
      var o := Opener(ColorDict[color]);
      if |s| >= |o| + |Reset| && s[..|o|] == o && s[|s| - |Reset|..] == Reset
      then s[|o|..|s| - |Reset|]
      else s
    else s
  }

  /** Stripping the colour back off gives the original text, for every text and name. */
  lemma StripHighlightRoundTrip(txt: string, color: string)
    ensures StripHighlight(Highlight(txt, color), color) == txt
  {
    if color in ColorDict {
      var o := Opener(ColorDict[color]);
      var s := o + txt + Reset;
      assert s[..|o|] == o;
      assert s[|s| - |Reset|..] == Reset;
      assert s[|o|..|s| - |Reset|] == txt;
    }
  }

  /** The hue at position h has code 30 + h; its `bright-` variant adds bold parameter 1. */
  lemma HueEntries(h: nat)
    requires h < |Hues|
    ensures Hues[h] in ColorDict && ColorDict[Hues[h]] == ColorEntry(30 + h, None)
    ensures "bright-" + Hues[h] in ColorDict && ColorDict["bright-" + Hues[h]] == ColorEntry(30 + h, Some(1))
  {
    var b := "bright-" + Hues[h];
    if h == 0 { assert b == "bright-black"; }
    else if h == 1 { assert b == "bright-red"; }
    else if h == 2 { assert b == "bright-green"; }
    else if h == 3 { assert b == "bright-yellow"; }
    else if h == 4 { assert b == "bright-blue"; }
    else if h == 5 { assert b == "bright-magenta"; }
    else if h == 6 { assert b == "bright-cyan"; }
    else { assert b == "bright-white"; }
  }

  /**
   * Every name of the table is one of the eight hues or its `bright-` variant (HueEntries
   * gives the converse), with a code in 30 to 37 and no bold parameter other than 1.
   */
  lemma ColorTableShape()
    ensures forall c :: c in ColorDict ==> 30 <= ColorDict[c].code <= 37
    ensures forall c :: c in ColorDict ==> ColorDict[c].bold == None || ColorDict[c].bold == Some(1)
    ensures forall c :: c in ColorDict ==> exists h :: 0 <= h < |Hues| && (c == Hues[h] || c == "bright-" + Hues[h])
  {
    assert "bright-" + Hues[0] == "bright-black" && "bright-" + Hues[1] == "bright-red";
    assert "bright-" + Hues[2] == "bright-green" && "bright-" + Hues[3] == "bright-yellow";
    assert "bright-" + Hues[4] == "bright-blue" && "bright-" + Hues[5] == "bright-magenta";
    assert "bright-" + Hues[6] == "bright-cyan" && "bright-" + Hues[7] == "bright-white";
  }

  /**
   * The exact bytes: hue h is wrapped as `ESC[3<h>m` ... `ESC[0m`, its bright variant as
   * `ESC[3<h>;1m` ... `ESC[0m`.
   */
  lemma HighlightBytes(txt: string, h: nat)
    requires h < |Hues|
    ensures Highlight(txt, Hues[h]) == [ESC, '[', '3', Decimal.DigitChar(h), 'm'] + txt + Reset
    ensures Highlight(txt, "bright-" + Hues[h]) == [ESC, '[', '3', Decimal.DigitChar(h), ';', '1', 'm'] + txt + Reset
  {
    HueEntries(h);
    Decimal.TwoDigits(30 + h);
    assert Decimal.NatToString(30 + h) == ['3', Decimal.DigitChar(h)];
    assert Decimal.NatToString(1) == ['1'];
  }

  /** The worked example: `bright-red` on `err` gives `ESC[31;1merrESC[0m`. */
  lemma BrightRedExample()
    ensures Highlight("err", "bright-red") == [ESC, '[', '3', '1', ';', '1', 'm'] + "err" + Reset
  {
    HighlightBytes("err", 1);
    assert "bright-" + Hues[1] == "bright-red";
    assert Decimal.DigitChar(1) == '1';
  }
}
