/**
 * Construction of a highlighter from its colour mapping: each key is classified as a
 * plain word or a regular expression, every regex key becomes a named group `g_<i>` of
 * one combined pattern, and a final group `g_word` catches the words.
 */
module Compiler {
  import opened Wrappers
  import Decimal
  import opened Regex

  /** Why construction raises: a colour mode other than auto, on and off, or a bad pattern. */
  datatype InitError = UnsupportedColorMode | BadPattern(pattern: string)

  /** The items of the colour-mapping dictionary, in insertion order: (key, colour name). */
  type ColorMapping = seq<(string, string)>

  /** What construction keeps for scanning. */
  datatype Compiled = Compiled(
    wordsColorMap: map<string, string>,
    regexColorMap: map<string, string>,
    regex: string)

  /** The default word pattern, `[a-zA-Z_][\w_]*`. */
  const DefaultWordRegex: string := "[a-zA-Z_][\\w_]*"

  predicate IsIdentifierStart(c: char) {
    'a' <= c <= 'z' || 'A' <= c <= 'Z' || c == '_'
  }

  /** `\w` within ASCII: a letter, a digit or an underscore. */
  predicate IsWordChar(c: char) {
    IsIdentifierStart(c) || '0' <= c <= '9'
  }

  /** The texts the default word pattern matches in full: `[a-zA-Z_]`, then any number of `[\w_]`. */
  predicate InWordLanguage(p: string) {
    |p| > 0 && IsIdentifierStart(p[0]) && forall i :: 1 <= i < |p| ==> IsWordChar(p[i])
  }

  /**
   * An engine whose `re.match` of the default word pattern behaves as `re` does: it succeeds
   * exactly when some non-empty prefix of the key is in the pattern's language.
   */
  ghost predicate StandardWordRegex(e: Engine) {
    forall key :: e.matchesAtStart(DefaultWordRegex, key) == exists j :: 0 < j <= |key| && InWordLanguage(key[..j])
  }

  /** A key is a regex when the word pattern does not match at its start. */
  predicate IsHighlighterRegex(key: string, wordMatchRegex: string, e: Engine) {
    !e.matchesAtStart(wordMatchRegex, key)
  }

  /**
   * With the default word pattern the classification is a test of the first character only:
   * `[\w_]*` may match nothing, so the one-character prefix decides.
   */
  lemma DefaultClassification(key: string, e: Engine)
    requires StandardWordRegex(e)
    ensures IsHighlighterRegex(key, DefaultWordRegex, e) <==> (key == [] || !IsIdentifierStart(key[0]))
  {
    if key != [] && IsIdentifierStart(key[0]) {
      assert InWordLanguage(key[..1]);
    } else {
      forall j | 0 < j <= |key|
        ensures !InWordLanguage(key[..j])
      {
        assert key[..j][0] == key[0];
      }
    }
  }

  /**
   * `re.match` tests a prefix, not the whole key: `for.*` is not in the word pattern's
   * language, yet it is classified as a word because `for` is.
   */
  lemma PrefixClassification(e: Engine)
    requires StandardWordRegex(e)
    ensures !InWordLanguage("for.*")
    ensures !IsHighlighterRegex("for.*", DefaultWordRegex, e)
  {
    assert "for.*"[3] == '.';
    DefaultClassification("for.*", e);
  }

  // ---------------------------------------------------------------------------------
  // Classification

  /** The dictionary of the word-keyed items; a later item overrides an earlier equal key. */
  function WordsColorMap(mapping: ColorMapping, wordMatchRegex: string, e: Engine): map<string, string>
  {
    if mapping == [] then map[]
    else
      var init := WordsColorMap(mapping[..|mapping| - 1], wordMatchRegex, e);
      var last := mapping[|mapping| - 1];
      if IsHighlighterRegex(last.0, wordMatchRegex, e) then init else init[last.0 := last.1]
  }

  /** The regex-keyed items, in mapping order. */
  function RegexMappings(mapping: ColorMapping, wordMatchRegex: string, e: Engine): ColorMapping
  {
    if mapping == [] then []
    else
      var init := RegexMappings(mapping[..|mapping| - 1], wordMatchRegex, e);
      var last := mapping[|mapping| - 1];
      if IsHighlighterRegex(last.0, wordMatchRegex, e) then init + [last] else init
  }

  /** The positions in `mapping` of its regex-keyed items, ascending. */
  function RegexPositions(mapping: ColorMapping, wordMatchRegex: string, e: Engine): seq<nat>
  {
    if mapping == [] then []
    else
      var init := RegexPositions(mapping[..|mapping| - 1], wordMatchRegex, e);
      if IsHighlighterRegex(mapping[|mapping| - 1].0, wordMatchRegex, e) then init + [|mapping| - 1] else init
  }

  /**
   * The keys of the word map are exactly the word keys of the mapping, and each word key
   * takes the colour of its last item.
   */
  lemma {:induction false} WordsColorMapContents(mapping: ColorMapping, wordMatchRegex: string, e: Engine)
    ensures forall k :: k in WordsColorMap(mapping, wordMatchRegex, e) <==>
      !IsHighlighterRegex(k, wordMatchRegex, e) && exists i :: 0 <= i < |mapping| && mapping[i].0 == k
    ensures forall i ::
      (0 <= i < |mapping| && !IsHighlighterRegex(mapping[i].0, wordMatchRegex, e)
       && forall j :: i < j < |mapping| ==> mapping[j].0 != mapping[i].0)
      ==> WordsColorMap(mapping, wordMatchRegex, e)[mapping[i].0] == mapping[i].1
  {
    if mapping != [] {
      var init := mapping[..|mapping| - 1];
      WordsColorMapContents(init, wordMatchRegex, e);
      forall k | !IsHighlighterRegex(k, wordMatchRegex, e) && (exists i :: 0 <= i < |mapping| && mapping[i].0 == k)
        ensures k in WordsColorMap(mapping, wordMatchRegex, e)
      {
        var i :| 0 <= i < |mapping| && mapping[i].0 == k;
        if i < |init| {
          assert init[i].0 == k;
        }
      }
      forall k | k in WordsColorMap(mapping, wordMatchRegex, e)
        ensures exists i :: 0 <= i < |mapping| && mapping[i].0 == k
      {
        if k in WordsColorMap(init, wordMatchRegex, e) {
          var i :| 0 <= i < |init| && init[i].0 == k;
          assert mapping[i].0 == k;
        } else {
          assert mapping[|mapping| - 1].0 == k;
        }
      }
      forall i | 0 <= i < |mapping| - 1 && !IsHighlighterRegex(mapping[i].0, wordMatchRegex, e)
        && (forall j :: i < j < |mapping| ==> mapping[j].0 != mapping[i].0)
        ensures WordsColorMap(mapping, wordMatchRegex, e)[mapping[i].0] == mapping[i].1
      {
        assert init[i] == mapping[i];
        assert forall j :: i < j < |init| ==> init[j].0 != init[i].0 by {
          forall j | i < j < |init| ensures init[j].0 != init[i].0 {
            assert init[j] == mapping[j];
          }
        }
      }
    }
  }

  /**
   * The regex list holds exactly the regex-keyed items, in the order of the mapping: its
   * k-th item is the mapping's item at the k-th position of an ascending list of
   * positions, and a position is in that list exactly when its key is a regex.
   */
  lemma {:induction false} RegexMappingsInOrder(mapping: ColorMapping, wordMatchRegex: string, e: Engine)
    ensures var rm, pos := RegexMappings(mapping, wordMatchRegex, e), RegexPositions(mapping, wordMatchRegex, e);
      && |rm| == |pos|
      && (forall k :: 0 <= k < |pos| ==> pos[k] < |mapping| && rm[k] == mapping[pos[k]])
      && (forall k, l :: 0 <= k < l < |pos| ==> pos[k] < pos[l])
      && (forall i :: 0 <= i < |mapping| ==> (i in pos <==> IsHighlighterRegex(mapping[i].0, wordMatchRegex, e)))
  {
    if mapping != [] {
      var init := mapping[..|mapping| - 1];
      RegexMappingsInOrder(init, wordMatchRegex, e);
      var pos := RegexPositions(mapping, wordMatchRegex, e);
      forall i | 0 <= i < |init| ensures mapping[i] == init[i] { }
    }
  }

  /** Every item lands on exactly one side: a word key in the word map, a regex key in the list. */
  lemma ClassificationPartition(mapping: ColorMapping, wordMatchRegex: string, e: Engine, i: nat)
    requires i < |mapping|
    ensures mapping[i].0 in WordsColorMap(mapping, wordMatchRegex, e) <==> !IsHighlighterRegex(mapping[i].0, wordMatchRegex, e)
    ensures mapping[i] in RegexMappings(mapping, wordMatchRegex, e) <==> IsHighlighterRegex(mapping[i].0, wordMatchRegex, e)
  {
    WordsColorMapContents(mapping, wordMatchRegex, e);
    RegexMappingsInOrder(mapping, wordMatchRegex, e);
    var rm, pos := RegexMappings(mapping, wordMatchRegex, e), RegexPositions(mapping, wordMatchRegex, e);
    if IsHighlighterRegex(mapping[i].0, wordMatchRegex, e) {
      var k :| 0 <= k < |pos| && pos[k] == i;
      assert rm[k] == mapping[i];
    }
    forall k | 0 <= k < |rm| ensures IsHighlighterRegex(rm[k].0, wordMatchRegex, e) {
      assert rm[k] == mapping[pos[k]];
    }
  }

  // ---------------------------------------------------------------------------------
  // Group names and the combined pattern

  /** The group name of the n-th regex key: `"g_" + str(n)`. */
  function GroupName(n: nat): string {
    "g_" + Decimal.NatToString(n)
  }

  /** The group that catches the words; always the last alternative. */
  const WordGroup: string := "g_word"

  /** A named group, `(?P<name>pattern)`. */
  function NamedGroup(name: string, pattern: string): string {
    "(?P<" + name + ">" + pattern + ")"
  }

  /** Generated group names never collide, with each other or with the word group. */
  lemma GroupNamesDistinct(m: nat, n: nat)
    ensures GroupName(m) == GroupName(n) ==> m == n
    ensures GroupName(n) != WordGroup
  {
    var a, b := Decimal.NatToString(m), Decimal.NatToString(n);
    if GroupName(m) == GroupName(n) {
      assert a == GroupName(m)[2..] && b == GroupName(n)[2..];
      Decimal.NatToStringInjective(m, n);
    }
    assert GroupName(n)[2] == b[0] && Decimal.IsDigit(b[0]);
    assert WordGroup[2] == 'w';
  }

  /** The alternatives for the regex keys, one named group per key, in order. */
  function RegexAlternatives(rm: ColorMapping): seq<string> {
    if rm == [] then []
    else RegexAlternatives(rm[..|rm| - 1]) + [NamedGroup(GroupName(|rm| - 1), rm[|rm| - 1].0)]
  }

  /** The colour recorded under each generated group name. */
  function RegexColorMap(rm: ColorMapping): map<string, string> {
    if rm == [] then map[]
    else RegexColorMap(rm[..|rm| - 1])[GroupName(|rm| - 1) := rm[|rm| - 1].1]
  }

  /** The i-th alternative is `(?P<g_i>key_i)`. */
  lemma {:induction false} RegexAlternativesAt(rm: ColorMapping)
    ensures |RegexAlternatives(rm)| == |rm|
    ensures forall i :: 0 <= i < |rm| ==> RegexAlternatives(rm)[i] == NamedGroup(GroupName(i), rm[i].0)
  {
    if rm != [] {
      RegexAlternativesAt(rm[..|rm| - 1]);
    }
  }

  /**
   * The group table holds exactly the names g_0 .. g_(n-1), the i-th mapped to the colour
   * of the i-th regex key, and never the word group.
   */
  lemma {:induction false} RegexColorMapContents(rm: ColorMapping)
    ensures forall i :: 0 <= i < |rm| ==> GroupName(i) in RegexColorMap(rm) && RegexColorMap(rm)[GroupName(i)] == rm[i].1
    ensures forall g :: g in RegexColorMap(rm) ==> exists i :: 0 <= i < |rm| && g == GroupName(i)
    ensures WordGroup !in RegexColorMap(rm)
  {
    if rm != [] {
      var init, n := rm[..|rm| - 1], |rm| - 1;
      RegexColorMapContents(init);
      var m := RegexColorMap(rm);
      assert m == RegexColorMap(init)[GroupName(n) := rm[n].1];
      forall i | 0 <= i < |rm|
        ensures GroupName(i) in m && m[GroupName(i)] == rm[i].1
      {
        if i < n {
          GroupNamesDistinct(i, n);
          assert init[i] == rm[i];
        }
      }
      forall g | g in m ensures exists i :: 0 <= i < |rm| && g == GroupName(i) {
        if g != GroupName(n) {
          var i :| 0 <= i < |init| && g == GroupName(i);
        }
      }
      GroupNamesDistinct(0, n);
    }
  }

  /** The parts joined with `sep` in between, as Python's `sep.join(parts)`. */
  function Join(parts: seq<string>, sep: string): string {
    if parts == [] then ""
    else if |parts| == 1 then parts[0]
    else parts[0] + sep + Join(parts[1..], sep)
  }

  /** Appending a part to a non-empty list appends the separator and that part. */
  lemma {:induction false} JoinSnoc(parts: seq<string>, last: string, sep: string)
    requires parts != []
    ensures Join(parts + [last], sep) == Join(parts, sep) + sep + last
  {
    if |parts| > 1 {
      assert (parts + [last])[1..] == parts[1..] + [last];
      JoinSnoc(parts[1..], last, sep);
    }
  }

  /** The combined pattern: the regex alternatives, then the word group, joined with `|`. */
  function CombinedRegex(rm: ColorMapping, wordMatchRegex: string): string {
    Join(RegexAlternatives(rm) + [NamedGroup(WordGroup, wordMatchRegex)], "|")
  }

  /** The word group is the last alternative of the combined pattern. */
  lemma CombinedRegexEndsWithWordGroup(rm: ColorMapping, wordMatchRegex: string)
    ensures rm == [] ==> CombinedRegex(rm, wordMatchRegex) == NamedGroup(WordGroup, wordMatchRegex)
    ensures rm != [] ==>
      CombinedRegex(rm, wordMatchRegex) == Join(RegexAlternatives(rm), "|") + "|" + NamedGroup(WordGroup, wordMatchRegex)
  {
    RegexAlternativesAt(rm);
    if rm != [] {
      JoinSnoc(RegexAlternatives(rm), NamedGroup(WordGroup, wordMatchRegex), "|");
    }
  }

  // ---------------------------------------------------------------------------------
  // Compilation

  /**
   * The position of the first regex key that does not compile on its own, if any.
   */
  function FirstUncompilable(rm: ColorMapping, e: Engine): (r: Option<nat>)
    ensures r.Some? ==> r.value < |rm|
  {
    if rm == [] then None
    else if !e.compiles(rm[0].0) then Some(0)
    else match FirstUncompilable(rm[1..], e)
      case None => None
      case Some(k) => Some(k + 1)
  }

  /** No index is reported exactly when every key compiles; a reported index is the first failure. */
  lemma {:induction false} FirstUncompilableSpec(rm: ColorMapping, e: Engine)
    ensures FirstUncompilable(rm, e) == None <==> forall k :: 0 <= k < |rm| ==> e.compiles(rm[k].0)
    ensures FirstUncompilable(rm, e).Some? ==>
      var n := FirstUncompilable(rm, e).value;
      !e.compiles(rm[n].0) && forall k :: 0 <= k < n ==> e.compiles(rm[k].0)
  {
    if rm != [] && e.compiles(rm[0].0) {
      FirstUncompilableSpec(rm[1..], e);
      assert forall k :: 0 < k < |rm| ==> rm[1..][k - 1] == rm[k];
    }
  }

  /** No key before `n` is reported. */
  predicate NoneBefore(r: Option<nat>, n: nat) {
    r.None? || r.value >= n
  }

  /** The loop's early exit: a failing key with nothing reported before it is the one reported. */
  lemma FirstUncompilableAt(rm: ColorMapping, e: Engine, n: nat)
    requires n < |rm| && !e.compiles(rm[n].0) && NoneBefore(FirstUncompilable(rm, e), n)
    ensures FirstUncompilable(rm, e) == Some(n)
  {
    FirstUncompilableSpec(rm, e);
  }

  /** A key that compiles is not the one reported. */
  lemma FirstUncompilableSkip(rm: ColorMapping, e: Engine, n: nat)
    requires n < |rm| && e.compiles(rm[n].0) && NoneBefore(FirstUncompilable(rm, e), n)
    ensures NoneBefore(FirstUncompilable(rm, e), n + 1)
  {
    FirstUncompilableSpec(rm, e);
  }

  /**
   * What construction produces from the mapping, in the order the checks raise: the word
   * pattern is first used (and so first compiled) when the first key is classified, each
   * regex key is compiled alone in order, and the combined pattern is compiled last.
   */
  function CompileResult(mapping: ColorMapping, wordMatchRegex: string, e: Engine): Result<Compiled, InitError>
  {
    if mapping != [] && !e.compiles(wordMatchRegex) then Err(BadPattern(wordMatchRegex))
    else
      var rm := RegexMappings(mapping, wordMatchRegex, e);
      match FirstUncompilable(rm, e)
      case Some(k) => Err(BadPattern(rm[k].0))
      case None =>
        var combined := CombinedRegex(rm, wordMatchRegex);
        if !e.compiles(combined) then Err(BadPattern(combined))
        else Ok(Compiled(WordsColorMap(mapping, wordMatchRegex, e), RegexColorMap(rm), combined))
  }

  /** One more regex key adds its named group and its entry in the group table. */
  lemma RegexStep(rm: ColorMapping, n: nat)
    requires n < |rm|
    ensures RegexAlternatives(rm[..n + 1]) == RegexAlternatives(rm[..n]) + [NamedGroup(GroupName(n), rm[n].0)]
    ensures RegexColorMap(rm[..n + 1]) == RegexColorMap(rm[..n])[GroupName(n) := rm[n].1]
  {
    assert rm[..n + 1][..n] == rm[..n];
  }

  /**
   * The loop over the regex keys: each is compiled alone, in order, and the first that
   * fails raises; otherwise every key has its named group and its entry in the group table.
   */
  method CompileRegexes(regexMappings: ColorMapping, e: Engine) returns (r: Result<(seq<string>, map<string, string>), InitError>)
    ensures FirstUncompilable(regexMappings, e).Some? ==>
      r == Err(BadPattern(regexMappings[FirstUncompilable(regexMappings, e).value].0))
    ensures FirstUncompilable(regexMappings, e).None? ==>
      r.Ok? && r.value.0 == RegexAlternatives(regexMappings) && r.value.1 == RegexColorMap(regexMappings)
  {
    var regexes: seq<string> := [];
    var regexColorMap: map<string, string> := map[];
    var n := 0;
    while n < |regexMappings|
      invariant n <= |regexMappings|
      invariant NoneBefore(FirstUncompilable(regexMappings, e), n)
      invariant regexes == RegexAlternatives(regexMappings[..n])
      invariant regexColorMap == RegexColorMap(regexMappings[..n])
    {
      var mapping := regexMappings[n];
      if !e.compiles(mapping.0) {
        FirstUncompilableAt(regexMappings, e, n);
        r := Err(BadPattern(mapping.0));
        return;
      }
      FirstUncompilableSkip(regexMappings, e, n);
      var groupName := GroupName(n);
      regexColorMap := regexColorMap[groupName := mapping.1];
      regexes := regexes + [NamedGroup(groupName, mapping.0)];
      RegexStep(regexMappings, n);
      n := n + 1;
    }
    assert regexMappings[..n] == regexMappings;
    r := Ok((regexes, regexColorMap));
  }

  /** The body of the constructor after the colour mode is chosen. */
  method Compile(colorMapping: ColorMapping, wordMatchRegex: string, e: Engine) returns (r: Result<Compiled, InitError>)
    ensures r == CompileResult(colorMapping, wordMatchRegex, e)
  {
    if colorMapping != [] && !e.compiles(wordMatchRegex) {
      return Err(BadPattern(wordMatchRegex));
    }
    var wordsColorMap := WordsColorMap(colorMapping, wordMatchRegex, e);
    var regexMappings := RegexMappings(colorMapping, wordMatchRegex, e);
    var compiledRegexes := CompileRegexes(regexMappings, e);
    if compiledRegexes.Err? {
      return Err(compiledRegexes.error);
    }
    var (regexes, regexColorMap) := compiledRegexes.value;
    regexes := regexes + [NamedGroup(WordGroup, wordMatchRegex)];
    var combinedRegex := Join(regexes, "|");
    if !e.compiles(combinedRegex) {
      return Err(BadPattern(combinedRegex));
    }
    r := Ok(Compiled(wordsColorMap, regexColorMap, combinedRegex));
  }

  /**
   * A successful construction: the word map, the group table g_0 .. g_(n-1) with the
   * colours of the regex keys in order, and the combined pattern ending in the word group.
   */
  lemma CompiledContents(mapping: ColorMapping, wordMatchRegex: string, e: Engine)
    requires CompileResult(mapping, wordMatchRegex, e).Ok?
    ensures var c, rm := CompileResult(mapping, wordMatchRegex, e).value, RegexMappings(mapping, wordMatchRegex, e);
      && c.wordsColorMap == WordsColorMap(mapping, wordMatchRegex, e)
      && (forall i :: 0 <= i < |rm| ==> GroupName(i) in c.regexColorMap && c.regexColorMap[GroupName(i)] == rm[i].1)
      && (forall g :: g in c.regexColorMap ==> exists i :: 0 <= i < |rm| && g == GroupName(i))
      && WordGroup !in c.regexColorMap
      && c.regex == CombinedRegex(rm, wordMatchRegex)
  {
    RegexColorMapContents(RegexMappings(mapping, wordMatchRegex, e));
  }

  /** An empty colour mapping compiles to an empty word map and an empty group table. */
  lemma EmptyMappingCompiles(wordMatchRegex: string, e: Engine)
    requires CompileResult([], wordMatchRegex, e).Ok?
    ensures CompileResult([], wordMatchRegex, e).value.wordsColorMap == map[]
    ensures CompileResult([], wordMatchRegex, e).value.regexColorMap == map[]
    ensures CompileResult([], wordMatchRegex, e).value.regex == NamedGroup(WordGroup, wordMatchRegex)
  {
    CombinedRegexEndsWithWordGroup([], wordMatchRegex);
  }

  /**
   * A regex key that does not compile makes construction fail with a bad-pattern error.
   * The pattern named may be an earlier one: the word pattern or an earlier failing key.
   */
  lemma CompileFailsOnBadKey(mapping: ColorMapping, wordMatchRegex: string, e: Engine, i: nat)
    requires i < |mapping| && IsHighlighterRegex(mapping[i].0, wordMatchRegex, e) && !e.compiles(mapping[i].0)
    ensures CompileResult(mapping, wordMatchRegex, e).Err?
    ensures CompileResult(mapping, wordMatchRegex, e).error.BadPattern?
  {
    ClassificationPartition(mapping, wordMatchRegex, e, i);
    var rm := RegexMappings(mapping, wordMatchRegex, e);
    var k :| 0 <= k < |rm| && rm[k] == mapping[i];
    assert !e.compiles(rm[k].0);
    FirstUncompilableSpec(rm, e);
  }
}
