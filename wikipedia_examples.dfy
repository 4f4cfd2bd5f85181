/** Worked captions: what the designer lookup returns on concrete text. */
module WikipediaExamples {
  import opened Wrappers
  import opened Text
  import opened ArtworkCaption
  import opened DesignerText
  import opened WikipediaPage

  /** The character at which each of the first three patterns must start. */
  function Lead(rule: Rule): char
    requires rule != SpaceRun
  {
    match rule
    case CssRule => '.'
    case BraceBlock => '{'
    case RefMarker => '['
  }

  /** A text without the leading character of a pattern passes its replacement unchanged. */
  lemma AbsentLead(rule: Rule, s: string, rep: string)
    requires rule != SpaceRun
    requires forall k :: 0 <= k < |s| ==> s[k] != Lead(rule)
    ensures ReplaceAll(rule, s, rep) == s
  {
    ReplaceFromNoMatch(rule, s, 0, rep);
  }

  /** The reference marker `[1]` is stripped from the designer's name. */
  lemma StripKenSugimori(s: string)
    requires s == "Ken Sugimori[1]"
    ensures StripNoise(s) == "Ken Sugimori"
  {
    AbsentLead(CssRule, s, "");
    AbsentLead(BraceBlock, s, "");
    assert RuleEnd(RefMarker, s, 12) == Some(15) by {
      assert AllIn(Digit, s, 13, 14);
      RuleEndCorrect(RefMarker, s, 12, 15);
    }
    ReplaceFromLeftmost(RefMarker, s, 0, 12, "");
    assert s[0..12] == "Ken Sugimori";
  }

  lemma CleanKenSugimori(s: string)
    requires s == "Ken Sugimori[1]"
    ensures CleanDesignerText(s) == "Ken Sugimori"
  {
    StripKenSugimori(s);
    CollapseKeepsNormalized(StripNoise(s));
    assert |s| == 15;
  }

  /** No match starts where `artwork by` cannot: at a character other than `a`, or an
      `a` followed by a character other than `r` (in any case). */
  lemma NoPhraseAt(s: string, at: nat)
    requires at < |s|
    requires LowerChar(s[at]) != 'a' || (at + 1 < |s| && LowerChar(s[at + 1]) != 'r')
    ensures !PhraseAt(s, at)
  {
    if LowerChar(s[at]) == 'a' {
      assert !PhraseFrom(s, at, 1);
    }
  }

  /** The scan passes over positions where `artwork by` does not occur. */
  lemma {:induction false} FirstMatchSkips(s: string, a: nat, b: nat)
    requires a <= b
    requires forall p: nat :: a <= p < b ==> !PhraseAt(s, p)
    ensures FirstMatch(s, a) == FirstMatch(s, b)
    decreases b - a
  {
    if a < b {
      FirstMatchSkips(s, a + 1, b);
      if a < |s| {
        assert MatchAt(s, a) == None;
      }
    }
  }

  /** `artwork by` does not occur at positions 0 to 3 of the caption, ... */
  lemma NoPhraseBeforeFour(s: string)
    requires s == "Pikachu artwork by Ken Sugimori[1]"
    ensures !PhraseAt(s, 0) && !PhraseAt(s, 1) && !PhraseAt(s, 2) && !PhraseAt(s, 3)
  {
    NoPhraseAt(s, 0);
    NoPhraseAt(s, 1);
    NoPhraseAt(s, 2);
    NoPhraseAt(s, 3);
  }

  /** ... nor at positions 4 to 7. */
  lemma NoPhraseBeforeEight(s: string)
    requires s == "Pikachu artwork by Ken Sugimori[1]"
    ensures !PhraseAt(s, 4) && !PhraseAt(s, 5) && !PhraseAt(s, 6) && !PhraseAt(s, 7)
  {
    NoPhraseAt(s, 4);
    NoPhraseAt(s, 5);
    NoPhraseAt(s, 6);
    NoPhraseAt(s, 7);
  }

  /** At position 8 the caption reads `artwork by`, ... */
  lemma PhraseAtEight()
    ensures PhraseAt("Pikachu artwork by Ken Sugimori[1]", 8)
  {
    var s := "Pikachu artwork by Ken Sugimori[1]";
    assert PhraseFrom(s, 8, 10);
    assert PhraseFrom(s, 8, 9);
    assert PhraseFrom(s, 8, 8);
    assert PhraseFrom(s, 8, 7);
    assert PhraseFrom(s, 8, 6);
    assert PhraseFrom(s, 8, 5);
    assert PhraseFrom(s, 8, 4);
    assert PhraseFrom(s, 8, 3);
    assert PhraseFrom(s, 8, 2);
    assert PhraseFrom(s, 8, 1);
    assert PhraseFrom(s, 8, 0);
  }

  /** ... followed by exactly one space, ... */
  lemma OneSpaceAfterPhrase()
    ensures SpaceRunEnd("Pikachu artwork by Ken Sugimori[1]", 18) == 19
  {
  }

  /** ... and by `Ken Sugimori` up to the first `[`. */
  lemma GroupUpToBracket()
    ensures LazyEnd("Pikachu artwork by Ken Sugimori[1]", 20) == Some(31)
  {
  }

  /** The match anchored at position 8: one space, then the group up to the `[`. */
  lemma MatchAtEight(s: string)
    requires s == "Pikachu artwork by Ken Sugimori[1]"
    ensures MatchAt(s, 8) == Some(Span(8, 19, 31))
  {
    PhraseAtEight();
    OneSpaceAfterPhrase();
    GroupUpToBracket();
    assert Backtrack(s, 18, 1) == Some((19, 31));
  }

  /** `artwork by` occurs first at position 8; the group runs up to the `[`. */
  lemma MatchPikachuCaption(s: string)
    requires s == "Pikachu artwork by Ken Sugimori[1]"
    ensures MatchCaption(s) == Some(Span(8, 19, 31))
  {
    NoPhraseBeforeFour(s);
    NoPhraseBeforeEight(s);
    MatchAtEight(s);
    forall p: nat | p < 8 ensures !PhraseAt(s, p) {
      if p == 0 {} else if p == 1 {} else if p == 2 {} else if p == 3 {}
      else if p == 4 {} else if p == 5 {} else if p == 6 {} else {}
    }
    FirstMatchSkips(s, 0, 8);
  }

  /** Text without `.`, `{` and `[` has no noise. */
  lemma NoLeadNoNoise(t: string)
    requires forall k :: 0 <= k < |t| ==> t[k] != '.' && t[k] != '{' && t[k] != '['
    ensures NoNoise(t)
  {
  }

  /** Text whose only white space is one ' ' between two other characters is
      single-spaced. */
  lemma OneSpaceInside(t: string, p: nat)
    requires 0 < p < |t| - 1 && t[p] == ' '
    requires forall k :: 0 <= k < |t| && k != p ==> !IsSpace(t[k])
    ensures SingleSpaced(t) && Trimmed(t)
  {
  }

  /** The name needs no cleaning. */
  lemma KenSugimoriIsClean(g: string)
    requires g == "Ken Sugimori"
    ensures CleanDesignerText(g) == g
  {
    NoLeadNoNoise(g);
    OneSpaceInside(g, 3);
    CleanFixesNormalized(g);
  }

  /** The designer of the Pikachu artwork, read from its caption. */
  lemma PikachuDesigner(s: string)
    requires s == "Pikachu artwork by Ken Sugimori[1]"
    ensures ArtworkDesigner(Caption(s)) == Success("Ken Sugimori")
  {
    MatchPikachuCaption(s);
    var g := s[19..31];
    assert g == "Ken Sugimori";
    KenSugimoriIsClean(g);
  }

  /** The replacements run in order: removing the brace block `{x}` first leaves a
      reference marker `[1]`, which the next replacement removes as well. */
  lemma ReplacementOrder(s: string)
    requires s == "[{x}1]"
    ensures CleanDesignerText(s) == ""
  {
    AbsentLead(CssRule, s, "");
    assert RuleEnd(BraceBlock, s, 0) == None;
    assert RuleEnd(BraceBlock, s, 1) == Some(4) by {
      assert AllIn(NotClose, s, 2, 3);
      RuleEndCorrect(BraceBlock, s, 1, 4);
    }
    ReplaceFromLeftmost(BraceBlock, s, 0, 1, "");
    assert RuleEnd(BraceBlock, s, 4) == None && RuleEnd(BraceBlock, s, 5) == None;
    ReplaceFromNoMatch(BraceBlock, s, 4, "");
    var t := ReplaceAll(BraceBlock, s, "");
    assert t == "[1]";
    assert RuleEnd(RefMarker, t, 0) == Some(3) by {
      assert AllIn(Digit, t, 1, 2);
      RuleEndCorrect(RefMarker, t, 0, 3);
    }
    ReplaceFromLeftmost(RefMarker, t, 0, 0, "");
  }

  /** A single pass: the marker `[1]` inside `[[1]2]` is removed, and the `[2]` this
      leaves behind is not scanned again. */
  lemma SinglePass(s: string)
    requires s == "[[1]2]"
    ensures StripNoise(s) == "[2]"
  {
    AbsentLead(CssRule, s, "");
    AbsentLead(BraceBlock, s, "");
    assert RuleEnd(RefMarker, s, 0) == None;
    assert RuleEnd(RefMarker, s, 1) == Some(4) by {
      assert AllIn(Digit, s, 2, 3);
      RuleEndCorrect(RefMarker, s, 1, 4);
    }
    ReplaceFromLeftmost(RefMarker, s, 0, 1, "");
    assert RuleEnd(RefMarker, s, 4) == None && RuleEnd(RefMarker, s, 5) == None;
    ReplaceFromNoMatch(RefMarker, s, 4, "");
  }

  /** A style rule at the start of the text is removed by the `.mw-` pass: `.mw-`, some
      letters or hyphens, one space, some characters other than `}`, and the `}`. What
      follows is kept when it holds no `.`. */
  lemma LeadingStyleRuleRemoved(word: string, body: string, rest: string)
    requires word != [] && forall k :: 0 <= k < |word| ==> InClass(Word, word[k])
    requires body != [] && forall k :: 0 <= k < |body| ==> body[k] != '}'
    requires forall k :: 0 <= k < |rest| ==> rest[k] != '.'
    ensures ReplaceAll(CssRule, ".mw-" + word + " " + body + "}" + rest, "") == rest
  {
    var pre := ".mw-" + word + " " + body + "}";
    var s := pre + rest;
    var x, j := 4 + |word|, |pre|;
    assert s[..4] == ".mw-";
    assert CssPrefixAt(s, 0) by {
      assert s[0] == '.' && s[1] == 'm' && s[2] == 'w' && s[3] == '-';
    }
    assert AllIn(Word, s, 4, x) by {
      forall k | 4 <= k < x ensures InClass(Word, s[k]) {
        assert s[k] == word[k - 4];
      }
    }
    assert AllIn(Space, s, x, x + 1) by {
      assert s[x] == ' ';
    }
    assert AllIn(NotClose, s, x + 1, j - 1) by {
      forall k | x + 1 <= k < j - 1 ensures InClass(NotClose, s[k]) {
        assert s[k] == body[k - x - 1];
      }
    }
    assert s[j - 1] == '}';
    assert Matched(CssRule, s, 0, j);
    CssMatchFound(s, 0, j);
    ReplaceFromLeftmost(CssRule, s, 0, 0, "");
    forall p | j <= p < |s| ensures RuleEnd(CssRule, s, p).None? {
      assert s[p] == rest[p - j];
    }
    ReplaceFromNoMatch(CssRule, s, j, "");
    assert s[j..] == rest;
  }

  /** The styled name is `.mw-`, the letters `parser-output`, a space, a body up to the
      `}`, and the name. */
  lemma StyledNameParts(s: string)
    requires s == ".mw-parser-output .x{color:red}Ken Sugimori"
    ensures s == ".mw-" + "parser-output" + " " + ".x{color:red" + "}" + "Ken Sugimori"
  {
  }

  lemma ParserOutputIsWord(w: string)
    requires w == "parser-output"
    ensures forall k :: 0 <= k < |w| ==> InClass(Word, w[k])
  {
  }

  /** The `.mw-` pass removes a style rule written before the name. */
  lemma StripStyleRule(s: string)
    requires s == ".mw-parser-output .x{color:red}Ken Sugimori"
    ensures ReplaceAll(CssRule, s, "") == "Ken Sugimori"
  {
    StyledNameParts(s);
    ParserOutputIsWord("parser-output");
    LeadingStyleRuleRemoved("parser-output", ".x{color:red", "Ken Sugimori");
  }

  /** A caption text with a style rule before the name cleans to the name. */
  lemma CleanStyledName(s: string)
    requires s == ".mw-parser-output .x{color:red}Ken Sugimori"
    ensures CleanDesignerText(s) == "Ken Sugimori"
  {
    var g := "Ken Sugimori";
    StripStyleRule(s);
    AbsentLead(CssRule, g, "");
    assert StripNoise(s) == StripNoise(g);
    KenSugimoriIsClean(g);
  }
}
