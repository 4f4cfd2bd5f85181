/** `cleanDesignerText`: four global RegExp replacements applied in a fixed order, then
    `trim`. Each pattern is given twice: as the set of strings it matches (`Matched`)
    and as a function that computes where the match at a position ends (`RuleEnd`).
    For the first three patterns that end is unique, so greedy and lazy choices do not
    matter; for `\s+` the greedy quantifier takes the whole run of white space. */
module DesignerText {
  import opened Wrappers
  import opened Text

  /** The patterns, in the order the source applies them. */
  datatype Rule =
    | CssRule     // /\.mw-[a-z-]+\s+[^}]+\}/gi, replaced by ''
    | BraceBlock  // /\{[^}]*\}/g, replaced by ''
    | RefMarker   // /\[\d+\]/g, replaced by ''
    | SpaceRun    // /\s+/g, replaced by ' '

  /** The character classes the patterns repeat. */
  datatype CharClass =
    | Word        // [a-z-] under the `i` flag: ASCII letters and '-'
    | Space       // \s
    | Digit       // \d
    | NotClose    // [^}]

  predicate InClass(cls: CharClass, c: char) {
    match cls
    case Word => IsAsciiLetter(c) || c == '-'
    case Space => IsSpace(c)
    case Digit => IsDigit(c)
    case NotClose => c != '}'
  }

  predicate AllIn(cls: CharClass, s: string, from: nat, to: nat)
    requires from <= to <= |s|
  {
    forall k :: from <= k < to ==> InClass(cls, s[k])
  }

  /** End of the maximal run of `cls` characters starting at `i`. */
  function RunEnd(cls: CharClass, s: string, i: nat): (r: nat)
    requires i <= |s|
    ensures i <= r <= |s|
    decreases |s| - i
  {
    if i < |s| && InClass(cls, s[i]) then RunEnd(cls, s, i + 1) else i
  }

  /** The run RunEnd finds is made of `cls` characters and cannot be extended. */
  lemma {:induction false} RunEndSpec(cls: CharClass, s: string, i: nat)
    requires i <= |s|
    ensures var r := RunEnd(cls, s, i);
      AllIn(cls, s, i, r) && (r == |s| || !InClass(cls, s[r]))
    decreases |s| - i
  {
    if i < |s| && InClass(cls, s[i]) {
      RunEndSpec(cls, s, i + 1);
    }
  }

  /** A run of `cls` characters that stops where `cls` stops is the maximal run. */
  lemma {:induction false} RunEndAt(cls: CharClass, s: string, i: nat, e: nat)
    requires i <= e <= |s| && AllIn(cls, s, i, e) && (e == |s| || !InClass(cls, s[e]))
    ensures RunEnd(cls, s, i) == e
    decreases e - i
  {
    if i < e {
      RunEndAt(cls, s, i + 1, e);
    }
  }

  /** `.mw-` under the `i` flag starts at `i`. */
  predicate CssPrefixAt(s: string, i: nat) {
    i + 4 <= |s| && s[i] == '.' && LowerChar(s[i + 1]) == 'm' && LowerChar(s[i + 2]) == 'w'
    && s[i + 3] == '-'
  }

  /** `s[i..j]` is a string the pattern of `rule` matches (for `SpaceRun`, the greedy
      match: the run of white space cannot be extended). */
  ghost predicate Matched(rule: Rule, s: string, i: nat, j: nat)
    requires i < j <= |s|
  {
    match rule
    case CssRule =>
      && CssPrefixAt(s, i)
      && exists x: nat, y: nat :: i + 4 < x < y < j - 1 && AllIn(Word, s, i + 4, x)
           && AllIn(Space, s, x, y) && AllIn(NotClose, s, y, j - 1) && s[j - 1] == '}'
    case BraceBlock =>
      s[i] == '{' && i + 2 <= j && AllIn(NotClose, s, i + 1, j - 1) && s[j - 1] == '}'
    case RefMarker =>
      s[i] == '[' && i + 3 <= j && AllIn(Digit, s, i + 1, j - 1) && s[j - 1] == ']'
    case SpaceRun =>
      AllIn(Space, s, i, j) && (j == |s| || !IsSpace(s[j]))
  }

  /** Where the match of `rule` anchored at `i` ends, if there is one. */
  function RuleEnd(rule: Rule, s: string, i: nat): (r: Option<nat>)
    requires i < |s|
    ensures r.Some? ==> i < r.value <= |s|
  {
    match rule
    case CssRule =>
      if !CssPrefixAt(s, i) then None
      else
        var x := RunEnd(Word, s, i + 4);
        if x == i + 4 || x == |s| || !IsSpace(s[x]) then None
        else
          var close := RunEnd(NotClose, s, x);
          if close < |s| && x + 2 <= close then Some(close + 1) else None
    case BraceBlock =>
      if s[i] != '{' then None
      else
        var close := RunEnd(NotClose, s, i + 1);
        if close < |s| then Some(close + 1) else None
    case RefMarker =>
      if s[i] != '[' then None
      else
        var close := RunEnd(Digit, s, i + 1);
        if i + 1 < close < |s| && s[close] == ']' then Some(close + 1) else None
    case SpaceRun =>
      if IsSpace(s[i]) then Some(RunEnd(Space, s, i)) else None
  }

  /** RuleEnd finds the match of the pattern at `i` exactly when there is one, and the
      match there is unique. */
  lemma RuleEndCorrect(rule: Rule, s: string, i: nat, j: nat)
    requires i < j <= |s|
    ensures RuleEnd(rule, s, i) == Some(j) <==> Matched(rule, s, i, j)
  {
    match rule
    case CssRule =>
      if Matched(rule, s, i, j) {
        CssMatchFound(s, i, j);
      }
      if RuleEnd(rule, s, i) == Some(j) {
        CssFoundMatch(s, i, j);
      }
    case BraceBlock =>
      if Matched(rule, s, i, j) {
        RunEndAt(NotClose, s, i + 1, j - 1);
      }
      if RuleEnd(rule, s, i) == Some(j) {
        RunEndSpec(NotClose, s, i + 1);
      }
    case RefMarker =>
      if Matched(rule, s, i, j) {
        RunEndAt(Digit, s, i + 1, j - 1);
      }
      if RuleEnd(rule, s, i) == Some(j) {
        RunEndSpec(Digit, s, i + 1);
      }
    case SpaceRun =>
      if Matched(rule, s, i, j) {
        RunEndAt(Space, s, i, j);
      }
      if RuleEnd(rule, s, i) == Some(j) {
        RunEndSpec(Space, s, i);
      }
  }

  /** A CSS rule fragment is found where it occurs: the letters end where the white
      space starts, and the white space belongs to the run of characters other than `}`. */
  lemma CssMatchFound(s: string, i: nat, j: nat)
    requires i < j <= |s| && Matched(CssRule, s, i, j)
    ensures RuleEnd(CssRule, s, i) == Some(j)
  {
    var x: nat, y: nat :| i + 4 < x < y < j - 1 && AllIn(Word, s, i + 4, x)
      && AllIn(Space, s, x, y) && AllIn(NotClose, s, y, j - 1) && s[j - 1] == '}';
    RunEndAt(Word, s, i + 4, x);
    assert AllIn(NotClose, s, x, j - 1) by {
      forall k | x <= k < j - 1 ensures InClass(NotClose, s[k]) {
        if k < y {
          assert IsSpace(s[k]);
        }
      }
    }
    RunEndAt(NotClose, s, x, j - 1);
  }

  /** What RuleEnd finds for a CSS rule fragment is one: the first white-space
      character after the letters serves as `\s+`. */
  lemma CssFoundMatch(s: string, i: nat, j: nat)
    requires i < j <= |s| && RuleEnd(CssRule, s, i) == Some(j)
    ensures Matched(CssRule, s, i, j)
  {
    var x := RunEnd(Word, s, i + 4);
    RunEndSpec(Word, s, i + 4);
    RunEndSpec(NotClose, s, x);
    assert AllIn(Space, s, x, x + 1);
    assert AllIn(NotClose, s, x + 1, j - 1);
  }

  /** `s.replace(pattern, rep)` with the `g` flag, scanning from `i`: where the pattern
      matches, its match is replaced and the scan resumes after it; elsewhere the
      character is kept. None of the patterns matches the empty string. */
  function ReplaceFrom(rule: Rule, s: string, i: nat, rep: string): string
    requires i <= |s|
    decreases |s| - i
  {
    if i == |s| then []
    else match RuleEnd(rule, s, i)
      case Some(j) => rep + ReplaceFrom(rule, s, j, rep)
      case None => [s[i]] + ReplaceFrom(rule, s, i + 1, rep)
  }

  function ReplaceAll(rule: Rule, s: string, rep: string): string {
    ReplaceFrom(rule, s, 0, rep)
  }

  /** The ECMAScript form of a global replace: search from the current position for
      the leftmost match, copy what precedes it, replace it, go on after it. */
  lemma {:induction false} ReplaceFromLeftmost(rule: Rule, s: string, i: nat, k: nat, rep: string)
    requires i <= k < |s| && RuleEnd(rule, s, k).Some?
    requires forall p :: i <= p < k ==> RuleEnd(rule, s, p).None?
    ensures ReplaceFrom(rule, s, i, rep)
      == s[i..k] + rep + ReplaceFrom(rule, s, RuleEnd(rule, s, k).value, rep)
    decreases k - i
  {
    if i < k {
      ReplaceFromKeeps(rule, s, i, rep);
      ReplaceFromLeftmost(rule, s, i + 1, k, rep);
      ConsSlice(s, i, k, rep, ReplaceFrom(rule, s, RuleEnd(rule, s, k).value, rep));
    } else {
      ReplaceFromReplaces(rule, s, k, rep);
    }
  }

  lemma ConsSlice(s: string, i: nat, k: nat, rep: string, rest: string)
    requires i < k <= |s|
    ensures [s[i]] + (s[i + 1..k] + rep + rest) == s[i..k] + rep + rest
  {
    assert s[i..k] == [s[i]] + s[i + 1..k];
  }

  /** Where the pattern matches, the scan replaces the match and resumes after it. */
  lemma ReplaceFromReplaces(rule: Rule, s: string, k: nat, rep: string)
    requires k < |s| && RuleEnd(rule, s, k).Some?
    ensures ReplaceFrom(rule, s, k, rep) == s[k..k] + rep + ReplaceFrom(rule, s, RuleEnd(rule, s, k).value, rep)
  {
    assert s[k..k] == [];
  }

  /** Where the pattern does not match, the scan keeps the character. */
  lemma ReplaceFromKeeps(rule: Rule, s: string, i: nat, rep: string)
    requires i < |s| && RuleEnd(rule, s, i).None?
    ensures ReplaceFrom(rule, s, i, rep) == [s[i]] + ReplaceFrom(rule, s, i + 1, rep)
  {
  }

  /** Where the pattern does not match at all, the global replace changes nothing. */
  lemma {:induction false} ReplaceFromNoMatch(rule: Rule, s: string, i: nat, rep: string)
    requires i <= |s|
    requires forall p :: i <= p < |s| ==> RuleEnd(rule, s, p).None?
    ensures ReplaceFrom(rule, s, i, rep) == s[i..]
    decreases |s| - i
  {
    if i < |s| {
      ReplaceFromNoMatch(rule, s, i + 1, rep);
      assert s[i..] == [s[i]] + s[i + 1..];
    }
  }

  /** Each replacement is no longer than the text it replaces, so the output is no
      longer than the input. */
  lemma {:induction false} ReplaceFromShrinks(rule: Rule, s: string, i: nat, rep: string)
    requires i <= |s| && |rep| <= 1
    ensures |ReplaceFrom(rule, s, i, rep)| <= |s| - i
    decreases |s| - i
  {
    if i < |s| {
      match RuleEnd(rule, s, i)
      case Some(j) => ReplaceFromShrinks(rule, s, j, rep);
      case None => ReplaceFromShrinks(rule, s, i + 1, rep);
    }
  }

  /** Every white-space character is a plain space and none is followed by another. */
  predicate SingleSpaced(t: string) {
    forall k :: 0 <= k < |t| && IsSpace(t[k]) ==> t[k] == ' ' && (k + 1 == |t| || !IsSpace(t[k + 1]))
  }

  predicate Trimmed(t: string) {
    t == [] || (!IsSpace(t[0]) && !IsSpace(t[|t| - 1]))
  }

  lemma SingleSpacedCons(c: char, t: string)
    requires SingleSpaced(t)
    requires !IsSpace(c) || (c == ' ' && (t == [] || !IsSpace(t[0])))
    ensures SingleSpaced([c] + t)
  {
    var u := [c] + t;
    forall k | 0 <= k < |u| && IsSpace(u[k]) ensures u[k] == ' ' && (k + 1 == |u| || !IsSpace(u[k + 1])) {
      if k > 0 {
        assert u[k] == t[k - 1];
      }
    }
  }

  /** Collapsing white space leaves only single plain spaces, and the output starts
      with white space only where the input does. */
  lemma {:induction false} CollapseSingleSpaced(s: string, i: nat)
    requires i <= |s|
    ensures SingleSpaced(ReplaceFrom(SpaceRun, s, i, " "))
    ensures i < |s| && !IsSpace(s[i]) ==> ReplaceFrom(SpaceRun, s, i, " ")[0] == s[i]
    decreases |s| - i
  {
    if i < |s| {
      match RuleEnd(SpaceRun, s, i)
      case Some(j) =>
        RunEndSpec(Space, s, i);
        CollapseSingleSpaced(s, j);
        SingleSpacedCons(' ', ReplaceFrom(SpaceRun, s, j, " "));
      case None =>
        CollapseSingleSpaced(s, i + 1);
        SingleSpacedCons(s[i], ReplaceFrom(SpaceRun, s, i + 1, " "));
    }
  }

  /** A slice keeps single spacing. */
  lemma SingleSpacedSlice(t: string, a: nat, b: nat)
    requires a <= b <= |t| && SingleSpaced(t)
    ensures SingleSpaced(t[a..b])
  {
    var u := t[a..b];
    forall k | 0 <= k < |u| && IsSpace(u[k]) ensures u[k] == ' ' && (k + 1 == |u| || !IsSpace(u[k + 1])) {
      assert u[k] == t[a + k];
      if k + 1 < |u| {
        assert u[k + 1] == t[a + k + 1];
      }
    }
  }

  /** The text after the first three replacements, before white space is collapsed. */
  function StripNoise(text: string): string {
    var noCss := ReplaceAll(CssRule, text, "");
    var noBraces := ReplaceAll(BraceBlock, noCss, "");
    ReplaceAll(RefMarker, noBraces, "")
  }

  /** The last step: every run of white space becomes one ' ', then `trim`. */
  function CollapseSpaces(t: string): string {
    Trim(ReplaceAll(SpaceRun, t, " "))
  }

  /** `cleanDesignerText`. */
  function CleanDesignerText(text: string): string {
    if text == "" then "" else CollapseSpaces(StripNoise(text))
  }

  /** The cleaned text is trimmed and single-spaced: no tab, newline or other white
      space but ' ' remains, and no two white-space characters are adjacent. */
  lemma CleanIsNormalized(text: string)
    ensures Trimmed(CleanDesignerText(text)) && SingleSpaced(CleanDesignerText(text))
  {
    if text != "" {
      var collapsed := ReplaceAll(SpaceRun, StripNoise(text), " ");
      CollapseSingleSpaced(StripNoise(text), 0);
      var a, b := TrimIsSlice(collapsed);
      SingleSpacedSlice(collapsed, a, b);
    }
  }

  /** Every step only deletes characters or shrinks runs, so cleaning never lengthens
      the text; the empty text stays empty. */
  lemma CleanShrinks(text: string)
    ensures |CleanDesignerText(text)| <= |text|
    ensures text == "" ==> CleanDesignerText(text) == ""
  {
    if text != "" {
      var noCss := ReplaceAll(CssRule, text, "");
      var noBraces := ReplaceAll(BraceBlock, noCss, "");
      ReplaceFromShrinks(CssRule, text, 0, "");
      ReplaceFromShrinks(BraceBlock, noCss, 0, "");
      ReplaceFromShrinks(RefMarker, noBraces, 0, "");
      ReplaceFromShrinks(SpaceRun, StripNoise(text), 0, " ");
      var a, b := TrimIsSlice(ReplaceAll(SpaceRun, StripNoise(text), " "));
    }
  }

  /** No `.mw-` (in any case), `{` or `[` occurs. */
  predicate NoNoise(t: string) {
    && (forall k :: 0 <= k < |t| ==> t[k] != '{' && t[k] != '[')
    && (forall k :: 0 <= k < |t| ==> !CssPrefixAt(t, k))
  }

  /** Text without noise passes the first three replacements unchanged. */
  lemma StripNoiseKeepsClean(text: string)
    requires NoNoise(text)
    ensures StripNoise(text) == text
  {
    ReplaceFromNoMatch(CssRule, text, 0, "");
    ReplaceFromNoMatch(BraceBlock, text, 0, "");
    ReplaceFromNoMatch(RefMarker, text, 0, "");
  }

  /** Trimmed, single-spaced text passes the last step unchanged. */
  lemma CollapseKeepsNormalized(text: string)
    requires Trimmed(text) && SingleSpaced(text)
    ensures CollapseSpaces(text) == text
  {
    CollapseKeepsSingleSpaces(text, 0);
    TrimOfTrimmed(text);
  }

  /** Text that has no noise and is already trimmed and single-spaced comes back
      unchanged. */
  lemma CleanFixesNormalized(text: string)
    requires NoNoise(text) && Trimmed(text) && SingleSpaced(text)
    ensures CleanDesignerText(text) == text
  {
    if text != "" {
      StripNoiseKeepsClean(text);
      CollapseKeepsNormalized(text);
    }
  }

  /** On single-spaced text each match of `\s+` is one ' ', replaced by ' '. */
  lemma {:induction false} CollapseKeepsSingleSpaces(t: string, i: nat)
    requires i <= |t| && SingleSpaced(t)
    ensures ReplaceFrom(SpaceRun, t, i, " ") == t[i..]
    decreases |t| - i
  {
    if i < |t| {
      CollapseKeepsSingleSpaces(t, i + 1);
      if IsSpace(t[i]) {
        RunEndAt(Space, t, i, i + 1);
      }
      assert t[i..] == [t[i]] + t[i + 1..];
    }
  }
}
