/** The first match of the RegExp `/artwork by\s+(.+?)(?:\[|$)/i` in a caption, with
    the order in which an ECMAScript backtracking matcher tries the alternatives: the
    leftmost start first, then as many white-space characters for `\s+` as possible,
    then as few characters for the lazy group `(.+?)` as possible. `.` does not match a
    line terminator and `$` is the end of input (no `s` or `m` flag). With the `i` flag
    and an ASCII pattern, a character matches a pattern letter exactly when its ASCII
    lower case does: ECMAScript's Canonicalize never maps a non-ASCII character to an
    ASCII one. */
module ArtworkCaption {
  import opened Wrappers
  import opened Text

  const Phrase := "artwork by"

  /** From its `k`-th character on, `artwork by` occurs at `at`, ignoring ASCII case. */
  predicate PhraseFrom(s: string, at: nat, k: nat)
    decreases |Phrase| - k
  {
    k >= |Phrase| || (at + k < |s| && LowerChar(s[at + k]) == Phrase[k] && PhraseFrom(s, at, k + 1))
  }

  /** `artwork by`, in any ASCII case, occurs at `at`. */
  predicate PhraseAt(s: string, at: nat) {
    PhraseFrom(s, at, 0)
  }

  predicate AllSpace(s: string, from: nat, to: nat)
    requires from <= to <= |s|
  {
    forall k :: from <= k < to ==> IsSpace(s[k])
  }

  predicate NoLineBreak(s: string, from: nat, to: nat)
    requires from <= to <= |s|
  {
    forall k :: from <= k < to ==> !IsLineTerminator(s[k])
  }

  /** `(.+?)(?:\[|$)` can take `s[from..to]` as its group: one or more characters
      that are not line terminators, followed by `[` or the end of input. */
  predicate CaptureEndsAt(s: string, from: nat, to: nat) {
    from < to <= |s| && NoLineBreak(s, from, to) && (to == |s| || s[to] == '[')
  }

  /** The whole pattern matches at `at` with group 1 equal to `s[from..to]`. */
  predicate Matches(s: string, at: nat, from: nat, to: nat) {
    && PhraseAt(s, at)
    && at + |Phrase| < from <= |s|
    && AllSpace(s, at + |Phrase|, from)
    && CaptureEndsAt(s, from, to)
  }

  /** A match: where it starts and where group 1 starts and ends. */
  datatype Span = Span(at: nat, from: nat, to: nat)

  /** `m` is the match a backtracking matcher reports: of all matches, the one with the
      smallest start, then the longest `\s+`, then the shortest group. */
  ghost predicate Preferred(s: string, m: Span) {
    && Matches(s, m.at, m.from, m.to)
    && forall at: nat, from: nat, to: nat :: Matches(s, at, from, to) ==>
         || m.at < at
         || (m.at == at && from < m.from)
         || (m.at == at && from == m.from && m.to <= to)
  }

  /** End of the maximal run of white space starting at `i`. */
  function SpaceRunEnd(s: string, i: nat): (r: nat)
    requires i <= |s|
    ensures i <= r <= |s|
    decreases |s| - i
  {
    if i < |s| && IsSpace(s[i]) then SpaceRunEnd(s, i + 1) else i
  }

  /** The run SpaceRunEnd finds is white space and cannot be extended. */
  lemma {:induction false} SpaceRunEndSpec(s: string, i: nat)
    requires i <= |s|
    ensures var r := SpaceRunEnd(s, i); AllSpace(s, i, r) && (r == |s| || !IsSpace(s[r]))
    decreases |s| - i
  {
    if i < |s| && IsSpace(s[i]) {
      SpaceRunEndSpec(s, i + 1);
    }
  }

  /** The lazy group: try the group ending at `to`, then at `to + 1`, and so on. */
  function LazyEnd(s: string, to: nat): Option<nat>
    requires 0 < to <= |s|
    decreases |s| - to
  {
    if IsLineTerminator(s[to - 1]) then None
    else if to == |s| || s[to] == '[' then Some(to)
    else LazyEnd(s, to + 1)
  }

  /** Backtracking into `\s+`: the group starts after `k` white-space characters,
      then after `k - 1`, down to one. */
  function Backtrack(s: string, p: nat, k: nat): Option<(nat, nat)>
    requires p + k <= |s|
    decreases k
  {
    if k == 0 then None
    else if p + k < |s| then
      match LazyEnd(s, p + k + 1)
      case Some(to) => Some((p + k, to))
      case None => Backtrack(s, p, k - 1)
    else Backtrack(s, p, k - 1)
  }

  /** The match anchored at `at`, if any. */
  function MatchAt(s: string, at: nat): Option<Span> {
    if PhraseAt(s, at) then
      var p := at + |Phrase|;
      match Backtrack(s, p, SpaceRunEnd(s, p) - p)
      case Some((from, to)) => Some(Span(at, from, to))
      case None => None
    else None
  }

  /** `String.prototype.match` without the `g` flag: try every start from `at` on. */
  function FirstMatch(s: string, at: nat): Option<Span>
    decreases |s| - at
  {
    if at >= |s| then None
    else match MatchAt(s, at)
      case Some(m) => Some(m)
      case None => FirstMatch(s, at + 1)
  }

  /** The match of the caption, if any. */
  function MatchCaption(s: string): Option<Span> {
    FirstMatch(s, 0)
  }

  // ---------------------------------------------------------------------------
  // Correctness of the matcher against Matches and Preferred

  lemma {:induction false} LazyEndSpec(s: string, from: nat, to: nat)
    requires from < to <= |s| && NoLineBreak(s, from, to - 1)
    ensures LazyEnd(s, to).None? ==> forall t: nat :: to <= t ==> !CaptureEndsAt(s, from, t)
    ensures LazyEnd(s, to).Some? ==>
      var e := LazyEnd(s, to).value;
      && to <= e && CaptureEndsAt(s, from, e)
      && forall t: nat :: to <= t < e ==> !CaptureEndsAt(s, from, t)
    decreases |s| - to
  {
    if IsLineTerminator(s[to - 1]) {
      forall t: nat | to <= t ensures !CaptureEndsAt(s, from, t) {
        if t <= |s| {
          assert !NoLineBreak(s, from, t) by { assert from <= to - 1 < t; }
        }
      }
    } else if to == |s| || s[to] == '[' {
    } else {
      LazyEndSpec(s, from, to + 1);
    }
  }

  lemma {:induction false} BacktrackSpec(s: string, p: nat, k: nat)
    requires p + k <= |s|
    ensures Backtrack(s, p, k).None? ==>
      forall from: nat, to: nat :: p < from <= p + k ==> !CaptureEndsAt(s, from, to)
    ensures Backtrack(s, p, k).Some? ==>
      var (from, to) := Backtrack(s, p, k).value;
      && p < from <= p + k && CaptureEndsAt(s, from, to)
      && (forall f: nat, t: nat :: from < f <= p + k ==> !CaptureEndsAt(s, f, t))
      && (forall t: nat :: CaptureEndsAt(s, from, t) ==> to <= t)
    decreases k
  {
    if k == 0 {
    } else if p + k < |s| {
      LazyEndSpec(s, p + k, p + k + 1);
      if LazyEnd(s, p + k + 1).None? {
        BacktrackSpec(s, p, k - 1);
        var f := p + k;
        forall t: nat ensures !CaptureEndsAt(s, f, t) {
          if t >= f + 1 {
          }
        }
      }
    } else {
      BacktrackSpec(s, p, k - 1);
      var f := p + k;
      forall t: nat ensures !CaptureEndsAt(s, f, t) {
      }
    }
  }

  /** A group start right after "artwork by" is preceded by white space only when
      it is within the maximal white-space run. */
  lemma SpacesBefore(s: string, p: nat, from: nat)
    requires p < from <= |s|
    ensures AllSpace(s, p, from) <==> from <= SpaceRunEnd(s, p)
  {
    var r := SpaceRunEnd(s, p);
    SpaceRunEndSpec(s, p);
    if from > r {
      assert !IsSpace(s[r]);
    }
  }

  lemma {:induction false} MatchAtSpec(s: string, at: nat)
    ensures MatchAt(s, at).None? ==> forall from: nat, to: nat :: !Matches(s, at, from, to)
    ensures MatchAt(s, at).Some? ==>
      var m := MatchAt(s, at).value;
      && m.at == at && Matches(s, at, m.from, m.to)
      && forall from: nat, to: nat :: Matches(s, at, from, to) ==>
           from < m.from || (from == m.from && m.to <= to)
  {
    if PhraseAt(s, at) {
      var p := at + |Phrase|;
      var r := SpaceRunEnd(s, p);
      BacktrackSpec(s, p, r - p);
      forall from | p < from <= |s| ensures AllSpace(s, p, from) <==> from <= r {
        SpacesBefore(s, p, from);
      }
    }
  }

  lemma {:induction false} FirstMatchSpec(s: string, at: nat)
    ensures FirstMatch(s, at).None? ==>
      forall a: nat, from: nat, to: nat :: at <= a ==> !Matches(s, a, from, to)
    ensures FirstMatch(s, at).Some? ==>
      var m := FirstMatch(s, at).value;
      && at <= m.at && Matches(s, m.at, m.from, m.to)
      && forall a: nat, from: nat, to: nat :: at <= a && Matches(s, a, from, to) ==>
           || m.at < a
           || (m.at == a && from < m.from)
           || (m.at == a && from == m.from && m.to <= to)
    decreases |s| - at
  {
    if at < |s| {
      MatchAtSpec(s, at);
      if MatchAt(s, at).None? {
        FirstMatchSpec(s, at + 1);
        var r := FirstMatch(s, at + 1);
        assert FirstMatch(s, at) == r;
        forall a: nat, from: nat, to: nat | at <= a && Matches(s, a, from, to)
          ensures r.Some? && r.value.at <= a
          ensures r.Some? && r.value.at == a ==>
            from < r.value.from || (from == r.value.from && r.value.to <= to)
        {
          assert a != at;
        }
      }
    } else {
      forall a: nat, from: nat, to: nat | at <= a ensures !Matches(s, a, from, to) {
      }
    }
  }

  /** The matcher is sound, complete and reports the preferred match: it finds a match
      exactly when the pattern matches somewhere, and then the one a backtracking
      matcher reports. */
  lemma MatchCaptionCorrect(s: string)
    ensures MatchCaption(s).None? <==> forall at: nat, from: nat, to: nat :: !Matches(s, at, from, to)
    ensures MatchCaption(s).Some? ==> Preferred(s, MatchCaption(s).value)
  {
    FirstMatchSpec(s, 0);
  }

  /** Group 1 of a match is never empty, so the source's test `artworkByMatch[1]` never
      rejects a match, and it holds no line terminator. */
  lemma CaptureNonEmpty(s: string)
    requires MatchCaption(s).Some?
    ensures var m := MatchCaption(s).value;
      m.from < m.to <= |s| && forall k :: m.from <= k < m.to ==> !IsLineTerminator(s[k])
  {
    MatchCaptionCorrect(s);
  }
}
