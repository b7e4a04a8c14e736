/**
 The compiler's placeholder pattern, the global regular expression
 `/{{(.+)}}/g` (src/lib/html-template.ts:4), written out by hand.

 Semantics modelled: a match starts at the leftmost position holding `{{`
 from which the pattern can succeed; `.+` is greedy and does not cross a line
 terminator (\n, \r, U+2028, U+2029), so the match ends at the LAST `}}` on
 that line that leaves a non-empty capture. Because the object is global, its
 `lastIndex` is shared state that `test` and `exec` both read and write.
 */
module Marker {
  import opened Wrappers

  /** One match: `start` and `end` delimit `{{capture}}` in the subject. */
  datatype Match = Match(start: nat, end: nat, capture: string)

  predicate IsLineTerminator(c: char)
  {
    c == '\n' || c == '\r' || c == '\U{2028}' || c == '\U{2029}'
  }

  /** Reference meaning of the pattern: `{{(.+)}}` can match s[i..j+2], with
      the closing braces at j and the capture s[i+2..j]. */
  ghost predicate MatchesAt(s: string, i: int, j: int)
  {
    && 0 <= i && i + 3 <= j && j + 2 <= |s|
    && s[i] == '{' && s[i + 1] == '{' && s[j] == '}' && s[j + 1] == '}'
    && (forall k :: i + 2 <= k < j ==> !IsLineTerminator(s[k]))
  }

  /** First line terminator at or after `k`, or the end of `s`. */
  function LineEnd(s: string, k: nat): (e: nat)
    requires k <= |s|
    ensures k <= e <= |s|
    ensures forall q :: k <= q < e ==> !IsLineTerminator(s[q])
    ensures e < |s| ==> IsLineTerminator(s[e])
    decreases |s| - k
  {
    if k == |s| || IsLineTerminator(s[k]) then k else LineEnd(s, k + 1)
  }

  /** Greatest j with lo <= j and j + 2 <= hi such that s[j..j+2] is `}}`. */
  function LastClose(s: string, lo: nat, hi: nat): (r: Option<nat>)
    requires hi <= |s|
    ensures r.Some? ==> lo <= r.value && r.value + 2 <= hi && s[r.value] == '}' && s[r.value + 1] == '}'
    ensures r.Some? ==> forall j :: r.value < j && j + 2 <= hi ==> !(s[j] == '}' && s[j + 1] == '}')
    ensures r.None? ==> forall j :: lo <= j && j + 2 <= hi ==> !(s[j] == '}' && s[j + 1] == '}')
    decreases hi
  {
    if hi < lo + 2 then None
    else if s[hi - 2] == '}' && s[hi - 1] == '}' then Some(hi - 2)
    else LastClose(s, lo, hi - 1)
  }

  /** A match cannot run past the end of the line it starts on. */
  lemma MatchWithinLine(s: string, i: nat, j: int)
    requires i + 2 <= |s| && MatchesAt(s, i, j)
    ensures j + 2 <= LineEnd(s, i + 2)
  {
    assert forall k :: i + 2 <= k < j + 2 ==> !IsLineTerminator(s[k]);
  }

  /** The greedy match anchored at `i`, if any. */
  function MatchAt(s: string, i: nat): (r: Option<Match>)
    requires i <= |s|
    ensures r.Some? ==> r.value.start == i && i + 5 <= r.value.end <= |s|
  {
    if i + 2 <= |s| && s[i] == '{' && s[i + 1] == '{' then
      match LastClose(s, i + 3, LineEnd(s, i + 2))
      case None => None
      case Some(j) => Some(Match(i, j + 2, s[i + 2 .. j]))
    else
      None
  }

  /** `MatchAt` returns a match of the pattern anchored at `i`, the longest
      one, and none only when the pattern cannot match at `i`. */
  lemma MatchAtMeaning(s: string, i: nat)
    requires i <= |s|
    ensures var r := MatchAt(s, i);
            && (r.Some? ==> && MatchesAt(s, i, r.value.end - 2)
                            && r.value.capture == s[i + 2 .. r.value.end - 2])
            && (r.Some? ==> forall j :: r.value.end - 2 < j ==> !MatchesAt(s, i, j))
            && (r.None? ==> forall j :: !MatchesAt(s, i, j))
  {
    if i + 2 <= |s| && s[i] == '{' && s[i + 1] == '{' {
      forall j | MatchesAt(s, i, j) ensures j + 2 <= LineEnd(s, i + 2) {
        MatchWithinLine(s, i, j);
      }
    }
  }

  /** `m` is a match of the pattern in `s`, with its capture. */
  ghost predicate IsMatch(s: string, m: Match)
  {
    && m.end <= |s| && m.start + 5 <= m.end
    && MatchesAt(s, m.start, m.end - 2)
    && m.capture == s[m.start + 2 .. m.end - 2]
  }

  /** Leftmost-greedy search from `from`: the scanner behind `exec`, `test`
      and `split`. */
  function FindMarker(s: string, from: nat): (r: Option<Match>)
    ensures r.Some? ==> from <= r.value.start && r.value.start + 5 <= r.value.end <= |s|
    decreases |s| - from
  {
    if from >= |s| then None
    else
      match MatchAt(s, from)
      case Some(m) => Some(m)
      case None => FindMarker(s, from + 1)
  }

  /** The match found is a genuine match of the pattern. */
  lemma {:induction false} FindMarkerIsMatch(s: string, from: nat)
    ensures FindMarker(s, from).Some? ==> IsMatch(s, FindMarker(s, from).value)
    decreases |s| - from
  {
    if from < |s| {
      MatchAtMeaning(s, from);
      if MatchAt(s, from).None? {
        FindMarkerIsMatch(s, from + 1);
      }
    }
  }

  /** The match found is a genuine match, the leftmost one at or after
      `from`, and the longest one starting there; when none is found the
      pattern matches nowhere after `from`. */
  lemma {:induction false} FindMarkerLeftmost(s: string, from: nat)
    ensures var r := FindMarker(s, from);
            && (r.Some? ==> IsMatch(s, r.value))
            && (r.Some? ==> forall i, j :: from <= i < r.value.start ==> !MatchesAt(s, i, j))
            && (r.Some? ==> forall j :: r.value.end - 2 < j ==> !MatchesAt(s, r.value.start, j))
            && (r.None? ==> forall i, j :: from <= i ==> !MatchesAt(s, i, j))
    decreases |s| - from
  {
    FindMarkerIsMatch(s, from);
    if from < |s| {
      MatchAtMeaning(s, from);
      if MatchAt(s, from).None? {
        FindMarkerLeftmost(s, from + 1);
      }
    }
  }

  /** A match found after some position is also found searching from 0: a
      marked string is marked whatever `lastIndex` the search starts from. */
  lemma {:induction false} FoundFromStart(s: string, from: nat)
    requires FindMarker(s, from).Some?
    ensures FindMarker(s, 0).Some?
    decreases from
  {
    if from > 0 {
      assert FindMarker(s, from - 1).Some?;
      FoundFromStart(s, from - 1);
    }
  }

  /** Outcome of `RegExp.prototype.exec` on the global marker: the match and
      the new `lastIndex`. */
  datatype ExecResult = ExecResult(found: Option<Match>, lastIndex: nat)

  /** `exec` with the global flag: the search starts at `lastIndex`; a failure
      (including `lastIndex` past the end) resets `lastIndex` to 0, a success
      sets it to the end of the match. */
  function RegExpExec(s: string, lastIndex: nat): (r: ExecResult)
    ensures r.found.None? <==> r.lastIndex == 0
    ensures r.found.None? <==> (lastIndex > |s| || FindMarker(s, lastIndex).None?)
    ensures r.found.Some? ==> r.found == FindMarker(s, lastIndex) && r.lastIndex == r.found.value.end
  {
    if lastIndex > |s| then ExecResult(None, 0)
    else
      match FindMarker(s, lastIndex)
      case None => ExecResult(None, 0)
      case Some(m) => ExecResult(Some(m), m.end)
  }

  /** A successful `exec` returns the leftmost match at or after `lastIndex`
      and moves `lastIndex` past it; a failed one means no match exists there. */
  lemma RegExpExecMeaning(s: string, lastIndex: nat)
    ensures var r := RegExpExec(s, lastIndex);
            && (r.found.Some? ==> && IsMatch(s, r.found.value)
                                  && lastIndex <= r.found.value.start < r.lastIndex <= |s|
                                  && forall i, j :: lastIndex <= i < r.found.value.start ==> !MatchesAt(s, i, j))
            && (r.found.None? ==> forall i, j :: lastIndex <= i ==> !MatchesAt(s, i, j))
  {
    FindMarkerLeftmost(s, lastIndex);
  }

  /** Within the `exec` loop, a successful `exec` returns the next of the
      successive matches and a failed one ends them. */
  lemma ExecNext(s: string, from: nat)
    requires from <= |s|
    ensures RegExpExec(s, from).found.None? ==> Matches(s, from) == []
    ensures RegExpExec(s, from).found.Some? ==>
              && Matches(s, from) == [RegExpExec(s, from).found.value] + Matches(s, RegExpExec(s, from).found.value.end)
              && RegExpExec(s, from).found.value.start + 5 <= RegExpExec(s, from).found.value.end <= |s|
  {
    if RegExpExec(s, from).found.Some? {
      assert Matches(s, from)[0] == RegExpExec(s, from).found.value;
    }
  }

  /** The successive matches `exec` returns when started at `from`, up to the
      first failure. */
  function Matches(s: string, from: nat): (ms: seq<Match>)
    ensures forall k :: 0 <= k < |ms| ==> from <= ms[k].start && ms[k].start + 5 <= ms[k].end <= |s|
    ensures forall i, j :: 0 <= i < j < |ms| ==> ms[i].end <= ms[j].start
    ensures ms == [] <==> FindMarker(s, from).None?
    decreases if from <= |s| then |s| - from else 0
  {
    match FindMarker(s, from)
    case None => []
    case Some(m) => [m] + Matches(s, m.end)
  }

  /** Every element of `Matches` is a genuine match of the pattern, and each
      is the leftmost one after the end of the previous. */
  lemma {:induction false} MatchesAreLeftmost(s: string, from: nat)
    ensures var ms := Matches(s, from);
            && (forall k :: 0 <= k < |ms| ==> IsMatch(s, ms[k]))
            && (|ms| > 0 ==> forall i, j :: from <= i < ms[0].start ==> !MatchesAt(s, i, j))
            && (forall k :: 0 < k < |ms| ==> FindMarker(s, ms[k - 1].end) == Some(ms[k]))
            && (|ms| > 0 ==> FindMarker(s, ms[|ms| - 1].end).None?)
    decreases if from <= |s| then |s| - from else 0
  {
    FindMarkerLeftmost(s, from);
    match FindMarker(s, from)
    case None =>
    case Some(m) =>
      MatchesAreLeftmost(s, m.end);
      MatchesStep(s, from, m);
      MatchesCons(s, Matches(s, from), m, Matches(s, m.end));
  }

  /** The successive matches from `from` are the one found there followed by
      those after it; the first of the latter is the one found after it. */
  lemma MatchesStep(s: string, from: nat, m: Match)
    requires FindMarker(s, from) == Some(m)
    ensures Matches(s, from) == [m] + Matches(s, m.end)
    ensures Matches(s, m.end) != [] ==> FindMarker(s, m.end) == Some(Matches(s, m.end)[0])
  {
  }

  /** The properties of `MatchesAreLeftmost` carry over from `ms` to `[m] + ms`. */
  lemma MatchesCons(s: string, all: seq<Match>, m: Match, ms: seq<Match>)
    requires all == [m] + ms && IsMatch(s, m)
    requires ms != [] ==> FindMarker(s, m.end) == Some(ms[0])
    requires ms == [] ==> FindMarker(s, m.end).None?
    requires forall k :: 0 <= k < |ms| ==> IsMatch(s, ms[k])
    requires forall k :: 0 < k < |ms| ==> FindMarker(s, ms[k - 1].end) == Some(ms[k])
    requires |ms| > 0 ==> FindMarker(s, ms[|ms| - 1].end).None?
    ensures forall k :: 0 <= k < |all| ==> IsMatch(s, all[k])
    ensures forall k :: 0 < k < |all| ==> FindMarker(s, all[k - 1].end) == Some(all[k])
    ensures FindMarker(s, all[|all| - 1].end).None?
  {
    forall k | 0 < k < |all| ensures FindMarker(s, all[k - 1].end) == Some(all[k]) {
      assert all[k] == ms[k - 1];
      if k > 1 {
        assert all[k - 1] == ms[k - 2];
      }
    }
    if ms != [] {
      assert all[|all| - 1] == ms[|ms| - 1];
    }
  }

  /** Where the text after the last match begins. */
  function TailStart(s: string, from: nat): (t: nat)
    requires from <= |s|
    ensures from <= t <= |s|
    decreases |s| - from
  {
    match FindMarker(s, from)
    case None => from
    case Some(m) => TailStart(s, m.end)
  }

  /** `String.prototype.split` with the marker: the literal pieces between
      matches interleaved with the captures, starting at `from`; the last
      piece is the text after the last match. */
  function Split(s: string, from: nat): (strings: seq<string>)
    requires from <= |s|
    ensures |strings| == 2 * |Matches(s, from)| + 1
    ensures strings[|strings| - 1] == s[TailStart(s, from)..]
    decreases |s| - from
  {
    match FindMarker(s, from)
    case None => [s[from..]]
    case Some(m) => [s[from .. m.start], m.capture] + Split(s, m.end)
  }

  /** One step of `split` and of the `exec` loop: both consume the match
      found at `from` and continue after it. */
  lemma SplitStep(s: string, from: nat, m: Match)
    requires from <= |s| && FindMarker(s, from) == Some(m)
    ensures m.end <= |s| && from <= m.start <= m.end
    ensures Split(s, from) == [s[from .. m.start], m.capture] + Split(s, m.end)
    ensures Matches(s, from) == [m] + Matches(s, m.end)
  {
  }

  /** Slot 2k+1 of `[piece, m.capture] + rest` is capture k of `[m] + ms`
      when it is so for `rest` and `ms`. */
  lemma CapturesCons(strings: seq<string>, all: seq<Match>, piece: string, m: Match, rest: seq<string>, ms: seq<Match>)
    requires strings == [piece, m.capture] + rest && all == [m] + ms
    requires |rest| == 2 * |ms| + 1
    requires forall k :: 0 <= k < |ms| ==> rest[2 * k + 1] == ms[k].capture
    ensures forall k :: 0 <= k < |all| ==> strings[2 * k + 1] == all[k].capture
  {
    forall k | 0 <= k < |all| ensures strings[2 * k + 1] == all[k].capture {
      if k > 0 {
        assert all[k] == ms[k - 1];
        assert strings[2 * k + 1] == rest[2 * (k - 1) + 1];
      }
    }
  }

  /** `split` sees the same matches as the `exec` loop: the capture of the
      k-th match sits in slot 2k+1. */
  lemma {:induction false} SplitCaptures(s: string, from: nat)
    requires from <= |s|
    ensures forall k :: 0 <= k < |Matches(s, from)| ==> Split(s, from)[2 * k + 1] == Matches(s, from)[k].capture
    decreases |s| - from
  {
    match FindMarker(s, from)
    case None =>
    case Some(m) =>
      SplitStep(s, from, m);
      SplitCaptures(s, m.end);
      CapturesCons(Split(s, from), Matches(s, from), s[from .. m.start], m, Split(s, m.end), Matches(s, m.end));
  }

  /** Slot 2k of `[piece, m.capture] + rest` is the text between matches k-1
      and k of `[m] + ms` when it is so for `rest` and `ms`. */
  lemma PiecesCons(s: string, strings: seq<string>, all: seq<Match>, piece: string, m: Match, rest: seq<string>, ms: seq<Match>)
    requires strings == [piece, m.capture] + rest && all == [m] + ms
    requires |rest| == 2 * |ms| + 1
    requires m.start <= m.end <= |s| && (|ms| > 0 ==> m.end <= ms[0].start)
    requires forall k :: 0 <= k < |ms| ==> ms[k].start <= ms[k].end <= |s|
    requires forall k :: 0 < k < |ms| ==> ms[k - 1].end <= ms[k].start
    requires |ms| > 0 ==> rest[0] == s[m.end .. ms[0].start]
    requires forall k :: 0 < k < |ms| ==> rest[2 * k] == s[ms[k - 1].end .. ms[k].start]
    ensures forall k :: 0 < k < |all| ==> strings[2 * k] == s[all[k - 1].end .. all[k].start]
  {
    forall k | 0 < k < |all| ensures strings[2 * k] == s[all[k - 1].end .. all[k].start] {
      assert all[k] == ms[k - 1];
      assert strings[2 * k] == rest[2 * (k - 1)];
      if k > 1 {
        assert all[k - 1] == ms[k - 2];
      }
    }
  }

  /** The literal pieces of `split`: slot 2k holds the text between the end of
      match k-1 (or `from`) and the start of match k. */
  lemma {:induction false} SplitPieces(s: string, from: nat)
    requires from <= |s|
    ensures var ms := Matches(s, from);
            && (|ms| > 0 ==> Split(s, from)[0] == s[from .. ms[0].start])
            && forall k :: 0 < k < |ms| ==> Split(s, from)[2 * k] == s[ms[k - 1].end .. ms[k].start]
    decreases |s| - from
  {
    match FindMarker(s, from)
    case None =>
    case Some(m) =>
      SplitStep(s, from, m);
      SplitPieces(s, m.end);
      PiecesCons(s, Split(s, from), Matches(s, from), s[from .. m.start], m, Split(s, m.end), Matches(s, m.end));
  }

  /** The text after the last match begins where the last of the successive
      matches ends, or at `from` when there is none. */
  lemma {:induction false} TailStartAfterMatches(s: string, from: nat)
    requires from <= |s|
    ensures var ms := Matches(s, from);
            TailStart(s, from) == if ms == [] then from else ms[|ms| - 1].end
    decreases |s| - from
  {
    match FindMarker(s, from)
    case None =>
    case Some(m) =>
      TailStartAfterMatches(s, m.end);
      SplitStep(s, from, m);
      var ms := Matches(s, m.end);
      if ms != [] {
        assert Matches(s, from)[|Matches(s, from)| - 1] == ms[|ms| - 1];
      }
  }

  /** `String(marker)`: what `indexOf(marker, ...)` actually searches for, since
      `indexOf` converts its RegExp argument to a string. */
  const MarkerSourceText: string := "/{{(.+)}}/g"

  predicate OccursAt(s: string, pat: string, k: int)
  {
    0 <= k && k + |pat| <= |s| && s[k .. k + |pat|] == pat
  }

  /** `String.prototype.indexOf(pat, from)`: the first occurrence at or after
      `from` (clamped to 0), or -1. */
  function IndexOf(s: string, pat: string, from: int): (r: int)
    requires |pat| > 0
    ensures r == -1 || (from <= r && OccursAt(s, pat, r))
    ensures r == -1 ==> forall k :: from <= k ==> !OccursAt(s, pat, k)
    ensures r != -1 ==> forall k :: from <= k < r ==> !OccursAt(s, pat, k)
    decreases |s| - from
  {
    if from < 0 then IndexOf(s, pat, 0)
    else if from + |pat| > |s| then -1
    else if s[from .. from + |pat|] == pat then from
    else IndexOf(s, pat, from + 1)
  }

  /** Reference count: positions at or after `from` where `pat` occurs,
      overlapping occurrences included. */
  function OccurrencesFrom(s: string, pat: string, from: nat): nat
    decreases |s| - from
  {
    if from + |pat| > |s| then 0
    else (if OccursAt(s, pat, from) then 1 else 0) + OccurrencesFrom(s, pat, from + 1)
  }

  /** How many times the loop `while ((i = s.indexOf(pat, i + 1)) !== -1)`
      runs its body when `i` starts at `last`. */
  function IndexOfLoopCount(s: string, pat: string, last: int): (n: nat)
    requires |pat| > 0
    decreases |s| - last
  {
    var i := IndexOf(s, pat, last + 1);
    if i == -1 then 0 else 1 + IndexOfLoopCount(s, pat, i)
  }

  lemma {:induction false} NoOccurrenceSkip(s: string, pat: string, from: nat, upto: nat)
    requires from <= upto
    requires forall k :: from <= k < upto ==> !OccursAt(s, pat, k)
    ensures OccurrencesFrom(s, pat, from) == OccurrencesFrom(s, pat, upto)
    decreases upto - from
  {
    if from < upto && from + |pat| <= |s| {
      NoOccurrenceSkip(s, pat, from + 1, upto);
    } else if from < upto {
      NoOccurrencesPastEnd(s, pat, upto);
    }
  }

  lemma {:induction false} NoOccurrencesPastEnd(s: string, pat: string, from: nat)
    requires from + |pat| > |s|
    ensures OccurrencesFrom(s, pat, from) == 0
  {
  }

  /** The indexOf loop counts every occurrence after `last`, overlapping ones
      included. */
  lemma {:induction false} IndexOfLoopCountsOccurrences(s: string, pat: string, last: int)
    requires |pat| > 0 && last >= -1
    ensures IndexOfLoopCount(s, pat, last) == OccurrencesFrom(s, pat, last + 1)
    decreases |s| - last
  {
    var i := IndexOf(s, pat, last + 1);
    if i == -1 {
      if last + 1 + |pat| <= |s| {
        NoOccurrenceSkip(s, pat, last + 1, |s| - |pat| + 1);
        NoOccurrencesPastEnd(s, pat, |s| - |pat| + 1);
      }
    } else {
      IndexOfLoopCountsOccurrences(s, pat, i);
      NoOccurrenceSkip(s, pat, last + 1, i);
    }
  }

  /** The global RegExp object `marker`; only its `lastIndex` is state. */
  class MarkerRegExp {
    var lastIndex: nat

    constructor ()
      ensures lastIndex == 0
    {
      lastIndex := 0;
    }

    /** `marker.exec(s)`. */
    method Exec(s: string) returns (found: Option<Match>)
      modifies this
      ensures ExecResult(found, lastIndex) == RegExpExec(s, old(lastIndex))
    {
      var r := RegExpExec(s, lastIndex);
      found := r.found;
      lastIndex := r.lastIndex;
    }

    /** `marker.test(s)`: `exec` reporting only whether it matched; it moves
        `lastIndex` exactly as `exec` does. */
    method Test(s: string) returns (b: bool)
      modifies this
      ensures b == RegExpExec(s, old(lastIndex)).found.Some?
      ensures lastIndex == RegExpExec(s, old(lastIndex)).lastIndex
    {
      var found := Exec(s);
      b := found.Some?;
    }
  }
}
