/** The escalation matrix of the block manager and what it does over whole offence histories. */
module Escalation {
  import opened Options
  import opened Durations

  datatype Kind = RateLimit | Block | Permanent {
    function Rank(): nat {
      match this case RateLimit => 0 case Block => 1 case Permanent => 2
    }
  }

  /** A duration that is not positive means no expiry. */
  datatype Decision = Decision(kind: Kind, duration: int)

  /** Prior rows for one IP, counted by enforcement type. */
  datatype History = History(ratelimits: nat, blocks: nat, permanents: nat) {
    function Add(kind: Kind): History {
      match kind
      case RateLimit => this.(ratelimits := ratelimits + 1)
      case Block => this.(blocks := blocks + 1)
      case Permanent => this.(permanents := permanents + 1)
    }

    predicate AtMost(other: History) {
      ratelimits <= other.ratelimits && blocks <= other.blocks && permanents <= other.permanents
    }
  }

  const NO_HISTORY := History(0, 0, 0)

  /** The decision for a score, given the history, or none when the lookup failed. */
  function Determine(score: int, lookup: Option<History>, base: int): Decision {
    if score >= 90 then Decision(Permanent, 0)
    else if lookup == None then Decision(Block, base)
    else
      var h := lookup.value;
      if h.permanents > 0 then Decision(Permanent, 0)
      else if score >= 70 then
        if h.blocks >= 2 then Decision(Permanent, 0)
        else if h.blocks == 1 then Decision(Block, 24 * HOUR)
        else Decision(Block, 6 * HOUR)
      else if score >= 50 then
        if h.blocks >= 3 then Decision(Permanent, 0)
        else if h.blocks == 2 then Decision(Block, 24 * HOUR)
        else if h.blocks == 1 then Decision(Block, 6 * HOUR)
        else Decision(Block, base)
      else
        if h.blocks >= 1 || h.ratelimits >= 2 then Decision(Block, 2 * HOUR)
        else if h.ratelimits == 1 then Decision(RateLimit, HOUR)
        else Decision(RateLimit, 30 * MINUTE)
  }

  // ---------- the matrix as a table ----------

  /** The rungs of one score band, for no, one, two and more earlier offences that count. */
  function Rungs(band: nat, base: int): (rungs: seq<Decision>)
    ensures |rungs| == 4
  {
    if band == 0 then
      [Decision(RateLimit, 1_800_000_000_000), Decision(RateLimit, 3_600_000_000_000),
       Decision(Block, 7_200_000_000_000), Decision(Block, 7_200_000_000_000)]
    else if band == 1 then
      [Decision(Block, base), Decision(Block, 21_600_000_000_000), Decision(Block, 86_400_000_000_000),
       Decision(Permanent, 0)]
    else
      [Decision(Block, 21_600_000_000_000), Decision(Block, 86_400_000_000_000), Decision(Permanent, 0),
       Decision(Permanent, 0)]
  }

  /** What counts as an earlier offence: blocks and, below a score of 50, rate limits too, where
      one block counts like two of them. */
  function Offences(band: nat, h: History): nat {
    if band > 0 then h.blocks else h.ratelimits + 2 * h.blocks
  }

  /** For every score, history and base: a score of 90 is permanent, whatever the lookup; then
      a failed lookup is a block for the base; then one permanent row decides; and otherwise the
      decision is the rung that the earlier offences reach. */
  lemma DecisionIsRung(score: int, lookup: Option<History>, base: int)
    ensures score >= 90 ==> Determine(score, lookup, base) == Decision(Permanent, 0)
    ensures score < 90 && lookup == None ==> Determine(score, lookup, base) == Decision(Block, base)
    ensures score < 90 && lookup.Some? && lookup.value.permanents > 0 ==>
              Determine(score, lookup, base) == Decision(Permanent, 0)
    ensures score < 90 && lookup.Some? && lookup.value.permanents == 0 ==>
              var band: nat := if score < 50 then 0 else if score < 70 then 1 else 2;
              var n := Offences(band, lookup.value);
              Determine(score, lookup, base) == Rungs(band, base)[if n < 3 then n else 3]
  {
  }

  // ---------- offence after offence ----------

  /** The history after offences with these scores, each one looked up and recorded. */
  function After(h: History, scores: seq<int>, base: int): (r: History) {
    if scores == [] then h
    else
      var before := After(h, scores[..|scores| - 1], base);
      before.Add(Determine(scores[|scores| - 1], Some(before), base).kind)
  }

  /** The decision for offence `i` of a run. */
  function DecisionAt(h: History, scores: seq<int>, i: nat, base: int): Decision
    requires i < |scores|
  {
    Determine(scores[i], Some(After(h, scores[..i], base)), base)
  }

  lemma OneMore(h: History, scores: seq<int>, i: nat, base: int)
    requires i < |scores|
    ensures After(h, scores[..i + 1], base) == After(h, scores[..i], base).Add(DecisionAt(h, scores, i, base).kind)
  {
    hide Determine;
    assert scores[..i + 1][..i] == scores[..i];
  }

  lemma {:induction false} HistoryGrows(h: History, scores: seq<int>, i: nat, j: nat, base: int)
    requires i <= j <= |scores|
    ensures After(h, scores[..i], base).AtMost(After(h, scores[..j], base))
    decreases j
  {
    hide Determine, After, DecisionAt, History.Add;
    if i < j {
      var before := After(h, scores[..j - 1], base);
      OneMore(h, scores, j - 1, base);
      HistoryGrows(h, scores, i, j - 1, base);
      AddGrows(before, DecisionAt(h, scores, j - 1, base).kind);
    }
  }

  lemma AddGrows(h: History, kind: Kind)
    ensures h.AtMost(h.Add(kind))
  {
  }

  /** A higher score or a longer history never gives a milder kind of enforcement. */
  lemma KindIsMonotone(score: int, h: History, score': int, h': History, base: int)
    requires score <= score' && h.AtMost(h')
    ensures Determine(score, Some(h), base).kind.Rank() <= Determine(score', Some(h'), base).kind.Rank()
  {
  }

  function Band(score: int): nat {
    if score >= 90 then 3 else if score >= 70 then 2 else if score >= 50 then 1 else 0
  }

  /** The conversion to whole seconds drops the fraction, towards zero. */
  function WholeSeconds(duration: int): int {
    if duration >= 0 then duration / SECOND else -((-duration) / SECOND)
  }

  /** The decision as the backend records it or, in whole seconds, as the agent is told. */
  function As(agent: bool, d: Decision): Decision {
    if agent then d.(duration := WholeSeconds(d.duration)) else d
  }

  /** `d` lasts at least as long: one without expiry longer than any other. */
  predicate AtLeastAsLong(d: Decision, e: Decision) {
    d.duration <= 0 || (e.duration > 0 && d.duration >= e.duration)
  }

  /** `d` is a stronger kind, or the same kind for at least as long. */
  predicate AtLeastAsStrong(d: Decision, e: Decision) {
    d.kind.Rank() > e.kind.Rank() || (d.kind == e.kind && AtLeastAsLong(d, e))
  }

  /** For the same history a higher score never gives a weaker decision. */
  ghost predicate StrengthIsMonotone(base: int, agent: bool) {
    forall h: History, low: int, high: int | low <= high ::
      AtLeastAsStrong(As(agent, Determine(high, Some(h), base)), As(agent, Determine(low, Some(h), base)))
  }

  /** Exactly when the base duration lies between the two hours of the band below and the six
      hours above; for the agent fractions of a second more do not matter. So it does not hold
      for the configured hour. */
  lemma StrengthIsMonotoneIff(base: int)
    ensures StrengthIsMonotone(base, false) <==> 2 * HOUR <= base <= 6 * HOUR
    ensures StrengthIsMonotone(base, true) <==> 2 * HOUR <= base < 6 * HOUR + SECOND
  {
    ScoreWitnesses(base, false);
    ScoreWitnesses(base, true);
    if 2 * HOUR <= base <= 6 * HOUR { HigherScores(base, false); }
    if 2 * HOUR <= base < 6 * HOUR + SECOND { HigherScores(base, true); }
    hide StrengthIsMonotone;
  }

  lemma HigherScores(base: int, agent: bool)
    requires 2 * HOUR <= base <= 6 * HOUR || (agent && 2 * HOUR <= base < 6 * HOUR + SECOND)
    ensures StrengthIsMonotone(base, agent)
  {
    forall h: History, low: int, high: int | low <= high
      ensures AtLeastAsStrong(As(agent, Determine(high, Some(h), base)), As(agent, Determine(low, Some(h), base)))
    {
      HigherScoreIsNotWeaker(low, high, h, base, agent);
    }
  }

  lemma HigherScoreIsNotWeaker(low: int, high: int, h: History, base: int, agent: bool)
    requires 2 * HOUR <= base <= 6 * HOUR || (agent && 2 * HOUR <= base < 6 * HOUR + SECOND)
    requires low <= high
    ensures AtLeastAsStrong(As(agent, Determine(high, Some(h), base)), As(agent, Determine(low, Some(h), base)))
  {
  }

  lemma ScoreWitnesses(base: int, agent: bool)
    ensures StrengthIsMonotone(base, agent) ==>
              && AtLeastAsStrong(As(agent, Decision(Block, base)), As(agent, Decision(Block, 2 * HOUR)))
              && AtLeastAsStrong(As(agent, Decision(Block, 6 * HOUR)), As(agent, Decision(Block, base)))
  {
    var limited := History(2, 0, 0);
    assert Determine(45, Some(limited), base) == Decision(Block, 2 * HOUR);
    assert Determine(55, Some(limited), base) == Decision(Block, base);
    assert Determine(55, Some(NO_HISTORY), base) == Decision(Block, base);
    assert Determine(75, Some(NO_HISTORY), base) == Decision(Block, 6 * HOUR);
  }

  /** Within one score band no later decision of any run is weaker than an earlier one. */
  ghost predicate NeverWeakens(base: int, agent: bool) {
    forall h: History, scores: seq<int>, i: nat, j: nat | i <= j < |scores| && Band(scores[i]) == Band(scores[j])
      :: AtLeastAsStrong(As(agent, DecisionAt(h, scores, j, base)), As(agent, DecisionAt(h, scores, i, base)))
  }

  /** Exactly when the base duration is positive and at most six hours, the duration of the
      second offence; for the agent it must last a second, and fractions more do not matter. */
  lemma NeverWeakensIff(base: int)
    ensures NeverWeakens(base, false) <==> 0 < base <= 6 * HOUR
    ensures NeverWeakens(base, true) <==> SECOND <= base < 6 * HOUR + SECOND
  {
    if 0 < base <= 6 * HOUR {
      SmallBaseNeverWeakens(base, false);
    } else {
      SecondOffenceWeakens(base, false);
    }
    if SECOND <= base < 6 * HOUR + SECOND {
      SmallBaseNeverWeakens(base, true);
    } else {
      SecondOffenceWeakens(base, true);
    }
  }

  lemma SmallBaseNeverWeakens(base: int, agent: bool)
    requires if agent then SECOND <= base < 6 * HOUR + SECOND else 0 < base <= 6 * HOUR
    ensures NeverWeakens(base, agent)
  {
    forall h: History, scores: seq<int>, i: nat, j: nat | i <= j < |scores| && Band(scores[i]) == Band(scores[j])
      ensures AtLeastAsStrong(As(agent, DecisionAt(h, scores, j, base)), As(agent, DecisionAt(h, scores, i, base)))
    {
      HistoryGrows(h, scores, i, j, base);
      var early, late := After(h, scores[..i], base), After(h, scores[..j], base);
      LongerHistoryIsNotWeaker(scores[i], early, scores[j], late, base, agent);
    }
  }

  lemma LongerHistoryIsNotWeaker(score: int, h: History, score': int, h': History, base: int, agent: bool)
    requires if agent then SECOND <= base < 6 * HOUR + SECOND else 0 < base <= 6 * HOUR
    requires Band(score) == Band(score') && h.AtMost(h')
    ensures AtLeastAsStrong(As(agent, Determine(score', Some(h'), base)), As(agent, Determine(score, Some(h), base)))
  {
  }

  /** A first and a second offence of a new IP with a score of 55. */
  lemma SecondOffenceWeakens(base: int, agent: bool)
    requires if agent then base < SECOND || base >= 6 * HOUR + SECOND else base <= 0 || base > 6 * HOUR
    ensures !NeverWeakens(base, agent)
  {
    var scores := [55, 55];
    OneMore(NO_HISTORY, scores, 0, base);
    assert scores[..0] == [];
    assert DecisionAt(NO_HISTORY, scores, 0, base) == Decision(Block, base);
    assert scores[..0 + 1] == scores[..1];
    assert DecisionAt(NO_HISTORY, scores, 1, base) == Decision(Block, 6 * HOUR);
    assert Band(scores[0]) == Band(scores[1]);
    assert !AtLeastAsStrong(As(agent, DecisionAt(NO_HISTORY, scores, 1, base)),
                            As(agent, DecisionAt(NO_HISTORY, scores, 0, base)));
  }

  lemma {:induction false} BlocksAddUp(h: History, scores: seq<int>, i: nat, base: int)
    requires i <= |scores| && forall k | 0 <= k < i :: scores[k] >= 50
    ensures var r := After(h, scores[..i], base); r.permanents > 0 || r.blocks >= i
  {
    if i > 0 {
      BlocksAddUp(h, scores, i - 1, base);
      OneMore(h, scores, i - 1, base);
    }
  }

  /** From any history, the fourth offence in a row with scores of at least 50 is permanent,
      and so is every later one; with scores of at least 70 already the third. */
  lemma RepeatOffendersBecomePermanent(h: History, scores: seq<int>, i: nat, base: int)
    requires i < |scores| && forall k | 0 <= k <= i :: scores[k] >= 50
    ensures i >= 3 || (i >= 2 && scores[i] >= 70) ==> DecisionAt(h, scores, i, base).kind == Permanent
  {
    BlocksAddUp(h, scores, i, base);
  }

  /** After one permanent decision every later one is permanent, whatever the score. */
  lemma PermanentSticks(h: History, scores: seq<int>, i: nat, j: nat, base: int)
    requires i < j < |scores| && DecisionAt(h, scores, i, base).kind == Permanent
    ensures DecisionAt(h, scores, j, base).kind == Permanent
  {
    OneMore(h, scores, i, base);
    HistoryGrows(h, scores, i + 1, j, base);
  }

  lemma {:induction false} LowScoreHistory(scores: seq<int>, i: nat, base: int)
    requires i <= |scores| && forall k | 0 <= k < i :: scores[k] < 50
    ensures After(NO_HISTORY, scores[..i], base) == History(if i < 2 then i else 2, if i < 2 then 0 else i - 2, 0)
  {
    if i > 0 {
      LowScoreHistory(scores, i - 1, base);
      OneMore(NO_HISTORY, scores, i - 1, base);
    }
  }

  /** A new IP with scores below 50 only: a half-hour and a one-hour rate limit, then
      two-hour blocks without end. */
  lemma LowScoresSettleAtTwoHours(scores: seq<int>, i: nat, base: int)
    requires i < |scores| && forall k | 0 <= k <= i :: scores[k] < 50
    ensures DecisionAt(NO_HISTORY, scores, i, base)
            == if i == 0 then Decision(RateLimit, 30 * MINUTE)
               else if i == 1 then Decision(RateLimit, HOUR)
               else Decision(Block, 2 * HOUR)
  {
    LowScoreHistory(scores, i, base);
  }

  lemma {:induction false} BlocksCount(scores: seq<int>, i: nat, limit: nat, base: int)
    requires i <= limit <= 3 && i <= |scores|
    requires forall k | 0 <= k < i :: 50 <= scores[k] < 90 && (limit == 3 ==> scores[k] < 70)
    requires limit >= 2
    ensures After(NO_HISTORY, scores[..i], base) == History(0, i, 0)
  {
    if i > 0 {
      BlocksCount(scores, i - 1, limit, base);
      OneMore(NO_HISTORY, scores, i - 1, base);
    }
  }

  /** The ladder of a new IP with scores from 50 to 69. */
  lemma ModerateLadder(scores: seq<int>, i: nat, base: int)
    requires i < |scores| && forall k | 0 <= k <= i :: 50 <= scores[k] < 70
    ensures DecisionAt(NO_HISTORY, scores, i, base)
            == if i == 0 then Decision(Block, base) else if i == 1 then Decision(Block, 6 * HOUR)
               else if i == 2 then Decision(Block, 24 * HOUR) else Decision(Permanent, 0)
  {
    if i <= 3 {
      BlocksCount(scores, i, 3, base);
    } else {
      BlocksAddUp(NO_HISTORY, scores, i, base);
    }
  }

  /** The ladder of a new IP with scores from 70 to 89. */
  lemma FastLadder(scores: seq<int>, i: nat, base: int)
    requires i < |scores| && forall k | 0 <= k <= i :: 70 <= scores[k] < 90
    ensures DecisionAt(NO_HISTORY, scores, i, base)
            == if i == 0 then Decision(Block, 6 * HOUR) else if i == 1 then Decision(Block, 24 * HOUR)
               else Decision(Permanent, 0)
  {
    if i <= 2 {
      BlocksCount(scores, i, 2, base);
    } else {
      BlocksAddUp(NO_HISTORY, scores, i, base);
    }
  }
}
