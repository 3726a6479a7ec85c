/** The in-memory set of active blocks: candidates are enforced when they are not active,
    expired blocks are cleaned up, and an operator may unblock. */
module BlockManagement {
  import opened Options
  import opened Durations
  import opened Escalation

  type Time = int
  type Ip = string
  type User = nat

  /** `expires` is absent for a zero time. */
  datatype ActiveBlock = ActiveBlock(kind: Kind, blockedAt: Time, expires: Option<Time>, permanent: bool)

  /** What happened, in order; `until` is the end on the agent, if there is one. */
  datatype Record = Enforced(ip: Ip, start: Time, until: Option<Time>) | Unblocked(ip: Ip)

  datatype Whitelist = Listed | NotListed | LookupFailed

  /** One candidate row and how the database calls for it end. */
  datatype Row = Row(user: User, ip: Ip, score: int, whitelist: Whitelist, historyFound: bool, insertOk: bool,
                     now: Time)

  datatype Step = Candidate(row: Row) | Cleanup(now: Time) | Unblock(ip: Ip, now: Time)

  datatype State = State(active: map<Ip, ActiveBlock>, rows: map<(User, Ip), History>, log: seq<Record>)

  function HistoryOf(rows: map<(User, Ip), History>, user: User, ip: Ip): History {
    if (user, ip) in rows then rows[(user, ip)] else NO_HISTORY
  }

  function DecisionFor(base: int, rows: map<(User, Ip), History>, row: Row): Decision {
    Determine(row.score, if row.historyFound then Some(HistoryOf(rows, row.user, row.ip)) else None, base)
  }

  /** The command carries whole seconds, and the agent blocks without end when they are not
      positive. */
  function AgentEnd(now: Time, duration: int): (until: Option<Time>)
    ensures until.Some? <==> duration >= SECOND
    ensures until.Some? ==> now < until.value <= now + duration < until.value + SECOND
    ensures until.Some? ==> (until.value - now) % 1_000_000_000 == 0
  {
    var seconds := WholeSeconds(duration);
    if seconds > 0 then Some(now + seconds * SECOND) else None
  }

  /** Unless the insert fails, the block becomes active and is sent to the agent. */
  function CreateBlock(base: int, s: State, row: Row): State {
    var d := DecisionFor(base, s.rows, row);
    if !row.insertOk then s
    else
      var expires := if d.duration > 0 then Some(row.now + d.duration) else None;
      State(s.active[row.ip := ActiveBlock(d.kind, row.now, expires, d.kind == Permanent)],
            s.rows[(row.user, row.ip) := HistoryOf(s.rows, row.user, row.ip).Add(d.kind)],
            s.log + [Enforced(row.ip, row.now, AgentEnd(row.now, d.duration))])
  }

  function EvaluateRow(base: int, s: State, row: Row): State {
    if row.ip in s.active || row.whitelist != NotListed then s else CreateBlock(base, s, row)
  }

  predicate Expired(b: ActiveBlock, now: Time) {
    !b.permanent && (b.expires.Some? ==> b.expires.value < now)
  }

  function CleanedUp(active: map<Ip, ActiveBlock>, now: Time): map<Ip, ActiveBlock> {
    map ip | ip in active && !Expired(active[ip], now) :: active[ip]
  }

  function Next(base: int, s: State, step: Step): State {
    match step
    case Candidate(row) => EvaluateRow(base, s, row)
    case Cleanup(now) => s.(active := CleanedUp(s.active, now))
    case Unblock(ip, _) => if ip in s.active then s.(active := s.active - {ip}, log := s.log + [Unblocked(ip)]) else s
  }

  function EvaluateRows(base: int, s: State, rows: seq<Row>): State {
    if rows == [] then s
    else EvaluateRow(base, EvaluateRows(base, s, rows[..|rows| - 1]), rows[|rows| - 1])
  }

  /** Row `i` is not active when its turn comes, and the whitelist check gives this answer. */
  predicate Reached(base: int, s: State, rows: seq<Row>, i: nat, answer: Whitelist)
    requires i < |rows|
  {
    rows[i].whitelist == answer && rows[i].ip !in EvaluateRows(base, s, rows[..i]).active
  }

  function AllReached(base: int, s: State, rows: seq<Row>, answer: Whitelist): (r: set<nat>)
    ensures rows == [] ==> r == {}
  {
    set i: nat | i < |rows| && Reached(base, s, rows, i, answer)
  }

  lemma OneMoreRow(base: int, s: State, rows: seq<Row>, i: nat)
    requires i < |rows|
    ensures EvaluateRows(base, s, rows[..i + 1]) == EvaluateRow(base, EvaluateRows(base, s, rows[..i]), rows[i])
  {
    hide EvaluateRow;
    assert rows[..i + 1][..i] == rows[..i];
  }

  lemma ReachedInPrefix(base: int, s: State, rows: seq<Row>, i: nat, k: nat, answer: Whitelist)
    requires k < i <= |rows|
    ensures Reached(base, s, rows[..i], k, answer) == Reached(base, s, rows, k, answer)
  {
    hide EvaluateRows;
    assert rows[..i][..k] == rows[..k];
  }

  lemma OneMoreReached(base: int, s: State, rows: seq<Row>, i: nat, answer: Whitelist)
    requires i < |rows|
    ensures |AllReached(base, s, rows[..i + 1], answer)|
            == |AllReached(base, s, rows[..i], answer)| + if Reached(base, s, rows, i, answer) then 1 else 0
  {
    hide Reached, EvaluateRows;
    var before, after := AllReached(base, s, rows[..i], answer), AllReached(base, s, rows[..i + 1], answer);
    forall k: nat | k < i ensures k in after <==> k in before {
      ReachedInPrefix(base, s, rows, i, k, answer);
      ReachedInPrefix(base, s, rows, i + 1, k, answer);
    }
    ReachedInPrefix(base, s, rows, i + 1, i, answer);
    assert after == before + if Reached(base, s, rows, i, answer) then {i} else {};
  }

  class BlockManager {
    const base: int
    var activeBlocks: map<Ip, ActiveBlock>
    var rows: map<(User, Ip), History>   // the enforcement rows of the database, counted
    ghost var log: seq<Record>

    ghost function View(): State
      reads this
    {
      State(activeBlocks, rows, log)
    }

    constructor (base: int, loaded: map<Ip, ActiveBlock>, rows: map<(User, Ip), History>)
      ensures this.base == base && View() == State(loaded, rows, [])
    {
      this.base, this.rows := base, rows;
      activeBlocks := loaded;
      log := [];
    }

    method Create(row: Row)
      modifies this
      ensures View() == CreateBlock(base, old(View()), row)
    {
      hide Determine;
      var history := HistoryOf(rows, row.user, row.ip);
      var decision := Determine(row.score, if row.historyFound then Some(history) else None, base);
      var expiresAt: Option<Time> := None;
      if decision.duration > 0 {
        expiresAt := Some(row.now + decision.duration);
      }
      if !row.insertOk {
        return;
      }
      rows := rows[(row.user, row.ip) := history.Add(decision.kind)];
      var block := ActiveBlock(decision.kind, row.now, expiresAt, decision.kind == Permanent);
      activeBlocks := activeBlocks[row.ip := block];
      log := log + [Enforced(row.ip, row.now, AgentEnd(row.now, decision.duration))];
    }

    method EvaluateAndBlock(blockable: seq<Row>) returns (count: nat, skippedWhitelist: nat)
      modifies this
      ensures View() == EvaluateRows(base, old(View()), blockable)
      ensures count == |AllReached(base, old(View()), blockable, NotListed)|
      ensures skippedWhitelist == |AllReached(base, old(View()), blockable, Listed)|
    {
      hide CreateBlock, AllReached;
      count, skippedWhitelist := 0, 0;
      ghost var before := View();
      for i := 0 to |blockable|
        invariant View() == EvaluateRows(base, before, blockable[..i])
        invariant count == |AllReached(base, before, blockable[..i], NotListed)|
        invariant skippedWhitelist == |AllReached(base, before, blockable[..i], Listed)|
      {
        var row := blockable[i];
        OneMoreRow(base, before, blockable, i);
        OneMoreReached(base, before, blockable, i, NotListed);
        OneMoreReached(base, before, blockable, i, Listed);
        if row.ip in activeBlocks {
          continue;
        }
        if row.whitelist == LookupFailed {
          continue;
        }
        if row.whitelist == Listed {
          skippedWhitelist := skippedWhitelist + 1;
          continue;
        }
        count := count + 1;
        Create(row);
      }
      assert blockable[..|blockable|] == blockable;
    }

    method CleanupExpiredBlocks(now: Time) returns (removed: nat)
      modifies this`activeBlocks
      ensures View() == Next(base, old(View()), Cleanup(now))
      ensures removed == |old(activeBlocks)| - |activeBlocks|
    {
      removed := 0;
      ghost var all := activeBlocks;
      var todo := activeBlocks.Keys;
      while todo != {}
        invariant todo <= activeBlocks.Keys
        invariant forall ip | ip in all :: ip in activeBlocks <==> ip in todo || !Expired(all[ip], now)
        invariant forall ip | ip in activeBlocks :: ip in all && activeBlocks[ip] == all[ip]
        invariant removed + |activeBlocks.Keys| == |all.Keys|
        decreases todo
      {
        var ip :| ip in todo;
        var block := activeBlocks[ip];
        todo := todo - {ip};
        if block.permanent {
          continue;
        }
        if block.expires == None || block.expires.value < now {
          assert (activeBlocks - {ip}).Keys == activeBlocks.Keys - {ip};
          activeBlocks := activeBlocks - {ip};
          removed := removed + 1;
        }
      }
      assert activeBlocks == CleanedUp(all, now);
    }

    method RemoveBlock(ip: Ip, now: Time)
      modifies this
      ensures View() == Next(base, old(View()), Unblock(ip, now))
    {
      if ip !in activeBlocks {
        return;
      }
      log := log + [Unblocked(ip)];
      activeBlocks := activeBlocks - {ip};
    }
  }

  // ---------- whole runs of one process ----------

  function After(base: int, s: State, steps: seq<Step>): (r: State) {
    if steps == [] then s else Next(base, After(base, s, steps[..|steps| - 1]), steps[|steps| - 1])
  }

  /** A pass over candidate rows is a run of single candidates. */
  lemma {:induction false} RowsAreSteps(base: int, s: State, rows: seq<Row>)
    ensures EvaluateRows(base, s, rows) == After(base, s, seq(|rows|, i requires 0 <= i < |rows| => Candidate(rows[i])))
  {
    hide EvaluateRow;
    var steps := seq(|rows|, i requires 0 <= i < |rows| => Candidate(rows[i]));
    if rows != [] {
      var front := rows[..|rows| - 1];
      RowsAreSteps(base, s, front);
      assert steps[..|steps| - 1] == seq(|front|, i requires 0 <= i < |front| => Candidate(front[i]));
    }
  }

  // ---------- offence histories of runs ----------

  /** The row is enforced, or at least tried, when its turn comes. */
  predicate Offends(s: State, row: Row, user: User, ip: Ip) {
    row.user == user && row.ip == ip && row.ip !in s.active && row.whitelist == NotListed
  }

  /** The scores at which an IP of a user was enforced along a run. */
  function ScoresOf(base: int, s: State, steps: seq<Step>, user: User, ip: Ip): (scores: seq<int>) {
    if steps == [] then []
    else
      var prefix, step := steps[..|steps| - 1], steps[|steps| - 1];
      ScoresOf(base, s, prefix, user, ip)
      + if step.Candidate? && Offends(After(base, s, prefix), step.row, user, ip) then [step.row.score] else []
  }

  predicate DatabaseWorks(step: Step) {
    step.Candidate? ==> step.row.historyFound && step.row.insertOk
  }

  lemma StepHistory(base: int, s: State, step: Step, user: User, ip: Ip)
    requires DatabaseWorks(step)
    ensures HistoryOf(Next(base, s, step).rows, user, ip)
            == if step.Candidate? && Offends(s, step.row, user, ip) then
                 var h := HistoryOf(s.rows, user, ip); h.Add(Determine(step.row.score, Some(h), base).kind)
               else HistoryOf(s.rows, user, ip)
  {
    hide Determine, CleanedUp, AgentEnd;
  }

  lemma OneMoreScore(h: History, scores: seq<int>, score: int, base: int)
    ensures var before := Escalation.After(h, scores, base);
            Escalation.After(h, scores + [score], base) == before.Add(Determine(score, Some(before), base).kind)
  {
    hide Determine;
    assert (scores + [score])[..|scores|] == scores;
  }

  /** Along every run in which lookups and inserts succeed, the history of each IP of each
      user is the one that the escalation matrix builds from its own scores, whatever
      happens to other IPs and however often it expires or is unblocked in between. */
  lemma {:induction false} HistoryFollowsScores(base: int, s: State, steps: seq<Step>, user: User, ip: Ip)
    requires forall step | step in steps :: DatabaseWorks(step)
    ensures HistoryOf(After(base, s, steps).rows, user, ip)
            == Escalation.After(HistoryOf(s.rows, user, ip), ScoresOf(base, s, steps, user, ip), base)
  {
    if steps != [] {
      hide DatabaseWorks, Next, Determine, HistoryOf, Offends, Escalation.After;
      var prefix, step := steps[..|steps| - 1], steps[|steps| - 1];
      HistoryFollowsScores(base, s, prefix, user, ip);
      var scores := ScoresOf(base, s, prefix, user, ip);
      StepHistory(base, After(base, s, prefix), step, user, ip);
      if step.Candidate? {
        OneMoreScore(HistoryOf(s.rows, user, ip), scores, step.row.score, base);
      }
      assert scores + [] == scores;
    }
  }

  /** So along such a run an IP that was enforced four times with scores of at least 50, or
      three times with scores of at least 70, is blocked permanently at any later score. */
  lemma RepeatOffendersStayBlocked(base: int, s: State, steps: seq<Step>, row: Row)
    requires (forall step | step in steps :: DatabaseWorks(step)) && row.historyFound
    requires var scores := ScoresOf(base, s, steps, row.user, row.ip);
             || (|scores| >= 4 && forall x | x in scores :: x >= 50)
             || (|scores| >= 3 && forall x | x in scores :: x >= 70)
    ensures DecisionFor(base, After(base, s, steps).rows, row) == Decision(Permanent, 0)
  {
    hide After, ScoresOf, Escalation.After;
    var scores, h := ScoresOf(base, s, steps, row.user, row.ip), HistoryOf(s.rows, row.user, row.ip);
    var k := |scores| - 1;
    HistoryFollowsScores(base, s, steps, row.user, row.ip);
    assert forall i | 0 <= i <= k :: scores[i] in scores;
    RepeatOffendersBecomePermanent(h, scores, k, base);
    OneMore(h, scores, k, base);
    assert scores[..k + 1] == scores;
  }

  // ---------- enforcement intervals ----------

  function TimeOf(step: Step): Time {
    match step case Candidate(row) => row.now case Cleanup(now) => now case Unblock(_, now) => now
  }

  ghost predicate ClockRuns(steps: seq<Step>) {
    forall i, j | 0 <= i <= j < |steps| :: TimeOf(steps[i]) <= TimeOf(steps[j])
  }

  /** No unblock of `ip` strictly between positions `i` and `j` of the log. */
  ghost predicate NoUnblockBetween(log: seq<Record>, ip: Ip, i: nat, j: nat)
    requires i <= j <= |log|
  {
    forall k | i < k < j :: log[k] != Unblocked(ip)
  }

  /** Two enforcements of one IP with no unblock between them: the first has an end, and
      it lies before the start of the second. */
  ghost predicate Disjoint(log: seq<Record>) {
    forall i, j | && 0 <= i < j < |log| && log[i].Enforced? && log[j].Enforced? && log[i].ip == log[j].ip
                  && NoUnblockBetween(log, log[i].ip, i, j)
      :: log[i].until.Some? && log[i].until.value < log[j].start
  }

  /** The enforcement at `i` is no longer undone by the operator. */
  ghost predicate Standing(log: seq<Record>, i: nat)
  {
    i < |log| && log[i].Enforced? && NoUnblockBetween(log, log[i].ip, i, |log|)
  }

  /** A standing enforcement of an IP that is not active ended in the past; the one of an
      active IP is covered by its block. */
  ghost predicate Inv(s: State, now: Time) {
    && Disjoint(s.log)
    && (forall i | 0 <= i < |s.log| && Standing(s.log, i) ::
          if s.log[i].ip in s.active then Covers(s.active[s.log[i].ip], s.log[i].until)
          else s.log[i].until.Some? && s.log[i].until.value < now)
  }

  /** A block that is kept at least until the enforcement ends. */
  ghost predicate Covers(b: ActiveBlock, until: Option<Time>) {
    b.permanent || (b.expires.Some? && until.Some? && until.value <= b.expires.value)
  }

  lemma PositiveDurations(score: int, lookup: Option<History>, base: int)
    requires base >= SECOND
    ensures var d := Determine(score, lookup, base);
            if d.kind == Permanent then d.duration == 0 else d.duration >= SECOND
  {
  }

  lemma StandingBefore(log: seq<Record>, r: Record, i: nat)
    requires i < |log| && Standing(log + [r], i)
    ensures Standing(log, i) && r != Unblocked(log[i].ip)
  {
    assert (log + [r])[|log|] == r;
    assert forall k | 0 <= k < |log| :: (log + [r])[k] == log[k];
  }

  lemma AddDisjoint(log: seq<Record>, r: Record)
    requires Disjoint(log)
    requires r.Enforced? ==> forall i | 0 <= i < |log| && Standing(log, i) && log[i].ip == r.ip ::
                               log[i].until.Some? && log[i].until.value < r.start
    ensures Disjoint(log + [r])
  {
    var log' := log + [r];
    forall i, j | && 0 <= i < j < |log'| && log'[i].Enforced? && log'[j].Enforced? && log'[i].ip == log'[j].ip
                  && NoUnblockBetween(log', log'[i].ip, i, j)
      ensures log'[i].until.Some? && log'[i].until.value < log'[j].start
    {
      assert forall k | 0 <= k < |log| :: log'[k] == log[k];
      if j < |log| {
        assert NoUnblockBetween(log, log[i].ip, i, j);
      } else {
        assert Standing(log, i);
      }
    }
  }

  lemma CreateKeepsInv(base: int, s: State, row: Row, now: Time)
    requires base >= SECOND && Inv(s, now) && now <= row.now && row.ip !in s.active
    ensures Inv(CreateBlock(base, s, row), row.now)
  {
    hide Determine;
    var d := DecisionFor(base, s.rows, row);
    PositiveDurations(row.score, if row.historyFound then Some(HistoryOf(s.rows, row.user, row.ip)) else None, base);
    if row.insertOk {
      var s' := CreateBlock(base, s, row);
      var r := s'.log[|s.log|];
      AddDisjoint(s.log, r);
      forall i | 0 <= i < |s'.log| && Standing(s'.log, i)
        ensures if s'.log[i].ip in s'.active then Covers(s'.active[s'.log[i].ip], s'.log[i].until)
                else s'.log[i].until.Some? && s'.log[i].until.value < row.now
      {
        if i < |s.log| {
          StandingBefore(s.log, r, i);
        }
      }
    }
  }

  lemma CleanupKeepsInv(s: State, now: Time, later: Time)
    requires Inv(s, now) && now <= later
    ensures Inv(s.(active := CleanedUp(s.active, later)), later)
  {
  }

  lemma UnblockKeepsInv(s: State, ip: Ip, now: Time, later: Time)
    requires Inv(s, now) && now <= later && ip in s.active
    ensures Inv(s.(active := s.active - {ip}, log := s.log + [Unblocked(ip)]), later)
  {
    var s' := s.(active := s.active - {ip}, log := s.log + [Unblocked(ip)]);
    AddDisjoint(s.log, Unblocked(ip));
    forall i | 0 <= i < |s'.log| && Standing(s'.log, i)
      ensures if s'.log[i].ip in s'.active then Covers(s'.active[s'.log[i].ip], s'.log[i].until)
              else s'.log[i].until.Some? && s'.log[i].until.value < later
    {
      StandingBefore(s.log, Unblocked(ip), i);
      assert s'.log[i] == s.log[i] && s.log[i].ip != ip;
    }
  }

  lemma InvLater(s: State, now: Time, later: Time)
    requires Inv(s, now) && now <= later
    ensures Inv(s, later)
  {
  }

  lemma {:induction false} RunKeepsInv(base: int, s: State, steps: seq<Step>, now: Time)
    requires base >= SECOND && s.log == [] && ClockRuns(steps)
    requires if steps == [] then true else TimeOf(steps[|steps| - 1]) == now
    ensures Inv(After(base, s, steps), now)
  {
    if steps != [] {
      hide Inv, CleanedUp, CreateBlock;
      var k := |steps| - 1;
      var prefix := steps[..k];
      var before := if prefix == [] then now else TimeOf(prefix[k - 1]);
      RunKeepsInv(base, s, prefix, before);
      assert before <= now;
      var t := After(base, s, prefix);
      match steps[k] {
        case Candidate(row) =>
          if row.ip in t.active || row.whitelist != NotListed {
            InvLater(t, before, now);
          } else {
            CreateKeepsInv(base, t, row, before);
          }
        case Cleanup(_) => CleanupKeepsInv(t, before, now);
        case Unblock(ip, _) =>
          if ip in t.active { UnblockKeepsInv(t, ip, before, now); } else { InvLater(t, before, now); }
      }
    }
  }

  // ---------- single steps ----------

  /** A cleanup keeps exactly the blocks that are permanent or have an end that has not passed. */
  lemma CleanupIsExact(base: int, s: State, now: Time, ip: Ip)
    ensures var t := Next(base, s, Cleanup(now));
            && t.log == s.log && t.rows == s.rows
            && (ip in t.active <==>
                  && ip in s.active
                  && (s.active[ip].permanent || (s.active[ip].expires.Some? && now <= s.active[ip].expires.value)))
            && (ip in t.active ==> t.active[ip] == s.active[ip])
  {
  }

  /** An unblock removes an active IP and writes that down; it touches nothing else. */
  lemma UnblockIsExact(base: int, s: State, ip: Ip, now: Time, other: Ip)
    ensures var t := Next(base, s, Unblock(ip, now));
            && ip !in t.active && t.rows == s.rows
            && t.log == (if ip in s.active then s.log + [Unblocked(ip)] else s.log)
            && (other != ip ==> (other in t.active <==> other in s.active))
            && (other != ip && other in s.active ==> t.active[other] == s.active[other])
  {
  }

  /** What one enforcement writes: the kind and the end that the decision says, here in
      nanoseconds, for the agent in whole seconds, and one row of that kind in the history. */
  lemma EnforcementIsExact(base: int, s: State, row: Row)
    requires row.ip !in s.active && row.whitelist == NotListed && row.insertOk
    ensures var t := Next(base, s, Candidate(row));
            var h := HistoryOf(s.rows, row.user, row.ip);
            var d := Determine(row.score, if row.historyFound then Some(h) else None, base);
            && t.log == s.log + [Enforced(row.ip, row.now, AgentEnd(row.now, d.duration))]
            && t.active == s.active[row.ip := ActiveBlock(d.kind, row.now,
                                                          if d.duration > 0 then Some(row.now + d.duration) else None,
                                                          d.kind == Permanent)]
            && t.rows == s.rows[(row.user, row.ip) := h.Add(d.kind)]
  {
    hide Determine, AgentEnd;
  }

  /** A failed lookup of a score below 90 gives a block for the base duration, on both sides. */
  lemma FailedLookupBlocksForBase(base: int, s: State, row: Row)
    requires row.ip !in s.active && row.whitelist == NotListed && row.insertOk
    requires !row.historyFound && row.score < 90
    ensures var t := Next(base, s, Candidate(row));
            && t.log == s.log + [Enforced(row.ip, row.now, AgentEnd(row.now, base))]
            && t.active[row.ip] == ActiveBlock(Block, row.now, if base > 0 then Some(row.now + base) else None, false)
  {
    hide AgentEnd;
  }

  // ---------- permanent blocks ----------

  /** Enforcements of `ip` in the log. */
  function EnforcedTimes(log: seq<Record>, ip: Ip): nat {
    if log == [] then 0
    else EnforcedTimes(log[..|log| - 1], ip) + if log[|log| - 1].Enforced? && log[|log| - 1].ip == ip then 1 else 0
  }

  lemma OneMoreRecord(log: seq<Record>, r: Record, ip: Ip)
    ensures EnforcedTimes(log + [r], ip) == EnforcedTimes(log, ip) + if r.Enforced? && r.ip == ip then 1 else 0
  {
    assert (log + [r])[..|log|] == log;
  }

  lemma PermanentStep(base: int, s: State, step: Step, ip: Ip)
    requires ip in s.active && s.active[ip].permanent && !(step.Unblock? && step.ip == ip)
    ensures var t := Next(base, s, step);
            ip in t.active && t.active[ip].permanent && EnforcedTimes(t.log, ip) == EnforcedTimes(s.log, ip)
  {
    hide Determine, AgentEnd;
    match step {
      case Candidate(row) =>
        var d := DecisionFor(base, s.rows, row);
        OneMoreRecord(s.log, Enforced(row.ip, row.now, AgentEnd(row.now, d.duration)), ip);
      case Cleanup(now) =>
      case Unblock(other, now) => OneMoreRecord(s.log, Unblocked(other), ip);
    }
  }

  lemma {:induction false} PermanentThrough(base: int, s: State, steps: seq<Step>, ip: Ip)
    requires ip in s.active && s.active[ip].permanent
    requires forall step | step in steps :: !(step.Unblock? && step.ip == ip)
    ensures var t := After(base, s, steps);
            ip in t.active && t.active[ip].permanent && EnforcedTimes(t.log, ip) == EnforcedTimes(s.log, ip)
  {
    if steps != [] {
      hide Next, EnforcedTimes;
      PermanentThrough(base, s, steps[..|steps| - 1], ip);
      PermanentStep(base, After(base, s, steps[..|steps| - 1]), steps[|steps| - 1], ip);
    }
  }

  /** Whatever the lookup says and whatever the base is, a candidate with a score of 90 or more
      is enforced without an end, and along everything that follows without an unblock of the IP
      it stays active through every cleanup and is not enforced again. */
  lemma HighScoresNeverEnd(base: int, s: State, row: Row, later: seq<Step>)
    requires row.score >= 90 && row.ip !in s.active && row.whitelist == NotListed && row.insertOk
    requires forall step | step in later :: !(step.Unblock? && step.ip == row.ip)
    ensures var t := Next(base, s, Candidate(row));
            var u := After(base, t, later);
            && t.log == s.log + [Enforced(row.ip, row.now, None)]
            && row.ip in u.active && u.active[row.ip].permanent
            && EnforcedTimes(u.log, row.ip) == EnforcedTimes(t.log, row.ip)
  {
    EnforcementIsExact(base, s, row);
    PermanentThrough(base, Next(base, s, Candidate(row)), later, row.ip);
  }

  // ---------- candidates ----------

  /** After a cleanup a candidate is enforced unless its block is still running, it is not
      cleared by the whitelist check, or the insert fails; nothing else is written down. */
  lemma CandidateIsEnforcedUnlessRunning(base: int, s: State, sweep: Time, row: Row)
    ensures var t := Next(base, Next(base, s, Cleanup(sweep)), Candidate(row));
            var running := row.ip in s.active && !Expired(s.active[row.ip], sweep);
            var enforced := !running && row.whitelist == NotListed && row.insertOk;
            && (enforced ==> |t.log| == |s.log| + 1 && t.log[..|s.log|] == s.log
                             && t.log[|s.log|].Enforced?
                             && t.log[|s.log|].ip == row.ip && t.log[|s.log|].start == row.now
                             && row.ip in t.active && t.active[row.ip].blockedAt == row.now
                             && (base >= SECOND ==> Covers(t.active[row.ip], t.log[|s.log|].until)))
            && (!enforced ==> t.log == s.log)
  {
    var d := DecisionFor(base, s.rows, row);
    if base >= SECOND {
      PositiveDurations(row.score, if row.historyFound then Some(HistoryOf(s.rows, row.user, row.ip)) else None, base);
    }
  }

  /** Along every run that starts with any loaded blocks and any enforcement history. */
  ghost predicate AlwaysDisjoint(base: int) {
    forall active: map<Ip, ActiveBlock>, rows: map<(User, Ip), History>, steps: seq<Step> | ClockRuns(steps)
      :: Disjoint(After(base, State(active, rows, []), steps).log)
  }

  /** Two enforcements of an IP with no unblock between them never overlap, and none follows
      one without an end: exactly when the configured base duration is at least a second. With
      a shorter base a first offence has no end on the agent but is soon forgotten here. */
  lemma EnforcementsAreDisjoint(base: int)
    ensures AlwaysDisjoint(base) <==> base >= SECOND
  {
    if base >= SECOND {
      forall active: map<Ip, ActiveBlock>, rows: map<(User, Ip), History>, steps: seq<Step> | ClockRuns(steps)
        ensures Disjoint(After(base, State(active, rows, []), steps).log)
      {
        RunKeepsInv(base, State(active, rows, []), steps, if steps == [] then 0 else TimeOf(steps[|steps| - 1]));
      }
    } else {
      var s := ForgottenBlock(base);
    }
  }

  lemma ForgottenBlock(base: int) returns (steps: seq<Step>)
    requires base < SECOND
    ensures ClockRuns(steps) && !Disjoint(After(base, State(map[], map[], []), steps).log)
  {
    var later := 1 + 2 * SECOND;
    var first := Candidate(Row(1, "a", 55, NotListed, true, true, 1));
    var sweep := Cleanup(later);
    var second := Candidate(Row(1, "a", 55, NotListed, true, true, later));
    steps := [first, sweep, second];
    var s0 := State(map[], map[], []);
    assert steps[..2] == [first, sweep] && [first, sweep][..1] == [first] && [first][..0] == [];
    assert After(base, s0, []) == s0;
    assert Determine(55, Some(NO_HISTORY), base) == Decision(Block, base);
    assert Determine(55, Some(History(0, 1, 0)), base) == Decision(Block, 6 * HOUR);
    hide Determine, Disjoint, NoUnblockBetween;
    var s1 := Next(base, s0, first);
    assert s1.log == [Enforced("a", 1, None)];
    assert s1.active == map["a" := ActiveBlock(Block, 1, if base > 0 then Some(1 + base) else None, false)];
    var s2 := Next(base, s1, sweep);
    assert s2.active == map[];
    var s3 := Next(base, s2, second);
    assert s3.log == s1.log + [Enforced("a", later, AgentEnd(later, 6 * HOUR))];
    assert After(base, s0, [first]) == s1;
    assert After(base, s0, [first, sweep]) == s2;
    assert After(base, s0, steps) == s3;
    assert s3.log[0].until == None && s3.log[1].Enforced? && s3.log[1].ip == "a";
    Overlapping(s3.log);
  }

  lemma Overlapping(log: seq<Record>)
    requires |log| == 2 && log[0].Enforced? && log[1].Enforced? && log[0].ip == log[1].ip && log[0].until == None
    ensures !Disjoint(log)
  {
    assert NoUnblockBetween(log, log[0].ip, 0, 1);
  }
}
