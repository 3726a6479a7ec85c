/** Conservation over whole runs of the telemetry pipeline. */
module TelemetryLedger {
  import opened Options
  import opened Telemetry

  /** A run: every step is possible in its state and leads to the next state. */
  ghost predicate Run(cfg: Config, states: seq<State>, steps: seq<Step>) {
    && |states| == |steps| + 1
    && forall i | 0 <= i < |steps| ::
         Possible(cfg, states[i], steps[i]) && states[i + 1] == Next(cfg, states[i], steps[i])
  }

  lemma RunPrefix(cfg: Config, states: seq<State>, steps: seq<Step>)
    requires Run(cfg, states, steps) && steps != []
    ensures Run(cfg, states[..|steps|], steps[..|steps| - 1])
  {
    hide Possible, Next;
    assert forall i | 0 <= i < |steps| :: states[..|steps|][i] == states[i];
    assert forall i | 0 <= i < |steps| - 1 :: steps[..|steps| - 1][i] == steps[i];
  }

  // ---------- counters ----------

  function OutOf(r: Record): Counts {
    match r
    case StatsEvicted(c) => c
    case Acknowledged(c, _, _) => c
    case Saved(c, _) => c
    case _ => NOTHING
  }

  /** All counts that have left memory. */
  function Out(log: seq<Record>): Counts {
    if log == [] then NOTHING else Out(log[..|log| - 1]).Add(OutOf(log[|log| - 1]))
  }

  /** The first, second and fourth flag bit. */
  function BitsOf(flags: bv8): Counts {
    Counts(flags as int % 2, flags as int / 2 % 2, flags as int / 8 % 2)
  }

  lemma CountsAreBits(flags: bv8)
    ensures CountsOf(flags) == BitsOf(flags)
  {
    FirstBit(flags);
    SecondBit(flags);
    FourthBit(flags);
  }

  lemma FirstBit(flags: bv8)
    ensures flags as int % 2 == if flags & 0x01 != 0 then 1 else 0
  {
  }

  lemma SecondBit(flags: bv8)
    ensures flags as int / 2 % 2 == if flags & 0x02 != 0 then 1 else 0
  {
  }

  lemma FourthBit(flags: bv8)
    ensures flags as int / 8 % 2 == if flags & 0x08 != 0 then 1 else 0
  {
  }

  function SeenIn(step: Step): Counts {
    if step.Process? then BitsOf(step.e.flags) else NOTHING
  }

  /** All counts that events brought in. */
  function Seen(steps: seq<Step>): Counts {
    if steps == [] then NOTHING else Seen(steps[..|steps| - 1]).Add(SeenIn(steps[|steps| - 1]))
  }

  /** What is in memory or has left it. */
  ghost function Held(s: State): Counts {
    Total(s.items).Add(Out(s.log))
  }

  lemma {:induction false} OutAppend(a: seq<Record>, b: seq<Record>)
    ensures Out(a + b) == Out(a).Add(Out(b))
  {
    hide OutOf, Counts.Add;
    if b == [] {
      assert a + b == a;
      AddIsMonoid(Out(a), NOTHING, NOTHING);
    } else {
      var front, last := b[..|b| - 1], b[|b| - 1];
      assert (a + b)[..|a + b| - 1] == a + front;
      OutAppend(a, front);
      AddIsMonoid(Out(a), Out(front), OutOf(last));
    }
  }

  lemma OutOne(r: Record)
    ensures Out([r]) == OutOf(r)
  {
    hide OutOf;
    assert [r][..0] == [];
  }

  /** Records about rows take nothing out of memory. */
  lemma {:induction false} RowRecordsCarryNothing(log: seq<Record>)
    requires forall i | 0 <= i < |log| :: OutOf(log[i]) == NOTHING
    ensures Out(log) == NOTHING
  {
    hide OutOf, Counts.Add;
    if log != [] {
      var front := log[..|log| - 1];
      assert forall i | 0 <= i < |front| :: front[i] == log[i];
      RowRecordsCarryNothing(front);
      AddIsMonoid(NOTHING, NOTHING, NOTHING);
    }
  }

  lemma CountedTotal(items: Stats, e: Event)
    ensures Total(Counted(items, e)) == Total(items).Add(CountsOf(e.flags))
  {
    hide Total, CountsOf;
    var st := if e.ip in items then items[e.ip] else IpStats(NOTHING, e.time);
    var rest := Total(items - {e.ip});
    TotalUpdate(items, e.ip, st.(counts := st.counts.Add(CountsOf(e.flags))));
    if e.ip in items {
      TotalWithout(items, e.ip);
    } else {
      assert items - {e.ip} == items;
    }
  }

  lemma ProcessConserves(s: State, e: Event, victim: Option<Ip>)
    requires victim.Some? ==> victim.value in s.items
    ensures Held(ProcessEvent(s, e, victim)) == Held(s).Add(CountsOf(e.flags))
  {
    hide Total, Out, CountsOf, Counted;
    CountedTotal(MakeRoom(s.items, victim), e);
    if victim.Some? {
      var evicted := StatsEvicted(s.items[victim.value].counts);
      TotalWithout(s.items, victim.value);
      OutAppend(s.log, [evicted]);
      OutOne(evicted);
    }
  }

  /** A retry pass does not touch memory. */
  lemma RetryConserves(s: State, f: FlushOutcome)
    requires |f.replies| == |f.loaded|
    ensures RetryPending(s, f).items == s.items && Out(RetryPending(s, f).log) == Out(s.log)
  {
    hide Out, AcceptedPrefix, Keep, Gone;
    var acked := Acks(f.loaded, f.replies, AcceptedPrefix(f.loaded, f.replies));
    var deleted := Records(Gone(s.rows, Ids(f.loaded)), (r: Row) => RowDeleted(r));
    RowRecordsCarryNothing(acked);
    RowRecordsCarryNothing(deleted);
    OutAppend(s.log, acked);
    OutAppend(s.log + acked, deleted);
  }

  lemma EmptyTotal()
    ensures Total(map[]) == NOTHING
  {
  }

  lemma SaveConserves(s: State, f: FlushOutcome)
    ensures Held(SaveBatch(s, f)) == Held(s)
  {
    hide Out, Total, Keep, Gone;
    var gone := Records(Gone(s.rows, EvictedIds(s.rows, f.save)), (r: Row) => RowEvicted(r));
    RowRecordsCarryNothing(gone);
    OutAppend(s.log, gone);
    var saved := Saved(Total(s.items), Row(s.nextId, f.batch, f.save.now));
    OutAppend(s.log + gone, [saved]);
    OutOne(saved);
    EmptyTotal();
  }

  lemma FlushConserves(cfg: Config, s: State, f: FlushOutcome)
    requires |f.replies| == |f.loaded|
    ensures Held(FlushToAPI(cfg, s, f)) == Held(s)
  {
    hide Out, Total, RetryPending, SaveBatch;
    RetryConserves(s, f);
    var s1 := if cfg.hasBuffer then RetryPending(s, f) else s;
    SaveConserves(s1, f);
    OutAppend(s1.log, [Acknowledged(Total(s1.items), f.batch, f.reply)]);
    OutOne(Acknowledged(Total(s1.items), f.batch, f.reply));
    EmptyTotal();
  }

  lemma MaintainConserves(s: State, cutoff: Time, ok: bool)
    ensures Held(EvictExpired(s, cutoff, ok)) == Held(s)
  {
    hide Out, Old, KeepYoung;
    var expired := Records(Old(s.rows, cutoff), (r: Row) => RowExpired(r));
    RowRecordsCarryNothing(expired);
    OutAppend(s.log, expired);
  }

  lemma StepConserves(cfg: Config, s: State, step: Step)
    requires Possible(cfg, s, step)
    ensures Held(Next(cfg, s, step)) == Held(s).Add(SeenIn(step))
  {
    hide Held, ProcessEvent, FlushToAPI, EvictExpired, CountsOf, BitsOf;
    AddIsMonoid(Held(s), NOTHING, NOTHING);
    match step {
      case Process(e, victim) =>
        ProcessConserves(s, e, victim);
        CountsAreBits(e.flags);
      case Flush(f) => FlushConserves(cfg, s, f);
      case Maintain(cutoff, ok) => MaintainConserves(s, cutoff, ok);
    }
  }

  /** No count is lost or made up: what events brought in is still in memory or has left it
      into an acknowledged batch, a saved batch or an evicted entry. */
  lemma {:induction false} CountsAreConserved(cfg: Config, states: seq<State>, steps: seq<Step>)
    requires Run(cfg, states, steps)
    ensures Held(states[|steps|]) == Held(states[0]).Add(Seen(steps))
  {
    hide Held, Possible, Next, SeenIn, Counts.Add;
    if steps != [] {
      var k := |steps| - 1;
      RunPrefix(cfg, states, steps);
      CountsAreConserved(cfg, states[..|steps|], steps[..k]);
      StepConserves(cfg, states[k], steps[k]);
      AddIsMonoid(Held(states[0]), Seen(steps[..k]), SeenIn(steps[k]));
    } else {
      AddIsMonoid(Held(states[0]), NOTHING, NOTHING);
    }
  }

  // ---------- what batches carry ----------

  /** A batch that left memory carries the counts it was made from: exactly, or up to
      multiples of 2^32. */
  predicate Carries(r: Record, exactly: bool) {
    match r
    case Acknowledged(c, batch, _) => if exactly then BatchTotal(batch) == c else BatchTotal(batch).Congruent(c)
    case Saved(c, row) => if exactly then BatchTotal(row.batch) == c else BatchTotal(row.batch).Congruent(c)
    case _ => true
  }

  predicate CountersFit(s: State) {
    forall ip | ip in s.items :: s.items[ip].counts.Fits()
  }

  lemma FlushCarries(cfg: Config, s: State, f: FlushOutcome, exactly: bool)
    requires Possible(cfg, s, Flush(f)) && forall r | r in s.log :: Carries(r, exactly)
    requires exactly ==> CountersFit(s)
    ensures forall r | r in FlushToAPI(cfg, s, f).log :: Carries(r, exactly)
  {
    hide Total, BatchTotal, Counts.Congruent, Counts.Fits, IsBatchOf, SelectsOldest, Keep, Gone, AcceptedPrefix,
        EvictedIds;
    BatchCarriesTotal(f.batch, s.items);
  }

  /** Over every run, batches carry their counts up to multiples of 2^32, and exactly as
      long as the counters in memory fit 32 bits. */
  lemma {:induction false} BatchesCarryTheirCounts(cfg: Config, states: seq<State>, steps: seq<Step>, exactly: bool)
    requires Run(cfg, states, steps) && states[0].log == []
    requires exactly ==> forall i | 0 <= i < |steps| :: CountersFit(states[i])
    ensures forall r | r in states[|steps|].log :: Carries(r, exactly)
  {
    if steps != [] {
      hide Carries, CountersFit, Possible, FlushToAPI, ProcessEvent, EvictExpired;
      var k := |steps| - 1;
      RunPrefix(cfg, states, steps);
      BatchesCarryTheirCounts(cfg, states[..|steps|], steps[..k], exactly);
      match steps[k] {
        case Process(e, victim) => ProcessCarries(states[k], e, victim, exactly);
        case Flush(f) => FlushCarries(cfg, states[k], f, exactly);
        case Maintain(cutoff, ok) => MaintainCarries(states[k], cutoff, ok, exactly);
      }
    }
  }

  lemma ProcessCarries(s: State, e: Event, victim: Option<Ip>, exactly: bool)
    requires forall r | r in s.log :: Carries(r, exactly)
    ensures forall r | r in ProcessEvent(s, e, victim).log :: Carries(r, exactly)
  {
    hide Counted, MakeRoom;
  }

  lemma MaintainCarries(s: State, cutoff: Time, ok: bool, exactly: bool)
    requires forall r | r in s.log :: Carries(r, exactly)
    ensures forall r | r in EvictExpired(s, cutoff, ok).log :: Carries(r, exactly)
  {
    hide Old, KeepYoung;
  }

  // ---------- rows ----------

  function SavedIn(log: seq<Record>): multiset<Row> {
    if log == [] then multiset{}
    else
      var r := log[|log| - 1];
      SavedIn(log[..|log| - 1]) + if r.Saved? then multiset{r.row} else multiset{}
  }

  function RemovedIn(log: seq<Record>): multiset<Row> {
    if log == [] then multiset{}
    else
      var r := log[|log| - 1];
      RemovedIn(log[..|log| - 1])
      + if r.RowDeleted? || r.RowEvicted? || r.RowExpired? then multiset{r.row} else multiset{}
  }

  /** What the buffer holds, with what was removed, is what was there and what was saved. */
  ghost predicate RowsBalance(s: State, initial: seq<Row>) {
    multiset(s.rows) + RemovedIn(s.log) == multiset(initial) + SavedIn(s.log)
  }

  lemma {:induction false} RemovedAppend(a: seq<Record>, b: seq<Record>)
    ensures RemovedIn(a + b) == RemovedIn(a) + RemovedIn(b)
    ensures SavedIn(a + b) == SavedIn(a) + SavedIn(b)
  {
    if b == [] {
      assert a + b == a;
    } else {
      assert (a + b)[..|a + b| - 1] == a + b[..|b| - 1];
      RemovedAppend(a, b[..|b| - 1]);
    }
  }

  datatype RowFate = Deleted | Evicted | Expired

  function FateOf(fate: RowFate, r: Row): Record {
    match fate case Deleted => RowDeleted(r) case Evicted => RowEvicted(r) case Expired => RowExpired(r)
  }

  lemma {:induction false} RecordsRemove(rows: seq<Row>, log: seq<Record>, fate: RowFate)
    requires |log| == |rows| && forall i | 0 <= i < |rows| :: log[i] == FateOf(fate, rows[i])
    ensures RemovedIn(log) == multiset(rows) && SavedIn(log) == multiset{}
  {
    if rows != [] {
      RecordsRemove(rows[..|rows| - 1], log[..|rows| - 1], fate);
      assert rows == rows[..|rows| - 1] + [rows[|rows| - 1]];
    }
  }

  lemma {:induction false} AcksRemoveNothing(log: seq<Record>)
    requires forall i | 0 <= i < |log| :: log[i].RetryAcknowledged?
    ensures RemovedIn(log) == multiset{}
    ensures SavedIn(log) == multiset{}
  {
    if log != [] { AcksRemoveNothing(log[..|log| - 1]); }
  }

  /** Rows that leave the buffer are written down. */
  lemma MovedRows(s: State, t: State, gone: seq<Row>, initial: seq<Row>)
    requires RowsBalance(s, initial)
    requires multiset(t.rows) + multiset(gone) == multiset(s.rows)
    requires RemovedIn(t.log) == RemovedIn(s.log) + multiset(gone) && SavedIn(t.log) == SavedIn(s.log)
    ensures RowsBalance(t, initial)
  {
    hide RemovedIn, SavedIn;
    var r, i := RemovedIn(s.log), multiset(initial) + SavedIn(s.log);
    assert multiset(t.rows) + (r + multiset(gone)) == multiset(t.rows) + multiset(gone) + r;
  }

  lemma RetryBalances(s: State, f: FlushOutcome, initial: seq<Row>)
    requires |f.replies| == |f.loaded| && RowsBalance(s, initial)
    ensures RowsBalance(RetryPending(s, f), initial)
  {
    hide RemovedIn, SavedIn, AcceptedPrefix, Keep, Gone, RowsBalance;
    var ids := Ids(f.loaded);
    var acked := Acks(f.loaded, f.replies, AcceptedPrefix(f.loaded, f.replies));
    var deleted := Records(Gone(s.rows, ids), (r: Row) => RowDeleted(r));
    AcksRemoveNothing(acked);
    RemovedAppend(s.log, acked);
    RemovedAppend(s.log + acked, deleted);
    RecordsRemove(Gone(s.rows, ids), deleted, Deleted);
    KeepAndGone(s.rows, ids);
    MovedRows(s, s.(log := s.log + acked), [], initial);
    MovedRows(s.(log := s.log + acked), s.(rows := Keep(s.rows, ids), log := s.log + acked + deleted),
              Gone(s.rows, ids), initial);
  }

  lemma SavedRow(s: State, counts: Counts, row: Row, initial: seq<Row>)
    requires RowsBalance(s, initial)
    ensures RowsBalance(State(map[], s.rows + [row], s.nextId + 1, s.log + [Saved(counts, row)]), initial)
  {
    hide RemovedIn, SavedIn;
    RemovedAppend(s.log, [Saved(counts, row)]);
    OneSaved(Saved(counts, row));
    assert multiset(s.rows + [row]) == multiset(s.rows) + multiset{row};
    assert RemovedIn(s.log + [Saved(counts, row)]) == RemovedIn(s.log);
    assert multiset(s.rows) + multiset{row} + RemovedIn(s.log) == multiset(s.rows) + RemovedIn(s.log) + multiset{row};
    assert multiset(initial) + (SavedIn(s.log) + multiset{row}) == multiset(initial) + SavedIn(s.log) + multiset{row};
  }

  lemma SaveBalances(s: State, f: FlushOutcome, initial: seq<Row>)
    requires RowsBalance(s, initial)
    ensures RowsBalance(SaveBatch(s, f), initial)
  {
    hide RemovedIn, SavedIn, Keep, Gone, Total, RowsBalance;
    var ids := EvictedIds(s.rows, f.save);
    var evicted := Records(Gone(s.rows, ids), (r: Row) => RowEvicted(r));
    RemovedAppend(s.log, evicted);
    RecordsRemove(Gone(s.rows, ids), evicted, Evicted);
    KeepAndGone(s.rows, ids);
    var s1 := s.(rows := Keep(s.rows, ids), log := s.log + evicted);
    MovedRows(s, s1, Gone(s.rows, ids), initial);
    SavedRow(s1, Total(s.items), Row(s.nextId, f.batch, f.save.now), initial);
  }

  lemma OneSaved(r: Record)
    ensures RemovedIn([r]) == if r.RowDeleted? || r.RowEvicted? || r.RowExpired? then multiset{r.row} else multiset{}
    ensures SavedIn([r]) == if r.Saved? then multiset{r.row} else multiset{}
  {
    assert [r][..0] == [];
  }

  /** A record about counters only. */
  lemma CounterRecord(s: State, items: Stats, r: Record, initial: seq<Row>)
    requires RowsBalance(s, initial) && (r.StatsEvicted? || r.Acknowledged?)
    ensures RowsBalance(s.(items := items, log := s.log + [r]), initial)
  {
    hide RemovedIn, SavedIn;
    RemovedAppend(s.log, [r]);
    OneSaved(r);
    assert RemovedIn(s.log + [r]) == RemovedIn(s.log);
    assert SavedIn(s.log + [r]) == SavedIn(s.log);
  }

  lemma FlushBalances(cfg: Config, s: State, f: FlushOutcome, initial: seq<Row>)
    requires |f.replies| == |f.loaded| && RowsBalance(s, initial)
    ensures RowsBalance(FlushToAPI(cfg, s, f), initial)
  {
    hide RetryPending, SaveBatch, Total, RowsBalance;
    RetryBalances(s, f, initial);
    var s1 := if cfg.hasBuffer then RetryPending(s, f) else s;
    SaveBalances(s1, f, initial);
    CounterRecord(s1, map[], Acknowledged(Total(s1.items), f.batch, f.reply), initial);
  }

  lemma MaintainBalances(s: State, cutoff: Time, ok: bool, initial: seq<Row>)
    requires RowsBalance(s, initial)
    ensures RowsBalance(EvictExpired(s, cutoff, ok), initial)
  {
    hide RemovedIn, SavedIn, Old, KeepYoung, RowsBalance;
    var expired := Records(Old(s.rows, cutoff), (r: Row) => RowExpired(r));
    RemovedAppend(s.log, expired);
    RecordsRemove(Old(s.rows, cutoff), expired, Expired);
    YoungAndOld(s.rows, cutoff);
    MovedRows(s, s.(rows := KeepYoung(s.rows, cutoff), log := s.log + expired), Old(s.rows, cutoff), initial);
  }

  lemma ProcessBalances(s: State, e: Event, victim: Option<Ip>, initial: seq<Row>)
    requires RowsBalance(s, initial)
    ensures RowsBalance(ProcessEvent(s, e, victim), initial)
  {
    hide RemovedIn, SavedIn, Counted, MakeRoom;
    if victim.Some? && victim.value in s.items {
      CounterRecord(s, ProcessEvent(s, e, victim).items, StatsEvicted(s.items[victim.value].counts), initial);
    }
  }

  /** No row is lost or made up either: a saved batch stays in the buffer until it is
      deleted after a retry, evicted for room, or expired. */
  lemma {:induction false} RowsAreConserved(cfg: Config, states: seq<State>, steps: seq<Step>)
    requires Run(cfg, states, steps) && states[0].log == []
    ensures RowsBalance(states[|steps|], states[0].rows)
  {
    if steps != [] {
      hide RowsBalance, ProcessEvent, FlushToAPI, EvictExpired;
      var k := |steps| - 1;
      RunPrefix(cfg, states, steps);
      RowsAreConserved(cfg, states[..|steps|], steps[..k]);
      match steps[k] {
        case Process(e, victim) => ProcessBalances(states[k], e, victim, states[0].rows);
        case Flush(f) => FlushBalances(cfg, states[k], f, states[0].rows);
        case Maintain(cutoff, ok) => MaintainBalances(states[k], cutoff, ok, states[0].rows);
      }
    }
  }

  // ---------- the table ----------

  ghost predicate TableOf(s: State) {
    Table(s.rows, s.nextId)
  }

  lemma RetryKeepsTable(s: State, f: FlushOutcome)
    requires |f.replies| == |f.loaded| && TableOf(s)
    ensures TableOf(RetryPending(s, f)) && RetryPending(s, f).nextId == s.nextId
  {
    hide Table, AcceptedPrefix, Keep, Gone;
    SplitKeepsTable(s.rows, Ids(f.loaded), s.nextId);
  }

  lemma SaveKeepsTable(s: State, f: FlushOutcome)
    requires TableOf(s) && f.batch != []
    ensures TableOf(SaveBatch(s, f))
  {
    hide Total, Keep, Gone, EvictedIds;
    var ids := EvictedIds(s.rows, f.save);
    SplitKeepsTable(s.rows, ids, s.nextId);
    OneMoreRow(Keep(s.rows, ids), s.nextId, Row(s.nextId, f.batch, f.save.now), s.nextId + 1);
  }

  lemma StepKeepsTable(cfg: Config, s: State, step: Step)
    requires Possible(cfg, s, step) && TableOf(s)
    ensures TableOf(Next(cfg, s, step))
  {
    hide Table, RetryPending, SaveBatch, Total, KeepYoung, Old, SelectsOldest;
    match step {
      case Process(e, victim) =>
      case Flush(f) =>
        RetryKeepsTable(s, f);
        RetryConserves(s, f);
        var s1 := if cfg.hasBuffer then RetryPending(s, f) else s;
        if s.items != map[] { SaveKeepsTable(s1, f); }
      case Maintain(cutoff, ok) => YoungKeepsTable(s.rows, cutoff, s.nextId);
    }
  }

  lemma {:induction false} RunKeepsTable(cfg: Config, states: seq<State>, steps: seq<Step>, i: nat)
    requires Run(cfg, states, steps) && TableOf(states[0]) && i <= |steps|
    ensures TableOf(states[i])
  {
    if i > 0 {
      hide TableOf, Possible, Next;
      RunKeepsTable(cfg, states, steps, i - 1);
      StepKeepsTable(cfg, states[i - 1], steps[i - 1]);
    }
  }

  // ---------- why a row is deleted ----------

  /** Every acknowledgement was a successful reply that counts all events of the batch. */
  predicate InFull(r: Record) {
    match r
    case RetryAcknowledged(row, reply) => reply == Response(true, |row.batch|)
    case Acknowledged(_, batch, reply) => reply == Response(true, |batch|)
    case _ => true
  }

  /** The acknowledgement of all events of the row that is deleted at `j`. */
  function AckOf(log: seq<Record>, j: nat): Record
    requires j < |log| && log[j].RowDeleted?
  {
    RetryAcknowledged(log[j].row, Response(true, |log[j].row.batch|))
  }

  /** A deleted row was loaded and acknowledged before, and every acknowledgement is in full. */
  ghost predicate DeletionsAreAcknowledged(log: seq<Record>) {
    && (forall r | r in log :: InFull(r))
    && forall j | 0 <= j < |log| && log[j].RowDeleted? :: exists i :: 0 <= i < j && log[i] == AckOf(log, j)
  }

  lemma NotAmong(log: seq<Record>, more: seq<Record>, j: nat)
    requires j < |log + more| && (log + more)[j].RowDeleted? && forall r | r in more :: !r.RowDeleted?
    ensures j < |log|
  {
  }

  lemma AppendOther(log: seq<Record>, more: seq<Record>)
    requires DeletionsAreAcknowledged(log) && forall r | r in more :: !r.RowDeleted? && InFull(r)
    ensures DeletionsAreAcknowledged(log + more)
  {
    var all := log + more;
    forall j | 0 <= j < |all| && all[j].RowDeleted?
      ensures exists i :: 0 <= i < j && all[i] == AckOf(all, j)
    {
      assert j < |log| by { NotAmong(log, more, j); }
      var i :| 0 <= i < j && log[i] == AckOf(log, j);
      assert all[i] == log[i];
    }
  }

  /** Rows are deleted by id; distinct ids make them the loaded rows themselves. */
  lemma GoneAreLoaded(rows: seq<Row>, nextId: Id, loaded: seq<Row>, row: Row)
    requires Table(rows, nextId) && (forall r | r in loaded :: r in rows) && row in Gone(rows, Ids(loaded))
    ensures row in loaded
  {
    KeepMembers(rows, Ids(loaded));
    var r :| r in loaded && r.id == row.id;
    SameIdSameRow(rows, nextId, row, r);
  }

  lemma RetryDeletesAcknowledged(s: State, f: FlushOutcome)
    requires |f.replies| == |f.loaded| && TableOf(s) && (forall r | r in f.loaded :: r in s.rows)
    requires DeletionsAreAcknowledged(s.log)
    ensures DeletionsAreAcknowledged(RetryPending(s, f).log)
  {
    hide Table, AcceptedPrefix, Keep, Gone, Ids;
    var k := AcceptedPrefix(f.loaded, f.replies);
    var acked := Acks(f.loaded, f.replies, k);
    AppendOther(s.log, acked);
    if k == |f.loaded| && f.deleteOk {
      var gone := Gone(s.rows, Ids(f.loaded));
      var before, all := s.log + acked, RetryPending(s, f).log;
      forall j | 0 <= j < |all| && all[j].RowDeleted?
        ensures exists i :: 0 <= i < j && all[i] == AckOf(all, j)
      {
        if j < |before| {
          var i :| 0 <= i < j && before[i] == AckOf(before, j);
          assert all[i] == before[i];
        } else {
          GoneAreLoaded(s.rows, s.nextId, f.loaded, gone[j - |before|]);
          var m :| 0 <= m < |f.loaded| && f.loaded[m] == gone[j - |before|];
          assert all[|s.log| + m] == RetryAcknowledged(f.loaded[m], f.replies[m]);
        }
      }
    }
  }

  lemma FlushDeletesAcknowledged(cfg: Config, s: State, f: FlushOutcome)
    requires Possible(cfg, s, Flush(f)) && TableOf(s) && DeletionsAreAcknowledged(s.log)
    ensures DeletionsAreAcknowledged(FlushToAPI(cfg, s, f).log)
  {
    hide DeletionsAreAcknowledged, TableOf, RetryPending, Keep, Gone, Total, SelectsOldest, EvictedIds, IsBatchOf;
    RetryDeletesAcknowledged(s, f);
    var s1 := if cfg.hasBuffer then RetryPending(s, f) else s;
    if FullyAccepted(f.reply, |f.batch|) {
      AppendOther(s1.log, [Acknowledged(Total(s1.items), f.batch, f.reply)]);
    }
    var evicted := Records(Gone(s1.rows, EvictedIds(s1.rows, f.save)), (r: Row) => RowEvicted(r));
    AppendOther(s1.log, evicted);
    AppendOther(s1.log + evicted, [Saved(Total(s1.items), Row(s1.nextId, f.batch, f.save.now))]);
  }

  /** Along every run a row is only ever deleted after that very row was loaded, sent, and
      accepted in full by the backend. */
  lemma {:induction false} RowsAreDeletedAfterAcknowledgement(cfg: Config, states: seq<State>, steps: seq<Step>)
    requires Run(cfg, states, steps) && TableOf(states[0]) && states[0].log == []
    ensures DeletionsAreAcknowledged(states[|steps|].log)
  {
    if steps != [] {
      hide DeletionsAreAcknowledged, TableOf, FlushToAPI, Old, KeepYoung, Possible;
      var k := |steps| - 1;
      RunPrefix(cfg, states, steps);
      RowsAreDeletedAfterAcknowledgement(cfg, states[..|steps|], steps[..k]);
      RunKeepsTable(cfg, states, steps, k);
      var s := states[k];
      match steps[k] {
        case Process(e, victim) =>
          if victim.Some? && victim.value in s.items {
            AppendOther(s.log, [StatsEvicted(s.items[victim.value].counts)]);
          }
        case Flush(f) => FlushDeletesAcknowledged(cfg, s, f);
        case Maintain(cutoff, ok) =>
          AppendOther(s.log, Records(Old(s.rows, cutoff), (r: Row) => RowExpired(r)));
      }
    } else {
      NothingDeletedYet();
    }
  }

  lemma NothingDeletedYet()
    ensures DeletionsAreAcknowledged([])
  {
  }

  // ---------- why a row is evicted or expires ----------

  /** What a step wrote down. */
  function Added(before: seq<Record>, after: seq<Record>): seq<Record> {
    if |before| <= |after| then after[|before|..] else []
  }

  lemma AddedIs(before: seq<Record>, more: seq<Record>)
    ensures Added(before, before + more) == more
  {
  }

  lemma RetryEvictsNothing(s: State, f: FlushOutcome) returns (more: seq<Record>)
    requires |f.replies| == |f.loaded|
    ensures RetryPending(s, f).log == s.log + more
    ensures forall r | r in more :: !r.RowEvicted? && !r.RowExpired?
  {
    hide AcceptedPrefix, Keep, Gone;
    var k := AcceptedPrefix(f.loaded, f.replies);
    more := Acks(f.loaded, f.replies, k);
    if k == |f.loaded| && f.deleteOk {
      more := more + Records(Gone(s.rows, Ids(f.loaded)), (r: Row) => RowDeleted(r));
    }
  }

  /** The flush gets as far as saving its batch. */
  predicate Saves(cfg: Config, s: State, f: FlushOutcome) {
    cfg.hasBuffer && s.items != map[] && !FullyAccepted(f.reply, |f.batch|)
  }

  lemma EvictedRecords(gone: seq<Row>, last: seq<Record>, r: Row)
    requires forall x | x in last :: x.Saved?
    ensures RowEvicted(r) in Records(gone, (q: Row) => RowEvicted(q)) + last <==> r in gone
    ensures RowExpired(r) !in Records(gone, (q: Row) => RowEvicted(q)) + last
  {
    var evicted := Records(gone, (q: Row) => RowEvicted(q));
    if r in gone {
      var i :| 0 <= i < |gone| && gone[i] == r;
      assert (evicted + last)[i] == RowEvicted(r);
    }
  }

  lemma SaveAdds(s: State, f: FlushOutcome, r: Row)
    ensures RowEvicted(r) in Added(s.log, SaveBatch(s, f).log) <==> r in Gone(s.rows, EvictedIds(s.rows, f.save))
    ensures RowExpired(r) !in Added(s.log, SaveBatch(s, f).log)
  {
    hide Keep, Gone, Total, EvictedIds, Records, Added;
    var gone := Gone(s.rows, EvictedIds(s.rows, f.save));
    var evicted := Records(gone, (q: Row) => RowEvicted(q));
    var last := if f.save.insertOk then [Saved(Total(s.items), Row(s.nextId, f.batch, f.save.now))] else [];
    assert SaveBatch(s, f).log == s.log + (evicted + last);
    AddedIs(s.log, evicted + last);
    EvictedRecords(gone, last, r);
  }

  lemma AddedChain(a: seq<Record>, b: seq<Record>, c: seq<Record>, r: Record)
    requires a <= b <= c
    ensures r in Added(a, c) <==> r in Added(a, b) || r in Added(b, c)
  {
    assert c[|a|..] == b[|a|..] + c[|b|..];
  }

  /** In a whole flush evicted rows come from the save, and nothing expires. */
  lemma FlushEvicts(cfg: Config, s: State, f: FlushOutcome, r: Row)
    requires |f.replies| == |f.loaded|
    ensures RowExpired(r) !in Added(s.log, FlushToAPI(cfg, s, f).log)
    ensures var s1 := if cfg.hasBuffer then RetryPending(s, f) else s;
            RowEvicted(r) in Added(s.log, FlushToAPI(cfg, s, f).log)
            <==> Saves(cfg, s, f) && r in Gone(s1.rows, EvictedIds(s1.rows, f.save))
    ensures Saves(cfg, s, f) ==> FlushToAPI(cfg, s, f) == SaveBatch(RetryPending(s, f), f)
  {
    hide RetryPending, Keep, Gone, Total, EvictedIds, Added;
    var s1, t := if cfg.hasBuffer then RetryPending(s, f) else s, FlushToAPI(cfg, s, f);
    var more: seq<Record> := [];
    if cfg.hasBuffer { more := RetryEvictsNothing(s, f); }
    RetryConserves(s, f);
    assert s1.log == s.log + more;
    AddedIs(s.log, more);
    AddedChain(s.log, s1.log, t.log, RowEvicted(r));
    AddedChain(s.log, s1.log, t.log, RowExpired(r));
    if Saves(cfg, s, f) {
      SaveAdds(s1, f, r);
    } else {
      AddedIs(s1.log, []);
      assert s1.log + [] == s1.log;
      AddedIs(s1.log, [Acknowledged(Total(s1.items), f.batch, f.reply)]);
    }
  }

  lemma SaveTakesOldest(s: State, f: FlushOutcome, r: Row)
    requires TableOf(s) && SelectsOldest(s.rows, f.save) && r in Gone(s.rows, EvictedIds(s.rows, f.save))
    ensures r in s.rows && |s.rows| >= BUFFER_MAX_BATCHES
    ensures |SaveBatch(s, f).rows| == BUFFER_MAX_BATCHES - 1 + if f.save.insertOk then 1 else 0
    ensures forall q | q in s.rows && q in SaveBatch(s, f).rows :: r.created <= q.created
  {
    hide Total, Keep, Gone;
    var ids := EvictedIds(s.rows, f.save);
    KeepMembers(s.rows, ids);
    var n := |s.rows| - BUFFER_MAX_BATCHES + 1;
    assert OldestIds(s.rows, n, f.save.oldest(n));
    OldestAreGone(s.rows, s.nextId, n, ids);
  }

  /** Over every run a row is evicted only while a batch is saved to a full buffer, only as
      many rows as one more batch needs, and none that is younger than a row that stays. */
  lemma EvictionTakesOldest(cfg: Config, states: seq<State>, steps: seq<Step>, i: nat, r: Row)
    requires Run(cfg, states, steps) && TableOf(states[0]) && i < |steps|
    requires RowEvicted(r) in Added(states[i].log, states[i + 1].log)
    ensures steps[i].Flush? && |steps[i].f.replies| == |steps[i].f.loaded|
    ensures var rows := RowsAtSave(cfg, states[i], steps[i].f);
            && r in rows && |rows| >= 500
            && 499 <= |states[i + 1].rows| <= 500
            && forall q | q in rows && q in states[i + 1].rows :: r.created <= q.created
  {
    var s := states[i];
    RunKeepsTable(cfg, states, steps, i);
    match steps[i] {
      case Process(e, victim) => ProcessTouchesNoRow(s, e, victim, r);
      case Flush(f) =>
        hide Table, RetryPending, SaveBatch, EvictedIds, SelectsOldest, Keep, Gone, IsBatchOf, Added;
        FlushEvicts(cfg, s, f, r);
        RetryKeepsTable(s, f);
        SaveTakesOldest(if cfg.hasBuffer then RetryPending(s, f) else s, f, r);
      case Maintain(cutoff, ok) => MaintainExpiresOld(s, cutoff, ok, r);
    }
  }

  lemma ProcessTouchesNoRow(s: State, e: Event, victim: Option<Ip>, r: Row)
    ensures RowEvicted(r) !in Added(s.log, ProcessEvent(s, e, victim).log)
    ensures RowExpired(r) !in Added(s.log, ProcessEvent(s, e, victim).log)
  {
    hide Counted, MakeRoom;
  }

  lemma MaintainExpiresOld(s: State, cutoff: Time, ok: bool, r: Row)
    ensures var t := EvictExpired(s, cutoff, ok);
            && RowEvicted(r) !in Added(s.log, t.log)
            && (RowExpired(r) in Added(s.log, t.log) <==> ok && r in s.rows && r.created < cutoff)
            && (ok ==> forall q | q in t.rows :: q.created >= cutoff)
  {
    hide Old, KeepYoung;
    OldMembers(s.rows, cutoff);
    var old_ := Old(s.rows, cutoff);
    var expired := Records(old_, (q: Row) => RowExpired(q));
    AddedIs(s.log, expired);
    AddedIs(s.log, []);
    assert s.log + [] == s.log;
    if r in old_ {
      var i :| 0 <= i < |old_| && old_[i] == r;
      assert expired[i] == RowExpired(r);
    }
  }

  /** Over every run a row expires in a step exactly when that step is a working maintenance
      pass, the row is in the buffer, and it was created before the cutoff of the pass. */
  lemma ExpiryIsExact(cfg: Config, states: seq<State>, steps: seq<Step>, i: nat, r: Row)
    requires Run(cfg, states, steps) && i < |steps|
    ensures RowExpired(r) in Added(states[i].log, states[i + 1].log)
            <==> && cfg.hasBuffer && steps[i].Maintain? && steps[i].ok
                 && r in states[i].rows && r.created < steps[i].cutoff
  {
    var s := states[i];
    match steps[i] {
      case Process(e, victim) => ProcessTouchesNoRow(s, e, victim, r);
      case Flush(f) =>
        hide FlushToAPI, SelectsOldest, IsBatchOf;
        FlushEvicts(cfg, s, f, r);
      case Maintain(cutoff, ok) =>
        hide EvictExpired;
        MaintainExpiresOld(s, cutoff, ok, r);
    }
  }

  /** Counting the rows and evicting works in every save. */
  ghost predicate EvictionWorks(steps: seq<Step>) {
    forall i | 0 <= i < |steps| && steps[i].Flush? :: steps[i].f.save.countOk && steps[i].f.save.evictOk
  }

  lemma SaveStaysBounded(s: State, f: FlushOutcome)
    requires TableOf(s) && SelectsOldest(s.rows, f.save) && f.save.countOk && f.save.evictOk
    ensures |SaveBatch(s, f).rows| <= BUFFER_MAX_BATCHES
  {
    hide Total, Keep, Gone;
    if |s.rows| >= BUFFER_MAX_BATCHES {
      var n := |s.rows| - BUFFER_MAX_BATCHES + 1;
      assert OldestIds(s.rows, n, f.save.oldest(n));
      OldestAreGone(s.rows, s.nextId, n, EvictedIds(s.rows, f.save));
    } else {
      KeepAndGone(s.rows, EvictedIds(s.rows, f.save));
    }
  }

  lemma FlushStaysBounded(cfg: Config, s: State, f: FlushOutcome)
    requires Possible(cfg, s, Flush(f)) && f.save.countOk && f.save.evictOk
    requires TableOf(s) && |s.rows| <= BUFFER_MAX_BATCHES
    ensures |FlushToAPI(cfg, s, f).rows| <= BUFFER_MAX_BATCHES
  {
    hide Total, AcceptedPrefix, IsBatchOf, Keep, Gone, SaveBatch, TableOf, SelectsOldest;
    KeepAndGone(s.rows, Ids(f.loaded));
    RetryKeepsTable(s, f);
    SaveStaysBounded(if cfg.hasBuffer then RetryPending(s, f) else s, f);
  }

  /** With working eviction the buffer never holds more than its maximum of batches. */
  lemma {:induction false} BufferIsBounded(cfg: Config, states: seq<State>, steps: seq<Step>)
    requires Run(cfg, states, steps) && EvictionWorks(steps)
    requires TableOf(states[0]) && |states[0].rows| <= 500
    ensures |states[|steps|].rows| <= 500
  {
    if steps != [] {
      hide FlushToAPI, TableOf, Possible, KeepYoung, Old;
      var k := |steps| - 1;
      RunPrefix(cfg, states, steps);
      BufferIsBounded(cfg, states[..|steps|], steps[..k]);
      RunKeepsTable(cfg, states, steps, k);
      match steps[k] {
        case Process(e, victim) =>
        case Flush(f) => FlushStaysBounded(cfg, states[k], f);
        case Maintain(cutoff, ok) => YoungAndOld(states[k].rows, cutoff);
      }
    }
  }

  // ---------- how often a batch is acknowledged ----------

  /** The pass sent a batch with success and then stopped, or could not delete. */
  predicate Interrupted(f: FlushOutcome)
    requires |f.replies| == |f.loaded|
  {
    var k := AcceptedPrefix(f.loaded, f.replies);
    k > 0 && (k < |f.loaded| || !f.deleteOk)
  }

  /** A pass in which the row is sent and accepted. */
  ghost predicate Acknowledges(f: FlushOutcome, row: Row) {
    |f.replies| == |f.loaded| && row in f.loaded[..AcceptedPrefix(f.loaded, f.replies)]
  }

  lemma AcceptedRowStays(s: State, f: FlushOutcome, row: Row)
    requires Acknowledges(f, row) && row in s.rows
    ensures row in RetryPending(s, f).rows <==> Interrupted(f)
  {
    hide AcceptedPrefix, Keep, Gone;
    KeepMembers(s.rows, Ids(f.loaded));
  }

  lemma {:induction false} SomeBatch(items: Stats) returns (batch: Batch)
    ensures IsBatchOf(batch, items)
    decreases |items|
  {
    batch := [];
    if items != map[] {
      hide IsBatchOf;
      var ip :| ip in items;
      batch := SomeBatch(items - {ip});
      BatchOneMore(batch, items, ip);
      batch := batch + [ConnectionEvent(ip, items[ip].counts.Truncated())];
    }
  }

  lemma AloneAccepted(row: Row, reply: Reply)
    requires FullyAccepted(reply, |row.batch|)
    ensures AcceptedPrefix([row], [reply]) == 1
  {
  }

  lemma KeepsRowsUnlessSaving(cfg: Config, s: State, f: FlushOutcome)
    requires cfg.hasBuffer && |f.replies| == |f.loaded| && !Saves(cfg, s, f)
    ensures FlushToAPI(cfg, s, f).rows == RetryPending(s, f).rows
  {
    hide RetryPending, SaveBatch, Total;
    RetryConserves(s, f);
  }

  /** The flush saves its batch to a full buffer, and the row is among those selected for eviction. */
  predicate MakesRoomOf(cfg: Config, s: State, f: FlushOutcome, row: Row)
    requires |f.replies| == |f.loaded|
  {
    var rows := RowsAtSave(cfg, s, f);
    Saves(cfg, s, f) && MakesRoom(rows, f.save) && row.id in EvictedIds(rows, f.save)
  }

  /** After the retry pass a row only leaves the buffer by eviction. */
  lemma StaysUnlessEvicted(cfg: Config, s: State, f: FlushOutcome, row: Row)
    requires cfg.hasBuffer && |f.replies| == |f.loaded| && TableOf(s) && row in s.rows
    ensures var t := FlushToAPI(cfg, s, f);
            row in t.rows <==> row in RetryPending(s, f).rows && !MakesRoomOf(cfg, s, f, row)
  {
    hide Keep, Gone, Total, RetryPending, FlushToAPI, Added;
    var s1, t := RetryPending(s, f), FlushToAPI(cfg, s, f);
    FlushEvicts(cfg, s, f, row);
    if !Saves(cfg, s, f) { KeepsRowsUnlessSaving(cfg, s, f); }
    RetryKeepsTable(s, f);
    RetryConserves(s, f);
    KeepMembers(s1.rows, EvictedIds(s1.rows, f.save));
  }

  /** Exactly when a batch that the backend acknowledged is still in the buffer after the
      flush, some next flush gets it acknowledged again. That is so exactly when the pass was
      interrupted, unless the same flush evicts the row to save another batch. */
  lemma AcknowledgedAgainIff(cfg: Config, s: State, f: FlushOutcome, row: Row)
    requires cfg.hasBuffer && Possible(cfg, s, Flush(f)) && TableOf(s) && Acknowledges(f, row)
    ensures var t := FlushToAPI(cfg, s, f);
            && ((exists g :: Possible(cfg, t, Flush(g)) && Acknowledges(g, row)) <==> row in t.rows)
            && (row in t.rows <==> Interrupted(f) && !MakesRoomOf(cfg, s, f, row))
  {
    hide FlushToAPI, RetryPending, AcceptedPrefix, IsBatchOf, MakesRoomOf, SelectsOldest, Interrupted;
    var t := FlushToAPI(cfg, s, f);
    assert row in f.loaded;
    AcceptedRowStays(s, f, row);
    StaysUnlessEvicted(cfg, s, f, row);
    if row in t.rows {
      var g := AcknowledgeAlone(cfg, t, f, row);
    }
  }

  lemma AcknowledgeAlone(cfg: Config, t: State, f: FlushOutcome, row: Row) returns (g: FlushOutcome)
    requires Acknowledges(f, row) && row in t.rows
    ensures Possible(cfg, t, Flush(g)) && Acknowledges(g, row)
  {
    hide IsBatchOf, AcceptedPrefix;
    var i :| 0 <= i < AcceptedPrefix(f.loaded, f.replies) && f.loaded[i] == row;
    var batch := SomeBatch(t.items);
    var noSave := SaveOutcome(false, false, (n: nat) => {}, false, 0);
    g := FlushOutcome([row], [f.replies[i]], true, batch, NoClient, noSave);
    AloneAccepted(row, f.replies[i]);
    assert [row][..1] == [row];
    assert g.loaded == [row];
  }

  /** No row was acknowledged twice, and what was acknowledged is gone for good. */
  ghost predicate AcknowledgedOnce(s: State) {
    && (forall i, j | 0 <= i < j < |s.log| && s.log[i].RetryAcknowledged? && s.log[j].RetryAcknowledged? ::
          s.log[i].row.id != s.log[j].row.id)
    && (forall i | 0 <= i < |s.log| && s.log[i].RetryAcknowledged? ::
          s.log[i].row.id < s.nextId && s.log[i].row.id !in Ids(s.rows))
  }

  lemma QuietStep(s: State, t: State, more: seq<Record>)
    requires AcknowledgedOnce(s) && t.log == s.log + more && forall r | r in more :: !r.RetryAcknowledged?
    requires s.nextId <= t.nextId && forall r | r in t.rows :: r in s.rows || r.id >= s.nextId
    ensures AcknowledgedOnce(t)
  {
    forall i | 0 <= i < |t.log| && t.log[i].RetryAcknowledged?
      ensures i < |s.log| && t.log[i] == s.log[i]
    {
      BeforeQuiet(s.log, more, i);
    }
  }

  lemma BeforeQuiet(log: seq<Record>, more: seq<Record>, i: nat)
    requires i < |log + more| && (log + more)[i].RetryAcknowledged? && forall r | r in more :: !r.RetryAcknowledged?
    ensures i < |log|
  {
  }

  lemma CleanPassAcknowledgesOnce(s: State, f: FlushOutcome)
    requires AcknowledgedOnce(s) && TableOf(s) && |f.replies| == |f.loaded| && !Interrupted(f)
    requires (forall r | r in f.loaded :: r in s.rows)
    requires forall i, j | 0 <= i < j < |f.loaded| :: f.loaded[i].id != f.loaded[j].id
    ensures AcknowledgedOnce(RetryPending(s, f))
  {
    hide Keep, Gone, AcceptedPrefix;
    var k := AcceptedPrefix(f.loaded, f.replies);
    var acked := Acks(f.loaded, f.replies, k);
    if k == 0 && (k < |f.loaded| || !f.deleteOk) {
      QuietStep(s, RetryPending(s, f), []);
    } else {
      KeepMembers(s.rows, Ids(f.loaded));
      var mid := State(s.items, Keep(s.rows, Ids(f.loaded)), s.nextId, s.log + acked);
      PassAcknowledges(s, f, mid);
      QuietStep(mid, RetryPending(s, f), Records(Gone(s.rows, Ids(f.loaded)), (r: Row) => RowDeleted(r)));
    }
  }

  lemma PassAcknowledges(s: State, f: FlushOutcome, mid: State)
    requires AcknowledgedOnce(s) && TableOf(s) && |f.replies| == |f.loaded|
    requires (forall r | r in f.loaded :: r in s.rows)
    requires forall i, j | 0 <= i < j < |f.loaded| :: f.loaded[i].id != f.loaded[j].id
    requires mid.log == s.log + Acks(f.loaded, f.replies, |f.loaded|) && mid.nextId == s.nextId
    requires forall r | r in mid.rows :: r in s.rows && r.id !in Ids(f.loaded)
    ensures AcknowledgedOnce(mid)
  {
    var n := |s.log|;
    forall i | n <= i < |mid.log|
      ensures mid.log[i] == RetryAcknowledged(f.loaded[i - n], f.replies[i - n])
      ensures f.loaded[i - n] in s.rows && f.loaded[i - n].id in Ids(s.rows) && f.loaded[i - n].id in Ids(f.loaded)
    {
      assert f.loaded[i - n] in f.loaded;
    }
    assert forall i | 0 <= i < n :: mid.log[i] == s.log[i];
  }

  lemma FlushAcknowledgesOnce(cfg: Config, s: State, f: FlushOutcome)
    requires AcknowledgedOnce(s) && TableOf(s) && Possible(cfg, s, Flush(f)) && (cfg.hasBuffer ==> !Interrupted(f))
    ensures AcknowledgedOnce(FlushToAPI(cfg, s, f))
  {
    hide Keep, Gone, RetryPending, IsBatchOf, SelectsOldest, Total, AcknowledgedOnce, EvictedIds, Interrupted;
    if cfg.hasBuffer { CleanPassAcknowledgesOnce(s, f); }
    var s1 := if cfg.hasBuffer then RetryPending(s, f) else s;
    var ids := EvictedIds(s1.rows, f.save);
    KeepMembers(s1.rows, ids);
    var evicted := Records(Gone(s1.rows, ids), (r: Row) => RowEvicted(r));
    QuietStep(s1, s1.(items := map[], log := s1.log + [Acknowledged(Total(s1.items), f.batch, f.reply)]),
              [Acknowledged(Total(s1.items), f.batch, f.reply)]);
    QuietStep(s1, s1.(rows := Keep(s1.rows, ids), log := s1.log + evicted), evicted);
    var row := Row(s1.nextId, f.batch, f.save.now);
    assert s1.log + evicted + [Saved(Total(s1.items), row)] == s1.log + (evicted + [Saved(Total(s1.items), row)]);
    QuietStep(s1, State(map[], Keep(s1.rows, ids) + [row], s1.nextId + 1,
                        s1.log + evicted + [Saved(Total(s1.items), row)]),
              evicted + [Saved(Total(s1.items), row)]);
  }

  /** Over every run without an interrupted pass no saved batch is acknowledged twice. */
  lemma {:induction false} AcknowledgedAtMostOnce(cfg: Config, states: seq<State>, steps: seq<Step>)
    requires Run(cfg, states, steps) && TableOf(states[0]) && states[0].log == []
    requires forall i | && 0 <= i < |steps| && cfg.hasBuffer && steps[i].Flush?
                        && |steps[i].f.replies| == |steps[i].f.loaded| ::
               !Interrupted(steps[i].f)
    ensures AcknowledgedOnce(states[|steps|])
  {
    if steps != [] {
      hide AcknowledgedOnce, TableOf, FlushToAPI, Old, KeepYoung, Possible, Interrupted, ProcessEvent;
      var k := |steps| - 1;
      RunPrefix(cfg, states, steps);
      AcknowledgedAtMostOnce(cfg, states[..|steps|], steps[..k]);
      RunKeepsTable(cfg, states, steps, k);
      var s := states[k];
      match steps[k] {
        case Process(e, victim) => ProcessAcknowledgesNothing(s, e, victim);
        case Flush(f) =>
          PossibleReplies(cfg, s, f);
          FlushAcknowledgesOnce(cfg, s, f);
        case Maintain(cutoff, ok) => MaintainAcknowledgesNothing(s, cutoff, ok);
      }
    } else {
      assert forall s: State | s.log == [] :: AcknowledgedOnce(s);
    }
  }

  lemma ProcessAcknowledgesNothing(s: State, e: Event, victim: Option<Ip>)
    requires AcknowledgedOnce(s)
    ensures AcknowledgedOnce(ProcessEvent(s, e, victim))
  {
    hide AcknowledgedOnce, Counted, MakeRoom;
    var t := ProcessEvent(s, e, victim);
    var evicted := victim.Some? && victim.value in s.items;
    QuietStep(s, t, if evicted then [StatsEvicted(s.items[victim.value].counts)] else []);
  }

  lemma MaintainAcknowledgesNothing(s: State, cutoff: Time, ok: bool)
    requires AcknowledgedOnce(s)
    ensures AcknowledgedOnce(EvictExpired(s, cutoff, ok))
  {
    hide AcknowledgedOnce, Old, KeepYoung;
    OldMembers(s.rows, cutoff);
    if ok {
      QuietStep(s, EvictExpired(s, cutoff, ok), Records(Old(s.rows, cutoff), (r: Row) => RowExpired(r)));
    }
  }

  lemma PossibleReplies(cfg: Config, s: State, f: FlushOutcome)
    requires Possible(cfg, s, Flush(f))
    ensures |f.replies| == |f.loaded|
  {
  }

  /** So a batch can be acknowledged more than once: one accepted before a failing one is
      kept, and the next pass sends it again. */
  lemma AcceptedTwice()
    ensures exists cfg: Config, states: seq<State>, steps: seq<Step>, row: Row, reply: Reply ::
              && Run(cfg, states, steps) && TableOf(states[0]) && states[0].log == []
              && states[|steps|].log == [RetryAcknowledged(row, reply), RetryAcknowledged(row, reply)]
  {
    var cfg := Config(10, true);
    var batch := [ConnectionEvent("203.0.113.9", Counts(1, 0, 0))];
    var a, b := Row(1, batch, 0), Row(2, batch, 0);
    var yes := Response(true, 1);
    var f := FlushOutcome([a, b], [yes, RpcError], true, [], NoClient,
                          SaveOutcome(true, true, (n: nat) => {}, true, 0));
    var s0 := State(map[], [a, b], 3, []);
    var ack := RetryAcknowledged(a, yes);
    var s1, s2 := s0.(log := [ack]), s0.(log := [ack, ack]);
    StopsAtSecond(s0, f);
    StopsAtSecond(s1, f);
    hide RetryPending;
    TwoSteps(cfg, s0, s1, s2, Flush(f));
    assert [s0, s1, s2][|[Flush(f), Flush(f)]|].log == [ack, ack];
  }

  lemma TwoSteps(cfg: Config, s0: State, s1: State, s2: State, step: Step)
    requires Possible(cfg, s0, step) && s1 == Next(cfg, s0, step)
    requires Possible(cfg, s1, step) && s2 == Next(cfg, s1, step)
    ensures Run(cfg, [s0, s1, s2], [step, step])
  {
    hide Possible, Next;
  }

  lemma StopsAtSecond(s: State, f: FlushOutcome)
    requires |f.loaded| == |f.replies| == 2
    requires FullyAccepted(f.replies[0], |f.loaded[0].batch|) && f.replies[1] == RpcError
    ensures RetryPending(s, f) == s.(log := s.log + [RetryAcknowledged(f.loaded[0], f.replies[0])])
  {
    assert AcceptedPrefix(f.loaded[1..], f.replies[1..]) == 0;
    assert AcceptedPrefix(f.loaded, f.replies) == 1;
    assert Acks(f.loaded, f.replies, 1) == [RetryAcknowledged(f.loaded[0], f.replies[0])];
  }
}
