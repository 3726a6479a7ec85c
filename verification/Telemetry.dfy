/** The agent's telemetry pipeline: events are counted in memory, a flush turns the counters
    into a batch, and the batch is acknowledged by the backend or saved in a bounded buffer
    that later flushes retry.

    What the environment decides is part of a step: the order in which a map is walked, the
    replies of the backend and the outcomes of the database calls. */
module Telemetry {
  import opened Options
  import opened Words

  type Ip = string
  type Time = int
  type Id = nat

  const BUFFER_MAX_BATCHES: nat := 500

  // ---------- counters ----------

  datatype Counts = Counts(syn: nat, ack: nat, failed: nat) {
    function Add(c: Counts): Counts {
      Counts(syn + c.syn, ack + c.ack, failed + c.failed)
    }

    /** The 32-bit fields of the wire format. */
    function Truncated(): Counts {
      Counts(syn % U32, ack % U32, failed % U32)
    }

    predicate Fits() {
      syn < U32 && ack < U32 && failed < U32
    }

    /** Equal up to multiples of 2^32 in each component. */
    predicate Congruent(c: Counts) {
      (syn - c.syn) % U32 == 0 && (ack - c.ack) % U32 == 0 && (failed - c.failed) % U32 == 0
    }
  }

  const NOTHING := Counts(0, 0, 0)

  datatype IpStats = IpStats(counts: Counts, firstSeen: Time)

  type Stats = map<Ip, IpStats>

  ghost function Total(items: Stats): (c: Counts) {
    if items == map[] then NOTHING
    else
      var ip :| ip in items;
      items[ip].counts.Add(Total(items - {ip}))
  }

  lemma {:induction false} TotalWithout(items: Stats, ip: Ip)
    requires ip in items
    ensures Total(items) == items[ip].counts.Add(Total(items - {ip}))
    decreases |items|
  {
    var other :| other in items && Total(items) == items[other].counts.Add(Total(items - {other}));
    if other != ip {
      var both := items - {ip, other};
      assert items - {other} - {ip} == both && items - {ip} - {other} == both;
      TotalWithout(items - {other}, ip);
      TotalWithout(items - {ip}, other);
      assert Total(items - {other}) == items[ip].counts.Add(Total(both));
      assert Total(items - {ip}) == items[other].counts.Add(Total(both));
      AddSwap(items[other].counts, items[ip].counts, Total(both));
    }
  }

  lemma AddSwap(a: Counts, b: Counts, c: Counts)
    ensures a.Add(b.Add(c)) == b.Add(a.Add(c))
  {
  }

  lemma AddIsMonoid(a: Counts, b: Counts, c: Counts)
    ensures a.Add(b.Add(c)) == a.Add(b).Add(c)
    ensures a.Add(b) == b.Add(a)
    ensures a.Add(NOTHING) == a
  {
  }

  lemma TotalUpdate(items: Stats, ip: Ip, st: IpStats)
    ensures Total(items[ip := st]) == st.counts.Add(Total(items - {ip}))
  {
    TotalWithout(items[ip := st], ip);
    assert items[ip := st] - {ip} == items - {ip};
  }

  // ---------- events ----------

  /** `time` is when the kernel saw it, `now` the clock that picks a victim. */
  datatype Event = Event(ip: Ip, flags: bv8, time: Time, now: Time)

  function CountsOf(flags: bv8): Counts {
    Counts(if flags & 0x01 != 0 then 1 else 0, if flags & 0x02 != 0 then 1 else 0, if flags & 0x08 != 0 then 1 else 0)
  }

  /** The entry to evict: an oldest one among those first seen before now, if there is one. */
  ghost predicate IsOldest(items: Stats, now: Time, victim: Option<Ip>) {
    match victim
    case None => forall ip | ip in items :: items[ip].firstSeen >= now
    case Some(v) =>
      && v in items && items[v].firstSeen < now
      && forall ip | ip in items :: items[v].firstSeen <= items[ip].firstSeen
  }

  ghost predicate VictimChoice(items: Stats, maxItems: int, e: Event, victim: Option<Ip>) {
    if e.ip in items || |items| < maxItems then victim == None else IsOldest(items, e.now, victim)
  }

  function MakeRoom(items: Stats, victim: Option<Ip>): Stats {
    if victim.Some? then items - {victim.value} else items
  }

  function Counted(items: Stats, e: Event): Stats {
    var st := if e.ip in items then items[e.ip] else IpStats(NOTHING, e.time);
    items[e.ip := st.(counts := st.counts.Add(CountsOf(e.flags)))]
  }

  // ---------- batches ----------

  datatype ConnectionEvent = ConnectionEvent(ip: Ip, counts: Counts)
  type Batch = seq<ConnectionEvent>

  /** One event per entry, in some order. */
  ghost predicate IsBatchOf(batch: Batch, items: Stats) {
    && (forall i, j | 0 <= i < j < |batch| :: batch[i].ip != batch[j].ip)
    && (forall i | 0 <= i < |batch| :: batch[i].ip in items && batch[i].counts == items[batch[i].ip].counts.Truncated())
    && (forall ip | ip in items :: exists i :: 0 <= i < |batch| && batch[i].ip == ip)
  }

  function BatchTotal(batch: Batch): Counts {
    if batch == [] then NOTHING
    else BatchTotal(batch[..|batch| - 1]).Add(batch[|batch| - 1].counts)
  }

  lemma CongruentAdd(a: Counts, b: Counts, c: Counts)
    requires a.Congruent(b)
    ensures c.Truncated().Add(a).Congruent(c.Add(b))
  {
    TruncatedPart(c.syn, a.syn, b.syn);
    TruncatedPart(c.ack, a.ack, b.ack);
    TruncatedPart(c.failed, a.failed, b.failed);
  }

  lemma TruncatedPart(c: nat, a: nat, b: nat)
    requires (a - b) % U32 == 0
    ensures (c % U32 + a - (c + b)) % U32 == 0
  {
    var q, r := c / U32, (a - b) / U32;
    assert c % U32 + a - (c + b) == U32 * (r - q);
    MultipleHasNoRest(r - q);
  }

  lemma MultipleHasNoRest(k: int)
    ensures (U32 * k) % U32 == 0
  {
  }

  lemma RestIsBatch(batch: Batch, items: Stats)
    requires IsBatchOf(batch, items) && batch != []
    ensures var last := batch[|batch| - 1];
            && last.ip in items && last.counts == items[last.ip].counts.Truncated()
            && IsBatchOf(batch[..|batch| - 1], items - {last.ip})
  {
    var k := |batch| - 1;
    var front, rest := batch[..k], items - {batch[k].ip};
    assert forall i | 0 <= i < k :: front[i] == batch[i];
    forall x | x in rest ensures exists i :: 0 <= i < k && front[i].ip == x {
      var i :| 0 <= i < |batch| && batch[i].ip == x;
      assert front[i].ip == x;
    }
  }

  lemma BatchOneMore(front: Batch, items: Stats, ip: Ip)
    requires ip in items && IsBatchOf(front, items - {ip})
    ensures IsBatchOf(front + [ConnectionEvent(ip, items[ip].counts.Truncated())], items)
  {
    hide Counts.Truncated;
    var batch := front + [ConnectionEvent(ip, items[ip].counts.Truncated())];
    forall x | x in items ensures exists i :: 0 <= i < |batch| && batch[i].ip == x {
      if x == ip {
        assert batch[|front|].ip == x;
      } else {
        assert x in items - {ip};
        var i :| 0 <= i < |front| && front[i].ip == x;
        assert batch[i].ip == x;
      }
    }
  }

  lemma TruncatedFits(c: Counts)
    ensures c.Fits() ==> c.Truncated() == c
  {
  }

  /** A batch carries exactly the counters in memory, unless one of them has outgrown the
      32-bit field; then it carries them up to multiples of 2^32. */
  lemma {:induction false} BatchCarriesTotal(batch: Batch, items: Stats)
    requires IsBatchOf(batch, items)
    ensures BatchTotal(batch).Congruent(Total(items))
    ensures (forall ip | ip in items :: items[ip].counts.Fits()) ==> BatchTotal(batch) == Total(items)
  {
    if batch == [] {
      assert items == map[];
    } else {
      hide IsBatchOf, Counts.Truncated, Counts.Congruent, Counts.Fits, Total;
      var front, last := batch[..|batch| - 1], batch[|batch| - 1];
      RestIsBatch(batch, items);
      BatchCarriesTotal(front, items - {last.ip});
      TotalWithout(items, last.ip);
      TruncatedFits(items[last.ip].counts);
      CongruentAdd(BatchTotal(front), Total(items - {last.ip}), items[last.ip].counts);
      AddCommutes(BatchTotal(front), last.counts);
      if forall ip | ip in items :: items[ip].counts.Fits() {
        assert forall ip | ip in items - {last.ip} :: (items - {last.ip})[ip].counts == items[ip].counts;
      }
    }
  }

  lemma AddCommutes(a: Counts, b: Counts)
    ensures a.Add(b) == b.Add(a)
  {
  }

  // ---------- the buffer ----------

  datatype Row = Row(id: Id, batch: Batch, created: Time)

  function Keep(rows: seq<Row>, ids: set<Id>): (r: seq<Row>) {
    if rows == [] then []
    else
      var row := rows[|rows| - 1];
      Keep(rows[..|rows| - 1], ids) + if row.id in ids then [] else [row]
  }

  function Gone(rows: seq<Row>, ids: set<Id>): (r: seq<Row>) {
    if rows == [] then []
    else
      var row := rows[|rows| - 1];
      Gone(rows[..|rows| - 1], ids) + if row.id in ids then [row] else []
  }

  lemma {:induction false} KeepAndGone(rows: seq<Row>, ids: set<Id>)
    ensures multiset(Keep(rows, ids)) + multiset(Gone(rows, ids)) == multiset(rows)
    ensures |Keep(rows, ids)| + |Gone(rows, ids)| == |rows|
  {
    if rows != [] {
      var front, row := rows[..|rows| - 1], rows[|rows| - 1];
      KeepAndGone(front, ids);
      assert rows == front + [row];
      var kept, gone := Keep(front, ids), Gone(front, ids);
      assert Keep(rows, ids) == kept + if row.id in ids then [] else [row];
      assert Gone(rows, ids) == gone + if row.id in ids then [row] else [];
      AddToOne(kept, gone, front, row);
    }
  }

  lemma AddToOne(a: seq<Row>, b: seq<Row>, all: seq<Row>, row: Row)
    requires multiset(a) + multiset(b) == multiset(all)
    ensures multiset(a + [row]) + multiset(b + []) == multiset(all + [row])
    ensures multiset(a + []) + multiset(b + [row]) == multiset(all + [row])
  {
    assert a + [] == a && b + [] == b;
  }

  lemma {:induction false} KeepMembers(rows: seq<Row>, ids: set<Id>)
    ensures forall r :: r in Keep(rows, ids) <==> r in rows && r.id !in ids
    ensures forall r :: r in Gone(rows, ids) <==> r in rows && r.id in ids
  {
    if rows != [] {
      KeepMembers(rows[..|rows| - 1], ids);
      assert rows == rows[..|rows| - 1] + [rows[|rows| - 1]];
    }
  }

  function Ids(rows: seq<Row>): set<Id> {
    set r | r in rows :: r.id
  }

  /** What the table keeps: ids are distinct and never given out twice, no batch is empty. */
  ghost predicate Table(rows: seq<Row>, nextId: Id) {
    && (forall i, j | 0 <= i < j < |rows| :: rows[i].id != rows[j].id)
    && (forall i | 0 <= i < |rows| :: rows[i].id < nextId && rows[i].batch != [])
  }

  lemma SameIdSameRow(rows: seq<Row>, nextId: Id, a: Row, b: Row)
    requires Table(rows, nextId) && a in rows && b in rows && a.id == b.id
    ensures a == b
  {
  }

  lemma OneMoreRow(rows: seq<Row>, nextId: Id, row: Row, next: Id)
    requires Table(rows, nextId) && nextId <= next && row.id < next && row.batch != [] && row.id !in Ids(rows)
    ensures Table(rows + [row], next)
  {
  }

  lemma {:induction false} SplitKeepsTable(rows: seq<Row>, ids: set<Id>, nextId: Id)
    requires Table(rows, nextId)
    ensures Table(Keep(rows, ids), nextId) && Table(Gone(rows, ids), nextId)
  {
    if rows != [] {
      var front, row := rows[..|rows| - 1], rows[|rows| - 1];
      SplitKeepsTable(front, ids, nextId);
      KeepMembers(front, ids);
      OneMoreRow(if row.id in ids then Gone(front, ids) else Keep(front, ids), nextId, row, nextId);
    }
  }

  lemma {:induction false} DistinctIds(rows: seq<Row>, nextId: Id)
    requires Table(rows, nextId)
    ensures |Ids(rows)| == |rows|
  {
    if rows != [] {
      var front, row := rows[..|rows| - 1], rows[|rows| - 1];
      DistinctIds(front, nextId);
      LastIdIsNew(rows, nextId);
    }
  }

  lemma LastIdIsNew(rows: seq<Row>, nextId: Id)
    requires Table(rows, nextId) && rows != []
    ensures var front, row := rows[..|rows| - 1], rows[|rows| - 1];
            Ids(rows) == Ids(front) + {row.id} && row.id !in Ids(front)
  {
    var front, row := rows[..|rows| - 1], rows[|rows| - 1];
    assert rows == front + [row];
    forall r | r in front ensures r.id != row.id {
      var i :| 0 <= i < |front| && front[i] == r;
      assert rows[i] == r;
    }
  }

  /** The statement that selects the ids of the `n` oldest rows: when several rows are of
      the same age, any choice of them. */
  ghost predicate OldestIds(rows: seq<Row>, n: nat, ids: set<Id>) {
    && ids <= Ids(rows)
    && |ids| == (if n <= |rows| then n else |rows|)
    && forall r, q | r in rows && q in rows && r.id in ids && q.id !in ids :: r.created <= q.created
  }

  lemma OldestAreGone(rows: seq<Row>, nextId: Id, n: nat, ids: set<Id>)
    requires Table(rows, nextId) && OldestIds(rows, n, ids)
    ensures |Gone(rows, ids)| == |ids|
    ensures |Keep(rows, ids)| == |rows| - |ids|
  {
    KeepMembers(rows, ids);
    SplitKeepsTable(rows, ids, nextId);
    DistinctIds(Gone(rows, ids), nextId);
    assert Ids(Gone(rows, ids)) == ids;
    KeepAndGone(rows, ids);
  }

  /** Outcomes of the database calls of one save. `oldest` answers the selection of the
      oldest ids, whatever the number asked for. */
  datatype SaveOutcome = SaveOutcome(countOk: bool, evictOk: bool, oldest: nat -> set<Id>, insertOk: bool, now: Time)

  predicate MakesRoom(rows: seq<Row>, out: SaveOutcome) {
    out.countOk && |rows| >= BUFFER_MAX_BATCHES && out.evictOk
  }

  /** The database answers the selection as it should. */
  ghost predicate SelectsOldest(rows: seq<Row>, out: SaveOutcome) {
    MakesRoom(rows, out) ==> forall n: nat :: OldestIds(rows, n, out.oldest(n))
  }

  function EvictedIds(rows: seq<Row>, out: SaveOutcome): set<Id> {
    if MakesRoom(rows, out) then out.oldest(|rows| - BUFFER_MAX_BATCHES + 1) else {}
  }

  // ---------- the pipeline ----------

  /** `counts` is what left memory. */
  datatype Record =
    | StatsEvicted(counts: Counts)
    | Acknowledged(counts: Counts, batch: Batch, reply: Reply)
    | Saved(counts: Counts, row: Row)
    | RetryAcknowledged(row: Row, reply: Reply)
    | RowDeleted(row: Row)
    | RowEvicted(row: Row)
    | RowExpired(row: Row)

  datatype State = State(items: Stats, rows: seq<Row>, nextId: Id, log: seq<Record>)

  datatype Reply = NoClient | RpcError | Response(success: bool, processed: nat)

  predicate FullyAccepted(reply: Reply, submitted: nat) {
    reply.Response? && reply.success && reply.processed == submitted
  }

  datatype FlushOutcome = FlushOutcome(loaded: seq<Row>, replies: seq<Reply>, deleteOk: bool,
                                       batch: Batch, reply: Reply, save: SaveOutcome)

  datatype Step =
    | Process(e: Event, victim: Option<Ip>)
    | Flush(f: FlushOutcome)
    | Maintain(cutoff: Time, ok: bool)

  /** `capacity` of the statistics, and whether the buffer could be opened. */
  datatype Config = Config(maxItems: int, hasBuffer: bool)

  function Records(rows: seq<Row>, make: Row -> Record): seq<Record> {
    seq(|rows|, i requires 0 <= i < |rows| => make(rows[i]))
  }

  function ProcessEvent(s: State, e: Event, victim: Option<Ip>): State {
    s.(items := Counted(MakeRoom(s.items, victim), e),
       log := if victim.Some? && victim.value in s.items then s.log + [StatsEvicted(s.items[victim.value].counts)]
             else s.log)
  }

  /** How many of the loaded batches are accepted before the first failure. */
  function AcceptedPrefix(loaded: seq<Row>, replies: seq<Reply>): (k: nat)
    requires |replies| == |loaded|
    ensures k <= |loaded|
    ensures forall i | 0 <= i < k :: replies[i] == Response(true, |loaded[i].batch|)
    ensures k < |loaded| ==> replies[k] != Response(true, |loaded[k].batch|)
  {
    if loaded == [] then 0
    else if !FullyAccepted(replies[0], |loaded[0].batch|) then 0
    else 1 + AcceptedPrefix(loaded[1..], replies[1..])
  }

  /** The first `k` loaded rows with the replies to them. */
  function Acks(loaded: seq<Row>, replies: seq<Reply>, k: nat): (r: seq<Record>)
    requires k <= |loaded| == |replies|
  {
    seq(k, i requires 0 <= i < k => RetryAcknowledged(loaded[i], replies[i]))
  }

  /** Only a pass in which every batch is accepted deletes anything. */
  function RetryPending(s: State, f: FlushOutcome): State
    requires |f.replies| == |f.loaded|
  {
    var k := AcceptedPrefix(f.loaded, f.replies);
    var acked := Acks(f.loaded, f.replies, k);
    if k < |f.loaded| || !f.deleteOk then s.(log := s.log + acked)
    else
      s.(rows := Keep(s.rows, Ids(f.loaded)),
         log := s.log + acked + Records(Gone(s.rows, Ids(f.loaded)), (r: Row) => RowDeleted(r)))
  }

  /** Evicts, then inserts; the eviction stands even when the insert fails. */
  ghost function SaveBatch(s: State, f: FlushOutcome): State {
    var ids := EvictedIds(s.rows, f.save);
    var s1 := s.(rows := Keep(s.rows, ids), log := s.log + Records(Gone(s.rows, ids), (r: Row) => RowEvicted(r)));
    if !f.save.insertOk then s1
    else
      var row := Row(s.nextId, f.batch, f.save.now);
      State(map[], s1.rows + [row], s.nextId + 1, s1.log + [Saved(Total(s.items), row)])
  }

  ghost function FlushToAPI(cfg: Config, s: State, f: FlushOutcome): State
    requires |f.replies| == |f.loaded|
  {
    var s1 := if cfg.hasBuffer then RetryPending(s, f) else s;
    if s1.items == map[] then s1
    else if FullyAccepted(f.reply, |f.batch|) then
      s1.(items := map[], log := s1.log + [Acknowledged(Total(s1.items), f.batch, f.reply)])
    else if cfg.hasBuffer then SaveBatch(s1, f)
    else s1
  }

  function EvictExpired(s: State, cutoff: Time, ok: bool): State {
    if !ok then s
    else s.(rows := KeepYoung(s.rows, cutoff), log := s.log + Records(Old(s.rows, cutoff), (r: Row) => RowExpired(r)))
  }

  function KeepYoung(rows: seq<Row>, cutoff: Time): seq<Row> {
    if rows == [] then []
    else
      var row := rows[|rows| - 1];
      KeepYoung(rows[..|rows| - 1], cutoff) + if row.created < cutoff then [] else [row]
  }

  function Old(rows: seq<Row>, cutoff: Time): seq<Row> {
    if rows == [] then []
    else
      var row := rows[|rows| - 1];
      Old(rows[..|rows| - 1], cutoff) + if row.created < cutoff then [row] else []
  }

  lemma {:induction false} YoungAndOld(rows: seq<Row>, cutoff: Time)
    ensures multiset(KeepYoung(rows, cutoff)) + multiset(Old(rows, cutoff)) == multiset(rows)
    ensures |KeepYoung(rows, cutoff)| <= |rows|
  {
    if rows != [] {
      var front, row := rows[..|rows| - 1], rows[|rows| - 1];
      YoungAndOld(front, cutoff);
      assert rows == front + [row];
      YoungAndOldStep(rows, cutoff);
      hide KeepYoung, Old;
      AddToOne(KeepYoung(front, cutoff), Old(front, cutoff), front, row);
    }
  }

  lemma YoungAndOldStep(rows: seq<Row>, cutoff: Time)
    requires rows != []
    ensures var front, row := rows[..|rows| - 1], rows[|rows| - 1];
            && KeepYoung(rows, cutoff) == KeepYoung(front, cutoff) + (if row.created < cutoff then [] else [row])
            && Old(rows, cutoff) == Old(front, cutoff) + if row.created < cutoff then [row] else []
  {
  }

  lemma {:induction false} OldMembers(rows: seq<Row>, cutoff: Time)
    ensures forall r :: r in Old(rows, cutoff) <==> r in rows && r.created < cutoff
    ensures forall r :: r in KeepYoung(rows, cutoff) <==> r in rows && r.created >= cutoff
  {
    if rows != [] {
      OldMembers(rows[..|rows| - 1], cutoff);
      assert rows == rows[..|rows| - 1] + [rows[|rows| - 1]];
    }
  }

  lemma {:induction false} YoungKeepsTable(rows: seq<Row>, cutoff: Time, nextId: Id)
    requires Table(rows, nextId)
    ensures Table(KeepYoung(rows, cutoff), nextId)
  {
    if rows != [] {
      var front, row := rows[..|rows| - 1], rows[|rows| - 1];
      YoungKeepsTable(front, cutoff, nextId);
      OldMembers(front, cutoff);
      OneMoreRow(KeepYoung(front, cutoff), nextId, row, nextId);
    }
  }

  ghost function Next(cfg: Config, s: State, step: Step): State
    requires step.Flush? ==> |step.f.replies| == |step.f.loaded|
  {
    match step
    case Process(e, victim) => ProcessEvent(s, e, victim)
    case Flush(f) => FlushToAPI(cfg, s, f)
    case Maintain(cutoff, ok) => if cfg.hasBuffer then EvictExpired(s, cutoff, ok) else s
  }

  /** The rows that a save in this flush finds. */
  function RowsAtSave(cfg: Config, s: State, f: FlushOutcome): seq<Row>
    requires |f.replies| == |f.loaded|
  {
    (if cfg.hasBuffer then RetryPending(s, f) else s).rows
  }

  /** The choices of the environment that can occur in this state. */
  ghost predicate Possible(cfg: Config, s: State, step: Step) {
    match step
    case Process(e, victim) => VictimChoice(s.items, cfg.maxItems, e, victim)
    case Flush(f) =>
      && |f.replies| == |f.loaded|
      && (forall r | r in f.loaded :: r in s.rows)
      && (forall i, j | 0 <= i < j < |f.loaded| ::
            f.loaded[i].id != f.loaded[j].id && f.loaded[i].created <= f.loaded[j].created)
      && IsBatchOf(f.batch, s.items)
      && SelectsOldest(RowsAtSave(cfg, s, f), f.save)
    case Maintain(_, _) => true
  }
}
