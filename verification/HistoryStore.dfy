/** Per-IP metric buckets: an upsert that folds every write of a bucket into one row, and a
    periodic delete of old buckets that the signals never notice. */
module HistoryStore {
  import opened Durations

  const CLEANUP_EVERY: nat := 120

  /** Nanoseconds. A configuration with a non-positive entry is replaced by the default. */
  datatype Config = Config(bucketSize: int, lookback: int, retention: int) {
    predicate Valid() { bucketSize > 0 && lookback > 0 && retention > 0 }
  }

  const DEFAULT_CONFIG := Config(MINUTE, 30 * MINUTE, 24 * 60 * MINUTE)

  function Configured(cfg: Config): (r: Config)
    ensures r.Valid()
    ensures cfg.bucketSize > 0 && cfg.lookback > 0 && cfg.retention > 0 ==> r == cfg
    ensures cfg.bucketSize <= 0 || cfg.lookback <= 0 || cfg.retention <= 0 ==>
              r == Config(60_000_000_000, 1_800_000_000_000, 86_400_000_000_000)
  {
    if cfg.bucketSize <= 0 || cfg.lookback <= 0 || cfg.retention <= 0 then DEFAULT_CONFIG else cfg
  }

  // ---------- times ----------

  /** Rounded down to a multiple. Times count from the instant that truncation starts at. */
  function Truncate(t: int, size: int): (r: int)
    requires size > 0
    ensures r <= t < r + size
  {
    t / size * size
  }

  function Unix(t: int): int { t / SECOND }

  function BucketOf(cfg: Config, now: int): int
    requires cfg.Valid()
  {
    Unix(Truncate(now, cfg.bucketSize))
  }

  function SinceOf(cfg: Config, now: int): int
    requires cfg.Valid()
  {
    Unix(Truncate(now - cfg.lookback, cfg.bucketSize))
  }

  function CutoffOf(cfg: Config, now: int): int {
    Unix(now - cfg.retention)
  }

  // ---------- rows ----------

  datatype Key = Key(ip: string, direction: nat, bucket: int)

  datatype Metrics = Metrics(syn: int, ack: int, failed: int, uniquePorts: int, maxHits: int,
                             bytesIn: int, bytesOut: int,
                             primaryPort: int, protocol: int, process: string, score: int, lastSeen: int)

  function Max(a: int, b: int): int { if a < b then b else a }

  function Upsert(row: Metrics, w: Metrics): Metrics {
    Metrics(row.syn + w.syn, row.ack + w.ack, row.failed + w.failed, Max(row.uniquePorts, w.uniquePorts),
            Max(row.maxHits, w.maxHits), row.bytesIn + w.bytesIn, row.bytesOut + w.bytesOut,
            if w.maxHits >= row.maxHits then w.primaryPort else row.primaryPort,
            if w.protocol != 0 then w.protocol else row.protocol,
            if w.process != "" then w.process else row.process,
            Max(row.score, w.score), Max(row.lastSeen, w.lastSeen))
  }

  type Table = map<Key, Metrics>

  function Insert(table: Table, k: Key, w: Metrics): Table {
    table[k := if k in table then Upsert(table[k], w) else w]
  }

  datatype Write = Write(key: Key, m: Metrics)

  /** The table that would hold every write if nothing were ever deleted. */
  function FullTable(log: seq<Write>): Table {
    if log == [] then map[]
    else Insert(FullTable(log[..|log| - 1]), log[|log| - 1].key, log[|log| - 1].m)
  }

  /** The writes to one bucket, in order. */
  function WritesTo(log: seq<Write>, k: Key): (ws: seq<Metrics>) {
    if log == [] then []
    else
      var w := log[|log| - 1];
      if w.key == k then WritesTo(log[..|log| - 1], k) + [w.m] else WritesTo(log[..|log| - 1], k)
  }

  function Sum(ws: seq<Metrics>, f: Metrics -> int): int {
    if ws == [] then 0 else Sum(ws[..|ws| - 1], f) + f(ws[|ws| - 1])
  }

  /** `m` is the largest value of `f`. */
  ghost predicate IsMax(ws: seq<Metrics>, f: Metrics -> int, m: int) {
    && (forall i | 0 <= i < |ws| :: f(ws[i]) <= m)
    && exists i :: 0 <= i < |ws| && f(ws[i]) == m
  }

  /** The last write that attains the maximum of port hits. */
  ghost predicate LastAttaining(ws: seq<Metrics>, i: int) {
    && 0 <= i < |ws|
    && (forall j | 0 <= j < |ws| :: ws[j].maxHits <= ws[i].maxHits)
    && (forall j | i < j < |ws| :: ws[j].maxHits < ws[i].maxHits)
  }

  /** The last write with a protocol, or the first write when none has one. */
  ghost predicate LastWithProtocol(ws: seq<Metrics>, i: int) {
    && 0 <= i < |ws| && (ws[i].protocol != 0 || i == 0)
    && (forall j | i < j < |ws| :: ws[j].protocol == 0)
  }

  ghost predicate LastWithProcess(ws: seq<Metrics>, i: int) {
    && 0 <= i < |ws| && (ws[i].process != "" || i == 0)
    && (forall j | i < j < |ws| :: ws[j].process == "")
  }

  /** What a row says about the writes folded into it. */
  ghost predicate Summarises(row: Metrics, ws: seq<Metrics>) {
    && row.syn == Sum(ws, (w: Metrics) => w.syn)
    && row.ack == Sum(ws, (w: Metrics) => w.ack)
    && row.failed == Sum(ws, (w: Metrics) => w.failed)
    && row.bytesIn == Sum(ws, (w: Metrics) => w.bytesIn)
    && row.bytesOut == Sum(ws, (w: Metrics) => w.bytesOut)
    && SummarisesMaxima(row, ws)
  }

  ghost predicate SummarisesMaxima(row: Metrics, ws: seq<Metrics>) {
    && IsMax(ws, (w: Metrics) => w.uniquePorts, row.uniquePorts)
    && IsMax(ws, (w: Metrics) => w.maxHits, row.maxHits)
    && IsMax(ws, (w: Metrics) => w.score, row.score)
    && IsMax(ws, (w: Metrics) => w.lastSeen, row.lastSeen)
    && (exists i :: LastAttaining(ws, i) && ws[i].primaryPort == row.primaryPort)
    && (exists i :: LastWithProtocol(ws, i) && ws[i].protocol == row.protocol)
    && (exists i :: LastWithProcess(ws, i) && ws[i].process == row.process)
  }

  lemma SumOneMore(ws: seq<Metrics>, w: Metrics, f: Metrics -> int)
    ensures Sum(ws + [w], f) == Sum(ws, f) + f(w)
  {
    assert (ws + [w])[..|ws|] == ws;
  }

  lemma MaxOneMore(ws: seq<Metrics>, w: Metrics, f: Metrics -> int, m: int)
    requires IsMax(ws, f, m)
    ensures IsMax(ws + [w], f, Max(m, f(w)))
  {
    var all := ws + [w];
    assert forall i | 0 <= i < |ws| :: all[i] == ws[i];
    assert all[|ws|] == w;
    var i :| 0 <= i < |ws| && f(ws[i]) == m;
    assert f(all[i]) == m;
  }

  lemma PortOneMore(row: Metrics, ws: seq<Metrics>, w: Metrics)
    requires SummarisesMaxima(row, ws)
    ensures exists i :: LastAttaining(ws + [w], i) && (ws + [w])[i].primaryPort == Upsert(row, w).primaryPort
  {
    var all := ws + [w];
    assert forall j | 0 <= j < |ws| :: all[j] == ws[j];
    assert all[|ws|] == w;
    var i :| LastAttaining(ws, i) && ws[i].primaryPort == row.primaryPort;
    AttainedIsMax(ws, i, row.maxHits);
    hide SummarisesMaxima;
    if w.maxHits >= row.maxHits {
      assert LastAttaining(all, |ws|);
    } else {
      assert LastAttaining(all, i);
    }
  }

  lemma AttainedIsMax(ws: seq<Metrics>, i: int, m: int)
    requires LastAttaining(ws, i) && IsMax(ws, (w: Metrics) => w.maxHits, m)
    ensures ws[i].maxHits == m
  {
    var f := (w: Metrics) => w.maxHits;
    var k :| 0 <= k < |ws| && f(ws[k]) == m;
    assert f(ws[i]) <= m && f(ws[k]) == ws[k].maxHits && f(ws[i]) == ws[i].maxHits;
  }

  lemma TextsOneMore(row: Metrics, ws: seq<Metrics>, w: Metrics)
    requires SummarisesMaxima(row, ws)
    ensures exists i :: LastWithProtocol(ws + [w], i) && (ws + [w])[i].protocol == Upsert(row, w).protocol
    ensures exists i :: LastWithProcess(ws + [w], i) && (ws + [w])[i].process == Upsert(row, w).process
  {
    var all := ws + [w];
    assert forall j | 0 <= j < |ws| :: all[j] == ws[j];
    assert all[|ws|] == w;
    var i :| LastWithProtocol(ws, i) && ws[i].protocol == row.protocol;
    assert if w.protocol != 0 then LastWithProtocol(all, |ws|) else LastWithProtocol(all, i);
    var j :| LastWithProcess(ws, j) && ws[j].process == row.process;
    assert if w.process != "" then LastWithProcess(all, |ws|) else LastWithProcess(all, j);
  }

  lemma MaximaOneMore(row: Metrics, ws: seq<Metrics>, w: Metrics)
    requires SummarisesMaxima(row, ws)
    ensures SummarisesMaxima(Upsert(row, w), ws + [w])
  {
    PortOneMore(row, ws, w);
    TextsOneMore(row, ws, w);
    hide IsMax, LastAttaining, LastWithProtocol, LastWithProcess;
    MaxOneMore(ws, w, (w: Metrics) => w.uniquePorts, row.uniquePorts);
    MaxOneMore(ws, w, (w: Metrics) => w.maxHits, row.maxHits);
    MaxOneMore(ws, w, (w: Metrics) => w.score, row.score);
    MaxOneMore(ws, w, (w: Metrics) => w.lastSeen, row.lastSeen);
  }

  lemma UpsertSummarises(row: Metrics, ws: seq<Metrics>, w: Metrics)
    requires Summarises(row, ws)
    ensures Summarises(Upsert(row, w), ws + [w])
  {
    hide SummarisesMaxima, Sum;
    MaximaOneMore(row, ws, w);
    SumOneMore(ws, w, (w: Metrics) => w.syn);
    SumOneMore(ws, w, (w: Metrics) => w.ack);
    SumOneMore(ws, w, (w: Metrics) => w.failed);
    SumOneMore(ws, w, (w: Metrics) => w.bytesIn);
    SumOneMore(ws, w, (w: Metrics) => w.bytesOut);
  }

  lemma FirstSummarises(w: Metrics)
    ensures Summarises(w, [w])
  {
    assert [w][..0] == [];
    assert forall f: Metrics -> int :: Sum([w], f) == f(w);
    assert [w][0] == w;
    assert LastAttaining([w], 0) && LastWithProtocol([w], 0) && LastWithProcess([w], 0);
  }

  /** Every row of the full table summarises exactly the writes to its bucket: sums, maxima,
      and the primary port of the last write that attains the maximum of hits. */
  lemma {:induction false} RowsSummariseWrites(log: seq<Write>, k: Key)
    ensures k in FullTable(log) <==> WritesTo(log, k) != []
    ensures k in FullTable(log) ==> Summarises(FullTable(log)[k], WritesTo(log, k))
  {
    hide Summarises, Upsert;
    if log != [] {
      var front, w := log[..|log| - 1], log[|log| - 1];
      RowsSummariseWrites(front, k);
      if w.key == k {
        if k in FullTable(front) {
          UpsertSummarises(FullTable(front)[k], WritesTo(front, k), w.m);
        } else {
          FirstSummarises(w.m);
          assert WritesTo(log, k) == [w.m];
        }
      }
    }
  }

  // ---------- the store ----------

  /** One persist: whether the statement and the periodic delete succeed. */
  datatype Persist = Persist(ip: string, direction: nat, m: Metrics, now: int, ok: bool, deleteOk: bool)

  datatype State = State(table: Table, writes: nat)

  function Young(table: Table, cutoff: int): Table {
    map k | k in table && k.bucket >= cutoff :: table[k]
  }

  function KeyOf(cfg: Config, p: Persist): Key
    requires cfg.Valid()
  {
    Key(p.ip, p.direction, BucketOf(cfg, p.now))
  }

  function Next(cfg: Config, s: State, p: Persist): State
    requires cfg.Valid()
  {
    if !p.ok then s
    else
      var table := Insert(s.table, KeyOf(cfg, p), p.m);
      var writes := s.writes + 1;
      State(if writes % CLEANUP_EVERY == 0 && p.deleteOk then Young(table, CutoffOf(cfg, p.now)) else table, writes)
  }

  /** The rows that signals at `now` are computed from. */
  function Selected(cfg: Config, table: Table, ip: string, direction: nat, now: int): Table
    requires cfg.Valid()
  {
    map k | && k in table && k.ip == ip && k.direction == direction
            && SinceOf(cfg, now) <= k.bucket < BucketOf(cfg, now) :: table[k]
  }

  datatype Signals = Signals(maxScore: int, maxPortHits: int, connections: int, buckets: nat)

  ghost function Connections(rows: Table): int {
    if rows == map[] then 0
    else
      var k :| k in rows;
      rows[k].syn + rows[k].ack + Connections(rows - {k})
  }

  lemma {:induction false} ConnectionsWithout(rows: Table, k: Key)
    requires k in rows
    ensures Connections(rows) == rows[k].syn + rows[k].ack + Connections(rows - {k})
    decreases |rows|
  {
    var other :| other in rows && Connections(rows) == rows[other].syn + rows[other].ack + Connections(rows - {other});
    if other != k {
      var both := rows - {k, other};
      assert rows - {other} - {k} == both && rows - {k} - {other} == both;
      ConnectionsWithout(rows - {other}, k);
      ConnectionsWithout(rows - {k}, other);
    }
  }

  /** The aggregates of the query, zero over no rows. */
  ghost predicate IsSignals(rows: Table, s: Signals) {
    && (forall k | k in rows :: rows[k].score <= s.maxScore && rows[k].maxHits <= s.maxPortHits)
    && (if rows == map[] then s.maxScore == 0 && s.maxPortHits == 0
        else && (exists k :: k in rows && rows[k].score == s.maxScore)
             && (exists k :: k in rows && rows[k].maxHits == s.maxPortHits))
    && s.connections == Connections(rows)
    && s.buckets == |rows|
  }

  ghost function Largest(rows: Table, f: Metrics -> int): (m: int)
    ensures rows != map[] ==> exists k :: k in rows && f(rows[k]) == m
    ensures forall k | k in rows :: f(rows[k]) <= m
  {
    if rows == map[] then 0
    else
      var k :| k in rows;
      var rest := rows - {k};
      var m := Largest(rest, f);
      assert forall j | j in rows :: j == k || j in rest;
      if rest == map[] || m < f(rows[k]) then f(rows[k]) else m
  }

  /** What the query returns. */
  ghost function LoadSignals(cfg: Config, table: Table, ip: string, direction: nat, now: int): (s: Signals)
    requires cfg.Valid()
    ensures IsSignals(Selected(cfg, table, ip, direction, now), s)
  {
    var rows := Selected(cfg, table, ip, direction, now);
    var score, hits := (m: Metrics) => m.score, (m: Metrics) => m.maxHits;
    if rows == map[] then Signals(0, 0, 0, 0)
    else
      assert forall k | k in rows :: score(rows[k]) == rows[k].score && hits(rows[k]) == rows[k].maxHits;
      Signals(Largest(rows, score), Largest(rows, hits), Connections(rows), |rows|)
  }

  class Store {
    const cfg: Config
    var table: Table
    var writes: nat

    function View(): State
      reads this
    {
      State(table, writes)
    }

    constructor (cfg: Config, table: Table)
      ensures this.cfg == Configured(cfg) && View() == State(table, 0)
    {
      this.cfg := Configured(cfg);
      this.table, writes := table, 0;
    }

    method PersistBucket(p: Persist) returns (ok: bool)
      requires cfg.Valid()
      modifies this
      ensures ok == p.ok
      ensures View() == Next(cfg, old(View()), p)
    {
      hide Upsert;
      if !p.ok {
        return false;
      }
      var k := Key(p.ip, p.direction, BucketOf(cfg, p.now));
      if k in table {
        table := table[k := Upsert(table[k], p.m)];
      } else {
        table := table[k := p.m];
      }
      writes := writes + 1;
      if writes % CLEANUP_EVERY == 0 {
        if p.deleteOk {
          table := Young(table, CutoffOf(cfg, p.now));
        }
      }
      return true;
    }
  }

  // ---------- retention ----------

  /** A delete stays below everything that signals at that or any later time read. */
  ghost predicate Safe(cfg: Config)
    requires cfg.Valid()
  {
    forall now: int, later: int | now <= later :: CutoffOf(cfg, now) <= SinceOf(cfg, later)
  }

  /** So it does with a retention of at least lookback plus one bucket. */
  lemma CutoffIsSafe(cfg: Config)
    requires cfg.Valid() && cfg.retention >= cfg.lookback + cfg.bucketSize
    ensures Safe(cfg)
  {
    forall now: int, later: int | now <= later ensures CutoffOf(cfg, now) <= SinceOf(cfg, later) {
      UnixMonotone(now - cfg.retention, Truncate(later - cfg.lookback, cfg.bucketSize));
    }
  }

  /** Signals never read above the bucket that is written. */
  lemma SinceIsBelowBucket(cfg: Config, now: int)
    requires cfg.Valid()
    ensures SinceOf(cfg, now) <= BucketOf(cfg, now)
  {
    TruncateMonotone(now - cfg.lookback, now, cfg.bucketSize);
    UnixMonotone(Truncate(now - cfg.lookback, cfg.bucketSize), Truncate(now, cfg.bucketSize));
  }

  lemma TruncateMonotone(a: int, b: int, size: int)
    requires size > 0 && a <= b
    ensures Truncate(a, size) <= Truncate(b, size)
  {
    var p, q := a / size, b / size;
    if p > q { ProductsOrdered(q + 1, p, size); } else { ProductsOrdered(p, q, size); }
  }

  lemma UnixMonotone(a: int, b: int)
    requires a <= b
    ensures Unix(a) <= Unix(b)
  {
  }

  function LogOf(cfg: Config, steps: seq<Persist>): seq<Write>
    requires cfg.Valid()
  {
    if steps == [] then []
    else
      var p := steps[|steps| - 1];
      LogOf(cfg, steps[..|steps| - 1]) + if p.ok then [Write(KeyOf(cfg, p), p.m)] else []
  }

  function After(cfg: Config, s: State, steps: seq<Persist>): State
    requires cfg.Valid()
  {
    if steps == [] then s else Next(cfg, After(cfg, s, steps[..|steps| - 1]), steps[|steps| - 1])
  }

  ghost predicate Ordered(steps: seq<Persist>) {
    forall i, j | 0 <= i <= j < |steps| :: steps[i].now <= steps[j].now
  }

  /** From `cutoff` on, both tables hold the same rows. */
  ghost predicate SameFrom(a: Table, b: Table, cutoff: int) {
    forall k: Key | k.bucket >= cutoff :: (k in a <==> k in b) && (k in a ==> a[k] == b[k])
  }

  lemma InsertKeepsSame(a: Table, b: Table, cutoff: int, k: Key, w: Metrics)
    requires SameFrom(a, b, cutoff) && k.bucket >= cutoff
    ensures SameFrom(Insert(a, k, w), Insert(b, k, w), cutoff)
  {
    hide Upsert;
  }

  lemma YoungIsSame(a: Table, b: Table, cutoff: int, higher: int)
    requires SameFrom(a, b, cutoff)
    ensures SameFrom(Young(a, higher), b, Max(cutoff, higher))
  {
  }

  /** Some cutoff that is not later than the one of `now` separates what may be missing. */
  ghost predicate Faithful(cfg: Config, table: Table, full: Table, now: int) {
    exists cutoff :: cutoff <= CutoffOf(cfg, now) && SameFrom(table, full, cutoff)
  }

  lemma PersistKeepsFaithful(cfg: Config, s: State, full: Table, before: int, p: Persist)
    requires cfg.Valid() && Safe(cfg)
    requires Faithful(cfg, s.table, full, before) && before <= p.now && p.ok
    ensures Faithful(cfg, Next(cfg, s, p).table, Insert(full, KeyOf(cfg, p), p.m), p.now)
  {
    hide SameFrom, BucketOf, SinceOf, Young, Insert;
    var cutoff :| cutoff <= CutoffOf(cfg, before) && SameFrom(s.table, full, cutoff);
    UnixMonotone(before - cfg.retention, p.now - cfg.retention);
    assert CutoffOf(cfg, before) <= SinceOf(cfg, p.now);
    SinceIsBelowBucket(cfg, p.now);
    InsertKeepsSame(s.table, full, cutoff, KeyOf(cfg, p), p.m);
    YoungIsSame(Insert(s.table, KeyOf(cfg, p), p.m), Insert(full, KeyOf(cfg, p), p.m), cutoff, CutoffOf(cfg, p.now));
  }

  /** A new table is faithful to an empty log at any time. Every run leaves a faithful table,
      so a restarted store continues with one. */
  lemma NewTableIsFaithful(cfg: Config, now: int)
    ensures Faithful(cfg, map[], FullTable([]), now)
  {
    assert SameFrom(map[], map[], CutoffOf(cfg, now));
  }

  /** The steps come in order, from `start` to `now`. */
  ghost predicate Between(start: int, steps: seq<Persist>, now: int) {
    && start <= now && Ordered(steps)
    && forall i | 0 <= i < |steps| :: start <= steps[i].now <= now
  }

  lemma BetweenFront(start: int, steps: seq<Persist>, now: int)
    requires Between(start, steps, now) && steps != []
    ensures Between(start, steps[..|steps| - 1], steps[|steps| - 1].now)
  {
    var k := |steps| - 1;
    forall i | 0 <= i < k ensures start <= steps[..k][i].now <= steps[k].now {
      assert steps[i].now <= steps[k].now;
    }
  }

  lemma {:induction false} RunIsFaithful(cfg: Config, s0: State, past: seq<Write>, start: int, steps: seq<Persist>,
                                         now: int)
    requires cfg.Valid() && Safe(cfg)
    requires Faithful(cfg, s0.table, FullTable(past), start) && Between(start, steps, now)
    ensures Faithful(cfg, After(cfg, s0, steps).table, FullTable(past + LogOf(cfg, steps)), now)
  {
    hide Faithful, Insert, KeyOf, Ordered, Safe;
    if steps == [] {
      assert past + [] == past;
      FaithfulLater(cfg, s0.table, FullTable(past), start, now);
    } else {
      var k := |steps| - 1;
      var front, p := steps[..k], steps[k];
      BetweenFront(start, steps, now);
      RunIsFaithful(cfg, s0, past, start, front, p.now);
      var s := After(cfg, s0, front);
      var log := past + LogOf(cfg, front);
      if p.ok {
        PersistKeepsFaithful(cfg, s, FullTable(log), p.now, p);
        var w := Write(KeyOf(cfg, p), p.m);
        assert past + (LogOf(cfg, front) + [w]) == log + [w];
        assert (log + [w])[..|log|] == log;
      } else {
        assert LogOf(cfg, front) + [] == LogOf(cfg, front);
      }
      FaithfulLater(cfg, After(cfg, s0, steps).table, FullTable(past + LogOf(cfg, steps)), p.now, now);
    }
  }

  lemma FaithfulLater(cfg: Config, table: Table, full: Table, now: int, later: int)
    requires Faithful(cfg, table, full, now) && now <= later
    ensures Faithful(cfg, table, full, later)
  {
    hide SameFrom;
    var cutoff :| cutoff <= CutoffOf(cfg, now) && SameFrom(table, full, cutoff);
    UnixMonotone(now - cfg.retention, later - cfg.retention);
  }

  /** Over every run of writes with periodic deletes, from any write count and from any table
      that misses only what an earlier process could have deleted of its own writes, the rows
      behind the signals at that or any later time are those of the table that never deletes. */
  lemma RetentionIsInvisible(cfg: Config, s0: State, past: seq<Write>, start: int, steps: seq<Persist>,
                             ip: string, direction: nat, now: int)
    requires cfg.Valid() && Safe(cfg)
    requires Faithful(cfg, s0.table, FullTable(past), start) && Between(start, steps, now)
    ensures Selected(cfg, After(cfg, s0, steps).table, ip, direction, now)
            == Selected(cfg, FullTable(past + LogOf(cfg, steps)), ip, direction, now)
  {
    hide After, FullTable, LogOf, BucketOf, SinceOf, Between;
    RunIsFaithful(cfg, s0, past, start, steps, now);
    var table, full := After(cfg, s0, steps).table, FullTable(past + LogOf(cfg, steps));
    var cutoff :| cutoff <= CutoffOf(cfg, now) && SameFrom(table, full, cutoff);
    assert CutoffOf(cfg, now) <= SinceOf(cfg, now);
  }

  /** For durations in whole seconds the exact bound is one second lower. */
  lemma SafeRetentionInSeconds(b: int, l: int, r: int)
    requires b > 0 && l > 0 && r > 0
    ensures var cfg := Config(b * SECOND, l * SECOND, r * SECOND);
            Safe(cfg) <==> r >= l + b - 1
  {
    var cfg := Config(b * SECOND, l * SECOND, r * SECOND);
    forall now: int, later: int | now <= later && r >= l + b - 1
      ensures CutoffOf(cfg, now) <= SinceOf(cfg, later)
    {
      SecondsOf(now, r);
      SecondsOf(later, l);
      TruncateInSeconds(later - l * SECOND, b);
      UnixMonotone(now, later);
    }
    if r < l + b - 1 {
      var now := (l + b - 1) * SECOND;
      SecondsOf(now, r);
      TruncateInSeconds(now - l * SECOND, b);
      assert Unix(now - l * SECOND) == b - 1 by { SecondsOf(now, l); }
      assert (b - 1) / b * b == 0;
      assert CutoffOf(cfg, now) > SinceOf(cfg, now);
    }
  }

  lemma SecondsOf(t: int, s: int)
    ensures Unix(t - s * SECOND) == Unix(t) - s
  {
  }

  lemma TruncateInSeconds(t: int, b: int)
    requires b > 0
    ensures Unix(Truncate(t, b * SECOND)) == Truncate(Unix(t), b)
  {
    var q := Unix(t) / b;
    assert q * b <= Unix(t) < q * b + b;
    MultiplyOut(q, b);
    assert t / (b * SECOND) == q by {
      QuotientIs(t, b * SECOND, q);
    }
    SecondsTimes(q * b);
  }

  lemma MultiplyOut(q: int, b: int)
    ensures q * (b * SECOND) == (q * b) * SECOND
  {
  }

  lemma SecondsTimes(x: int)
    ensures Unix(x * SECOND) == x
  {
  }

  lemma ProductsOrdered(a: int, b: int, d: int)
    requires d > 0 && a <= b
    ensures a * d <= b * d
  {
  }

  lemma QuotientIs(t: int, d: int, q: int)
    requires d > 0 && q * d <= t < q * d + d
    ensures t / d == q
  {
    var p := t / d;
    assert p * d <= t < p * d + d;
    if p < q {
      ProductsOrdered(p + 1, q, d);
    } else if p > q {
      ProductsOrdered(q + 1, p, d);
    }
  }

  // ---------- signals over the whole log ----------

  predicate InRange(cfg: Config, k: Key, ip: string, direction: nat, now: int)
    requires cfg.Valid()
  {
    k.ip == ip && k.direction == direction && SinceOf(cfg, now) <= k.bucket < BucketOf(cfg, now)
  }

  function ConnectionsIn(cfg: Config, log: seq<Write>, ip: string, direction: nat, now: int): int
    requires cfg.Valid()
  {
    if log == [] then 0
    else
      var w := log[|log| - 1];
      ConnectionsIn(cfg, log[..|log| - 1], ip, direction, now)
      + if InRange(cfg, w.key, ip, direction, now) then w.m.syn + w.m.ack else 0
  }

  /** The writes that count, as an unordered collection. */
  ghost predicate Among(cfg: Config, log: seq<Write>, ip: string, direction: nat, now: int, w: Write)
    requires cfg.Valid()
  {
    w in log && InRange(cfg, w.key, ip, direction, now)
  }

  /** The largest value of `f` over the writes that count, zero when there is none. */
  ghost predicate IsLogMax(cfg: Config, log: seq<Write>, ip: string, direction: nat, now: int, f: Metrics -> int,
                           m: int)
    requires cfg.Valid()
  {
    && (forall w | Among(cfg, log, ip, direction, now, w) :: f(w.m) <= m)
    && ((exists w :: Among(cfg, log, ip, direction, now, w)) ==>
          exists w :: Among(cfg, log, ip, direction, now, w) && f(w.m) == m)
    && (!(exists w :: Among(cfg, log, ip, direction, now, w)) ==> m == 0)
  }

  ghost function BucketsIn(cfg: Config, log: seq<Write>, ip: string, direction: nat, now: int): set<Key>
    requires cfg.Valid()
  {
    set w | w in log && InRange(cfg, w.key, ip, direction, now) :: w.key
  }

  lemma InsertConnections(rows: Table, k: Key, w: Metrics)
    ensures Connections(Insert(rows, k, w)) == Connections(rows) + w.syn + w.ack
  {
    hide Connections;
    var r := Insert(rows, k, w);
    ConnectionsWithout(r, k);
    assert r - {k} == rows - {k};
    if k in rows {
      ConnectionsWithout(rows, k);
    } else {
      assert rows - {k} == rows;
    }
  }

  lemma SelectInsert(cfg: Config, table: Table, k: Key, w: Metrics, ip: string, direction: nat, now: int)
    requires cfg.Valid()
    ensures Selected(cfg, Insert(table, k, w), ip, direction, now)
            == if InRange(cfg, k, ip, direction, now) then Insert(Selected(cfg, table, ip, direction, now), k, w)
               else Selected(cfg, table, ip, direction, now)
  {
    hide Upsert, SinceOf, BucketOf;
  }

  lemma {:induction false} ConnectionsAddUp(cfg: Config, log: seq<Write>, ip: string, direction: nat, now: int)
    requires cfg.Valid()
    ensures Connections(Selected(cfg, FullTable(log), ip, direction, now))
            == ConnectionsIn(cfg, log, ip, direction, now)
  {
    hide Selected, Insert, InRange;
    if log == [] {
      NothingSelected(cfg, ip, direction, now);
    } else {
      var front, w := log[..|log| - 1], log[|log| - 1];
      ConnectionsAddUp(cfg, front, ip, direction, now);
      SelectInsert(cfg, FullTable(front), w.key, w.m, ip, direction, now);
      InsertConnections(Selected(cfg, FullTable(front), ip, direction, now), w.key, w.m);
    }
  }

  lemma NothingSelected(cfg: Config, ip: string, direction: nat, now: int)
    requires cfg.Valid()
    ensures Selected(cfg, map[], ip, direction, now) == map[] && Connections(map[]) == 0
  {
  }

  lemma {:induction false} WritesToMembers(log: seq<Write>, k: Key, m: Metrics)
    ensures m in WritesTo(log, k) <==> Write(k, m) in log
  {
    if log != [] {
      WritesToMembers(log[..|log| - 1], k, m);
      assert log == log[..|log| - 1] + [log[|log| - 1]];
    }
  }

  /** A write of the log is below its row, and some write of the log attains the row. */
  lemma RowIsAttained(log: seq<Write>, k: Key, f: Metrics -> int, m: int)
    requires IsMax(WritesTo(log, k), f, m)
    ensures forall w | w in log && w.key == k :: f(w.m) <= m
    ensures exists w :: w in log && w.key == k && f(w.m) == m
  {
    var ws := WritesTo(log, k);
    forall w | w in log && w.key == k ensures f(w.m) <= m {
      WritesToMembers(log, k, w.m);
      assert w == Write(k, w.m);
      var i :| 0 <= i < |ws| && ws[i] == w.m;
      assert f(ws[i]) <= m;
    }
    var i :| 0 <= i < |ws| && f(ws[i]) == m;
    WritesToMembers(log, k, ws[i]);
    assert Write(k, ws[i]) in log && Write(k, ws[i]).key == k && f(Write(k, ws[i]).m) == m;
  }

  lemma HasRow(log: seq<Write>, w: Write)
    requires w in log
    ensures w.key in FullTable(log)
  {
    WritesToMembers(log, w.key, w.m);
    RowsSummariseWrites(log, w.key);
  }

  /** A maximum over rows that are maxima of their writes is a maximum over all writes. */
  lemma MaxOverRows(cfg: Config, log: seq<Write>, ip: string, direction: nat, now: int, f: Metrics -> int, m: int)
    requires cfg.Valid()
    requires forall k | k in FullTable(log) :: IsMax(WritesTo(log, k), f, f(FullTable(log)[k]))
    requires var rows := Selected(cfg, FullTable(log), ip, direction, now);
             && (forall k | k in rows :: f(rows[k]) <= m)
             && (if rows == map[] then m == 0 else exists k :: k in rows && f(rows[k]) == m)
    ensures IsLogMax(cfg, log, ip, direction, now, f, m)
  {
    hide IsMax, SinceOf, BucketOf, FullTable, WritesTo;
    var rows := Selected(cfg, FullTable(log), ip, direction, now);
    forall w | Among(cfg, log, ip, direction, now, w) ensures w.key in rows && f(w.m) <= m {
      HasRow(log, w);
      RowIsAttained(log, w.key, f, f(FullTable(log)[w.key]));
    }
    if rows != map[] {
      var k :| k in rows && f(rows[k]) == m;
      RowIsAttained(log, k, f, f(FullTable(log)[k]));
      var w :| w in log && w.key == k && f(w.m) == f(FullTable(log)[k]);
      assert Among(cfg, log, ip, direction, now, w);
    }
  }

  lemma RowMaxima(log: seq<Write>, k: Key)
    requires k in FullTable(log)
    ensures IsMax(WritesTo(log, k), (w: Metrics) => w.score, FullTable(log)[k].score)
    ensures IsMax(WritesTo(log, k), (w: Metrics) => w.maxHits, FullTable(log)[k].maxHits)
  {
    hide IsMax, FullTable, WritesTo;
    RowsSummariseWrites(log, k);
  }

  /** End to end: over every run with sufficient retention, what the signals report is the
      maximum score, the maximum port hits, the sum of connections and the number of buckets
      over all writes ever made in the lookback window, by this process and the ones before,
      although old rows were deleted and writes of one bucket were folded into one row. */
  lemma SignalsAreExact(cfg: Config, s0: State, past: seq<Write>, start: int, steps: seq<Persist>,
                        ip: string, direction: nat, now: int)
    requires cfg.Valid() && Safe(cfg)
    requires Faithful(cfg, s0.table, FullTable(past), start) && Between(start, steps, now)
    ensures var s := LoadSignals(cfg, After(cfg, s0, steps).table, ip, direction, now);
            var log := past + LogOf(cfg, steps);
            && IsLogMax(cfg, log, ip, direction, now, (m: Metrics) => m.score, s.maxScore)
            && IsLogMax(cfg, log, ip, direction, now, (m: Metrics) => m.maxHits, s.maxPortHits)
            && s.connections == ConnectionsIn(cfg, log, ip, direction, now)
            && s.buckets == |BucketsIn(cfg, log, ip, direction, now)|
  {
    hide LoadSignals, IsMax, IsLogMax, SinceOf, BucketOf, FullTable, WritesTo, After, LogOf, ConnectionsIn, Faithful,
         Between;
    RetentionIsInvisible(cfg, s0, past, start, steps, ip, direction, now);
    var s := LoadSignals(cfg, After(cfg, s0, steps).table, ip, direction, now);
    var log := past + LogOf(cfg, steps);
    ConnectionsAddUp(cfg, log, ip, direction, now);
    forall k | k in FullTable(log)
      ensures IsMax(WritesTo(log, k), (w: Metrics) => w.score, FullTable(log)[k].score)
      ensures IsMax(WritesTo(log, k), (w: Metrics) => w.maxHits, FullTable(log)[k].maxHits)
    {
      RowMaxima(log, k);
    }
    MaxOverRows(cfg, log, ip, direction, now, (m: Metrics) => m.score, s.maxScore);
    MaxOverRows(cfg, log, ip, direction, now, (m: Metrics) => m.maxHits, s.maxPortHits);
    BucketsAreRows(cfg, log, ip, direction, now);
  }

  lemma BucketsAreRows(cfg: Config, log: seq<Write>, ip: string, direction: nat, now: int)
    requires cfg.Valid()
    ensures |Selected(cfg, FullTable(log), ip, direction, now)| == |BucketsIn(cfg, log, ip, direction, now)|
  {
    hide SinceOf, BucketOf, FullTable, WritesTo;
    var rows := Selected(cfg, FullTable(log), ip, direction, now);
    forall k ensures k in rows <==> k in BucketsIn(cfg, log, ip, direction, now) {
      if k in rows {
        RowsSummariseWrites(log, k);
        var m := WritesTo(log, k)[0];
        WritesToMembers(log, k, m);
        assert Write(k, m) in log;
      }
      if k in BucketsIn(cfg, log, ip, direction, now) {
        var w :| w in log && InRange(cfg, w.key, ip, direction, now) && w.key == k;
        HasRow(log, w);
      }
    }
    assert rows.Keys == BucketsIn(cfg, log, ip, direction, now);
    assert |rows| == |rows.Keys|;
  }

  // ---------- buckets, lookback and delete in plain time ----------

  /** For whole seconds: signals at `now` read what was written at `t` exactly when its bucket
      starts no earlier than the one that contains `now` less the lookback, and before the one
      that contains `now`. */
  lemma SignalsReadIff(b: int, l: int, r: int, t: int, now: int)
    requires b > 0 && l > 0 && r > 0
    ensures var cfg := Config(b * SECOND, l * SECOND, r * SECOND);
            SinceOf(cfg, now) <= BucketOf(cfg, t) < BucketOf(cfg, now)
            <==> (now - l * 1_000_000_000) / (b * 1_000_000_000) <= t / (b * 1_000_000_000) < now / (b * 1_000_000_000)
  {
    var size := b * SECOND;
    assert size == b * 1_000_000_000 && l * SECOND == l * 1_000_000_000;
    var p, q, n := (now - l * SECOND) / size, t / size, now / size;
    BucketIsMultiple(now - l * SECOND, b);
    BucketIsMultiple(t, b);
    BucketIsMultiple(now, b);
    MultiplesOrdered(p, q, b);
    MultiplesOrdered(q, p, b);
    MultiplesOrdered(q, n, b);
    MultiplesOrdered(n, q, b);
  }

  lemma BucketIsMultiple(t: int, b: int)
    requires b > 0
    ensures Unix(Truncate(t, b * SECOND)) == t / (b * SECOND) * b
  {
    var q := t / (b * SECOND);
    MultiplyOut(q, b);
    SecondsTimes(q * b);
  }

  lemma MultiplesOrdered(p: int, q: int, b: int)
    requires b > 0
    ensures p < q ==> p * b < q * b
    ensures p <= q ==> p * b <= q * b
  {
    if p <= q { ProductsOrdered(p, q, b); }
    if p < q { ProductsOrdered(p + 1, q, b); }
  }

  /** Every hundred and twentieth successful write deletes exactly the rows whose bucket starts
      before `now` less the retention, in whole seconds; other writes delete nothing. */
  lemma DeletesEvery120(cfg: Config, s: State, p: Persist, k: Key)
    requires cfg.Valid() && p.ok
    ensures var t := Next(cfg, s, p);
            && t.writes == s.writes + 1
            && (k in t.table <==>
                  && (k in s.table || k == KeyOf(cfg, p))
                  && !(t.writes % 120 == 0 && p.deleteOk && k.bucket < (p.now - cfg.retention) / 1_000_000_000))
            && (k in t.table && k != KeyOf(cfg, p) ==> t.table[k] == s.table[k])
  {
    hide BucketOf, Upsert;
  }

  // ---------- the exact bound on the retention ----------

  /** Over every run the signals are those of the table that never deletes. */
  ghost predicate SignalsMatch(cfg: Config)
    requires cfg.Valid()
  {
    forall s0: State, past: seq<Write>, start: int, steps: seq<Persist>, ip: string, direction: nat, now: int
      | Faithful(cfg, s0.table, FullTable(past), start) && Between(start, steps, now) ::
      LoadSignals(cfg, After(cfg, s0, steps).table, ip, direction, now)
      == LoadSignals(cfg, FullTable(past + LogOf(cfg, steps)), ip, direction, now)
  }

  /** For durations in whole seconds: if and only if the retention is at least lookback plus
      bucket size less one second. */
  lemma SignalsMatchIff(b: int, l: int, r: int)
    requires b > 0 && l > 0 && r > 0
    ensures SignalsMatch(Config(b * SECOND, l * SECOND, r * SECOND)) <==> r >= l + b - 1
  {
    var cfg := Config(b * SECOND, l * SECOND, r * SECOND);
    if r >= l + b - 1 {
      SafeRetentionInSeconds(b, l, r);
      forall s0: State, past: seq<Write>, start: int, steps: seq<Persist>, ip: string, direction: nat, now: int
        | Faithful(cfg, s0.table, FullTable(past), start) && Between(start, steps, now)
        ensures LoadSignals(cfg, After(cfg, s0, steps).table, ip, direction, now)
                == LoadSignals(cfg, FullTable(past + LogOf(cfg, steps)), ip, direction, now)
      {
        hide Selected, After, FullTable, LogOf, Faithful, Between, Safe, SinceOf, BucketOf;
        RetentionIsInvisible(cfg, s0, past, start, steps, ip, direction, now);
      }
    } else {
      DeletedTooEarly(b, l, r);
    }
  }

  /** The row of the first write is deleted after the second one; the next signals miss it. */
  lemma DeletedTooEarly(b: int, l: int, r: int)
    requires b > 0 && l > 0 && 0 < r < l + b - 1
    ensures !SignalsMatch(Config(b * SECOND, l * SECOND, r * SECOND))
  {
    var cfg := Config(b * SECOND, l * SECOND, r * SECOND);
    var first, now := (b - 1) * SECOND, (l + b - 1) * SECOND;
    EarlyTimes(b, l, r);
    var m := Metrics(1, 0, 0, 1, 1, 0, 0, 80, 6, "", 50, 0);
    var p, q := Persist("a", 0, m, first, true, true), Persist("b", 0, m, now, true, true);
    hide BucketOf, SinceOf, CutoffOf, SignalsMatch;
    DeletedRow(cfg, p, q);
  }

  lemma DeletedRow(cfg: Config, p: Persist, q: Persist)
    requires cfg.Valid() && p.ok && q.ok && q.deleteOk && p.ip != q.ip && p.now <= q.now
    requires BucketOf(cfg, p.now) < CutoffOf(cfg, q.now)
    requires SinceOf(cfg, q.now) <= BucketOf(cfg, p.now) < BucketOf(cfg, q.now)
    ensures !SignalsMatch(cfg)
  {
    hide BucketOf, SinceOf, CutoffOf, After, FullTable, LogOf, Faithful, LoadSignals, Young;
    var s0 := State(map[], CLEANUP_EVERY - 2);
    TwoWrites(cfg, s0, p, q);
    NewTableIsFaithful(cfg, p.now);
    assert Between(p.now, [p, q], q.now);
    var k := KeyOf(cfg, p);
    YoungMisses(k, p.m, KeyOf(cfg, q), q.m, CutoffOf(cfg, q.now));
    MissingRow(cfg, After(cfg, s0, [p, q]).table, FullTable([] + LogOf(cfg, [p, q])), k, q.now);
  }

  lemma YoungMisses(k: Key, m: Metrics, l: Key, n: Metrics, cutoff: int)
    requires k.bucket < cutoff && l.ip != k.ip
    ensures forall j | j in Young(map[k := m, l := n], cutoff) :: j.ip != k.ip
  {
  }

  /** The bucket of the first time is 0; at the second it is still read, and cut off. */
  lemma EarlyTimes(b: int, l: int, r: int)
    requires b > 0 && l > 0 && 0 < r < l + b - 1
    ensures var cfg := Config(b * SECOND, l * SECOND, r * SECOND);
            var first, now := (b - 1) * SECOND, (l + b - 1) * SECOND;
            && first <= now && BucketOf(cfg, first) == 0 == SinceOf(cfg, now)
            && CutoffOf(cfg, now) > 0 && BucketOf(cfg, now) > 0
  {
    hide Truncate, Unix;
    SecondsTimes(b - 1);
    SecondsTimes(l + b - 1);
    SecondsTimes(l + b - 1 - r);
    TruncateInSeconds((b - 1) * SECOND, b);
    TruncateInSeconds((l + b - 1) * SECOND, b);
    assert (l + b - 1) * SECOND - l * SECOND == (b - 1) * SECOND;
    assert (l + b - 1) * SECOND - r * SECOND == (l + b - 1 - r) * SECOND;
    FirstMultiple(b - 1, b);
    FirstMultiple(l + b - 1, b);
  }

  lemma FirstMultiple(t: int, size: int)
    requires size > 0 && t >= 0
    ensures if t < size then Truncate(t, size) == 0 else Truncate(t, size) > 0
  {
    if t < size { QuotientIs(t, size, 0); } else { TruncateMonotone(size, t, size); QuotientIs(size, size, 1); }
  }

  /** A persist that only inserts, then one that also deletes. */
  lemma TwoWrites(cfg: Config, s0: State, p: Persist, q: Persist)
    requires cfg.Valid() && s0 == State(map[], CLEANUP_EVERY - 2) && p.ok && q.ok && q.deleteOk
    requires KeyOf(cfg, p) != KeyOf(cfg, q)
    ensures After(cfg, s0, [p, q]).table == Young(map[KeyOf(cfg, p) := p.m, KeyOf(cfg, q) := q.m], CutoffOf(cfg, q.now))
    ensures FullTable([] + LogOf(cfg, [p, q])) == map[KeyOf(cfg, p) := p.m, KeyOf(cfg, q) := q.m]
  {
    hide KeyOf, After, FullTable, LogOf, Young, Insert, Next, CutoffOf;
    TwoPersists(cfg, s0, p, q);
    TwoLogged(cfg, p, q);
    TwoRows(KeyOf(cfg, p), p.m, KeyOf(cfg, q), q.m);
    var log := [Write(KeyOf(cfg, p), p.m), Write(KeyOf(cfg, q), q.m)];
    assert [] + log == log;
  }

  lemma TwoPersists(cfg: Config, s0: State, p: Persist, q: Persist)
    requires cfg.Valid() && s0.writes == CLEANUP_EVERY - 2 && p.ok && q.ok && q.deleteOk
    ensures After(cfg, s0, [p, q]).table
            == Young(Insert(Insert(s0.table, KeyOf(cfg, p), p.m), KeyOf(cfg, q), q.m), CutoffOf(cfg, q.now))
  {
    hide KeyOf, Insert, Young, CutoffOf;
    assert [p, q][..1] == [p] && [p][..0] == [];
    assert After(cfg, s0, []) == s0;
    assert After(cfg, s0, [p]) == Next(cfg, s0, p);
    assert After(cfg, s0, [p, q]) == Next(cfg, Next(cfg, s0, p), q);
  }

  lemma TwoLogged(cfg: Config, p: Persist, q: Persist)
    requires cfg.Valid() && p.ok && q.ok
    ensures LogOf(cfg, [p, q]) == [Write(KeyOf(cfg, p), p.m), Write(KeyOf(cfg, q), q.m)]
  {
    hide KeyOf;
    assert [p, q][..1] == [p] && [p][..0] == [];
    assert LogOf(cfg, []) == [];
    assert LogOf(cfg, [p]) == [Write(KeyOf(cfg, p), p.m)];
  }

  lemma TwoRows(k: Key, m: Metrics, l: Key, n: Metrics)
    requires k != l
    ensures FullTable([Write(k, m), Write(l, n)]) == map[k := m, l := n] == Insert(Insert(map[], k, m), l, n)
  {
    var w, x := Write(k, m), Write(l, n);
    assert [w, x][..1] == [w] && [w][..0] == [];
    assert FullTable([]) == map[];
    assert FullTable([w]) == map[k := m];
  }

  lemma MissingRow(cfg: Config, table: Table, full: Table, k: Key, now: int)
    requires cfg.Valid() && k in full && SinceOf(cfg, now) <= k.bucket < BucketOf(cfg, now)
    requires forall j | j in table :: j.ip != k.ip
    ensures LoadSignals(cfg, table, k.ip, k.direction, now) != LoadSignals(cfg, full, k.ip, k.direction, now)
  {
    hide SinceOf, BucketOf;
    assert Selected(cfg, table, k.ip, k.direction, now) == map[];
    assert k in Selected(cfg, full, k.ip, k.direction, now);
  }
}
