/** The pipeline as it runs: the statistics map and the buffer table are updated in place.
    The `log` of the model is a ghost field. */
module TelemetryAgent {
  import opened Options
  import opened Words
  import opened Telemetry

  class Aggregator {
    const maxItems: int
    const hasBuffer: bool
    var items: Stats
    var rows: seq<Row>
    var nextId: Id
    ghost var log: seq<Record>

    ghost function View(): State
      reads this
    {
      State(items, rows, nextId, log)
    }

    ghost function Cfg(): Config {
      Config(maxItems, hasBuffer)
    }

    constructor (maxItems: int, hasBuffer: bool, pending: seq<Row>, nextId: Id)
      ensures Cfg() == Config(maxItems, hasBuffer)
      ensures View() == State(map[], pending, nextId, [])
    {
      this.maxItems, this.hasBuffer := maxItems, hasBuffer;
      items, rows, this.nextId := map[], pending, nextId;
      log := [];
    }

    /** Searches for an entry first seen before all others and before now. */
    method FindOldest(now: Time) returns (victim: Option<Ip>)
      ensures IsOldest(items, now, victim)
    {
      victim := None;
      var oldestTime := now;
      var todo := items.Keys;
      while todo != {}
        invariant todo <= items.Keys
        invariant oldestTime <= now
        invariant forall ip | ip in items && ip !in todo :: items[ip].firstSeen >= oldestTime
        invariant victim == None ==> oldestTime == now
        invariant victim.Some? ==> victim.value in items && items[victim.value].firstSeen == oldestTime < now
        decreases todo
      {
        var k :| k in todo;
        todo := todo - {k};
        if items[k].firstSeen < oldestTime {
          oldestTime := items[k].firstSeen;
          victim := Some(k);
        }
      }
    }

    /** The entry of an IP, created if necessary; a full map first evicts an oldest entry. */
    method GetOrCreate(e: Event) returns (stats: IpStats, victim: Option<Ip>)
      modifies this`items, this`log
      ensures VictimChoice(old(items), maxItems, e, victim)
      ensures victim.Some? ==> e.ip !in old(items) && victim.value in old(items)
      ensures stats == if e.ip in old(items) then old(items)[e.ip] else IpStats(NOTHING, e.time)
      ensures items == MakeRoom(old(items), victim)[e.ip := stats]
      ensures log == if victim.Some? then old(log) + [StatsEvicted(old(items)[victim.value].counts)] else old(log)
    {
      victim := None;
      if e.ip in items {
        stats := items[e.ip];
        assert items == items[e.ip := stats];
        return;
      }
      if |items| >= maxItems {
        victim := FindOldest(e.now);
        if victim.Some? {
          log := log + [StatsEvicted(items[victim.value].counts)];
          items := items - {victim.value};
        }
      }
      stats := IpStats(NOTHING, e.time);
      items := items[e.ip := stats];
    }

    method CountFlags(start: Counts, flags: bv8) returns (counts: Counts)
      ensures counts == start.Add(CountsOf(flags))
    {
      counts := start;
      if flags & 0x01 != 0 {
        counts := counts.(syn := counts.syn + 1);
      }
      if flags & 0x02 != 0 {
        counts := counts.(ack := counts.ack + 1);
      }
      if flags & 0x08 != 0 {
        counts := counts.(failed := counts.failed + 1);
      }
    }

    method ProcessEvent(e: Event) returns (victim: Option<Ip>)
      modifies this
      ensures VictimChoice(old(items), maxItems, e, victim)
      ensures View() == Next(Cfg(), old(View()), Process(e, victim))
    {
      hide CountsOf, IsOldest, VictimChoice, Counts.Add, Counted, MakeRoom;
      var stats: IpStats;
      stats, victim := GetOrCreate(e);
      ghost var room := MakeRoom(old(items), victim);
      var counts := CountFlags(stats.counts, e.flags);
      items := items[e.ip := stats.(counts := counts)];
      CountedEntry(old(items), victim, e, stats);
      assert items == room[e.ip := stats.(counts := counts)];
    }

    /** One event per entry, with 32-bit counters. */
    method BuildEvents() returns (batch: Batch)
      ensures IsBatchOf(batch, items)
    {
      batch := [];
      var todo := items.Keys;
      while todo != {}
        invariant todo <= items.Keys
        invariant IsBatchOf(batch, items - todo)
        decreases todo
      {
        hide IsBatchOf;
        var ip :| ip in todo;
        assert items - (todo - {ip}) - {ip} == items - todo;
        BatchOneMore(batch, items - (todo - {ip}), ip);
        todo := todo - {ip};
        var counts := items[ip].counts;
        batch := batch + [ConnectionEvent(ip, Counts(counts.syn % U32, counts.ack % U32, counts.failed % U32))];
      }
      assert items - {} == items;
    }

    /** Sends the loaded batches in order and stops at the first one that is not accepted. */
    method RetryPendingBatches(loaded: seq<Row>, replies: seq<Reply>, deleteOk: bool)
      requires |replies| == |loaded|
      modifies this`rows, this`log
      ensures forall batch: Batch, reply: Reply, save: SaveOutcome ::
                View() == RetryPending(old(View()), FlushOutcome(loaded, replies, deleteOk, batch, reply, save))
    {
      hide Keep, Gone, AcceptedPrefix, Records;
      var sentIds: set<Id> := {};
      ghost var k := AcceptedPrefix(loaded, replies);
      ghost var acked := Acks(loaded, replies, k);
      for i := 0 to |loaded|
        invariant i <= k
        invariant rows == old(rows)
        invariant sentIds == set r | r in loaded[..i] :: r.id
        invariant log == old(log) + acked[..i]
      {
        PrefixIsMaximal(loaded, replies, i);
        var reply := replies[i];
        if reply == NoClient || reply == RpcError {
          assert acked[..i] == acked;
          return;
        }
        if !(reply.success && reply.processed == |loaded[i].batch|) {
          assert acked[..i] == acked;
          return;
        }
        sentIds := sentIds + {loaded[i].id};
        assert loaded[..i + 1] == loaded[..i] + [loaded[i]];
        log := log + [RetryAcknowledged(loaded[i], reply)];
        assert acked[..i + 1] == acked[..i] + [acked[i]];
      }
      assert acked[..|loaded|] == acked && loaded[..|loaded|] == loaded;
      assert sentIds == Ids(loaded);
      if deleteOk {
        log := log + Records(Gone(rows, sentIds), (r: Row) => RowDeleted(r));
        rows := Keep(rows, sentIds);
      }
    }

    /** Makes room by evicting oldest rows, then inserts the batch. */
    method Save(batch: Batch, save: SaveOutcome) returns (ok: bool)
      modifies this`rows, this`nextId, this`log
      ensures ok == save.insertOk && items == old(items)
      ensures forall f: FlushOutcome | f.batch == batch && f.save == save ::
                (if ok then View().(items := map[]) else View()) == SaveBatch(old(View()), f)
    {
      hide Keep, Gone, Total;
      ghost var ids := EvictedIds(rows, save);
      log := log + Records(Gone(rows, ids), (r: Row) => RowEvicted(r));
      KeepAll(rows);
      if save.countOk && |rows| >= BUFFER_MAX_BATCHES {
        var evictN := |rows| - BUFFER_MAX_BATCHES + 1;
        if save.evictOk {
          rows := Keep(rows, save.oldest(evictN));
        }
      }
      if !save.insertOk {
        return false;
      }
      log := log + [Saved(Total(items), Row(nextId, batch, save.now))];
      rows := rows + [Row(nextId, batch, save.now)];
      nextId := nextId + 1;
      return true;
    }

    /** Memory is cleared only after the batch was saved. */
    method BufferEvents(batch: Batch, save: SaveOutcome)
      modifies this
      ensures forall f: FlushOutcome | f.batch == batch && f.save == save ::
                View() == if hasBuffer then SaveBatch(old(View()), f) else old(View())
    {
      hide SaveBatch;
      if !hasBuffer {
        return;
      }
      var ok := Save(batch, save);
      if ok {
        items := map[];
      }
    }

    method FlushToBackend(loaded: seq<Row>, replies: seq<Reply>, deleteOk: bool, reply: Reply, save: SaveOutcome)
      returns (batch: Batch)
      requires |replies| == |loaded|
      modifies this
      ensures IsBatchOf(batch, old(items))
      ensures View() == Next(Cfg(), old(View()), Flush(FlushOutcome(loaded, replies, deleteOk, batch, reply, save)))
    {
      hide SaveBatch, RetryPending, Total;
      if hasBuffer {
        RetryPendingBatches(loaded, replies, deleteOk);
      }
      RetryKeepsItems(old(View()), loaded, replies, deleteOk, reply, save);
      batch := BuildEvents();
      if |items| == 0 {
        return;
      }
      ghost var f := FlushOutcome(loaded, replies, deleteOk, batch, reply, save);
      if reply == NoClient || reply == RpcError {
        BufferEvents(batch, save);
        return;
      }
      if reply.success && reply.processed == |batch| {
        log := log + [Acknowledged(Total(items), batch, reply)];
        items := map[];
      } else {
        BufferEvents(batch, save);
      }
    }

    method EvictExpiredBatches(cutoff: Time, ok: bool)
      modifies this`rows, this`log
      ensures View() == Next(Cfg(), old(View()), Maintain(cutoff, ok))
    {
      if !hasBuffer || !ok {
        return;
      }
      log := log + Records(Old(rows, cutoff), (r: Row) => RowExpired(r));
      rows := KeepYoung(rows, cutoff);
    }
  }

  lemma CountedEntry(items: Stats, victim: Option<Ip>, e: Event, stats: IpStats)
    requires victim.Some? ==> e.ip !in items
    requires stats == if e.ip in items then items[e.ip] else IpStats(NOTHING, e.time)
    ensures Counted(MakeRoom(items, victim), e)
            == MakeRoom(items, victim)[e.ip := stats.(counts := stats.counts.Add(CountsOf(e.flags)))]
  {
    hide CountsOf, Counts.Add;
  }

  lemma {:induction false} PrefixIsMaximal(loaded: seq<Row>, replies: seq<Reply>, i: nat)
    requires |replies| == |loaded| && i < |loaded| && i <= AcceptedPrefix(loaded, replies)
    ensures FullyAccepted(replies[i], |loaded[i].batch|) <==> i < AcceptedPrefix(loaded, replies)
  {
  }

  lemma {:induction false} KeepAll(rows: seq<Row>)
    ensures Keep(rows, {}) == rows && Gone(rows, {}) == []
  {
    if rows != [] {
      KeepAll(rows[..|rows| - 1]);
      assert rows == rows[..|rows| - 1] + [rows[|rows| - 1]];
    }
  }

  lemma RetryKeepsItems(s: State, loaded: seq<Row>, replies: seq<Reply>, deleteOk: bool, reply: Reply,
                        save: SaveOutcome)
    requires |replies| == |loaded|
    ensures forall batch: Batch ::
              RetryPending(s, FlushOutcome(loaded, replies, deleteOk, batch, reply, save)).items == s.items
  {
  }
}
