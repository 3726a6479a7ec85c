/** What replies, events and a full statistics map do, told from their fields. */
module TelemetryReplies {
  import opened Options
  import opened Telemetry
  import opened TelemetryLedger

  // ---------- replies ----------

  /** A retry pass deletes rows only when the backend answered every loaded batch with success
      and the number of its events; then it deletes exactly the loaded ones. */
  lemma RetryDeletesExactly(s: State, f: FlushOutcome, row: Row)
    requires |f.replies| == |f.loaded|
    ensures row in RetryPending(s, f).rows
            <==> && row in s.rows
                 && !(&& f.deleteOk && row.id in Ids(f.loaded)
                      && forall i | 0 <= i < |f.loaded| :: f.replies[i] == Response(true, |f.loaded[i].batch|))
    ensures RetryPending(s, f).items == s.items && RetryPending(s, f).nextId == s.nextId
  {
    hide Keep, Gone;
    KeepMembers(s.rows, Ids(f.loaded));
  }

  /** One partial, failed or missing reply leaves the buffer as it is. */
  lemma PartialReplyKeepsRows(s: State, f: FlushOutcome, i: nat)
    requires |f.replies| == |f.loaded| && i < |f.loaded| && f.replies[i] != Response(true, |f.loaded[i].batch|)
    ensures RetryPending(s, f).rows == s.rows
  {
    hide Keep, Gone;
  }

  /** The fresh batch: success for all its events empties memory and leaves the buffer alone.
      Any other reply leaves memory alone too, unless the batch was saved; then it is the last
      row of the buffer, with the next id and the time of the save. */
  lemma ReplyDecides(cfg: Config, s: State, f: FlushOutcome)
    requires |f.replies| == |f.loaded| && s.items != map[]
    ensures var t := FlushToAPI(cfg, s, f);
            var rows := RowsAtSave(cfg, s, f);
            if f.reply == Response(true, |f.batch|) then
              && t.items == map[] && t.rows == rows && t.nextId == s.nextId
              && |t.log| > 0 && t.log[|t.log| - 1] == Acknowledged(Total(s.items), f.batch, f.reply)
            else if cfg.hasBuffer && f.save.insertOk then
              && t.items == map[] && t.nextId == s.nextId + 1
              && |t.rows| > 0 && t.rows[|t.rows| - 1] == Row(s.nextId, f.batch, f.save.now)
              && |t.log| > 0 && t.log[|t.log| - 1] == Saved(Total(s.items), t.rows[|t.rows| - 1])
            else
              t.items == s.items && t.nextId == s.nextId && forall r | r in t.rows :: r in rows
  {
    hide Total, RetryPending, SaveBatch;
    var s1 := if cfg.hasBuffer then RetryPending(s, f) else s;
    if cfg.hasBuffer { RetryDeletesExactly(s, f, Row(0, [], 0)); }
    SaveDecides(s1, f);
  }

  lemma SaveDecides(s: State, f: FlushOutcome)
    ensures var t := SaveBatch(s, f);
            if f.save.insertOk then
              && t.items == map[] && t.nextId == s.nextId + 1
              && |t.rows| > 0 && t.rows[|t.rows| - 1] == Row(s.nextId, f.batch, f.save.now)
              && |t.log| > 0 && t.log[|t.log| - 1] == Saved(Total(s.items), t.rows[|t.rows| - 1])
            else
              t.items == s.items && t.nextId == s.nextId && forall r | r in t.rows :: r in s.rows
  {
    hide Keep, Gone, Total, EvictedIds;
    KeepMembers(s.rows, EvictedIds(s.rows, f.save));
  }

  /** A flush with nothing in memory is a retry pass and no more. */
  lemma NothingToFlush(cfg: Config, s: State, f: FlushOutcome)
    requires |f.replies| == |f.loaded| && s.items == map[]
    ensures FlushToAPI(cfg, s, f) == if cfg.hasBuffer then RetryPending(s, f) else s
  {
    hide Keep, Gone, AcceptedPrefix;
  }

  // ---------- events ----------

  /** An event adds its flag bits to its own IP, which keeps the time it was first seen, or gets
      the event's time with empty counters before; every other entry but the victim stays. */
  lemma EventCountsForItsIp(s: State, e: Event, victim: Option<Ip>, other: Ip)
    requires victim.Some? ==> e.ip !in s.items
    ensures var t := ProcessEvent(s, e, victim);
            var was := if e.ip in s.items then s.items[e.ip] else IpStats(Counts(0, 0, 0), e.time);
            && e.ip in t.items && t.rows == s.rows
            && t.items[e.ip].firstSeen == was.firstSeen
            && t.items[e.ip].counts.syn == was.counts.syn + e.flags as int % 2
            && t.items[e.ip].counts.ack == was.counts.ack + e.flags as int / 2 % 2
            && t.items[e.ip].counts.failed == was.counts.failed + e.flags as int / 8 % 2
            && (other != e.ip && victim != Some(other) ==>
                  && (other in t.items <==> other in s.items)
                  && (other in t.items ==> t.items[other] == s.items[other]))
            && (victim.Some? && victim.value != e.ip ==> victim.value !in t.items)
  {
    hide CountsOf;
    CountsAreBits(e.flags);
  }

  // ---------- the size of the statistics ----------

  function Bound(cfg: Config): nat {
    if cfg.maxItems > 1 then cfg.maxItems else 1
  }

  /** An event grows a full map if and only if its IP is new and no entry was first seen before
      the clock that looks for the oldest one. */
  lemma FullMapGrowsIff(cfg: Config, s: State, e: Event, victim: Option<Ip>)
    requires VictimChoice(s.items, cfg.maxItems, e, victim) && |s.items| >= Bound(cfg)
    ensures |ProcessEvent(s, e, victim).items| > |s.items|
            <==> e.ip !in s.items && forall ip | ip in s.items :: s.items[ip].firstSeen >= e.now
    ensures |ProcessEvent(s, e, victim).items| <= |s.items| + 1
  {
    hide CountsOf;
    EventSize(s.items, e, victim);
  }

  lemma EventSize(items: Stats, e: Event, victim: Option<Ip>)
    requires victim.Some? ==> victim.value in items && e.ip !in items
    ensures |Counted(MakeRoom(items, victim), e)|
            == |items| + (if e.ip in items then 0 else 1) - if victim.Some? then 1 else 0
  {
    hide CountsOf;
    var room := MakeRoom(items, victim);
    assert room.Keys == if victim.Some? then items.Keys - {victim.value} else items.Keys;
    assert Counted(room, e).Keys == room.Keys + {e.ip};
  }

  /** Events come before the clock is read, for themselves and for all later events. */
  ghost predicate EventsComeFirst(steps: seq<Step>) {
    forall i, j | 0 <= i <= j < |steps| && steps[i].Process? && steps[j].Process? :: steps[i].e.time < steps[j].e.now
  }

  /** Every entry was first seen at the time of some event of the run. */
  ghost predicate SeenInRun(s: State, steps: seq<Step>) {
    forall ip | ip in s.items ::
      exists i :: 0 <= i < |steps| && steps[i].Process? && s.items[ip].firstSeen == steps[i].e.time
  }

  lemma SeenEarlier(s: State, t: State, prefix: seq<Step>, step: Step)
    requires SeenInRun(s, prefix)
    requires forall ip | ip in t.items ::
               || (ip in s.items && t.items[ip].firstSeen == s.items[ip].firstSeen)
               || (step.Process? && t.items[ip].firstSeen == step.e.time)
    ensures SeenInRun(t, prefix + [step])
  {
    var steps := prefix + [step];
    forall ip | ip in t.items
      ensures exists i :: 0 <= i < |steps| && steps[i].Process? && t.items[ip].firstSeen == steps[i].e.time
    {
      if ip in s.items && t.items[ip].firstSeen == s.items[ip].firstSeen {
        var i :| 0 <= i < |prefix| && prefix[i].Process? && s.items[ip].firstSeen == prefix[i].e.time;
        assert steps[i] == prefix[i];
      } else {
        assert steps[|prefix|] == step;
      }
    }
  }

  lemma FlushItems(cfg: Config, s: State, f: FlushOutcome)
    requires |f.replies| == |f.loaded|
    ensures FlushToAPI(cfg, s, f).items == s.items || FlushToAPI(cfg, s, f).items == map[]
  {
    hide Keep, Gone, Total, AcceptedPrefix, EvictedIds;
  }

  /** Over every run from an empty map in which events come before the clock is read, the map
      never holds more than its maximum of entries (and one, if the maximum is less). */
  lemma {:induction false} StatsAreBounded(cfg: Config, states: seq<State>, steps: seq<Step>)
    requires Run(cfg, states, steps) && states[0].items == map[] && EventsComeFirst(steps)
    ensures |states[|steps|].items| <= Bound(cfg)
    ensures SeenInRun(states[|steps|], steps)
  {
    if steps != [] {
      hide FlushToAPI, IsBatchOf, SelectsOldest, EvictExpired, ProcessEvent;
      var k := |steps| - 1;
      var prefix, step, s := steps[..k], steps[k], states[k];
      assert steps == prefix + [step];
      RunPrefix(cfg, states, steps);
      assert EventsComeFirst(prefix) by { PrefixComesFirst(steps); }
      StatsAreBounded(cfg, states[..|steps|], prefix);
      match step {
        case Process(e, victim) => ProcessStaysBounded(cfg, s, prefix, e, victim);
        case Flush(f) =>
          FlushItems(cfg, s, f);
          SeenEarlier(s, states[k + 1], prefix, step);
        case Maintain(cutoff, ok) =>
          assert states[k + 1].items == s.items by { MaintainItems(s, cutoff, ok); }
          SeenEarlier(s, states[k + 1], prefix, step);
      }
    }
  }

  lemma PrefixComesFirst(steps: seq<Step>)
    requires EventsComeFirst(steps) && steps != []
    ensures EventsComeFirst(steps[..|steps| - 1])
  {
  }

  lemma MaintainItems(s: State, cutoff: Time, ok: bool)
    ensures EvictExpired(s, cutoff, ok).items == s.items
  {
  }

  lemma ProcessStaysBounded(cfg: Config, s: State, prefix: seq<Step>, e: Event, victim: Option<Ip>)
    requires VictimChoice(s.items, cfg.maxItems, e, victim) && |s.items| <= Bound(cfg)
    requires SeenInRun(s, prefix) && EventsComeFirst(prefix + [Process(e, victim)])
    ensures |ProcessEvent(s, e, victim).items| <= Bound(cfg)
    ensures SeenInRun(ProcessEvent(s, e, victim), prefix + [Process(e, victim)])
  {
    hide CountsOf;
    var steps := prefix + [Process(e, victim)];
    EventSize(s.items, e, victim);
    forall ip | ip in s.items ensures s.items[ip].firstSeen < e.now {
      var i :| 0 <= i < |prefix| && prefix[i].Process? && s.items[ip].firstSeen == prefix[i].e.time;
      assert steps[i] == prefix[i] && steps[|prefix|] == Process(e, victim);
    }
    SeenEarlier(s, ProcessEvent(s, e, victim), prefix, Process(e, victim));
    if |s.items| > 0 { var ip :| ip in s.items; }
  }
}
