/** The analyzer as it runs: per-IP records with a fixed array ring, a port map and flags
    that are updated in place, found through a map and kept in a recency list. Every
    method is tied to the functions of AnalyzerModel. */
module TrafficAnalyzer {
  import opened Options
  import opened Durations
  import opened AnalyzerModel

  class IpState {
    const ip: string
    const syns: array<Time>
    var synIdx: nat
    var synLen: nat
    var ports: map<Port, Time>
    var blocked: bool
    var rateLimited: bool
    var lastLimited: Time

    constructor (ip: string, cfg: Config)
      requires cfg.Valid()
      ensures fresh(syns)
      ensures this.ip == ip && View() == NewState(cfg)
    {
      this.ip := ip;
      syns := new Time[cfg.RingSize()](_ => 0);
      synIdx, synLen := 0, 0;
      ports := map[];
      blocked, rateLimited := false, false;
      lastLimited := 0;
    }

    function View(): IpView
      reads this, syns
    {
      IpView(syns[..], synIdx, synLen, ports, blocked, rateLimited, lastLimited)
    }

    /** Records one counted event in the ring. */
    method RecordSyn(now: Time)
      requires synIdx < syns.Length
      modifies this`synIdx, this`synLen, syns
      ensures View() == Push(old(View()), now)
    {
      syns[synIdx] := now;
      synIdx := (synIdx + 1) % syns.Length;
      if synLen < syns.Length {
        synLen := synLen + 1;
      }
    }

    /** Counts the recorded times inside the window; the order of the ring does not matter. */
    method CountSyns(now: Time, window: int) returns (count: nat)
      requires synLen <= syns.Length
      ensures count == CountIn(syns[..][..synLen], now, window)
    {
      count := 0;
      for i := 0 to synLen
        invariant count == CountIn(syns[..i], now, window)
      {
        assert syns[..i + 1][..i] == syns[..i];
        var t := syns[i];
        if t == 0 { continue; }
        var age := now - t;
        if age >= 0 && age < window {
          count := count + 1;
        }
      }
      assert syns[..][..synLen] == syns[..synLen];
    }

    /** Deletes expired ports while counting the others. */
    method ExpirePorts(now: Time, window: int) returns (uniquePorts: nat)
      modifies this`ports
      ensures ports == LivePorts(old(ports), now, window)
      ensures uniquePorts == |ports|
    {
      uniquePorts := 0;
      var seen := ports;
      var todo := ports.Keys;
      while todo != {}
        invariant todo <= seen.Keys
        invariant forall p | p in seen :: p in ports <==> p in todo || InPortWindow(seen[p], now, window)
        invariant forall p | p in ports :: p in seen && ports[p] == seen[p]
        invariant uniquePorts + |todo| == |ports.Keys|
        decreases todo
      {
        var p :| p in todo;
        todo := todo - {p};
        var age := now - ports[p];
        if age < 0 || age >= window {
          assert ports.Keys - {p} == (ports - {p}).Keys;
          ports := ports - {p};
        } else {
          uniquePorts := uniquePorts + 1;
        }
      }
      assert ports == LivePorts(seen, now, window);
    }

    /** The latest time in the ring or the port map, zero when there is none. */
    method GetLastActivity() returns (latest: Time)
      requires synLen <= syns.Length
      ensures latest == LastActivity(View())
    {
      latest := 0;
      for i := 0 to synLen
        invariant forall j | 0 <= j < i :: syns[j] <= latest
        invariant latest == 0 || exists j :: 0 <= j < i && syns[j] == latest
      {
        var t := syns[i];
        if t != 0 && t > latest {
          latest := t;
        }
      }
      var todo := ports.Keys;
      while todo != {}
        invariant todo <= ports.Keys
        invariant forall j | 0 <= j < synLen :: syns[j] <= latest
        invariant forall p | p in ports && p !in todo :: ports[p] <= latest
        invariant || latest == 0
                  || (exists j :: 0 <= j < synLen && syns[j] == latest)
                  || exists p :: p in ports && ports[p] == latest
        decreases todo
      {
        var p :| p in todo;
        todo := todo - {p};
        if ports[p] > latest {
          latest := ports[p];
        }
      }
      assert IsLastActivity(View(), latest) by {
        var v := View();
        if j :| 0 <= j < synLen && syns[j] == latest {
          assert v.ring[..v.len][j] == latest;
        }
        forall u: Time | u in v.ring[..v.len] ensures u <= latest {
          var j :| 0 <= j < v.len && v.ring[j] == u;
        }
      }
      LastActivityUnique(View(), latest);
    }
  }

  /** The map and the list hold the same records, each under its own IP, and no two
      records share an array. */
  ghost predicate Consistent(lru: seq<IpState>, states: map<string, IpState>) {
    && (forall i, j | 0 <= i < j < |lru| :: lru[i] != lru[j])
    && (forall x, y | x in lru && y in lru && x != y :: x.syns != y.syns)
    && (forall x | x in lru :: x.ip in states && states[x.ip] == x)
    && (forall ip | ip in states :: states[ip] in lru && states[ip].ip == ip)
  }

  ghost predicate AllIn(a: seq<IpState>, b: seq<IpState>) {
    forall x | x in a :: x in b
  }

  lemma AllInTrans(a: seq<IpState>, b: seq<IpState>, c: seq<IpState>)
    ensures AllIn(a, a)
    ensures AllIn(a, b) && AllIn(b, c) ==> AllIn(a, c)
  {
  }

  lemma MovedIsConsistent(lru: seq<IpState>, states: map<string, IpState>, i: nat)
    requires Consistent(lru, states) && i < |lru|
    ensures Consistent(ToFront(lru, i), states)
    ensures AllIn(ToFront(lru, i), lru)
  {
    var r := ToFront(lru, i);
    forall x ensures x in r <==> x in lru {
      if x in lru {
        var k :| 0 <= k < |lru| && lru[k] == x;
        assert r[if k == i then 0 else if k < i then k + 1 else k] == x;
      }
    }
  }

  lemma RemovedIsConsistent(lru: seq<IpState>, states: map<string, IpState>, i: nat)
    requires Consistent(lru, states) && i < |lru|
    ensures Consistent(Without(lru, i), states - {lru[i].ip})
    ensures AllIn(Without(lru, i), lru)
  {
    var r := Without(lru, i);
    forall ip | ip in states && ip != lru[i].ip ensures states[ip] in r {
      var k :| 0 <= k < |lru| && lru[k] == states[ip];
      assert r[if k < i then k else k - 1] == states[ip];
    }
    forall x | x in r ensures x in lru && x.ip != lru[i].ip {
      var k :| 0 <= k < |r| && r[k] == x;
      assert lru[if k < i then k else k + 1] == x;
    }
  }

  lemma AddedIsConsistent(lru: seq<IpState>, states: map<string, IpState>, s: IpState)
    requires Consistent(lru, states) && s.ip !in states
    requires forall x | x in lru :: x.syns != s.syns
    ensures Consistent([s] + lru, states[s.ip := s])
  {
  }

  lemma MovedEntries(after: seq<Entry<IpView>>, before: seq<Entry<IpView>>, i: nat)
    requires |after| == |before| && i < |before|
    requires forall k | 0 <= k < |after| :: after[k] == before[if k == 0 then i else if k <= i then k - 1 else k]
    ensures after == ToFront(before, i)
  {
    hide ToFront;
  }

  lemma WithoutLast<T>(s: seq<T>)
    requires |s| > 0
    ensures Without(s, |s| - 1) == s[..|s| - 1]
  {
  }

  lemma MissingFromList(lru: seq<IpState>, states: map<string, IpState>, ip: string)
    requires Consistent(lru, states) && ip !in states
    ensures forall k | 0 <= k < |lru| :: lru[k].ip != ip
  {
    assert forall k | 0 <= k < |lru| :: lru[k] in lru;
  }

  lemma DistinctIps(lru: seq<IpState>, states: map<string, IpState>)
    requires Consistent(lru, states)
    ensures forall i, j | 0 <= i < j < |lru| :: lru[i].ip != lru[j].ip
  {
    forall i, j | 0 <= i < j < |lru| ensures lru[i].ip != lru[j].ip {
      assert lru[i] in lru && lru[j] in lru;
    }
  }

  lemma OthersAreSeparate(lru: seq<IpState>, states: map<string, IpState>)
    requires Consistent(lru, states) && |lru| > 0
    ensures forall i | 1 <= i < |lru| :: lru[i] != lru[0] && lru[i].syns != lru[0].syns
    ensures forall x | x in lru && x != lru[0] :: x.syns != lru[0].syns
  {
    forall i | 1 <= i < |lru| ensures lru[i] != lru[0] && lru[i].syns != lru[0].syns {
      assert lru[i] in lru && lru[0] in lru;
    }
  }

  class Analyzer {
    const config: Config
    var states: map<string, IpState>
    var lru: seq<IpState>   // front first

    ghost predicate Valid()
      reads this, lru, set s | s in lru :: s.syns
    {
      && config.Valid()
      && Consistent(lru, states)
      && forall x | x in lru :: x.View().Valid(config)
    }

    ghost function Entries(): (es: seq<Entry<IpView>>)
      reads this, lru, set s | s in lru :: s.syns
      ensures |es| == |lru|
      ensures forall i | 0 <= i < |lru| :: es[i] == Entry(lru[i].ip, lru[i].View())
    {
      seq(|lru|, i requires 0 <= i < |lru| reads this, lru, set s | s in lru :: s.syns =>
                   Entry(lru[i].ip, lru[i].View()))
    }

    /** A zero threshold selects the default configuration. A negative one is accepted too,
        but the analyzer is then not usable. */
    constructor (cfg: Config)
      ensures Entries() == [] && (cfg.synThreshold >= 0 ==> Valid())
      ensures config == if cfg.synThreshold == 0 then Config(20, 60_000_000_000, 10, 30_000_000_000, 10_000) else cfg
    {
      config := if cfg.synThreshold == 0 then DEFAULT_CONFIG else cfg;
      states := map[];
      lru := [];
    }

    lemma EntriesAreValid()
      requires Valid()
      ensures config.Valid() && ValidLru(config, Entries())
    {
      DistinctIps(lru, states);
    }

    lemma FoundAt(j: nat)
      requires Valid() && j < |lru|
      ensures Touch(Entries(), lru[j].ip, config.maxStates, NewState(config)) == ToFront(Entries(), j)
    {
      hide Touch, Find, NewState, Consistent, ToFront, IpState.View, IpView.Valid, Entries;
      var es := Entries();
      DistinctIps(lru, states);
      assert forall i | 0 <= i < j :: es[i].ip != es[j].ip;
      TouchFound(es, j, config.maxStates, NewState(config));
    }

    /** The same records with the one at `j` in front. */
    twostate lemma EntriesFollow(j: nat)
      requires j < |old(lru)| && lru == ToFront(old(lru), j)
      requires forall x | x in old(lru) :: x.View() == old(x.View())
      ensures Entries() == ToFront(old(Entries()), j)
    {
      hide ToFront, IpState.View, Entries;
      MovedEntries(Entries(), old(Entries()), j);
    }

    method MoveToFront(s: IpState)
      requires Valid() && s in lru
      modifies this`lru
      ensures Valid() && |lru| > 0 && lru[0] == s
      ensures AllIn(lru, old(lru))
      ensures Entries() == Touch(old(Entries()), s.ip, config.maxStates, NewState(config))
    {
      hide Touch, NewState, Consistent, Entries, ToFront, IpState.View, IpView.Valid;
      var j :| 0 <= j < |lru| && lru[j] == s;
      FoundAt(j);
      MovedIsConsistent(lru, states, j);
      lru := ToFront(lru, j);
      EntriesFollow(j);
    }

    method RemoveAt(i: nat)
      requires Valid() && i < |lru|
      modifies this`lru, this`states
      ensures Valid() && lru == Without(old(lru), i)
      ensures states == old(states) - {old(lru)[i].ip}
      ensures AllIn(lru, old(lru))
      ensures Entries() == Without(old(Entries()), i)
    {
      hide Consistent, Entries, Without, IpState.View;
      ghost var before := Entries();
      RemovedIsConsistent(lru, states, i);
      states := states - {lru[i].ip};
      lru := Without(lru, i);
      assert Entries() == Without(before, i);
    }

    method AddFront(ip: string) returns (s: IpState)
      requires Valid() && ip !in states
      modifies this`lru, this`states
      ensures Valid() && fresh(s) && fresh(s.syns) && lru == [s] + old(lru)
      ensures Entries() == [Entry(ip, NewState(config))] + old(Entries())
    {
      hide Consistent, Entries, IpState.View, NewState;
      ghost var before := Entries();
      s := new IpState(ip, config);
      assert Entries() == before;
      AddedIsConsistent(lru, states, s);
      NewStateIsValid(config);
      lru := [s] + lru;
      states := states[ip := s];
      assert Entries() == [Entry(ip, NewState(config))] + before;
    }

    method GetOrCreateState(ip: string) returns (s: IpState)
      requires Valid()
      modifies this`lru, this`states
      ensures Valid() && |lru| > 0 && lru[0] == s
      ensures forall x | x in lru :: x in old(lru) || (fresh(x) && fresh(x.syns))
      ensures Entries() == Touch(old(Entries()), ip, config.maxStates, NewState(config))
    {
      hide Touch, Find, NewState, Consistent, Entries, Without, IpState.View;
      if ip in states {
        s := ByIp(ip);
        MoveToFront(s);
        return;
      }
      MissingFromList(lru, states, ip);
      TouchMissing(Entries(), ip, config.maxStates, NewState(config));
      if |lru| >= config.maxStates {
        if |lru| > 0 {
          WithoutLast(Entries());
          RemoveAt(|lru| - 1);
        }
      }
      s := AddFront(ip);
    }

    method ByIp(ip: string) returns (s: IpState)
      requires Valid() && ip in states
      ensures s in lru && s.ip == ip
    {
      s := states[ip];
    }

    method Evaluate(event: Event) returns (decision: Option<Decision>)
      requires Valid()
      modifies this, lru, set s | s in lru :: s.syns
      ensures Valid()
      ensures forall x | x in lru :: x in old(lru) || (fresh(x) && fresh(x.syns))
      ensures old(ValidLru(config, Entries()))
      ensures Entries() == EvaluateLru(config, old(Entries()), event).0
      ensures decision == EvaluateLru(config, old(Entries()), event).1
    {
      hide Touch, Find, NewState, EvaluateState, Consistent, Entries, IpState.View;
      EntriesAreValid();
      var state := GetOrCreateState(event.ip);
      ghost var touched := Entries();
      OthersAreSeparate(lru, states);
      assert state in lru;
      decision := EvaluateRecord(state, event);
      assert Entries()[1..] == touched[1..];
      assert Entries() == [Entries()[0]] + Entries()[1..];
    }

    /** The decision for a record that was just looked up. */
    method EvaluateRecord(state: IpState, event: Event) returns (decision: Option<Decision>)
      requires config.Valid() && state.View().Valid(config)
      modifies state, state.syns
      ensures (state.View(), decision) == EvaluateState(config, old(state.View()), event)
    {
      decision := None;
      if state.blocked {
        return;
      }
      var now := event.time;
      if event.protocol == 6 && event.flags & 0x02 != 0 {
        state.RecordSyn(now);
        var count := state.CountSyns(now, config.synWindow);
        if count > config.synThreshold {
          state.blocked := true;
          return Some(Decision(event.ip, Block, HOUR, event.port, event.protocol));
        }
      }
      state.ports := state.ports[event.port := now];
      var uniquePorts := state.ExpirePorts(now, config.portWindow);
      if uniquePorts > config.portThreshold {
        if !state.rateLimited {
          state.rateLimited := true;
          state.lastLimited := now;
          return Some(Decision(event.ip, RateLimit, 10 * MINUTE, event.port, event.protocol));
        }
      }
    }

    /** The three-way staleness test on a record. */
    method ShouldEvict(state: IpState, now: Time) returns (shouldEvict: bool)
      requires Valid() && state in lru
      ensures shouldEvict == StaleView(state.View(), now)
    {
      var lastActivity := state.GetLastActivity();
      shouldEvict := false;
      if lastActivity != 0 && now - lastActivity > 10 * MINUTE {
        shouldEvict := true;
      }
      if state.rateLimited && now - state.lastLimited > 10 * MINUTE {
        shouldEvict := true;
      }
      if state.blocked && now - lastActivity > HOUR {
        shouldEvict := true;
      }
    }

    /** Visits the record at `i - 1`, and removes it when it is stale. */
    method VisitBack(i: nat, now: Time, ghost before: seq<Entry<IpView>>, ghost kept: seq<Entry<IpView>>)
      returns (ghost left: seq<Entry<IpView>>)
      requires Valid() && 0 < i <= |before| && PrunesTo(config, before, i, now, kept)
      requires Entries() == before[..i] + kept
      modifies this`lru, this`states
      ensures Valid() && AllIn(lru, old(lru)) && |lru| >= i - 1
      ensures Entries() == before[..i - 1] + left && PrunesTo(config, before, i - 1, now, left)
    {
      hide Consistent, Entries, IpState.View, StaleView, PruneLru, ValidLru, PrunesTo, Without, Valid, AllIn;
      var prev := i - 1;
      PruneOneMore(config, before, i, now, kept);
      SplitAt(Entries(), before, kept, i);
      var shouldEvict := ShouldEvict(lru[prev], now);
      if shouldEvict {
        RemoveAt(prev);
        left := kept;
      } else {
        AllInTrans(lru, lru, lru);
        left := [before[prev]] + kept;
      }
    }

    /** Walks the list from the back and removes stale records on the way. */
    method PruneStates(now: Time)
      requires Valid()
      modifies this`lru, this`states
      ensures Valid()
      ensures AllIn(lru, old(lru))
      ensures old(ValidLru(config, Entries()))
      ensures Entries() == PruneLru(config, old(Entries()), now)
    {
      hide Consistent, Entries, IpState.View, StaleView, PruneLru, ValidLru, PrunesTo, Without, Valid, AllIn;
      EntriesAreValid();
      ghost var before := Entries();
      ghost var kept: seq<Entry<IpView>> := [];
      PruneStarts(config, before, now);
      AllInTrans(lru, lru, lru);
      var i := |lru|;
      while i > 0
        invariant 0 <= i <= |lru| && i <= |before|
        invariant Valid()
        invariant AllIn(lru, old(lru))
        invariant Entries() == before[..i] + kept
        invariant PrunesTo(config, before, i, now, kept)
      {
        ghost var was := lru;
        kept := VisitBack(i, now, before, kept);
        AllInTrans(lru, was, old(lru));
        i := i - 1;
      }
      PruneEnds(config, before, now, kept);
    }
  }

  /** What is left to visit, `lru[..i]`, and what was kept behind it. */
  ghost predicate PrunesTo(cfg: Config, lru: seq<Entry<IpView>>, i: nat, now: Time, kept: seq<Entry<IpView>>) {
    && cfg.Valid() && ValidLru(cfg, lru) && i <= |lru|
    && PruneLru(cfg, lru, now) == PruneLru(cfg, lru[..i], now) + kept
  }

  lemma PruneStarts(cfg: Config, lru: seq<Entry<IpView>>, now: Time)
    requires cfg.Valid() && ValidLru(cfg, lru)
    ensures PrunesTo(cfg, lru, |lru|, now, [])
  {
    assert lru[..|lru|] == lru;
  }

  lemma PruneOneMore(cfg: Config, lru: seq<Entry<IpView>>, i: nat, now: Time, kept: seq<Entry<IpView>>)
    requires 0 < i && PrunesTo(cfg, lru, i, now, kept)
    ensures lru[i - 1].st.Valid(cfg)
    ensures PrunesTo(cfg, lru, i - 1, now, if StaleView(lru[i - 1].st, now) then kept else [lru[i - 1]] + kept)
  {
    hide StaleView;
    assert lru[..i][..i - 1] == lru[..i - 1];
  }

  lemma SplitAt(es: seq<Entry<IpView>>, lru: seq<Entry<IpView>>, kept: seq<Entry<IpView>>, i: nat)
    requires 0 < i <= |lru| && es == lru[..i] + kept
    ensures es[i - 1] == lru[i - 1]
    ensures Without(es, i - 1) == lru[..i - 1] + kept
    ensures es == lru[..i - 1] + ([lru[i - 1]] + kept)
  {
  }

  lemma PruneEnds(cfg: Config, lru: seq<Entry<IpView>>, now: Time, kept: seq<Entry<IpView>>)
    requires PrunesTo(cfg, lru, 0, now, kept)
    ensures PruneLru(cfg, lru, now) == lru[..0] + kept
  {
  }
}
