/** The bounded analyzer against an unbounded reference.

    The reference remembers, for every IP it tracks, all events processed since the
    state was created, and decides from that log. The bounded analyzer keeps
    threshold + 1 timestamps and a self-pruning port map. Both drop states in the
    same way, so the two run in lockstep. */
module AnalyzerRefinement {
  import opened Options
  import opened Durations
  import opened AnalyzerModel

  // ---------- the reference ----------

  /** `log` holds the events processed before the IP was blocked, the blocking one included. */
  datatype Logged = Logged(log: seq<Event>, blocked: bool, limited: bool, lastLimited: Time)

  /** TCP with the second flag bit, which the source calls a SYN. */
  predicate IsSyn(e: Event) {
    e.protocol == 6 && e.flags as int / 2 % 2 == 1
  }

  lemma CountedIsSyn(e: Event)
    ensures Counted(e) <==> IsSyn(e)
  {
    SecondBit(e.flags);
  }

  lemma SecondBit(flags: bv8)
    ensures flags & 0x02 != 0 <==> flags as int / 2 % 2 == 1
  {
  }

  function SynTimes(log: seq<Event>): (ts: seq<Time>)
    ensures |ts| <= |log|
  {
    if log == [] then []
    else
      var e := log[|log| - 1];
      SynTimes(log[..|log| - 1]) + if IsSyn(e) then [e.time] else []
  }

  /** The SYNs of the log at a known time inside the window that ends at `now`. */
  function RecentSyns(log: seq<Event>, now: Time, window: int): (recent: set<nat>) {
    set i: nat | i < |log| && IsSyn(log[i]) && 0 < log[i].time <= now < log[i].time + window
  }

  /** Distinct ports hit inside the window that ends at `now`. */
  function PortsHit(log: seq<Event>, now: Time, window: int): (ports: set<Port>) {
    set i | 0 <= i < |log| && log[i].time <= now < log[i].time + window :: log[i].port
  }

  function EvaluateLogged(cfg: Config, a: Logged, e: Event): (r: (Logged, Option<Decision>)) {
    if a.blocked then (a, None)
    else
      var log := a.log + [e];
      if IsSyn(e) && |RecentSyns(log, e.time, cfg.synWindow)| > cfg.synThreshold then
        (a.(log := log, blocked := true), Some(Decision(e.ip, Block, HOUR, e.port, e.protocol)))
      else if |PortsHit(log, e.time, cfg.portWindow)| > cfg.portThreshold && !a.limited then
        (a.(log := log, limited := true, lastLimited := e.time),
         Some(Decision(e.ip, RateLimit, 10 * MINUTE, e.port, e.protocol)))
      else
        (a.(log := log), None)
  }

  /** Last activity read off the log: the last processed event. Only when the port
      window is empty, so that no port is ever remembered, do uncounted events leave
      no trace. */
  function LastLogged(cfg: Config, a: Logged): Time {
    if a.log == [] then 0
    else if a.blocked || cfg.portWindow > 0 then a.log[|a.log| - 1].time
    else
      var ts := SynTimes(a.log);
      if ts == [] then 0 else ts[|ts| - 1]
  }

  predicate StaleLogged(cfg: Config, a: Logged, now: Time) {
    Stale(LastLogged(cfg, a), a.blocked, a.limited, a.lastLimited, now)
  }

  const NEW_LOG := Logged([], false, false, 0)

  function EvaluateRef(cfg: Config, lru: seq<Entry<Logged>>, e: Event): (r: (seq<Entry<Logged>>, Option<Decision>)) {
    var touched := Touch(lru, e.ip, cfg.maxStates, NEW_LOG);
    var (st, d) := EvaluateLogged(cfg, touched[0].st, e);
    ([Entry(e.ip, st)] + touched[1..], d)
  }

  function PruneRef(cfg: Config, lru: seq<Entry<Logged>>, now: Time): (r: seq<Entry<Logged>>) {
    if lru == [] then []
    else
      var x := lru[|lru| - 1];
      PruneRef(cfg, lru[..|lru| - 1], now) + if StaleLogged(cfg, x.st, now) then [] else [x]
  }

  function AfterRef(cfg: Config, steps: seq<Step>): (lru: seq<Entry<Logged>>) {
    if steps == [] then []
    else
      var before := AfterRef(cfg, steps[..|steps| - 1]);
      match steps[|steps| - 1]
      case Eval(e) => EvaluateRef(cfg, before, e).0
      case Prune(now) => PruneRef(cfg, before, now)
  }

  function AnswerRef(cfg: Config, steps: seq<Step>, i: nat): Option<Decision>
    requires i < |steps|
  {
    match steps[i]
    case Eval(e) => EvaluateRef(cfg, AfterRef(cfg, steps[..i]), e).1
    case Prune(_) => None
  }

  // ---------- counting ----------

  lemma {:induction false} CountConcat(a: seq<Time>, b: seq<Time>, now: Time, window: int)
    ensures CountIn(a + b, now, window) == CountIn(a, now, window) + CountIn(b, now, window)
  {
    if b == [] {
      assert a + b == a;
    } else {
      assert (a + b)[..|a + b| - 1] == a + b[..|b| - 1];
      CountConcat(a, b[..|b| - 1], now, window);
    }
  }

  lemma {:induction false} CountAll(ts: seq<Time>, now: Time, window: int)
    ensures CountIn(ts, now, window) == |ts| <==> forall i | 0 <= i < |ts| :: InSynWindow(ts[i], now, window)
  {
    if ts != [] {
      var front := ts[..|ts| - 1];
      CountAll(front, now, window);
      assert forall i | 0 <= i < |front| :: front[i] == ts[i];
      if CountIn(ts, now, window) == |ts| {
        assert CountIn(front, now, window) == |front|;
        forall i | 0 <= i < |ts| ensures InSynWindow(ts[i], now, window) {
          assert i < |front| ==> InSynWindow(front[i], now, window);
        }
      }
    }
  }

  ghost predicate Sorted(ts: seq<Time>) {
    forall i, j | 0 <= i <= j < |ts| :: ts[i] <= ts[j]
  }

  /** The last `n` elements, or all of them when there are fewer. */
  function Suffix(ts: seq<Time>, n: nat): (r: seq<Time>)
    ensures |r| == if |ts| <= n then |ts| else n
  {
    if |ts| <= n then ts else ts[|ts| - n..]
  }

  lemma SuffixCount(ts: seq<Time>, n: nat, now: Time, window: int)
    ensures CountIn(Suffix(ts, n), now, window) <= CountIn(ts, now, window)
  {
    if |ts| > n {
      assert ts == ts[..|ts| - n] + ts[|ts| - n..];
      CountConcat(ts[..|ts| - n], ts[|ts| - n..], now, window);
    }
  }

  lemma CountNone(ts: seq<Time>, now: Time, window: int)
    requires forall i | 0 <= i < |ts| :: !InSynWindow(ts[i], now, window)
    ensures CountIn(ts, now, window) == 0
  {
  }

  /** When times do not decrease, the last threshold + 1 of them tell whether more than
      threshold of all of them lie in the window. */
  lemma SuffixDecides(ts: seq<Time>, threshold: nat, now: Time, window: int)
    requires Sorted(ts) && |ts| > 0 && ts[|ts| - 1] == now
    ensures CountIn(Suffix(ts, threshold + 1), now, window) > threshold
            <==> CountIn(ts, now, window) > threshold
  {
    var n := threshold + 1;
    SuffixCount(ts, n, now, window);
    if |ts| > n && CountIn(ts, now, window) > threshold {
      var k := |ts| - n;
      var recent := ts[k..];
      assert ts == ts[..k + 1] + ts[k + 1..];
      CountConcat(ts[..k + 1], ts[k + 1..], now, window);
      if !InSynWindow(ts[k], now, window) {
        var early := ts[..k + 1];
        forall i | 0 <= i < |early| ensures !InSynWindow(early[i], now, window) {
          assert ts[i] <= ts[k] <= now;
        }
        CountNone(early, now, window);
        assert false;
      }
      forall i | 0 <= i < |recent| ensures InSynWindow(recent[i], now, window) {
        assert ts[k] <= ts[k + i] <= ts[|ts| - 1];
      }
      CountAll(recent, now, window);
    }
  }

  // ---------- the ring ----------

  /** The ring, read from its oldest element, is the tail of the list of counted times. */
  ghost predicate RingHolds(cfg: Config, s: IpView, ts: seq<Time>)
    requires cfg.Valid()
  {
    && s.Valid(cfg)
    && s.len == |Suffix(ts, cfg.RingSize())|
    && (s.len < |s.ring| ==> s.idx == s.len && s.ring[..s.len] == ts)
    && (s.len == |s.ring| ==> s.ring[s.idx..] + s.ring[..s.idx] == Suffix(ts, cfg.RingSize()))
  }

  lemma PushGrows(cfg: Config, s: IpView, ts: seq<Time>, now: Time)
    requires cfg.Valid() && RingHolds(cfg, s, ts) && s.len < |s.ring|
    ensures RingHolds(cfg, Push(s, now), ts + [now])
  {
    var s' := Push(s, now);
    assert s'.ring[..s.len + 1] == ts + [now];
    if s.len + 1 == |s.ring| {
      assert s'.ring[0..] + s'.ring[..0] == s'.ring[..s.len + 1];
    }
  }

  lemma RotateOnce(ring: seq<Time>, idx: nat, now: Time)
    requires idx < |ring|
    ensures var r, next := ring[idx := now], NextIndex(idx, |ring|);
            r[next..] + r[..next] == (ring[idx..] + ring[..idx])[1..] + [now]
  {
    var r := ring[idx := now];
    assert r[..idx + 1] == ring[..idx] + [now];
    assert r[idx + 1..] == ring[idx + 1..];
    assert (ring[idx..] + ring[..idx])[1..] == ring[idx + 1..] + ring[..idx];
  }

  lemma SuffixSlides(ts: seq<Time>, n: nat, now: Time)
    requires 0 < n <= |ts|
    ensures Suffix(ts + [now], n) == Suffix(ts, n)[1..] + [now]
  {
    var k := |ts| - n;
    assert Suffix(ts, n) == ts[k..];
    assert Suffix(ts + [now], n) == (ts + [now])[k + 1..];
  }

  lemma PushRotates(cfg: Config, s: IpView, ts: seq<Time>, now: Time)
    requires cfg.Valid() && RingHolds(cfg, s, ts) && s.len == |s.ring|
    ensures RingHolds(cfg, Push(s, now), ts + [now])
  {
    hide Suffix;
    RotateOnce(s.ring, s.idx, now);
    SuffixSlides(ts, cfg.RingSize(), now);
  }

  lemma PushKeepsRing(cfg: Config, s: IpView, ts: seq<Time>, now: Time)
    requires cfg.Valid() && RingHolds(cfg, s, ts)
    ensures RingHolds(cfg, Push(s, now), ts + [now])
  {
    if s.len < |s.ring| { PushGrows(cfg, s, ts, now); } else { PushRotates(cfg, s, ts, now); }
  }

  lemma RingCount(cfg: Config, s: IpView, ts: seq<Time>, now: Time)
    requires cfg.Valid() && RingHolds(cfg, s, ts)
    ensures CountIn(s.ring[..s.len], now, cfg.synWindow)
            == CountIn(Suffix(ts, cfg.RingSize()), now, cfg.synWindow)
  {
    if s.len == |s.ring| {
      hide CountIn, Suffix;
      RotationCount(s.ring, s.idx, now, cfg.synWindow);
      assert s.ring[..s.len] == s.ring;
    }
  }

  /** Counting does not depend on where the ring is cut. */
  lemma RotationCount(ring: seq<Time>, idx: nat, now: Time, window: int)
    requires idx <= |ring|
    ensures CountIn(ring[idx..] + ring[..idx], now, window) == CountIn(ring, now, window)
  {
    hide CountIn;
    CountConcat(ring[idx..], ring[..idx], now, window);
    CountConcat(ring[..idx], ring[idx..], now, window);
    assert ring == ring[..idx] + ring[idx..];
  }

  // ---------- the ports ----------

  /** Time of the last event in the log that hit `p`. */
  function LastHit(log: seq<Event>, p: Port): (t: Option<Time>)
    ensures t == None <==> forall i | 0 <= i < |log| :: log[i].port != p
    ensures t.Some? ==> exists i :: 0 <= i < |log| && log[i].port == p && log[i].time == t.value
  {
    if log == [] then None
    else
      var e := log[|log| - 1];
      if e.port == p then Some(e.time) else LastHit(log[..|log| - 1], p)
  }

  ghost predicate OrderedLog(log: seq<Event>) {
    forall i, j | 0 <= i <= j < |log| :: log[i].time <= log[j].time
  }

  lemma {:induction false} LastHitIsLatest(log: seq<Event>, p: Port, i: nat)
    requires OrderedLog(log) && i < |log| && log[i].port == p
    ensures LastHit(log, p).Some? && log[i].time <= LastHit(log, p).value
  {
    var k := |log| - 1;
    if log[k].port != p {
      var front := log[..k];
      assert front[i] == log[i];
      assert OrderedLog(front);
      LastHitIsLatest(front, p, i);
    }
  }

  /** The map remembers the last hit of every port hit inside the window, and nothing else. */
  ghost predicate PortsHold(ports: map<Port, Time>, log: seq<Event>, now: Time, window: int) {
    forall p: Port ::
      && (p in ports <==> LastHit(log, p).Some? && InPortWindow(LastHit(log, p).value, now, window))
      && (p in ports ==> ports[p] == LastHit(log, p).value)
  }

  lemma PortsStep(ports: map<Port, Time>, log: seq<Event>, before: Time, e: Event, window: int)
    requires OrderedLog(log + [e])
    requires log == [] ==> ports == map[]
    requires log != [] ==> before == log[|log| - 1].time && PortsHold(ports, log, before, window)
    ensures PortsHold(LivePorts(ports[e.port := e.time], e.time, window), log + [e], e.time, window)
  {
    var live := LivePorts(ports[e.port := e.time], e.time, window);
    assert (log + [e])[..|log + [e]| - 1] == log;
    forall p: Port
      ensures p in live <==> LastHit(log + [e], p).Some? && InPortWindow(LastHit(log + [e], p).value, e.time, window)
      ensures p in live ==> live[p] == LastHit(log + [e], p).value
    {
      if p != e.port && log != [] {
        assert LastHit(log + [e], p) == LastHit(log, p);
        assert (log + [e])[|log| - 1].time <= (log + [e])[|log|].time;
      }
    }
  }

  lemma HitIsIn(log: seq<Event>, i: nat, now: Time, window: int)
    requires i < |log| && log[i].time <= now < log[i].time + window
    ensures log[i].port in PortsHit(log, now, window)
  {
  }

  lemma PortsAreThoseHit(ports: map<Port, Time>, log: seq<Event>, now: Time, window: int)
    requires log != [] && OrderedLog(log) && log[|log| - 1].time == now
    requires PortsHold(ports, log, now, window)
    ensures ports.Keys == PortsHit(log, now, window)
    ensures |ports| == |PortsHit(log, now, window)|
  {
    forall p: Port ensures p in ports <==> p in PortsHit(log, now, window) {
      if p in ports {
        var i :| 0 <= i < |log| && log[i].port == p && log[i].time == LastHit(log, p).value;
        assert InPortWindow(log[i].time, now, window);
        HitIsIn(log, i, now, window);
      }
      if p in PortsHit(log, now, window) {
        var i :| 0 <= i < |log| && log[i].time <= now < log[i].time + window && log[i].port == p;
        LastHitIsLatest(log, p, i);
        var j :| 0 <= j < |log| && log[j].port == p && log[j].time == LastHit(log, p).value;
        assert log[j].time <= log[|log| - 1].time;
        assert InPortWindow(LastHit(log, p).value, now, window);
      }
    }
    assert ports.Keys == PortsHit(log, now, window);
  }

  // ---------- the simulation ----------

  ghost predicate Related(cfg: Config, c: IpView, a: Logged)
    requires cfg.Valid()
  {
    && OrderedLog(a.log)
    && RingHolds(cfg, c, SynTimes(a.log))
    && c.blocked == a.blocked && c.limited == a.limited && c.lastLimited == a.lastLimited
    && (a.log == [] ==> c.ports == map[] && !a.blocked)
    && (a.log != [] && !a.blocked ==> PortsHold(c.ports, a.log, a.log[|a.log| - 1].time, cfg.portWindow))
    && (a.blocked ==> IsSyn(a.log[|a.log| - 1])
                      && forall p | p in c.ports :: c.ports[p] <= a.log[|a.log| - 1].time)
  }

  lemma {:induction false} SynTimesSorted(log: seq<Event>)
    requires OrderedLog(log)
    ensures Sorted(SynTimes(log))
    ensures forall t | t in SynTimes(log) :: t <= log[|log| - 1].time
  {
    if log != [] {
      var front := log[..|log| - 1];
      SynTimesSorted(front);
      forall t | t in SynTimes(log) ensures t <= log[|log| - 1].time {
        if t in SynTimes(front) { assert log[|log| - 2].time <= log[|log| - 1].time; }
      }
      var ts := SynTimes(log);
      forall i, j | 0 <= i <= j < |ts| ensures ts[i] <= ts[j] {
        if j < |SynTimes(front)| {
          assert ts[i] == SynTimes(front)[i] && ts[j] == SynTimes(front)[j];
        } else {
          assert ts[i] in ts;
        }
      }
    }
  }

  lemma NewRelated(cfg: Config)
    requires cfg.Valid()
    ensures Related(cfg, NewState(cfg), NEW_LOG)
  {
  }

  lemma SynTimesStep(log: seq<Event>, e: Event)
    ensures SynTimes(log + [e]) == if IsSyn(e) then SynTimes(log) + [e.time] else SynTimes(log)
  {
    assert (log + [e])[..|log + [e]| - 1] == log;
  }

  lemma {:induction false} RecentCount(log: seq<Event>, now: Time, window: int)
    ensures |RecentSyns(log, now, window)| == CountIn(SynTimes(log), now, window)
  {
    if log != [] {
      hide IsSyn, RecentSyns, CountIn;
      var front, e := log[..|log| - 1], log[|log| - 1];
      RecentCount(front, now, window);
      OneMoreRecent(log, now, window);
      OneMoreCount(SynTimes(front), e.time, now, window);
    }
  }

  lemma OneMoreRecent(log: seq<Event>, now: Time, window: int)
    requires log != []
    ensures var front, e := log[..|log| - 1], log[|log| - 1];
            |RecentSyns(log, now, window)|
            == |RecentSyns(front, now, window)| + if IsSyn(e) && 0 < e.time <= now < e.time + window then 1 else 0
  {
    hide IsSyn;
    var k := |log| - 1;
    var front, before, after := log[..k], RecentSyns(log[..k], now, window), RecentSyns(log, now, window);
    forall i: nat ensures i in before <==> i < k && i in after {
      if i < k { assert front[i] == log[i]; }
    }
    assert after == before + if k in after then {k} else {};
  }

  lemma OneMoreCount(ts: seq<Time>, t: Time, now: Time, window: int)
    ensures CountIn(ts + [t], now, window)
            == CountIn(ts, now, window) + if 0 < t <= now < t + window then 1 else 0
    ensures CountIn(ts + [], now, window) == CountIn(ts, now, window)
  {
    assert (ts + [t])[..|ts|] == ts && ts + [] == ts;
  }

  lemma FloodAgrees(cfg: Config, c: IpView, log: seq<Event>, e: Event)
    requires cfg.Valid() && RingHolds(cfg, c, SynTimes(log)) && IsSyn(e)
    requires OrderedLog(log + [e])
    ensures RingHolds(cfg, Push(c, e.time), SynTimes(log + [e]))
    ensures var c1 := Push(c, e.time);
            CountIn(c1.ring[..c1.len], e.time, cfg.synWindow) > cfg.synThreshold
            <==> |RecentSyns(log + [e], e.time, cfg.synWindow)| > cfg.synThreshold
  {
    hide CountIn, Push, Suffix, OrderedLog, SynTimes, RecentSyns;
    RecentCount(log + [e], e.time, cfg.synWindow);
    SynTimesStep(log, e);
    var ts := SynTimes(log + [e]);
    SynTimesSorted(log + [e]);
    PushKeepsRing(cfg, c, SynTimes(log), e.time);
    RingCount(cfg, Push(c, e.time), ts, e.time);
    SuffixDecides(ts, cfg.synThreshold, e.time, cfg.synWindow);
  }

  lemma PortsAgree(cfg: Config, c: IpView, log: seq<Event>, e: Event)
    requires OrderedLog(log + [e])
    requires log == [] ==> c.ports == map[]
    requires log != [] ==> PortsHold(c.ports, log, log[|log| - 1].time, cfg.portWindow)
    ensures var live := LivePorts(c.ports[e.port := e.time], e.time, cfg.portWindow);
            && PortsHold(live, log + [e], e.time, cfg.portWindow)
            && |live| == |PortsHit(log + [e], e.time, cfg.portWindow)|
  {
    var before := if log == [] then 0 else log[|log| - 1].time;
    PortsStep(c.ports, log, before, e, cfg.portWindow);
    var live := LivePorts(c.ports[e.port := e.time], e.time, cfg.portWindow);
    PortsAreThoseHit(live, log + [e], e.time, cfg.portWindow);
  }

  lemma PortTimesBounded(ports: map<Port, Time>, log: seq<Event>, e: Event, window: int)
    requires OrderedLog(log + [e])
    requires log == [] ==> ports == map[]
    requires log != [] ==> PortsHold(ports, log, log[|log| - 1].time, window)
    ensures forall p | p in ports :: ports[p] <= e.time
  {
    forall p | p in ports ensures ports[p] <= e.time {
      assert LastHit(log, p).Some?;
      var i :| 0 <= i < |log| && log[i].port == p && log[i].time == LastHit(log, p).value;
      assert (log + [e])[i].time <= (log + [e])[|log|].time;
    }
  }

  /** One event: the bounded state and the log give the same answer and stay related. */
  lemma EvaluateRelated(cfg: Config, c: IpView, a: Logged, e: Event)
    requires cfg.Valid() && Related(cfg, c, a)
    requires OrderedLog(a.log + [e])
    ensures EvaluateState(cfg, c, e).1 == EvaluateLogged(cfg, a, e).1
    ensures Related(cfg, EvaluateState(cfg, c, e).0, EvaluateLogged(cfg, a, e).0)
  {
    hide CountIn, LivePorts, PortsHit, PortsHold, Push, OrderedLog, Suffix, SynTimes, RecentSyns, Counted, IsSyn;
    CountedIsSyn(e);
    if !a.blocked {
      var log := a.log + [e];
      assert log[|log| - 1] == e;
      SynTimesStep(a.log, e);
      if IsSyn(e) {
        FloodAgrees(cfg, c, a.log, e);
      }
      if IsSyn(e) && |RecentSyns(log, e.time, cfg.synWindow)| > cfg.synThreshold {
        PortTimesBounded(c.ports, a.log, e, cfg.portWindow);
      } else {
        PortsAgree(cfg, c, a.log, e);
      }
    }
  }

  lemma RingMember(cfg: Config, c: IpView, ts: seq<Time>, t: Time)
    requires cfg.Valid() && RingHolds(cfg, c, ts)
    ensures t in c.ring[..c.len] <==> t in Suffix(ts, cfg.RingSize())
  {
    if c.len == |c.ring| {
      assert c.ring[..c.len] == c.ring[..c.idx] + c.ring[c.idx..];
    }
  }

  /** The last activity found in the ring and the port map is the one in the log. */
  lemma ActivityRelated(cfg: Config, c: IpView, a: Logged)
    requires cfg.Valid() && Related(cfg, c, a)
    ensures LastActivity(c) == LastLogged(cfg, a)
  {
    NothingIsLater(cfg, c, a);
    LastIsActive(cfg, c, a);
    hide Active, LastLogged, LastActivity, Related;
    LastActivityUnique(c, LastLogged(cfg, a));
  }

  lemma NothingIsLater(cfg: Config, c: IpView, a: Logged)
    requires cfg.Valid() && Related(cfg, c, a)
    ensures c.len <= |c.ring| && forall u: Time | Active(c, u) :: u <= LastLogged(cfg, a)
  {
    hide SynTimes, OrderedLog;
    var ts := SynTimes(a.log);
    var last := LastLogged(cfg, a);
    SynTimesSorted(a.log);
    forall u: Time | Active(c, u) ensures u <= last {
      RingMember(cfg, c, ts, u);
      if u in c.ring[..c.len] {
        var i :| 0 <= i < |ts| && ts[i] == u;
        assert ts[i] <= ts[|ts| - 1];
        assert u in ts;
      } else {
        var p :| p in c.ports && c.ports[p] == u;
        if !a.blocked {
          var i :| 0 <= i < |a.log| && a.log[i].port == p && a.log[i].time == LastHit(a.log, p).value;
          assert a.log[i].time <= a.log[|a.log| - 1].time;
        }
      }
    }
  }

  lemma SuffixEnds(ts: seq<Time>, n: nat)
    requires ts != [] && n > 0
    ensures ts[|ts| - 1] in Suffix(ts, n)
  {
    var tail := Suffix(ts, n);
    assert tail[|tail| - 1] == ts[|ts| - 1];
  }

  lemma LastIsActive(cfg: Config, c: IpView, a: Logged)
    requires cfg.Valid() && Related(cfg, c, a)
    ensures c.len <= |c.ring| && (LastLogged(cfg, a) == 0 || Active(c, LastLogged(cfg, a)))
  {
    hide Suffix, OrderedLog;
    var ts := SynTimes(a.log);
    var last := LastLogged(cfg, a);
    if last != 0 {
      RingMember(cfg, c, ts, last);
      if a.blocked || cfg.portWindow <= 0 {
        assert last == ts[|ts| - 1];
        SuffixEnds(ts, cfg.RingSize());
      } else {
        var e := a.log[|a.log| - 1];
        assert LastHit(a.log, e.port) == Some(e.time);
        assert e.port in c.ports;
      }
    }
  }

  lemma StaleRelated(cfg: Config, c: IpView, a: Logged, now: Time)
    requires cfg.Valid() && Related(cfg, c, a)
    ensures StaleView(c, now) == StaleLogged(cfg, a, now)
  {
    ActivityRelated(cfg, c, a);
  }

  /** The lists agree entry by entry. */
  ghost predicate ListsRelated(cfg: Config, c: seq<Entry<IpView>>, a: seq<Entry<Logged>>)
    requires cfg.Valid()
  {
    && |c| == |a|
    && forall i | 0 <= i < |c| :: c[i].ip == a[i].ip && Related(cfg, c[i].st, a[i].st)
  }

  lemma {:induction false} FindRelated(cfg: Config, c: seq<Entry<IpView>>, a: seq<Entry<Logged>>, ip: string)
    requires cfg.Valid() && ListsRelated(cfg, c, a)
    ensures Find(c, ip) == Find(a, ip)
  {
    var i, j := Find(c, ip), Find(a, ip);
    var k := if i < j then i else j;
    assert k < |c| ==> c[k].ip == a[k].ip;
  }

  lemma TouchRelated(cfg: Config, c: seq<Entry<IpView>>, a: seq<Entry<Logged>>, ip: string)
    requires cfg.Valid() && ListsRelated(cfg, c, a)
    ensures ListsRelated(cfg, Touch(c, ip, cfg.maxStates, NewState(cfg)), Touch(a, ip, cfg.maxStates, NEW_LOG))
  {
    hide Related, NewState;
    FindRelated(cfg, c, a, ip);
    NewRelated(cfg);
  }

  lemma {:induction false} PruneRelated(cfg: Config, c: seq<Entry<IpView>>, a: seq<Entry<Logged>>, now: Time)
    requires cfg.Valid() && ValidLru(cfg, c) && ListsRelated(cfg, c, a)
    ensures ListsRelated(cfg, PruneLru(cfg, c, now), PruneRef(cfg, a, now))
  {
    hide Related, StaleLogged, StaleView;
    if c != [] {
      var k := |c| - 1;
      StaleRelated(cfg, c[k].st, a[k].st, now);
      var cf, af := c[..k], a[..k];
      assert ListsRelated(cfg, cf, af);
      PruneRelated(cfg, cf, af, now);
      assert PruneLru(cfg, c, now) == PruneLru(cfg, cf, now) + if StaleView(c[k].st, now) then [] else [c[k]];
      assert PruneRef(cfg, a, now) == PruneRef(cfg, af, now) + if StaleLogged(cfg, a[k].st, now) then [] else [a[k]];
    }
  }

  /** Events of one IP come with non-decreasing times; different IPs are unconstrained. */
  ghost predicate OrderedSteps(steps: seq<Step>) {
    forall i, j | 0 <= i <= j < |steps| && steps[i].Eval? && steps[j].Eval? && steps[i].e.ip == steps[j].e.ip
      :: steps[i].e.time <= steps[j].e.time
  }

  /** Every logged event is an event of the run, under its own IP. */
  ghost predicate LogsComeFrom(lru: seq<Entry<Logged>>, steps: seq<Step>) {
    forall i, ev | 0 <= i < |lru| && ev in lru[i].st.log :: Eval(ev) in steps && ev.ip == lru[i].ip
  }

  lemma PruneRefSubset(cfg: Config, lru: seq<Entry<Logged>>, now: Time)
    ensures forall x | x in PruneRef(cfg, lru, now) :: x in lru
  {
  }

  lemma TouchMembers<S>(lru: seq<Entry<S>>, ip: string, maxStates: int, initial: S)
    ensures forall x | x in Touch(lru, ip, maxStates, initial) :: x in lru || x == Entry(ip, initial)
  {
  }

  /** The state of both analyzers after one more event. */
  lemma EvalStep(cfg: Config, c: seq<Entry<IpView>>, a: seq<Entry<Logged>>, prefix: seq<Step>, e: Event)
    requires cfg.Valid() && ValidLru(cfg, c) && ListsRelated(cfg, c, a)
    requires LogsComeFrom(a, prefix) && OrderedSteps(prefix + [Eval(e)])
    ensures EvaluateLru(cfg, c, e).1 == EvaluateRef(cfg, a, e).1
    ensures ListsRelated(cfg, EvaluateLru(cfg, c, e).0, EvaluateRef(cfg, a, e).0)
  {
    hide Related, OrderedLog, EvaluateState, EvaluateLogged, OrderedSteps, Touch, LogsComeFrom;
    var tc, ta := Touch(c, e.ip, cfg.maxStates, NewState(cfg)), Touch(a, e.ip, cfg.maxStates, NEW_LOG);
    TouchRelated(cfg, c, a, e.ip);
    TouchKeepsLogs(cfg, a, prefix, e.ip);
    LogStaysOrdered(cfg, tc[0].st, ta, prefix, e);
    EvaluateRelated(cfg, tc[0].st, ta[0].st, e);
  }

  lemma TouchKeepsLogs(cfg: Config, a: seq<Entry<Logged>>, prefix: seq<Step>, ip: string)
    requires LogsComeFrom(a, prefix)
    ensures LogsComeFrom(Touch(a, ip, cfg.maxStates, NEW_LOG), prefix)
  {
    TouchMembers(a, ip, cfg.maxStates, NEW_LOG);
    var ta := Touch(a, ip, cfg.maxStates, NEW_LOG);
    forall i, ev | 0 <= i < |ta| && ev in ta[i].st.log ensures Eval(ev) in prefix && ev.ip == ta[i].ip {
      assert ta[i] in ta;
    }
  }

  lemma EvalKeepsLogs(cfg: Config, a: seq<Entry<Logged>>, prefix: seq<Step>, e: Event)
    requires LogsComeFrom(a, prefix)
    ensures LogsComeFrom(EvaluateRef(cfg, a, e).0, prefix + [Eval(e)])
  {
    hide Touch;
    TouchKeepsLogs(cfg, a, prefix, e.ip);
    var ta := Touch(a, e.ip, cfg.maxStates, NEW_LOG);
    var r := EvaluateRef(cfg, a, e).0;
    forall i, ev | 0 <= i < |r| && ev in r[i].st.log ensures Eval(ev) in prefix + [Eval(e)] && ev.ip == r[i].ip {
      if i > 0 {
        assert r[i] == ta[i];
      }
    }
  }

  lemma LogStaysOrdered(cfg: Config, c: IpView, a: seq<Entry<Logged>>, prefix: seq<Step>, e: Event)
    requires cfg.Valid() && a != [] && a[0].ip == e.ip && Related(cfg, c, a[0].st)
    requires LogsComeFrom(a, prefix) && OrderedSteps(prefix + [Eval(e)])
    ensures OrderedLog(a[0].st.log + [e])
  {
    var log := a[0].st.log;
    var steps := prefix + [Eval(e)];
    forall i, j | 0 <= i <= j < |log + [e]| ensures (log + [e])[i].time <= (log + [e])[j].time {
      if i < j == |log| {
        assert log[i] in log;
        var m :| 0 <= m < |prefix| && prefix[m] == Eval(log[i]);
        assert steps[m] == prefix[m] && steps[|prefix|] == Eval(e);
      }
    }
  }

  lemma PruneStep(cfg: Config, c: seq<Entry<IpView>>, a: seq<Entry<Logged>>, prefix: seq<Step>, now: Time)
    requires cfg.Valid() && ValidLru(cfg, c) && ListsRelated(cfg, c, a) && LogsComeFrom(a, prefix)
    ensures ListsRelated(cfg, PruneLru(cfg, c, now), PruneRef(cfg, a, now))
    ensures LogsComeFrom(PruneRef(cfg, a, now), prefix + [Prune(now)])
  {
    PruneRelated(cfg, c, a, now);
    PruneRefSubset(cfg, a, now);
    var r := PruneRef(cfg, a, now);
    forall i, ev | 0 <= i < |r| && ev in r[i].st.log
      ensures Eval(ev) in prefix + [Prune(now)] && ev.ip == r[i].ip
    {
      assert r[i] in r;
      var j :| 0 <= j < |a| && a[j] == r[i];
    }
  }

  lemma OrderedPrefix(steps: seq<Step>)
    requires OrderedSteps(steps) && steps != []
    ensures OrderedSteps(steps[..|steps| - 1])
  {
  }

  lemma {:induction false} Lockstep(cfg: Config, steps: seq<Step>)
    requires cfg.Valid() && OrderedSteps(steps)
    ensures ListsRelated(cfg, After(cfg, steps), AfterRef(cfg, steps))
    ensures LogsComeFrom(AfterRef(cfg, steps), steps)
  {
    if steps != [] {
      hide OrderedSteps, ListsRelated, LogsComeFrom, ValidLru, EvaluateLru, EvaluateRef, PruneLru, PruneRef, Related;
      var k := |steps| - 1;
      var prefix := steps[..k];
      assert steps == prefix + [steps[k]];
      OrderedPrefix(steps);
      Lockstep(cfg, prefix);
      match steps[k] {
        case Eval(e) =>
          EvalStep(cfg, After(cfg, prefix), AfterRef(cfg, prefix), prefix, e);
          EvalKeepsLogs(cfg, AfterRef(cfg, prefix), prefix, e);
        case Prune(now) => PruneStep(cfg, After(cfg, prefix), AfterRef(cfg, prefix), prefix, now);
      }
    }
  }

  /** Ring, port map and LRU list refine the unbounded log: over every run in which the
      events of each IP are in time order, with any prunes in between, both analyzers
      track the same IPs in the same order and give the same answer at every step. */
  lemma Refinement(cfg: Config, steps: seq<Step>)
    requires cfg.Valid() && OrderedSteps(steps)
    ensures ListsRelated(cfg, After(cfg, steps), AfterRef(cfg, steps))
    ensures forall i | 0 <= i < |steps| :: Answer(cfg, steps, i) == AnswerRef(cfg, steps, i)
  {
    hide Related, OrderedLog, EvaluateLru, EvaluateRef, After, AfterRef, LogsComeFrom, ListsRelated;
    Lockstep(cfg, steps);
    forall i | 0 <= i < |steps| ensures Answer(cfg, steps, i) == AnswerRef(cfg, steps, i) {
      if steps[i].Eval? {
        var prefix := steps[..i];
        Lockstep(cfg, prefix);
        assert prefix + [Eval(steps[i].e)] == steps[..i + 1];
        EvalStep(cfg, After(cfg, prefix), AfterRef(cfg, prefix), prefix, steps[i].e);
      }
    }
  }
}
