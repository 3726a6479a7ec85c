/** What every run of the analyzer keeps, whatever the order of its event times:
    which state an IP carries, what its answers can be, which IPs the list holds and
    what a cleanup pass removes. */
module AnalyzerProperties {
  import opened Options
  import opened Durations
  import opened AnalyzerModel
  import opened AnalyzerRefinement

  // ---------- one IP is isolated from the others ----------

  /** The events of one IP, in order. */
  ghost function EventsOf(steps: seq<Step>, ip: string): (es: seq<Event>)
    ensures forall e | e in es :: e.ip == ip
  {
    if steps == [] then []
    else
      var s := steps[|steps| - 1];
      EventsOf(steps[..|steps| - 1], ip) + if s.Eval? && s.e.ip == ip then [s.e] else []
  }

  /** A state that has seen exactly the events `es`. */
  ghost function StateAfter(cfg: Config, es: seq<Event>): (s: IpView)
    requires cfg.Valid()
    ensures s.Valid(cfg)
  {
    if es == [] then NewState(cfg)
    else EvaluateState(cfg, StateAfter(cfg, es[..|es| - 1]), es[|es| - 1]).0
  }

  ghost predicate Tracks(lru: seq<Entry<IpView>>, ip: string) {
    exists i :: 0 <= i < |lru| && lru[i].ip == ip
  }

  /** The state was created at step `k` and has seen every event of its IP since. */
  ghost predicate SeenSince(cfg: Config, steps: seq<Step>, x: Entry<IpView>, k: nat)
    requires cfg.Valid()
  {
    && k < |steps|
    && !Tracks(After(cfg, steps[..k]), x.ip)
    && x.st == StateAfter(cfg, EventsOf(steps[k..], x.ip))
    && forall j | k < j <= |steps| :: Tracks(After(cfg, steps[..j]), x.ip)
  }

  lemma EventsOneMore(steps: seq<Step>, k: nat, ip: string)
    requires k < |steps|
    ensures var s := steps[|steps| - 1];
            var earlier := EventsOf(steps[..|steps| - 1][k..], ip);
            EventsOf(steps[k..], ip) == if s.Eval? && s.e.ip == ip then earlier + [s.e] else earlier
  {
    assert steps[k..][..|steps[k..]| - 1] == steps[..|steps| - 1][k..];
  }

  lemma StateOneMore(cfg: Config, es: seq<Event>, e: Event)
    requires cfg.Valid()
    ensures StateAfter(cfg, es + [e]) == EvaluateState(cfg, StateAfter(cfg, es), e).0
  {
    assert (es + [e])[..|es + [e]| - 1] == es;
  }

  lemma TracksOneMore(cfg: Config, steps: seq<Step>, prefix: seq<Step>, x: Entry<IpView>, k: nat)
    requires cfg.Valid() && |steps| > 0 && prefix == steps[..|steps| - 1] && x in After(cfg, steps)
    requires forall j | k < j <= |prefix| :: Tracks(After(cfg, prefix[..j]), x.ip)
    ensures forall j | k < j <= |steps| :: Tracks(After(cfg, steps[..j]), x.ip)
  {
    hide After;
    forall j | k < j <= |steps| ensures Tracks(After(cfg, steps[..j]), x.ip) {
      if j < |steps| {
        assert prefix[..j] == steps[..j];
      } else {
        assert steps[..j] == steps;
      }
    }
  }

  /** One more step for a state that stays in the list. */
  lemma SeenOneMore(cfg: Config, steps: seq<Step>, was: Entry<IpView>, x: Entry<IpView>, k: nat)
    requires cfg.Valid() && |steps| > 0
    requires SeenSince(cfg, steps[..|steps| - 1], was, k)
    requires x in After(cfg, steps) && x.ip == was.ip
    requires var s := steps[|steps| - 1];
             x.st == if s.Eval? && s.e.ip == x.ip then EvaluateState(cfg, was.st, s.e).0 else was.st
    ensures SeenSince(cfg, steps, x, k)
  {
    hide EvaluateState, After, Tracks, EventsOf, StateAfter;
    var n := |steps| - 1;
    var prefix := steps[..n];
    EventsOneMore(steps, k, x.ip);
    StateOneMore(cfg, EventsOf(prefix[k..], x.ip), if steps[n].Eval? then steps[n].e else Event("", 0, 0, 0, 0));
    TracksOneMore(cfg, steps, prefix, x, k);
    assert prefix[..k] == steps[..k];
  }

  lemma SeenFromNew(cfg: Config, steps: seq<Step>, x: Entry<IpView>)
    requires cfg.Valid() && |steps| > 0 && steps[|steps| - 1].Eval?
    requires x in After(cfg, steps) && x.ip == steps[|steps| - 1].e.ip
    requires !Tracks(After(cfg, steps[..|steps| - 1]), x.ip)
    requires x.st == EvaluateState(cfg, NewState(cfg), steps[|steps| - 1].e).0
    ensures SeenSince(cfg, steps, x, |steps| - 1)
  {
    hide EvaluateState, After;
    var n := |steps| - 1;
    EventsOneMore(steps, n, x.ip);
    assert steps[..n][n..] == [];
    assert EventsOf(steps[n..], x.ip) == [] + [steps[n].e];
    StateOneMore(cfg, [], steps[n].e);
    TracksOneMore(cfg, steps, steps[..n], x, n);
  }

  /** Whatever happens to other IPs, the state of an IP is exactly what its own events
      since its creation make of a new state. */
  lemma {:induction false} StatesAreIsolated(cfg: Config, steps: seq<Step>, x: Entry<IpView>)
    requires cfg.Valid() && x in After(cfg, steps)
    ensures exists k :: SeenSince(cfg, steps, x, k)
  {
    hide SeenSince, EvaluateState;
    var n := |steps| - 1;
    var before := After(cfg, steps[..n]);
    var s := steps[n];
    if s.Eval? && x.ip == s.e.ip {
      var i := Find(before, x.ip);
      if i < |before| {
        StatesAreIsolated(cfg, steps[..n], before[i]);
        var k :| SeenSince(cfg, steps[..n], before[i], k);
        assert x == After(cfg, steps)[0];
        SeenOneMore(cfg, steps, before[i], x, k);
      } else {
        assert x == After(cfg, steps)[0];
        SeenFromNew(cfg, steps, x);
      }
    } else {
      assert x in before;
      StatesAreIsolated(cfg, steps[..n], x);
      var k :| SeenSince(cfg, steps[..n], x, k);
      SeenOneMore(cfg, steps, x, x, k);
    }
  }

  // ---------- answers without any assumption on time ----------

  /** What an unblocked state has kept of all the events it saw. */
  ghost predicate Remembers(cfg: Config, s: IpView, es: seq<Event>)
    requires cfg.Valid()
  {
    && RingHolds(cfg, s, SynTimes(es))
    && forall p | p in s.ports :: exists i :: 0 <= i < |es| && es[i].port == p && es[i].time == s.ports[p]
  }

  lemma {:induction false} UnblockedRemembers(cfg: Config, es: seq<Event>)
    requires cfg.Valid() && !StateAfter(cfg, es).blocked
    ensures Remembers(cfg, StateAfter(cfg, es), es)
  {
    if es != [] {
      hide Remembers, SynTimes, Push, LivePorts, CountIn;
      var front, e := es[..|es| - 1], es[|es| - 1];
      var before := StateAfter(cfg, front);
      assert StateAfter(cfg, es) == EvaluateState(cfg, before, e).0;
      if before.blocked { StaysBlocked(cfg, before, e); }
      hide EvaluateState;
      UnblockedRemembers(cfg, front);
      RemembersOneMore(cfg, before, front, e);
      assert front + [e] == es;
    }
  }

  lemma StaysBlocked(cfg: Config, s: IpView, e: Event)
    requires cfg.Valid() && s.Valid(cfg) && s.blocked
    ensures EvaluateState(cfg, s, e) == (s, None)
  {
  }

  lemma RemembersOneMore(cfg: Config, s: IpView, es: seq<Event>, e: Event)
    requires cfg.Valid() && Remembers(cfg, s, es) && !s.blocked && !EvaluateState(cfg, s, e).0.blocked
    ensures Remembers(cfg, EvaluateState(cfg, s, e).0, es + [e])
  {
    hide LivePorts, Push, SynTimes, CountIn, Suffix, Counted, IsSyn;
    CountedIsSyn(e);
    SynTimesStep(es, e);
    PushKeepsRing(cfg, s, SynTimes(es), e.time);
    PortsStillHit(cfg, s, es, e);
  }

  lemma PortsStillHit(cfg: Config, s: IpView, es: seq<Event>, e: Event)
    requires cfg.Valid() && Remembers(cfg, s, es)
    ensures var live := LivePorts(s.ports[e.port := e.time], e.time, cfg.portWindow);
            forall p | p in live ::
              exists i :: 0 <= i < |es + [e]| && (es + [e])[i].port == p && (es + [e])[i].time == live[p]
  {
    var live := LivePorts(s.ports[e.port := e.time], e.time, cfg.portWindow);
    forall p | p in live
      ensures exists i :: 0 <= i < |es + [e]| && (es + [e])[i].port == p && (es + [e])[i].time == live[p]
    {
      if p == e.port {
        assert (es + [e])[|es|] == e;
      } else {
        var i :| 0 <= i < |es| && es[i].port == p && es[i].time == s.ports[p];
        assert (es + [e])[i] == es[i];
      }
    }
  }

  lemma TailAllInWindow(ts: seq<Time>, threshold: nat, now: Time, window: int)
    ensures CountIn(Suffix(ts, threshold + 1), now, window) > threshold
            <==> |ts| > threshold && forall i | |ts| - threshold - 1 <= i < |ts| :: InSynWindow(ts[i], now, window)
  {
    hide CountIn, InSynWindow;
    var tail := Suffix(ts, threshold + 1);
    CountAll(tail, now, window);
    if |ts| > threshold {
      var k := |ts| - threshold - 1;
      assert forall i | 0 <= i < |tail| :: tail[i] == ts[k + i];
      assert forall i | k <= i < |ts| :: ts[i] == tail[i - k];
    }
  }

  /** With times in any order, an IP that is not yet blocked is blocked exactly when its
      last threshold + 1 counted events all lie in the window. */
  lemma BlockExactly(cfg: Config, es: seq<Event>, e: Event)
    requires cfg.Valid() && !StateAfter(cfg, es).blocked
    ensures var d := EvaluateState(cfg, StateAfter(cfg, es), e).1;
            var ts := SynTimes(es + [e]);
            d.Some? && d.value.action == Block
            <==> && IsSyn(e) && |ts| > cfg.synThreshold
                 && forall i | |ts| - cfg.synThreshold - 1 <= i < |ts| ::
                      0 < ts[i] <= e.time < ts[i] + cfg.synWindow
  {
    hide LivePorts, Push, CountIn, StateAfter, SynTimes, Suffix;
    var s := StateAfter(cfg, es);
    UnblockedRemembers(cfg, es);
    CountedIsSyn(e);
    if IsSyn(e) {
      SynTimesStep(es, e);
      PushKeepsRing(cfg, s, SynTimes(es), e.time);
      RingCount(cfg, Push(s, e.time), SynTimes(es + [e]), e.time);
      TailAllInWindow(SynTimes(es + [e]), cfg.synThreshold, e.time, cfg.synWindow);
    }
  }

  /** What one event does to an IP, told from its fields: only a SYN of TCP on an unblocked IP
      is recorded, nothing else ever blocks, and an answer carries the event's own fields for
      an hour's block or ten minutes of rate limiting. */
  lemma EventLeavesTrace(cfg: Config, s: IpView, e: Event)
    requires cfg.Valid() && s.Valid(cfg)
    ensures var (t, d) := EvaluateState(cfg, s, e);
            var recorded := !s.blocked && e.protocol == 6 && e.flags as int / 2 % 2 == 1;
            && |t.ring| == |s.ring|
            && (forall k | 0 <= k < |s.ring| :: t.ring[k] == if recorded && k == s.idx then e.time else s.ring[k])
            && t.idx == (if !recorded then s.idx else if s.idx + 1 == |s.ring| then 0 else s.idx + 1)
            && t.len == (if recorded && s.len < |s.ring| then s.len + 1 else s.len)
            && (t.blocked && !s.blocked ==> recorded && d.Some? && d.value.action == Block)
            && (d.Some? ==>
                  && d.value.ip == e.ip && d.value.port == e.port && d.value.protocol == e.protocol
                  && d.value.duration == if d.value.action == Block then 3_600_000_000_000 else 600_000_000_000)
            && (s.blocked ==> t == s && d == None)
  {
    hide CountIn, LivePorts;
    CountedIsSyn(e);
  }

  /** Both answers are sound for the whole log, with times in any order. */
  lemma AnswersAreSound(cfg: Config, es: seq<Event>, e: Event)
    requires cfg.Valid()
    ensures var d := EvaluateState(cfg, StateAfter(cfg, es), e).1;
            d.Some? ==>
              && (d.value.action == Block ==>
                    IsSyn(e) && |RecentSyns(es + [e], e.time, cfg.synWindow)| > cfg.synThreshold)
              && (d.value.action == RateLimit ==> |PortsHit(es + [e], e.time, cfg.portWindow)| > cfg.portThreshold)
  {
    hide StateAfter, RecentSyns, IsSyn, Counted, CountIn, Push, LivePorts, PortsHit, SynTimes;
    var s := StateAfter(cfg, es);
    CountedIsSyn(e);
    if !s.blocked {
      UnblockedRemembers(cfg, es);
      FloodSound(cfg, s, es, e);
      PortsSound(cfg, s, es, e);
    }
  }

  /** More than the threshold of all counted events lie in the window. */
  predicate Flooded(cfg: Config, es: seq<Event>, e: Event) {
    IsSyn(e) && |RecentSyns(es + [e], e.time, cfg.synWindow)| > cfg.synThreshold
  }

  /** So with times in any order an unblocked IP is treated as the whole log demands exactly
      when a flood, if there is one, shows in the last threshold + 1 counted events. */
  lemma AgreesWithLogIff(cfg: Config, es: seq<Event>, e: Event)
    requires cfg.Valid() && !StateAfter(cfg, es).blocked
    ensures var d := EvaluateState(cfg, StateAfter(cfg, es), e).1;
            var ts := SynTimes(es + [e]);
            ((d.Some? && d.value.action == Block) <==> Flooded(cfg, es, e))
            <==> (Flooded(cfg, es, e) ==>
                    forall i | |ts| - cfg.synThreshold - 1 <= i < |ts| ::
                      i >= 0 && 0 < ts[i] <= e.time < ts[i] + cfg.synWindow)
  {
    hide EvaluateState, StateAfter, SynTimes, RecentSyns, IsSyn;
    RecentCount(es + [e], e.time, cfg.synWindow);
    BlockExactly(cfg, es, e);
    AnswersAreSound(cfg, es, e);
  }

  lemma FloodSound(cfg: Config, s: IpView, es: seq<Event>, e: Event)
    requires cfg.Valid() && Remembers(cfg, s, es)
    ensures var s1 := Push(s, e.time);
            IsSyn(e) && CountIn(s1.ring[..s1.len], e.time, cfg.synWindow) > cfg.synThreshold
            ==> |RecentSyns(es + [e], e.time, cfg.synWindow)| > cfg.synThreshold
  {
    hide RecentSyns, Push, CountIn, Suffix;
    RecentCount(es + [e], e.time, cfg.synWindow);
    assert (es + [e])[..|es + [e]| - 1] == es;
    if IsSyn(e) {
      var ts := SynTimes(es + [e]);
      PushKeepsRing(cfg, s, SynTimes(es), e.time);
      RingCount(cfg, Push(s, e.time), ts, e.time);
      SuffixCount(ts, cfg.RingSize(), e.time, cfg.synWindow);
    }
  }

  lemma PortsSound(cfg: Config, s: IpView, es: seq<Event>, e: Event)
    requires cfg.Valid() && Remembers(cfg, s, es)
    ensures |LivePorts(s.ports[e.port := e.time], e.time, cfg.portWindow)|
            <= |PortsHit(es + [e], e.time, cfg.portWindow)|
  {
    PortsStillHit(cfg, s, es, e);
    var live := LivePorts(s.ports[e.port := e.time], e.time, cfg.portWindow);
    var hit := PortsHit(es + [e], e.time, cfg.portWindow);
    forall p: Port | p in live.Keys ensures p in hit {
      assert live[p] == s.ports[e.port := e.time][p];
      var i :| 0 <= i < |es + [e]| && (es + [e])[i].port == p && (es + [e])[i].time == live[p];
    }
    SubsetSize(live.Keys, hit);
  }

  lemma {:induction false} SubsetSize<T>(a: set<T>, b: set<T>)
    requires a <= b
    ensures |a| <= |b|
  {
    if a != {} {
      var x :| x in a;
      SubsetSize(a - {x}, b - {x});
    }
  }

  /** The full-log condition is not met in general when times run backwards: a late
      event pushes a time out of the ring that the window still covers. */
  lemma OutOfOrderTimesHideAFlood()
    ensures var cfg := Config(2, 5, 100, 5, 10);
            var At := (t: Time) => Event("a", 80, 6, 2, t);
            var es := [At(10), At(11), At(1)];
            && EvaluateState(cfg, StateAfter(cfg, es), At(12)).1 == None
            && |RecentSyns(es + [At(12)], 12, cfg.synWindow)| > cfg.synThreshold
  {
    hide SynTimes, CountIn, LivePorts, StateAfter, RecentSyns;
    var cfg := Config(2, 5, 100, 5, 10);
    var a, b := Event("a", 80, 6, 2, 10), Event("a", 80, 6, 2, 11);
    var c, d := Event("a", 80, 6, 2, 1), Event("a", 80, 6, 2, 12);
    var s := ThreeLateEvents(cfg, a, b, c);
    CountTriple(12, 11, 1, 12, 5);
    assert Push(s, 12).ring == [12, 11, 1] && [12, 11, 1][..3] == [12, 11, 1];
    assert LivePorts(s.ports[d.port := d.time], d.time, 5).Keys <= {80} by {
      LiveSubset(s.ports[d.port := d.time], d.time, 5);
    }
    SubsetSize(LivePorts(s.ports[d.port := d.time], d.time, 5).Keys, {80});
    SynTimesStep([a, b, c], d);
    CountedIsSyn(d);
    RecentCount([a, b, c, d], 12, 5);
    assert [a, b, c] + [d] == [a, b, c, d];
    assert [10, 11, 1] + [12] == [10, 11, 1, 12];
    CountConcat([10, 11, 1], [12], 12, 5);
    CountTriple(10, 11, 1, 12, 5);
    CountOne(12, 12, 5);
  }

  lemma LiveSubset(ports: map<Port, Time>, now: Time, window: int)
    ensures LivePorts(ports, now, window).Keys <= ports.Keys
  {
  }

  lemma ThreeLateEvents(cfg: Config, a: Event, b: Event, c: Event) returns (s: IpView)
    requires cfg == Config(2, 5, 100, 5, 10)
    requires a == Event("a", 80, 6, 2, 10) && b == Event("a", 80, 6, 2, 11) && c == Event("a", 80, 6, 2, 1)
    ensures s == StateAfter(cfg, [a, b, c])
    ensures s.ring == [10, 11, 1] && s.idx == 0 && s.len == 3 && !s.blocked && s.ports.Keys <= {80}
    ensures SynTimes([a, b, c]) == [10, 11, 1]
  {
    hide CountIn, LivePorts, EvaluateState, SynTimes, StateAfter;
    var s0 := NewState(cfg);
    assert s0.ring == [0, 0, 0];
    CountOne(10, 10, 5);
    var s1 := QuietPush(cfg, s0, a, [10, 0, 0]);
    CountPair(10, 11, 11, 5);
    var s2 := QuietPush(cfg, s1, b, [10, 11, 0]);
    CountTriple(10, 11, 1, 1, 5);
    assert [10, 11, 1][..3] == [10, 11, 1];
    s := QuietPush(cfg, s2, c, [10, 11, 1]);
    StateOfThree(cfg, a, b, c);
    ThreeSynTimes(a, b, c);
  }

  lemma StateOfThree(cfg: Config, a: Event, b: Event, c: Event)
    requires cfg.Valid()
    ensures var s1 := EvaluateState(cfg, NewState(cfg), a).0;
            var s2 := EvaluateState(cfg, s1, b).0;
            StateAfter(cfg, [a, b, c]) == EvaluateState(cfg, s2, c).0
  {
    hide EvaluateState, StateAfter, NewState;
    EmptyRun(cfg);
    StateOneMore(cfg, [], a);
    StateOneMore(cfg, [a], b);
    StateOneMore(cfg, [a, b], c);
    assert [] + [a] == [a] && [a] + [b] == [a, b] && [a, b] + [c] == [a, b, c];
  }

  lemma ThreeSynTimes(a: Event, b: Event, c: Event)
    requires IsSyn(a) && IsSyn(b) && IsSyn(c)
    ensures SynTimes([a, b, c]) == [a.time, b.time, c.time]
  {
    hide IsSyn, SynTimes;
    SynTimesStep([], a);
    SynTimesStep([a], b);
    SynTimesStep([a, b], c);
    assert [] + [a] == [a] && [a] + [b] == [a, b] && [a, b] + [c] == [a, b, c];
    assert SynTimes([]) == [] by { NoSynTimes(); }
  }

  lemma NoSynTimes()
    ensures SynTimes([]) == []
  {
  }

  lemma EmptyRun(cfg: Config)
    requires cfg.Valid()
    ensures StateAfter(cfg, []) == NewState(cfg) && SynTimes([]) == []
  {
  }

  /** A counted event on port 80 that stays below both thresholds. */
  lemma QuietPush(cfg: Config, s: IpView, e: Event, ring: seq<Time>) returns (r: IpView)
    requires cfg.Valid() && s.Valid(cfg) && !s.blocked && Counted(e) && e.port == 80 && s.ports.Keys <= {80}
    requires cfg.portThreshold >= 1 && s.len < |s.ring|
    requires ring == s.ring[s.idx := e.time]
    requires CountIn(ring[..s.len + 1], e.time, cfg.synWindow) <= cfg.synThreshold
    ensures r == EvaluateState(cfg, s, e).0
    ensures r.ring == ring && r.idx == NextIndex(s.idx, |s.ring|) && r.len == s.len + 1
    ensures !r.blocked && r.ports.Keys <= {80}
  {
    hide CountIn;
    r := EvaluateState(cfg, s, e).0;
    LiveSubset(s.ports[e.port := e.time], e.time, cfg.portWindow);
  }

  lemma CountOne(x: Time, now: Time, window: int)
    ensures CountIn([x], now, window) == if InSynWindow(x, now, window) then 1 else 0
  {
    assert [x][..0] == [];
  }

  lemma CountPair(x: Time, y: Time, now: Time, window: int)
    ensures CountIn([x, y], now, window)
            == (if InSynWindow(x, now, window) then 1 else 0) + (if InSynWindow(y, now, window) then 1 else 0)
  {
    assert [x, y][..1] == [x];
    CountOne(x, now, window);
  }

  lemma CountTriple(x: Time, y: Time, z: Time, now: Time, window: int)
    ensures CountIn([x, y, z], now, window)
            == (if InSynWindow(x, now, window) then 1 else 0) + (if InSynWindow(y, now, window) then 1 else 0)
               + (if InSynWindow(z, now, window) then 1 else 0)
  {
    assert [x, y, z][..2] == [x, y];
    CountPair(x, y, now, window);
  }

  // ---------- what an IP can be answered while it stays tracked ----------

  /** `ip` stays in the list from step `i` up to step `j`. */
  ghost predicate Retained(cfg: Config, steps: seq<Step>, ip: string, i: nat, j: nat)
    requires cfg.Valid() && i <= j <= |steps|
  {
    forall k | i < k <= j :: Tracks(After(cfg, steps[..k]), ip)
  }

  ghost function StateOf(lru: seq<Entry<IpView>>, ip: string): IpView
    requires Tracks(lru, ip)
  {
    lru[Find(lru, ip)].st
  }

  lemma AfterOne(cfg: Config, steps: seq<Step>, k: nat)
    requires cfg.Valid() && k < |steps|
    ensures After(cfg, steps[..k + 1]) == Next(cfg, After(cfg, steps[..k]), steps[k])
  {
    assert steps[..k + 1][..k] == steps[..k];
  }

  /** Where the entries are after a lookup. */
  lemma TouchShape<S>(lru: seq<Entry<S>>, ip: string, maxStates: int, initial: S)
    ensures var r, at := Touch(lru, ip, maxStates, initial), Find(lru, ip);
            if at < |lru| then
              && |r| == |lru| && r[0] == lru[at]
              && forall k | 1 <= k < |r| :: r[k] == lru[if k <= at then k - 1 else k]
            else
              && |r| == (if |lru| >= maxStates && |lru| > 0 then |lru| else |lru| + 1)
              && r[0] == Entry(ip, initial)
              && forall k | 1 <= k < |r| :: r[k] == lru[k - 1]
  {
  }

  ghost function Next(cfg: Config, lru: seq<Entry<IpView>>, step: Step): (r: seq<Entry<IpView>>)
    requires cfg.Valid() && ValidLru(cfg, lru)
    ensures ValidLru(cfg, r)
  {
    match step
    case Eval(e) => EvaluateLru(cfg, lru, e).0
    case Prune(now) => PruneLru(cfg, lru, now)
  }

  /** A step that is not an event of `ip` leaves the state of `ip` alone, if it stays. */
  lemma OtherStepsKeepState(cfg: Config, lru: seq<Entry<IpView>>, step: Step, ip: string)
    requires cfg.Valid() && ValidLru(cfg, lru) && Tracks(lru, ip)
    requires Tracks(Next(cfg, lru, step), ip) && !(step.Eval? && step.e.ip == ip)
    ensures StateOf(Next(cfg, lru, step), ip) == StateOf(lru, ip)
  {
    hide StaleView, Find, EvaluateState, Touch;
    var next := Next(cfg, lru, step);
    var i :| 0 <= i < |next| && next[i].ip == ip;
    FindAt(next, i);
    if step.Eval? { TouchShape(lru, step.e.ip, cfg.maxStates, NewState(cfg)); }
    assert next[i] in next;
    assert next[i] in lru;
    var j :| 0 <= j < |lru| && lru[j] == next[i];
    FindAt(lru, j);
  }

  lemma OwnEventsFindState(cfg: Config, lru: seq<Entry<IpView>>, e: Event)
    requires cfg.Valid() && ValidLru(cfg, lru) && Tracks(lru, e.ip)
    ensures EvaluateLru(cfg, lru, e).1 == EvaluateState(cfg, StateOf(lru, e.ip), e).1
    ensures Tracks(EvaluateLru(cfg, lru, e).0, e.ip)
    ensures StateOf(EvaluateLru(cfg, lru, e).0, e.ip) == EvaluateState(cfg, StateOf(lru, e.ip), e).0
  {
    hide Find, EvaluateState, Touch;
    TouchShape(lru, e.ip, cfg.maxStates, NewState(cfg));
    FindAt(EvaluateLru(cfg, lru, e).0, 0);
  }

  /** The flags of a retained state are never taken back. */
  lemma FlagsStick(cfg: Config, lru: seq<Entry<IpView>>, step: Step, ip: string)
    requires cfg.Valid() && ValidLru(cfg, lru) && Tracks(lru, ip)
    requires Tracks(Next(cfg, lru, step), ip)
    ensures StateOf(lru, ip).blocked ==> StateOf(Next(cfg, lru, step), ip).blocked
    ensures StateOf(lru, ip).limited ==> StateOf(Next(cfg, lru, step), ip).limited
  {
    hide EvaluateLru, Find;
    if step.Eval? && step.e.ip == ip {
      OwnEventsFindState(cfg, lru, step.e);
    } else {
      OtherStepsKeepState(cfg, lru, step, ip);
    }
  }

  lemma {:induction false} FlagsStickThrough(cfg: Config, steps: seq<Step>, ip: string, i: nat, j: nat)
    requires cfg.Valid() && i < j <= |steps| && Retained(cfg, steps, ip, i, j)
    ensures var early, late := StateOf(After(cfg, steps[..i + 1]), ip), StateOf(After(cfg, steps[..j]), ip);
            (early.blocked ==> late.blocked) && (early.limited ==> late.limited)
    decreases j
  {
    hide After, Next, StateOf;
    if i + 1 < j {
      FlagsStickThrough(cfg, steps, ip, i, j - 1);
      AfterOne(cfg, steps, j - 1);
      assert Tracks(After(cfg, steps[..j - 1]), ip);
      FlagsStick(cfg, After(cfg, steps[..j - 1]), steps[j - 1], ip);
    }
  }

  /** While an IP stays tracked it gets at most two answers: when it gets two, the first is a
      rate limit and the second a block. So there is at most one rate limit, at most one
      block, and nothing after a block. */
  lemma AtMostLimitThenBlock(cfg: Config, steps: seq<Step>, ip: string, i: nat, j: nat)
    requires cfg.Valid() && i < j < |steps|
    requires steps[i].Eval? && steps[i].e.ip == ip && Answer(cfg, steps, i).Some?
    requires steps[j].Eval? && steps[j].e.ip == ip && Answer(cfg, steps, j).Some?
    requires Retained(cfg, steps, ip, i, j)
    ensures Answer(cfg, steps, i).value.action == RateLimit
    ensures Answer(cfg, steps, j).value.action == Block
  {
    hide EvaluateLru;
    FlagsStickThrough(cfg, steps, ip, i, j);
    AfterOne(cfg, steps, i);
    AnswerSetsFlag(cfg, After(cfg, steps[..i]), steps[i].e);
    assert Tracks(After(cfg, steps[..j]), ip);
    AnswerNeedsFlag(cfg, After(cfg, steps[..j]), steps[j].e);
  }

  lemma AnswerSetsFlag(cfg: Config, lru: seq<Entry<IpView>>, e: Event)
    requires cfg.Valid() && ValidLru(cfg, lru) && EvaluateLru(cfg, lru, e).1.Some?
    ensures var r := EvaluateLru(cfg, lru, e);
            && Tracks(r.0, e.ip)
            && (r.1.value.action == Block ==> StateOf(r.0, e.ip).blocked)
            && (r.1.value.action == RateLimit ==> StateOf(r.0, e.ip).limited)
  {
    hide Find, Touch;
    FindAt(EvaluateLru(cfg, lru, e).0, 0);
  }

  lemma AnswerNeedsFlag(cfg: Config, lru: seq<Entry<IpView>>, e: Event)
    requires cfg.Valid() && ValidLru(cfg, lru) && Tracks(lru, e.ip) && EvaluateLru(cfg, lru, e).1.Some?
    ensures !StateOf(lru, e.ip).blocked
    ensures EvaluateLru(cfg, lru, e).1.value.action == RateLimit ==> !StateOf(lru, e.ip).limited
  {
    hide EvaluateLru, StateOf;
    OwnEventsFindState(cfg, lru, e);
  }

  // ---------- the list holds the most recent IPs ----------

  /** The last step that evaluated `ip`, or -1. */
  ghost function LastSeen(steps: seq<Step>, ip: string): (i: int)
    ensures -1 <= i < |steps|
    ensures i >= 0 ==> steps[i].Eval? && steps[i].e.ip == ip
    ensures forall j | i < j < |steps| :: !(steps[j].Eval? && steps[j].e.ip == ip)
  {
    if steps == [] then -1
    else
      var k := |steps| - 1;
      if steps[k].Eval? && steps[k].e.ip == ip then k else LastSeen(steps[..k], ip)
  }

  /** The list can always hold one IP: the new one is added after the eviction. */
  function Capacity(cfg: Config): int {
    if cfg.maxStates < 1 then 1 else cfg.maxStates
  }

  /** Most recently evaluated first; hence no IP twice. */
  ghost predicate ByRecency(steps: seq<Step>, lru: seq<Entry<IpView>>) {
    && (forall i | 0 <= i < |lru| :: LastSeen(steps, lru[i].ip) >= 0)
    && (forall i, j | 0 <= i < j < |lru| :: LastSeen(steps, lru[i].ip) > LastSeen(steps, lru[j].ip))
  }

  /** Nothing more recent is missing, and nothing at all while there is room. */
  ghost predicate KeepsMostRecent(cfg: Config, steps: seq<Step>, lru: seq<Entry<IpView>>) {
    && |lru| <= Capacity(cfg)
    && forall ip | LastSeen(steps, ip) >= 0 && (forall i | 0 <= i < |lru| :: lru[i].ip != ip) ::
         && |lru| == Capacity(cfg)
         && forall i | 0 <= i < |lru| :: LastSeen(steps, lru[i].ip) > LastSeen(steps, ip)
  }

  lemma LastSeenOneMore(prefix: seq<Step>, s: Step, ip: string)
    ensures LastSeen(prefix + [s], ip) == if s.Eval? && s.e.ip == ip then |prefix| else LastSeen(prefix, ip)
  {
    assert (prefix + [s])[..|prefix|] == prefix;
  }

  lemma RecencyAfterEval(cfg: Config, prefix: seq<Step>, lru: seq<Entry<IpView>>, e: Event)
    requires cfg.Valid() && ValidLru(cfg, lru) && ByRecency(prefix, lru)
    ensures ByRecency(prefix + [Eval(e)], EvaluateLru(cfg, lru, e).0)
  {
    hide EvaluateState, Find, Touch, LastSeen, ByRecency;
    TouchShape(lru, e.ip, cfg.maxStates, NewState(cfg));
    RecencyMoves(prefix, lru, EvaluateLru(cfg, lru, e).0, e, Find(lru, e.ip));
  }

  /** Where entry `k` of the new list stood, when the IP was found at `at`. */
  function Before(k: int, at: int, n: int): int {
    if at < n && k > at then k else k - 1
  }

  lemma RecencyMoves(prefix: seq<Step>, lru: seq<Entry<IpView>>, r: seq<Entry<IpView>>, e: Event, at: nat)
    requires ByRecency(prefix, lru) && |r| > 0 && r[0].ip == e.ip
    requires forall k | 1 <= k < |r| ::
               Before(k, at, |lru|) < |lru| && r[k] == lru[Before(k, at, |lru|)] && r[k].ip != e.ip
    ensures ByRecency(prefix + [Eval(e)], r)
  {
    hide LastSeen;
    forall i | 0 <= i < |r|
      ensures LastSeen(prefix + [Eval(e)], r[i].ip)
              == if i == 0 then |prefix| else LastSeen(prefix, lru[Before(i, at, |lru|)].ip)
    {
      LastSeenOneMore(prefix, Eval(e), r[i].ip);
    }
  }

  lemma RecencyAfterPrune(cfg: Config, prefix: seq<Step>, lru: seq<Entry<IpView>>, now: Time)
    requires cfg.Valid() && ValidLru(cfg, lru) && ByRecency(prefix, lru)
    ensures ByRecency(prefix + [Prune(now)], PruneLru(cfg, lru, now))
  {
    hide StaleView;
    var steps := prefix + [Prune(now)];
    assert steps[..|steps| - 1] == prefix;
    PruneIsExact(cfg, lru, now);
    var r := PruneLru(cfg, lru, now);
    forall i | 0 <= i < |r| ensures LastSeen(steps, r[i].ip) == LastSeen(prefix, r[i].ip) >= 0 {
      assert r[i] == lru[Find(lru, r[i].ip)];
    }
    forall i, j | 0 <= i < j < |r| ensures LastSeen(steps, r[i].ip) > LastSeen(steps, r[j].ip) {
      assert Find(lru, r[i].ip) < Find(lru, r[j].ip);
    }
  }

  /** In every run the list is ordered by recency, prunes included. */
  lemma {:induction false} ListIsByRecency(cfg: Config, steps: seq<Step>)
    requires cfg.Valid()
    ensures ByRecency(steps, After(cfg, steps))
  {
    if steps != [] {
      var k := |steps| - 1;
      ListIsByRecency(cfg, steps[..k]);
      assert steps == steps[..k] + [steps[k]];
      match steps[k] {
        case Eval(e) => RecencyAfterEval(cfg, steps[..k], After(cfg, steps[..k]), e);
        case Prune(now) => RecencyAfterPrune(cfg, steps[..k], After(cfg, steps[..k]), now);
      }
    }
  }

  lemma TouchKeeps<S>(lru: seq<Entry<S>>, ip: string, maxStates: int, initial: S, i: nat) returns (k: nat)
    requires i < |lru|
    requires Find(lru, ip) < |lru| || |lru| < maxStates || i < |lru| - 1
    ensures k < |Touch(lru, ip, maxStates, initial)| && Touch(lru, ip, maxStates, initial)[k] == lru[i]
  {
    hide Find;
    var at := Find(lru, ip);
    k := if at < |lru| && i == at then 0 else if at < |lru| && i > at then i else i + 1;
  }

  lemma KeptUnlessPushedOut(cfg: Config, lru: seq<Entry<IpView>>, e: Event, i: nat)
    requires cfg.Valid() && ValidLru(cfg, lru) && i < |lru|
    requires Find(lru, e.ip) < |lru| || |lru| < cfg.maxStates || i < |lru| - 1
    ensures Tracks(EvaluateLru(cfg, lru, e).0, lru[i].ip)
  {
    hide EvaluateState, Find, Touch, ValidLru;
    var r := EvaluateLru(cfg, lru, e).0;
    var k := TouchKeeps(lru, e.ip, cfg.maxStates, NewState(cfg), i);
    assert r[k].ip == lru[i].ip;
  }

  /** An evaluation can only push out the back entry, and only when the list was full. */
  lemma DroppedIsLast(cfg: Config, lru: seq<Entry<IpView>>, e: Event, ip: string)
    requires cfg.Valid() && ValidLru(cfg, lru) && |lru| <= Capacity(cfg) && Tracks(lru, ip)
    requires !Tracks(EvaluateLru(cfg, lru, e).0, ip)
    ensures var r := EvaluateLru(cfg, lru, e).0;
            && |r| == |lru| == Capacity(cfg)
            && lru[|lru| - 1].ip == ip
            && forall k | 1 <= k < |r| :: r[k] == lru[k - 1]
  {
    hide EvaluateState, Find, Touch;
    TouchShape(lru, e.ip, cfg.maxStates, NewState(cfg));
    forall i | && 0 <= i < |lru|
               && (Find(lru, e.ip) < |lru| || |lru| < cfg.maxStates || i < |lru| - 1)
      ensures lru[i].ip != ip
    {
      KeptUnlessPushedOut(cfg, lru, e, i);
    }
  }

  lemma MostRecentAfterEval(cfg: Config, prefix: seq<Step>, lru: seq<Entry<IpView>>, e: Event)
    requires cfg.Valid() && ValidLru(cfg, lru) && ByRecency(prefix, lru) && KeepsMostRecent(cfg, prefix, lru)
    ensures KeepsMostRecent(cfg, prefix + [Eval(e)], EvaluateLru(cfg, lru, e).0)
  {
    hide EvaluateState, Find, Touch, EvaluateLru;
    var steps := prefix + [Eval(e)];
    assert steps[..|steps| - 1] == prefix;
    var r := EvaluateLru(cfg, lru, e).0;
    EvaluateShape(cfg, lru, e);
    forall ip | LastSeen(steps, ip) >= 0 && (forall i | 0 <= i < |r| :: r[i].ip != ip)
      ensures |r| == Capacity(cfg)
      ensures forall i | 0 <= i < |r| :: LastSeen(steps, r[i].ip) > LastSeen(steps, ip)
    {
      assert ip != e.ip && LastSeen(steps, ip) == LastSeen(prefix, ip);
      if Tracks(lru, ip) {
        DroppedIsLast(cfg, lru, e, ip);
      }
      forall i | 0 <= i < |r| ensures LastSeen(steps, r[i].ip) > LastSeen(steps, ip) {
        if i == 0 {
          assert LastSeen(steps, e.ip) == |prefix|;
        } else {
          var j :| 0 <= j < |lru| && lru[j] == r[i];
          assert LastSeen(steps, r[i].ip) == LastSeen(prefix, lru[j].ip);
        }
      }
    }
  }

  lemma EvaluateShape(cfg: Config, lru: seq<Entry<IpView>>, e: Event)
    requires cfg.Valid() && ValidLru(cfg, lru) && |lru| <= Capacity(cfg)
    ensures var r := EvaluateLru(cfg, lru, e).0;
            && r[0].ip == e.ip && |lru| <= |r| <= Capacity(cfg)
            && forall i | 1 <= i < |r| :: r[i].ip != e.ip && r[i] in lru
  {
    hide EvaluateState, Find, Touch;
    TouchShape(lru, e.ip, cfg.maxStates, NewState(cfg));
  }

  ghost predicate NoPrunes(steps: seq<Step>) {
    forall i | 0 <= i < |steps| :: steps[i].Eval?
  }

  /** Without prunes the list holds exactly the most recently evaluated IPs, as many as
      fit, most recent first. */
  lemma {:induction false} LruIsMostRecent(cfg: Config, steps: seq<Step>)
    requires cfg.Valid() && NoPrunes(steps)
    ensures ByRecency(steps, After(cfg, steps))
    ensures KeepsMostRecent(cfg, steps, After(cfg, steps))
  {
    hide EvaluateLru, ByRecency, Next;
    ListIsByRecency(cfg, steps);
    if steps != [] {
      var k := |steps| - 1;
      var prefix := steps[..k];
      LruIsMostRecent(cfg, prefix);
      assert steps == prefix + [steps[k]];
      MostRecentAfterEval(cfg, prefix, After(cfg, prefix), steps[k].e);
    }
  }

  // ---------- a cleanup pass ----------

  lemma {:induction false} PruneMembers(cfg: Config, lru: seq<Entry<IpView>>, now: Time)
    requires cfg.Valid() && ValidLru(cfg, lru)
    ensures forall x :: x in PruneLru(cfg, lru, now) <==> x in lru && !StaleView(x.st, now)
  {
    hide StaleView;
    if lru != [] {
      var k := |lru| - 1;
      PruneMembers(cfg, lru[..k], now);
      assert lru == lru[..k] + [lru[k]];
    }
  }

  /** Entries keep their relative order. */
  ghost predicate InOrder(r: seq<Entry<IpView>>, lru: seq<Entry<IpView>>) {
    && (forall i | 0 <= i < |r| :: Find(lru, r[i].ip) < |lru| && r[i] == lru[Find(lru, r[i].ip)])
    && (forall i, j | 0 <= i < j < |r| :: Find(lru, r[i].ip) < Find(lru, r[j].ip))
  }

  lemma InOrderGrows(r: seq<Entry<IpView>>, front: seq<Entry<IpView>>, x: Entry<IpView>)
    requires InOrder(r, front) && forall i | 0 <= i < |front| :: front[i].ip != x.ip
    ensures InOrder(r, front + [x]) && InOrder(r + [x], front + [x])
  {
    hide Find;
    forall i | 0 <= i < |r| ensures Find(front + [x], r[i].ip) == Find(front, r[i].ip) {
      FindInPrefix(front, x, r[i].ip);
    }
    FindInPrefix(front, x, x.ip);
    assert forall i | 0 <= i < |r| :: (r + [x])[i] == r[i];
  }

  /** A cleanup pass removes exactly the stale states and keeps the others in order. */
  lemma {:induction false} PruneIsExact(cfg: Config, lru: seq<Entry<IpView>>, now: Time)
    requires cfg.Valid() && ValidLru(cfg, lru)
    ensures forall x :: x in PruneLru(cfg, lru, now) <==> x in lru && !StaleView(x.st, now)
    ensures InOrder(PruneLru(cfg, lru, now), lru)
  {
    PruneMembers(cfg, lru, now);
    PruneOrder(cfg, lru, now);
  }

  lemma {:induction false} PruneOrder(cfg: Config, lru: seq<Entry<IpView>>, now: Time)
    requires cfg.Valid() && ValidLru(cfg, lru)
    ensures InOrder(PruneLru(cfg, lru, now), lru)
  {
    hide StaleView, Find, InOrder, PruneLru;
    PruneBack(cfg, lru, now);
    if lru != [] {
      var k := |lru| - 1;
      PruneOrder(cfg, lru[..k], now);
      assert lru == lru[..k] + [lru[k]];
      InOrderGrows(PruneLru(cfg, lru[..k], now), lru[..k], lru[k]);
    }
  }

  lemma PruneBack(cfg: Config, lru: seq<Entry<IpView>>, now: Time)
    requires cfg.Valid() && ValidLru(cfg, lru)
    ensures lru == [] ==> InOrder(PruneLru(cfg, lru, now), lru)
    ensures lru != [] ==> var kept, x := PruneLru(cfg, lru[..|lru| - 1], now), lru[|lru| - 1];
                          PruneLru(cfg, lru, now) == if StaleView(x.st, now) then kept else kept + [x]
  {
    hide StaleView, Find;
  }

  lemma FindInPrefix<S>(front: seq<Entry<S>>, x: Entry<S>, ip: string)
    ensures Find(front, ip) < |front| ==> Find(front + [x], ip) == Find(front, ip)
    ensures Find(front, ip) == |front| && x.ip == ip ==> Find(front + [x], ip) == |front|
  {
    hide Find;
    var i, j := Find(front, ip), Find(front + [x], ip);
    var k := if i < j then i else j;
    assert k < |front| ==> (front + [x])[k] == front[k];
    assert (front + [x])[|front|] == x;
  }

  /** A blocked state has a recorded, non-zero SYN time. */
  ghost predicate BlockedIsActive(lru: seq<Entry<IpView>>) {
    forall x | x in lru && x.st.blocked :: x.st.len <= |x.st.ring| && exists t :: t != 0 && t in x.st.ring[..x.st.len]
  }

  lemma BlockingLeavesATime(cfg: Config, s: IpView, e: Event)
    requires cfg.Valid() && s.Valid(cfg)
    requires s.blocked ==> exists t :: t != 0 && t in s.ring[..s.len]
    ensures var r := EvaluateState(cfg, s, e).0;
            r.blocked ==> exists t :: t != 0 && t in r.ring[..r.len]
  {
    var r := EvaluateState(cfg, s, e).0;
    if r.blocked && !s.blocked {
      var ts := r.ring[..r.len];
      if forall i | 0 <= i < |ts| :: !InSynWindow(ts[i], e.time, cfg.synWindow) {
        CountNone(ts, e.time, cfg.synWindow);
        assert false;
      }
      var i :| 0 <= i < |ts| && InSynWindow(ts[i], e.time, cfg.synWindow);
      assert ts[i] in ts;
    }
  }

  lemma {:induction false} ReachableBlockedIsActive(cfg: Config, steps: seq<Step>)
    requires cfg.Valid()
    ensures BlockedIsActive(After(cfg, steps))
  {
    if steps != [] {
      hide EvaluateState;
      var k := |steps| - 1;
      ReachableBlockedIsActive(cfg, steps[..k]);
      var before := After(cfg, steps[..k]);
      match steps[k] {
        case Eval(e) =>
          TouchMembers(before, e.ip, cfg.maxStates, NewState(cfg));
          var touched := Touch(before, e.ip, cfg.maxStates, NewState(cfg));
          assert touched[0] in touched;
          BlockingLeavesATime(cfg, touched[0].st, e);
          forall x | x in After(cfg, steps) && x.st.blocked
            ensures exists t :: t != 0 && t in x.st.ring[..x.st.len]
          {
            assert x in touched || x == After(cfg, steps)[0];
          }
        case Prune(now) =>
      }
    }
  }

  /** The one-hour clause for blocked states never decides: a blocked state leaves after
      ten idle minutes like any other, so the code does not keep it for the hour its
      comment promises. */
  lemma BlockedStatesLeaveAfterTenMinutes(cfg: Config, steps: seq<Step>, x: Entry<IpView>, now: Time)
    requires cfg.Valid() && x in After(cfg, steps)
    ensures StaleView(x.st, now)
            <==> || (LastActivity(x.st) != 0 && now - LastActivity(x.st) > 10 * MINUTE)
                 || (x.st.limited && now - x.st.lastLimited > 10 * MINUTE)
    ensures x.st.blocked && now - LastActivity(x.st) > 10 * MINUTE ==> StaleView(x.st, now)
  {
    ReachableBlockedIsActive(cfg, steps);
    if x.st.blocked {
      var t :| t != 0 && t in x.st.ring[..x.st.len];
      assert Active(x.st, t);
      assert LastActivity(x.st) != 0;
    }
  }
}
