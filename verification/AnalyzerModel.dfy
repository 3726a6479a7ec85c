/** The sliding-window traffic analyzer as a function of its state.

    One `IpView` is the value of the per-IP record: a fixed ring of SYN times, a map
    of recently hit ports and the two sticky flags. The LRU list is a sequence of
    entries, front (most recent) first. Times count nanoseconds from the language's
    zero time, so `0` is the value that `IsZero` recognises. */
module AnalyzerModel {
  import opened Options
  import opened Durations

  type Time = nat
  type Port = p: nat | p < 0x1_0000

  datatype Config = Config(synThreshold: int, synWindow: int, portThreshold: int, portWindow: int, maxStates: int) {
    /** What the ring allocation and the index arithmetic need. */
    predicate Valid() { 1 <= synThreshold }

    function RingSize(): (n: nat)
      requires Valid()
    { synThreshold + 1 }
  }

  const DEFAULT_CONFIG := Config(20, 60 * SECOND, 10, 30 * SECOND, 10_000)

  datatype Event = Event(ip: string, port: Port, protocol: nat, flags: bv8, time: Time)

  datatype Action = Block | RateLimit
  datatype Decision = Decision(ip: string, action: Action, duration: nat, port: Port, protocol: nat)

  datatype IpView = IpView(ring: seq<Time>, idx: nat, len: nat, ports: map<Port, Time>,
                           blocked: bool, limited: bool, lastLimited: Time) {
    predicate Valid(cfg: Config)
      requires cfg.Valid()
    {
      |ring| == cfg.RingSize() && idx < |ring| && len <= |ring|
    }
  }

  datatype Entry<S> = Entry(ip: string, st: S)

  // ---------- one IP ----------

  function NewState(cfg: Config): (s: IpView)
    requires cfg.Valid()
  {
    IpView(seq(cfg.RingSize(), _ => 0), 0, 0, map[], false, false, 0)
  }

  lemma NewStateIsValid(cfg: Config)
    requires cfg.Valid()
    ensures NewState(cfg).Valid(cfg)
  {
  }

  /** The test the analyzer applies before it counts an event towards a SYN flood. */
  predicate Counted(e: Event) {
    e.protocol == 6 && e.flags & 0x02 != 0
  }

  predicate InSynWindow(t: Time, now: Time, window: int) {
    t != 0 && 0 <= now - t < window
  }

  function CountIn(ts: seq<Time>, now: Time, window: int): (n: nat)
    ensures n <= |ts|
  {
    if ts == [] then 0
    else CountIn(ts[..|ts| - 1], now, window) + if InSynWindow(ts[|ts| - 1], now, window) then 1 else 0
  }

  function NextIndex(idx: nat, size: nat): (next: nat)
    requires idx < size
    ensures next == if idx + 1 < size then idx + 1 else 0
  {
    (idx + 1) % size
  }

  function Push(s: IpView, now: Time): (r: IpView)
    requires s.idx < |s.ring|
    ensures r.ports == s.ports && r.blocked == s.blocked && r.limited == s.limited && r.lastLimited == s.lastLimited
  {
    s.(ring := s.ring[s.idx := now],
       idx := NextIndex(s.idx, |s.ring|),
       len := if s.len < |s.ring| then s.len + 1 else s.len)
  }

  predicate InPortWindow(t: Time, now: Time, window: int) {
    0 <= now - t < window
  }

  function LivePorts(ports: map<Port, Time>, now: Time, window: int): map<Port, Time> {
    map p | p in ports && InPortWindow(ports[p], now, window) :: ports[p]
  }

  function EvaluateState(cfg: Config, s: IpView, e: Event): (r: (IpView, Option<Decision>))
    requires cfg.Valid() && s.Valid(cfg)
    ensures r.0.Valid(cfg)
  {
    if s.blocked then (s, None)
    else
      var s1 := if Counted(e) then Push(s, e.time) else s;
      if Counted(e) && CountIn(s1.ring[..s1.len], e.time, cfg.synWindow) > cfg.synThreshold then
        (s1.(blocked := true), Some(Decision(e.ip, Block, HOUR, e.port, e.protocol)))
      else
        var live := LivePorts(s1.ports[e.port := e.time], e.time, cfg.portWindow);
        var s2 := s1.(ports := live);
        if |live| > cfg.portThreshold && !s2.limited then
          (s2.(limited := true, lastLimited := e.time),
           Some(Decision(e.ip, RateLimit, 10 * MINUTE, e.port, e.protocol)))
        else
          (s2, None)
  }

  /** Times that `getLastActivity` looks at. */
  ghost predicate Active(s: IpView, t: Time)
    requires s.len <= |s.ring|
  {
    t in s.ring[..s.len] || exists p :: p in s.ports && s.ports[p] == t
  }

  /** `t` is the latest activity, or zero when there is none. */
  ghost predicate IsLastActivity(s: IpView, t: Time)
    requires s.len <= |s.ring|
  {
    (forall u: Time | Active(s, u) :: u <= t) && (t == 0 || Active(s, t))
  }

  ghost function MaxOf(ts: set<Time>): (m: Time)
    ensures forall t | t in ts :: t <= m
    ensures m == 0 || m in ts
  {
    if ts == {} then 0
    else
      var t :| t in ts;
      var m := MaxOf(ts - {t});
      assert forall u | u in ts :: u == t || u in ts - {t};
      if m < t then t else m
  }

  ghost function LastActivity(s: IpView): (t: Time)
    requires s.len <= |s.ring|
    ensures IsLastActivity(s, t)
  {
    var ring := set t | t in s.ring[..s.len];
    var ports := set p | p in s.ports :: s.ports[p];
    var m := MaxOf(ring + ports);
    assert forall u: Time | Active(s, u) :: u in ring + ports;
    m
  }

  lemma LastActivityUnique(s: IpView, t: Time)
    requires s.len <= |s.ring| && IsLastActivity(s, t)
    ensures LastActivity(s) == t
  {
    var m := LastActivity(s);
    assert m == 0 || Active(s, m);
    assert t == 0 || Active(s, t);
  }

  /** The three-way staleness test of the cleanup pass. */
  predicate Stale(last: Time, blocked: bool, limited: bool, lastLimited: Time, now: Time) {
    || (last != 0 && now - last > 10 * MINUTE)
    || (limited && now - lastLimited > 10 * MINUTE)
    || (blocked && now - last > HOUR)
  }

  ghost predicate StaleView(s: IpView, now: Time)
    requires s.len <= |s.ring|
  {
    Stale(LastActivity(s), s.blocked, s.limited, s.lastLimited, now)
  }

  // ---------- the LRU list ----------

  /** Position of `ip` in the list, or the length of the list when it is absent. */
  function Find<S>(lru: seq<Entry<S>>, ip: string): (i: nat)
    ensures i <= |lru|
    ensures i < |lru| ==> lru[i].ip == ip
    ensures forall j | 0 <= j < i :: lru[j].ip != ip
  {
    if lru == [] then 0
    else if lru[0].ip == ip then 0
    else
      var i := Find(lru[1..], ip);
      assert forall j | 1 <= j < |lru| :: lru[j] == lru[1..][j - 1];
      1 + i
  }

  lemma FindAt<S>(lru: seq<Entry<S>>, i: nat)
    requires i < |lru|
    requires forall j | 0 <= j < i :: lru[j].ip != lru[i].ip
    ensures Find(lru, lru[i].ip) == i
  {
  }

  /** `s` with the element at `i` taken to the front. */
  function ToFront<T>(s: seq<T>, i: nat): (r: seq<T>)
    requires i < |s|
    ensures |r| == |s|
    ensures forall k | 0 <= k < |s| :: r[k] == s[if k == 0 then i else if k <= i then k - 1 else k]
  {
    [s[i]] + s[..i] + s[i + 1..]
  }

  /** `s` without the element at `i`. */
  function Without<T>(s: seq<T>, i: nat): (r: seq<T>)
    requires i < |s|
    ensures |r| == |s| - 1
    ensures forall k | 0 <= k < |r| :: r[k] == s[if k < i then k else k + 1]
  {
    s[..i] + s[i + 1..]
  }

  /** The list after looking `ip` up: moved to the front, or created there after the
      back entry was evicted when the list was full. */
  function Touch<S>(lru: seq<Entry<S>>, ip: string, maxStates: int, initial: S): (r: seq<Entry<S>>)
    ensures |r| > 0 && r[0].ip == ip
  {
    var i := Find(lru, ip);
    if i < |lru| then
      ToFront(lru, i)
    else if |lru| >= maxStates && |lru| > 0 then
      [Entry(ip, initial)] + lru[..|lru| - 1]
    else
      [Entry(ip, initial)] + lru
  }

  lemma TouchFound<S>(lru: seq<Entry<S>>, i: nat, maxStates: int, initial: S)
    requires i < |lru|
    requires forall j | 0 <= j < i :: lru[j].ip != lru[i].ip
    ensures Touch(lru, lru[i].ip, maxStates, initial) == ToFront(lru, i)
  {
    FindAt(lru, i);
  }

  lemma TouchMissing<S>(lru: seq<Entry<S>>, ip: string, maxStates: int, initial: S)
    requires forall j | 0 <= j < |lru| :: lru[j].ip != ip
    ensures var kept := if |lru| >= maxStates && |lru| > 0 then lru[..|lru| - 1] else lru;
            Touch(lru, ip, maxStates, initial) == [Entry(ip, initial)] + kept
  {
    var i := Find(lru, ip);
  }

  ghost predicate ValidLru(cfg: Config, lru: seq<Entry<IpView>>)
    requires cfg.Valid()
  {
    && (forall i | 0 <= i < |lru| :: lru[i].st.Valid(cfg))
    && (forall i, j | 0 <= i < j < |lru| :: lru[i].ip != lru[j].ip)
  }

  lemma TouchIsValid(cfg: Config, lru: seq<Entry<IpView>>, ip: string)
    requires cfg.Valid() && ValidLru(cfg, lru)
    ensures ValidLru(cfg, Touch(lru, ip, cfg.maxStates, NewState(cfg)))
  {
    hide Find, NewState, IpView.Valid;
    NewStateIsValid(cfg);
  }

  lemma FrontReplaced(cfg: Config, lru: seq<Entry<IpView>>, st: IpView)
    requires cfg.Valid() && ValidLru(cfg, lru) && lru != [] && st.Valid(cfg)
    ensures ValidLru(cfg, [Entry(lru[0].ip, st)] + lru[1..])
  {
    hide IpView.Valid;
  }

  ghost function EvaluateLru(cfg: Config, lru: seq<Entry<IpView>>, e: Event)
    : (r: (seq<Entry<IpView>>, Option<Decision>))
    requires cfg.Valid() && ValidLru(cfg, lru)
    ensures ValidLru(cfg, r.0)
    ensures |r.0| > 0 && r.0[0].ip == e.ip
  {
    var touched := Touch(lru, e.ip, cfg.maxStates, NewState(cfg));
    TouchIsValid(cfg, lru, e.ip);
    var (st, d) := EvaluateState(cfg, touched[0].st, e);
    FrontReplaced(cfg, touched, st);
    ([Entry(e.ip, st)] + touched[1..], d)
  }

  ghost function PruneLru(cfg: Config, lru: seq<Entry<IpView>>, now: Time): (r: seq<Entry<IpView>>)
    requires cfg.Valid() && ValidLru(cfg, lru)
    ensures ValidLru(cfg, r)
    ensures forall x | x in r :: x in lru
  {
    if lru == [] then []
    else
      var front := lru[..|lru| - 1];
      var x := lru[|lru| - 1];
      var kept := PruneLru(cfg, front, now);
      assert forall y | y in kept :: y in lru && y.ip != x.ip;
      kept + if StaleView(x.st, now) then [] else [x]
  }

  // ---------- runs ----------

  datatype Step = Eval(e: Event) | Prune(now: Time)

  ghost function After(cfg: Config, steps: seq<Step>): (lru: seq<Entry<IpView>>)
    requires cfg.Valid()
    ensures ValidLru(cfg, lru)
  {
    if steps == [] then []
    else
      var before := After(cfg, steps[..|steps| - 1]);
      match steps[|steps| - 1]
      case Eval(e) => EvaluateLru(cfg, before, e).0
      case Prune(now) => PruneLru(cfg, before, now)
  }

  /** What the analyzer answers at step `i` of a run. */
  ghost function Answer(cfg: Config, steps: seq<Step>, i: nat): Option<Decision>
    requires cfg.Valid() && i < |steps|
  {
    match steps[i]
    case Eval(e) => EvaluateLru(cfg, After(cfg, steps[..i]), e).1
    case Prune(_) => None
  }
}
