/** The packet path of the XDP firewall for IPv4: blocklist, blocked ranges, rate limit.

    A packet is one atomic step. Counters of one window are unbounded here: a 64-bit counter
    cannot wrap around within one second. Expiry times do have 64 bits. */
module XdpFirewall {
  import opened Options
  import opened Durations
  import opened Words
  import opened Blocklist

  const WINDOW: int := SECOND

  datatype Config = Config(maxPps: u64, maxBps: u64, blockTime: u64) {
    predicate Enabled() { maxPps > 0 || maxBps > 0 }
  }

  datatype RateState = RateState(windowStart: u64, packets: nat, bytes: nat)

  datatype State = State(blocklist: map<Address, u64>, ranges: map<Bits, u64>, rates: map<Address, RateState>)

  datatype Verdict = Pass | Drop

  /** Unsigned addition that saturates when it wraps around. */
  function Expiry(now: u64, blockTime: u64): (e: u64)
    ensures e == if now + blockTime < U64 then now + blockTime else U64 - 1
  {
    var expires := (now + blockTime) % U64;
    if expires < now then U64 - 1 else expires
  }

  /** A source over the limit is blocked for a while, if so configured. */
  function Trip(cfg: Config, blocklist: map<Address, u64>, src: Address, now: u64): map<Address, u64> {
    if cfg.blockTime > 0 then blocklist[src := Expiry(now, cfg.blockTime)] else blocklist
  }

  /** The rate state after a packet, and whether the packet is over the limit. */
  function Count(cfg: Config, st0: Option<RateState>, length: nat, now: u64): (RateState, bool) {
    if st0 == None || Elapsed(now, st0.value.windowStart) >= WINDOW then (RateState(now, 1, length), false)
    else
      var st := st0.value;
      var st1 := if cfg.maxPps > 0 then st.(packets := st.packets + 1) else st;
      if cfg.maxPps > 0 && st1.packets >= cfg.maxPps then (st1, true)
      else
        var st2 := if cfg.maxBps > 0 then st1.(bytes := st1.bytes + length) else st1;
        (st2, cfg.maxBps > 0 && st2.bytes > cfg.maxBps)
  }

  function RateOf(s: State, src: Address): Option<RateState> {
    if src in s.rates then Some(s.rates[src]) else None
  }

  function CheckRateLimit(cfg: Option<Config>, s: State, src: Address, length: nat, now: u64): (State, bool) {
    if cfg == None || !cfg.value.Enabled() then (s, false)
    else
      var (st, over) := Count(cfg.value, RateOf(s, src), length, now);
      (s.(rates := s.rates[src := st],
          blocklist := if over then Trip(cfg.value, s.blocklist, src, now) else s.blocklist),
       over)
  }

  function Process(cfg: Option<Config>, s: State, src: Address, length: nat, now: u64): (State, Verdict) {
    if Blocked(s.blocklist, src, now) then (s, Drop)
    else if CidrBlocked(s.ranges, src, now) then (s, Drop)
    else
      var (s', over) := CheckRateLimit(cfg, s, src, length, now);
      (s', if over then Drop else Pass)
  }

  // ---------- the maps in place ----------

  class Firewall {
    const cfg: Option<Config>
    var blocklist: map<Address, u64>
    var ranges: map<Bits, u64>
    var rates: map<Address, RateState>

    function View(): State
      reads this
    {
      State(blocklist, ranges, rates)
    }

    constructor (cfg: Option<Config>)
      ensures this.cfg == cfg && View() == State(map[], map[], map[])
    {
      this.cfg := cfg;
      blocklist, ranges, rates := map[], map[], map[];
    }

    method TripLimit(src: Address, now: u64)
      requires cfg.Some?
      modifies this`blocklist
      ensures blocklist == Trip(cfg.value, old(blocklist), src, now)
    {
      if cfg.value.blockTime > 0 {
        var expires := (now + cfg.value.blockTime) % U64;
        if expires < now {
          expires := U64 - 1;
        }
        blocklist := blocklist[src := expires];
      }
    }

    method LimitPacket(src: Address, length: nat, now: u64) returns (over: bool)
      modifies this`blocklist, this`rates
      ensures (View(), over) == CheckRateLimit(cfg, old(View()), src, length, now)
    {
      if cfg == None || (cfg.value.maxPps == 0 && cfg.value.maxBps == 0) {
        return false;
      }
      if src in rates {
        var state := rates[src];
        if Elapsed(now, state.windowStart) >= WINDOW {
          rates := rates[src := RateState(now, 1, length)];
          return false;
        }
        if cfg.value.maxPps > 0 {
          state := state.(packets := state.packets + 1);
          rates := rates[src := state];
          if state.packets >= cfg.value.maxPps {
            TripLimit(src, now);
            return true;
          }
        }
        if cfg.value.maxBps > 0 {
          state := state.(bytes := state.bytes + length);
          rates := rates[src := state];
          assert rates == old(rates)[src := state];
          if state.bytes > cfg.value.maxBps {
            TripLimit(src, now);
            return true;
          }
        }
      } else {
        rates := rates[src := RateState(now, 1, length)];
      }
      return false;
    }

    method FilterPacket(src: Address, length: nat, now: u64) returns (verdict: Verdict)
      modifies this`blocklist, this`rates
      ensures (View(), verdict) == Process(cfg, old(View()), src, length, now)
    {
      hide CheckRateLimit, CidrBlocked;
      if src in blocklist && !IsExpired(blocklist[src], now) {
        return Drop;
      }
      if CidrBlocked(ranges, src, now) {
        return Drop;
      }
      var over := LimitPacket(src, length, now);
      return if over then Drop else Pass;
    }

    /** Blocks an address; without a positive duration it never expires. The sum wraps around. */
    method Block(ip: Address, duration: int, now: u64)
      modifies this`blocklist
      ensures View() == Next(cfg, old(View()), Put(ip, if duration > 0 then (now + duration) % U64 else 0, now))
    {
      var expires: u64 := 0;
      if duration > 0 {
        expires := (now + duration) % U64;
      }
      blocklist := blocklist[ip := expires];
    }

    method Unblock(ip: Address, now: u64)
      modifies this`blocklist
      ensures View() == Next(cfg, old(View()), Remove(ip, now))
    {
      blocklist := blocklist - {ip};
    }

    /** One sweep over both maps; iteration may miss keys and deletions may fail. */
    method CleanupExpiredEntries(visited: set<Address>, stuck: set<Address>, visitedRanges: set<Bits>,
                                 stuckRanges: set<Bits>, now: u64)
      returns (cleaned: nat)
      modifies this`blocklist, this`ranges
      ensures View() == Next(cfg, old(View()), Sweep(visited, stuck, visitedRanges, stuckRanges, now))
      ensures cleaned == |old(blocklist)| - |blocklist| + |old(ranges)| - |ranges|
    {
      hide Swept;
      var n: nat;
      blocklist, cleaned := CleanupMap(blocklist, visited, stuck, now);
      ranges, n := CleanupMap(ranges, visitedRanges, stuckRanges, now);
      cleaned := cleaned + n;
    }
  }

  // ---------- runs ----------

  datatype Step =
    | Packet(src: Address, length: nat, now: u64)
    | Sweep(visited: set<Address>, stuck: set<Address>, visitedRanges: set<Bits>, stuckRanges: set<Bits>, now: u64)
    | Put(ip: Address, expires: u64, now: u64)
    | Remove(ip: Address, now: u64)
    | SetRanges(ranges: map<Bits, u64>, now: u64)

  function Next(cfg: Option<Config>, s: State, step: Step): State {
    match step
    case Packet(src, length, now) => Process(cfg, s, src, length, now).0
    case Sweep(visited, stuck, visitedRanges, stuckRanges, now) =>
      s.(blocklist := Swept(s.blocklist, visited, stuck, now),
         ranges := Swept(s.ranges, visitedRanges, stuckRanges, now))
    case Put(ip, expires, _) => s.(blocklist := s.blocklist[ip := expires])
    case Remove(ip, _) => s.(blocklist := s.blocklist - {ip})
    case SetRanges(ranges, _) => s.(ranges := ranges)
  }

  /** The rate map starts empty; the blocklists may already hold entries. */
  function After(cfg: Option<Config>, s: State, steps: seq<Step>): State {
    if steps == [] then s else Next(cfg, After(cfg, s, steps[..|steps| - 1]), steps[|steps| - 1])
  }

  /** Packets read one clock that does not run backwards; sweeps and commands may read
      others. */
  ghost predicate PacketsOrdered(steps: seq<Step>) {
    forall i, j | 0 <= i <= j < |steps| && steps[i].Packet? && steps[j].Packet? :: steps[i].now <= steps[j].now
  }

  /** The time of the last packet, zero before the first. */
  function LastPacket(steps: seq<Step>): (t: int)
    ensures t == 0 || exists k :: 0 <= k < |steps| && steps[k].Packet? && steps[k].now == t
  {
    if steps == [] then 0
    else if steps[|steps| - 1].Packet? then steps[|steps| - 1].now
    else LastPacket(steps[..|steps| - 1])
  }

  lemma PacketsAdvance(steps: seq<Step>)
    requires PacketsOrdered(steps) && steps != []
    ensures var prefix, last := steps[..|steps| - 1], steps[|steps| - 1];
            && PacketsOrdered(prefix)
            && LastPacket(prefix) <= LastPacket(steps)
            && (last.Packet? ==> LastPacket(prefix) <= last.now)
  {
    var prefix, last := steps[..|steps| - 1], steps[|steps| - 1];
    if last.Packet? && LastPacket(prefix) != 0 {
      var k :| 0 <= k < |prefix| && prefix[k].Packet? && prefix[k].now == LastPacket(prefix);
      assert steps[k] == prefix[k];
    }
  }

  predicate IsPacketOf(step: Step, src: Address) { step.Packet? && step.src == src }

  function VerdictAt(cfg: Option<Config>, s: State, steps: seq<Step>, i: nat): Verdict
    requires i < |steps| && steps[i].Packet?
  {
    Process(cfg, After(cfg, s, steps[..i]), steps[i].src, steps[i].length, steps[i].now).1
  }

  /** The packet reached the limiter and was over the limit. */
  predicate Trips(cfg: Option<Config>, s: State, steps: seq<Step>, i: nat)
    requires i < |steps| && steps[i].Packet?
  {
    var before, p := After(cfg, s, steps[..i]), steps[i];
    && !Blocked(before.blocklist, p.src, p.now) && !CidrBlocked(before.ranges, p.src, p.now)
    && CheckRateLimit(cfg, before, p.src, p.length, p.now).1
  }

  // ---------- the automatic block ----------

  /** The entry of `src` lasts at least until `until`. */
  predicate HoldsUntil(blocklist: map<Address, u64>, src: Address, until: u64) {
    src in blocklist && (blocklist[src] == 0 || blocklist[src] >= until)
  }

  /** The step does not unblock `src`, nor replace its entry by an earlier expiry. */
  predicate LeavesBlocked(step: Step, src: Address, until: u64) {
    && !(step.Remove? && step.ip == src)
    && (step.Put? && step.ip == src ==> step.expires == 0 || step.expires >= until)
  }

  /** The clock that the step reads has not passed `until`; commands read none. */
  predicate InTime(step: Step, until: u64) {
    step.Packet? || step.Sweep? ==> step.now <= until
  }

  lemma StepHolds(cfg: Option<Config>, s: State, step: Step, src: Address, until: u64)
    requires HoldsUntil(s.blocklist, src, until) && InTime(step, until) && LeavesBlocked(step, src, until)
    ensures HoldsUntil(Next(cfg, s, step).blocklist, src, until)
  {
    hide CidrBlocked, Count;
  }

  lemma AfterOne(cfg: Option<Config>, s: State, steps: seq<Step>, i: nat)
    requires i < |steps|
    ensures After(cfg, s, steps[..i + 1]) == Next(cfg, After(cfg, s, steps[..i]), steps[i])
  {
    assert steps[..i + 1][..i] == steps[..i];
  }

  lemma {:induction false} HoldsThrough(cfg: Option<Config>, s: State, steps: seq<Step>, i: nat, j: nat,
                                        src: Address, until: u64)
    requires i <= j <= |steps| && HoldsUntil(After(cfg, s, steps[..i]).blocklist, src, until)
    requires forall k | i <= k < j :: InTime(steps[k], until) && LeavesBlocked(steps[k], src, until)
    ensures HoldsUntil(After(cfg, s, steps[..j]).blocklist, src, until)
    decreases j
  {
    hide HoldsUntil, LeavesBlocked, InTime, Next;
    if i < j {
      HoldsThrough(cfg, s, steps, i, j - 1, src, until);
      AfterOne(cfg, s, steps, j - 1);
      StepHolds(cfg, After(cfg, s, steps[..j - 1]), steps[j - 1], src, until);
    }
  }

  /** After a trip at time t no packet of the source passes up to t plus the block time,
      saturating, whatever other packets, sweeps, window resets and commands come in between,
      unless someone unblocks the source or shortens its entry. Sweeps may read a clock of
      their own, as long as it has not passed the end of the block either. */
  lemma TripBlocksTheSource(cfg: Option<Config>, s: State, steps: seq<Step>, i: nat, j: nat)
    requires i < j < |steps| && cfg.Some? && cfg.value.blockTime > 0
    requires steps[i].Packet? && IsPacketOf(steps[j], steps[i].src) && Trips(cfg, s, steps, i)
    requires var until := Expiry(steps[i].now, cfg.value.blockTime);
             && steps[j].now <= until
             && forall k | i < k < j :: InTime(steps[k], until) && LeavesBlocked(steps[k], steps[i].src, until)
    ensures VerdictAt(cfg, s, steps, j) == Drop
  {
    hide Count, CidrBlocked, LeavesBlocked, InTime;
    var src, until := steps[i].src, Expiry(steps[i].now, cfg.value.blockTime);
    AfterOne(cfg, s, steps, i);
    assert HoldsUntil(After(cfg, s, steps[..i + 1]).blocklist, src, until);
    HoldsThrough(cfg, s, steps, i + 1, j, src, until);
  }

  /** For the whole packet path: a sweep before the packet never turns a drop into a pass. */
  lemma SweepNeverLetsThrough(cfg: Option<Config>, s: State, sweep: Step, src: Address, length: nat, now: u64)
    requires sweep.Sweep? && sweep.now <= now
    requires Process(cfg, s, src, length, now).1 == Drop
    ensures Process(cfg, Next(cfg, s, sweep), src, length, now).1 == Drop
  {
    hide Count, Swept, CidrBlocked, Blocked;
    SweepKeepsVerdicts(s.blocklist, sweep.visited, sweep.stuck, sweep.now, src, now);
    if CidrBlocked(s.ranges, src, now) {
      SweepNeverUnblocksRange(s.ranges, sweep.visitedRanges, sweep.stuckRanges, sweep.now, src, now);
    }
  }

  // ---------- what passes in one window ----------

  predicate InWindow(s: State, src: Address, w: int) {
    src in s.rates && s.rates[src].windowStart == w
  }

  /** Packet `i` is of this source, passed, and was counted in the window that started at `w`. */
  predicate PassedIn(cfg: Option<Config>, s: State, steps: seq<Step>, i: nat, src: Address, w: int)
    requires i < |steps|
  {
    IsPacketOf(steps[i], src) && VerdictAt(cfg, s, steps, i) == Pass && InWindow(After(cfg, s, steps[..i + 1]), src, w)
  }

  function PacketsIn(cfg: Option<Config>, s: State, steps: seq<Step>, src: Address, w: int): nat {
    if steps == [] then 0
    else PacketsIn(cfg, s, steps[..|steps| - 1], src, w) + One(PassedIn(cfg, s, steps, |steps| - 1, src, w))
  }

  function BytesIn(cfg: Option<Config>, s: State, steps: seq<Step>, src: Address, w: int): nat {
    if steps == [] then 0
    else
      BytesIn(cfg, s, steps[..|steps| - 1], src, w)
      + if PassedIn(cfg, s, steps, |steps| - 1, src, w) then steps[|steps| - 1].length else 0
  }

  function PacketLimit(cfg: Config): nat {
    if cfg.maxPps > 2 then cfg.maxPps - 1 else 1
  }

  ghost predicate WithinLimits(cfg: Config, packets: nat, bytes: nat) {
    && (cfg.maxPps > 0 ==> packets <= PacketLimit(cfg))
    && (cfg.maxBps > 0 ==> bytes <= cfg.maxBps || packets <= 1)
  }

  /** Nothing passed in windows to come; what passed in the current one has been counted. */
  ghost predicate WindowInv(cfg: Config, st: Option<RateState>, packets: nat, bytes: nat, w: int) {
    && WithinLimits(cfg, packets, bytes)
    && (st == None || w > st.value.windowStart ==> packets == 0 && bytes == 0)
    && (st.Some? && w == st.value.windowStart ==>
          && (cfg.maxPps > 0 ==> packets <= st.value.packets)
          && (cfg.maxBps > 0 ==> bytes <= st.value.bytes))
  }

  /** One more packet of the source, on values. */
  lemma CountKeepsWindow(cfg: Config, st: Option<RateState>, length: nat, now: u64, packets: nat, bytes: nat, w: int)
    requires cfg.Enabled() && WindowInv(cfg, st, packets, bytes, w)
    requires st.Some? ==> st.value.windowStart <= now
    ensures var (st', over) := Count(cfg, st, length, now);
            var passed := !over && st'.windowStart == w;
            && st'.windowStart <= now
            && WindowInv(cfg, Some(st'), packets + One(passed), bytes + if passed then length else 0, w)
  {
    hide Elapsed;
  }

  lemma OtherStepsKeepRates(cfg: Option<Config>, s: State, step: Step, src: Address)
    requires !IsPacketOf(step, src) || Process(cfg, s, src, step.length, step.now).0 == s
    ensures RateOf(Next(cfg, s, step), src) == RateOf(s, src)
  {
    hide Count, CidrBlocked, Swept, Trip;
  }

  lemma {:induction false} WindowsKeepInv(cfg: Config, s: State, steps: seq<Step>, src: Address, w: int)
    requires cfg.Enabled() && PacketsOrdered(steps) && src !in s.rates
    ensures var st := RateOf(After(Some(cfg), s, steps), src);
            && WindowInv(cfg, st, PacketsIn(Some(cfg), s, steps, src, w), BytesIn(Some(cfg), s, steps, src, w), w)
            && (st.Some? ==> st.value.windowStart <= LastPacket(steps))
  {
    if steps != [] {
      hide After, PacketsIn, BytesIn, RateOf, WindowInv, Count, PacketsOrdered, LastPacket, IsCounted;
      var prefix, step := steps[..|steps| - 1], steps[|steps| - 1];
      WindowsKeepInv(cfg, s, prefix, src, w);
      PacketsAdvance(steps);
      if IsCounted(Some(cfg), s, steps, src) {
        CountedPacket(cfg, s, steps, src, w);
        CountKeepsWindow(cfg, RateOf(After(Some(cfg), s, prefix), src), step.length, step.now,
                         PacketsIn(Some(cfg), s, prefix, src, w), BytesIn(Some(cfg), s, prefix, src, w), w);
      } else {
        UncountedStep(cfg, s, steps, src, w);
      }
    } else {
      NothingPassedYet(cfg, s, src, w);
    }
  }

  /** The last step is a packet of the source that reaches the limiter. */
  predicate IsCounted(cfg: Option<Config>, s: State, steps: seq<Step>, src: Address)
    requires steps != []
  {
    var before, step := After(cfg, s, steps[..|steps| - 1]), steps[|steps| - 1];
    IsPacketOf(step, src) && !Blocked(before.blocklist, src, step.now) && !CidrBlocked(before.ranges, src, step.now)
  }

  lemma CountedPacket(cfg: Config, s: State, steps: seq<Step>, src: Address, w: int)
    requires cfg.Enabled() && steps != [] && IsCounted(Some(cfg), s, steps, src)
    ensures var prefix, step := steps[..|steps| - 1], steps[|steps| - 1];
            var (st', over) := Count(cfg, RateOf(After(Some(cfg), s, prefix), src), step.length, step.now);
            var passed := !over && st'.windowStart == w;
            && step.Packet? && RateOf(After(Some(cfg), s, steps), src) == Some(st') && LastPacket(steps) == step.now
            && PacketsIn(Some(cfg), s, steps, src, w) == PacketsIn(Some(cfg), s, prefix, src, w) + One(passed)
            && BytesIn(Some(cfg), s, steps, src, w)
               == BytesIn(Some(cfg), s, prefix, src, w) + if passed then step.length else 0
  {
    hide Count, CidrBlocked, Blocked, Trip;
    assert steps[..|steps|] == steps;
  }

  lemma UncountedStep(cfg: Config, s: State, steps: seq<Step>, src: Address, w: int)
    requires steps != [] && !IsCounted(Some(cfg), s, steps, src)
    ensures var prefix := steps[..|steps| - 1];
            && RateOf(After(Some(cfg), s, steps), src) == RateOf(After(Some(cfg), s, prefix), src)
            && PacketsIn(Some(cfg), s, steps, src, w) == PacketsIn(Some(cfg), s, prefix, src, w)
            && BytesIn(Some(cfg), s, steps, src, w) == BytesIn(Some(cfg), s, prefix, src, w)
  {
    hide Count, CidrBlocked, Blocked, Swept, Trip, RateOf;
    OtherStepsKeepRates(Some(cfg), After(Some(cfg), s, steps[..|steps| - 1]), steps[|steps| - 1], src);
    assert steps[..|steps|] == steps;
  }

  lemma NothingPassedYet(cfg: Config, s: State, src: Address, w: int)
    requires src !in s.rates
    ensures WindowInv(cfg, RateOf(s, src), 0, 0, w)
  {
  }

  /** Per source and window, over any run that does not evict rate states: at most
      max(1, max_pps - 1) packets pass under a packet limit, and under a byte limit at most
      max_bps bytes pass, or a single packet. */
  lemma WindowsAreWithinLimits(cfg: Config, s: State, steps: seq<Step>, src: Address, w: int)
    requires cfg.Enabled() && PacketsOrdered(steps) && src !in s.rates
    ensures WithinLimits(cfg, PacketsIn(Some(cfg), s, steps, src, w), BytesIn(Some(cfg), s, steps, src, w))
  {
    WindowsKeepInv(cfg, s, steps, src, w);
  }

  // ---------- nothing is dropped without need ----------

  /** Packets of the source at time `t` or later. */
  function PacketsSince(steps: seq<Step>, src: Address, t: int): nat {
    if steps == [] then 0
    else
      var p := steps[|steps| - 1];
      PacketsSince(steps[..|steps| - 1], src, t) + One(IsPacketOf(p, src) && p.now >= t)
  }

  function BytesSince(steps: seq<Step>, src: Address, t: int): nat {
    if steps == [] then 0
    else
      var p := steps[|steps| - 1];
      BytesSince(steps[..|steps| - 1], src, t) + if IsPacketOf(p, src) && p.now >= t then p.length else 0
  }

  lemma {:induction false} SinceEarlier(steps: seq<Step>, src: Address, t: int, earlier: int)
    requires earlier <= t
    ensures PacketsSince(steps, src, t) <= PacketsSince(steps, src, earlier)
    ensures BytesSince(steps, src, t) <= BytesSince(steps, src, earlier)
  {
    if steps != [] { SinceEarlier(steps[..|steps| - 1], src, t, earlier); }
  }

  /** Counters never exceed what was seen since the window started. */
  ghost predicate CountsAreReal(st: Option<RateState>, steps: seq<Step>, src: Address) {
    st.Some? ==>
      && st.value.windowStart <= LastPacket(steps)
      && st.value.packets <= PacketsSince(steps, src, st.value.windowStart)
      && st.value.bytes <= BytesSince(steps, src, st.value.windowStart)
  }

  lemma OnePacketReal(cfg: Config, st: Option<RateState>, steps: seq<Step>, src: Address)
    requires steps != [] && IsPacketOf(steps[|steps| - 1], src)
    requires CountsAreReal(st, steps[..|steps| - 1], src)
    requires st.Some? ==> st.value.windowStart <= steps[|steps| - 1].now
    ensures var p := steps[|steps| - 1]; CountsAreReal(Some(Count(cfg, st, p.length, p.now).0), steps, src)
  {
    hide Elapsed;
  }

  lemma OtherStepReal(st: Option<RateState>, steps: seq<Step>, src: Address)
    requires steps != [] && PacketsOrdered(steps) && CountsAreReal(st, steps[..|steps| - 1], src)
    ensures CountsAreReal(st, steps, src)
  {
    PacketsAdvance(steps);
  }

  lemma {:induction false} CountsStayReal(cfg: Config, s: State, steps: seq<Step>, src: Address)
    requires cfg.Enabled() && PacketsOrdered(steps) && src !in s.rates
    ensures CountsAreReal(RateOf(After(Some(cfg), s, steps), src), steps, src)
  {
    if steps != [] {
      hide Count, CidrBlocked, Blocked, Swept, Trip, PacketsSince, BytesSince, PacketsOrdered;
      var k := |steps| - 1;
      var prefix, step := steps[..k], steps[k];
      var before := After(Some(cfg), s, prefix);
      CountsStayReal(cfg, s, prefix, src);
      PacketsAdvance(steps);
      if IsPacketOf(step, src) && !Blocked(before.blocklist, src, step.now)
          && !CidrBlocked(before.ranges, src, step.now) {
        OnePacketReal(cfg, RateOf(before, src), steps, src);
      } else {
        OtherStepsKeepRates(Some(cfg), before, step, src);
        OtherStepReal(RateOf(before, src), steps, src);
      }
    }
  }

  /** A source is only found over the limit when its packets of the last second, this one
      included, reach max_pps or their bytes exceed max_bps. */
  lemma TripsAreNeeded(cfg: Config, s: State, steps: seq<Step>, i: nat)
    requires cfg.Enabled() && PacketsOrdered(steps) && i < |steps| && steps[i].Packet? && steps[i].src !in s.rates
    requires Trips(Some(cfg), s, steps, i)
    ensures var p := steps[i];
            || (cfg.maxPps > 0 && PacketsSince(steps[..i], p.src, p.now - 999_999_999) + 1 >= cfg.maxPps)
            || (cfg.maxBps > 0 && BytesSince(steps[..i], p.src, p.now - 999_999_999) + p.length > cfg.maxBps)
  {
    hide CidrBlocked, Blocked, Elapsed, PacketsSince, BytesSince, After;
    var p, before := steps[i], steps[..i];
    CountsStayReal(cfg, s, before, p.src);
    var st := RateOf(After(Some(cfg), s, before), p.src);
    if st.Some? {
      PacketsAdvance(steps[..i + 1]);
      assert steps[..i + 1][..i] == before;
      SinceEarlier(before, p.src, st.value.windowStart, p.now - WINDOW + 1);
    }
  }
}
