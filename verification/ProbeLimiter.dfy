/** The two-tier event limiter of the probe: a counter per CPU and a shared one, each over
    a window of one second that restarts with the first call after it has run out.

    A call is one atomic step. Counters have the width of the source and wrap around. */
module ProbeLimiter {
  import opened Durations
  import opened Words

  const WINDOW: int := SECOND
  const PER_CPU: int := 10_000
  const GLOBAL: int := 200_000

  datatype CpuState = CpuState(windowStart: u64, count: u32, dropped: u32)
  datatype GlobalState = GlobalState(windowStart: u64, count: u64)
  datatype State = State(cpus: map<nat, CpuState>, g: GlobalState)

  datatype Call = Call(cpu: nat, now: u64)

  const IDLE := CpuState(0, 0, 0)
  const START := State(map[], GlobalState(0, 0))

  function CpuOf(s: State, cpu: nat): CpuState {
    if cpu in s.cpus then s.cpus[cpu] else IDLE
  }

  function Inc32(x: u32): (r: u32)
    ensures r <= x + 1 && (x < U32 - 1 ==> r == x + 1)
  {
    (x + 1) % U32
  }

  function Inc64(x: u64): (r: u64)
    ensures r <= x + 1 && (x < U64 - 1 ==> r == x + 1)
  {
    (x + 1) % U64
  }

  function Drop(c: CpuState): CpuState {
    c.(dropped := Inc32(c.dropped))
  }

  predicate Restarts(c: CpuState, now: u64) {
    c.windowStart == 0 || Elapsed(now, c.windowStart) >= WINDOW
  }

  /** First tier: the CPU state after the call, and whether the call passes. */
  function CpuTier(c: CpuState, now: u64): (CpuState, bool) {
    if Restarts(c, now) then (c.(windowStart := now, count := 1), true)
    else
      var counted := c.(count := Inc32(c.count));
      if counted.count >= PER_CPU then (Drop(counted), false) else (counted, true)
  }

  /** Second tier: a call passes while the count before it is below the limit. */
  function GlobalTier(g: GlobalState, now: u64): (GlobalState, bool) {
    var g1 := if Elapsed(now, g.windowStart) >= WINDOW then GlobalState(now, 0) else g;
    (g1.(count := Inc64(g1.count)), g1.count < GLOBAL)
  }

  function Step(s: State, call: Call): (State, bool) {
    var (c, cpuOk) := CpuTier(CpuOf(s, call.cpu), call.now);
    if !cpuOk then (s.(cpus := s.cpus[call.cpu := c]), false)
    else
      var (g, globalOk) := GlobalTier(s.g, call.now);
      (State(s.cpus[call.cpu := if globalOk then c else Drop(c)], g), globalOk)
  }

  class Limiter {
    var cpus: map<nat, CpuState>
    var g: GlobalState

    function View(): State
      reads this
    {
      State(cpus, g)
    }

    constructor ()
      ensures View() == START
    {
      cpus, g := map[], GlobalState(0, 0);
    }

    method CheckRateLimit(cpu: nat, now: u64) returns (emit: bool)
      modifies this
      ensures (View(), emit) == Step(old(View()), Call(cpu, now))
    {
      var state := if cpu in cpus then cpus[cpu] else IDLE;
      var perCpuOk := true;
      if state.windowStart == 0 {
        state := state.(windowStart := now, count := 1);
      } else if (now - state.windowStart) % U64 >= WINDOW {
        state := state.(windowStart := now, count := 1);
      } else {
        state := state.(count := (state.count + 1) % U32);
        if state.count >= PER_CPU {
          state := state.(dropped := (state.dropped + 1) % U32);
          perCpuOk := false;
        }
      }
      cpus := cpus[cpu := state];
      if !perCpuOk {
        return false;
      }
      if (now - g.windowStart) % U64 >= WINDOW {
        g := GlobalState(now, 0);
      }
      var before := g.count;
      g := g.(count := (g.count + 1) % U64);
      if before >= GLOBAL {
        state := state.(dropped := (state.dropped + 1) % U32);
        cpus := cpus[cpu := state];
        assert cpus == old(cpus)[cpu := state];
        return false;
      }
      return true;
    }
  }

  // ---------- traces ----------

  function After(trace: seq<Call>): State {
    if trace == [] then START else Step(After(trace[..|trace| - 1]), trace[|trace| - 1]).0
  }

  predicate Emitted(trace: seq<Call>, i: nat)
    requires i < |trace|
  {
    Step(After(trace[..i]), trace[i]).1
  }

  /** Passed the first tier. */
  predicate Passed(trace: seq<Call>, i: nat)
    requires i < |trace|
  {
    CpuTier(CpuOf(After(trace[..i]), trace[i].cpu), trace[i].now).1
  }

  /** Calls come from any CPU at positive, non-decreasing times. */
  ghost predicate Ordered(trace: seq<Call>) {
    && (forall i | 0 <= i < |trace| :: trace[i].now > 0)
    && (forall i, j | 0 <= i <= j < |trace| :: trace[i].now <= trace[j].now)
  }

  /** Calls on one CPU at time `t` or later. */
  function CallsFrom(trace: seq<Call>, cpu: nat, t: int): nat {
    if trace == [] then 0
    else
      var k := |trace| - 1;
      CallsFrom(trace[..k], cpu, t) + One(trace[k].cpu == cpu && trace[k].now >= t)
  }

  /** Calls on any CPU that passed the first tier at time `t` or later. */
  function PassesFrom(trace: seq<Call>, t: int): nat {
    if trace == [] then 0
    else
      var k := |trace| - 1;
      PassesFrom(trace[..k], t) + One(Passed(trace, k) && trace[k].now >= t)
  }

  predicate Inside(now: int, a: int) { a <= now < a + WINDOW }

  /** Events emitted by one CPU in the second that starts at `a`. */
  function EmittedBy(trace: seq<Call>, cpu: nat, a: int): nat {
    if trace == [] then 0
    else
      var k := |trace| - 1;
      EmittedBy(trace[..k], cpu, a) + One(trace[k].cpu == cpu && Emitted(trace, k) && Inside(trace[k].now, a))
  }

  /** Events emitted by the whole system in the second that starts at `a`. */
  function EmittedByAll(trace: seq<Call>, a: int): nat {
    if trace == [] then 0
    else
      var k := |trace| - 1;
      EmittedByAll(trace[..k], a) + One(Emitted(trace, k) && Inside(trace[k].now, a))
  }

  /** In no second does a counter see as many calls as its width can hold. */
  ghost predicate FitsCounters(trace: seq<Call>) {
    forall i | 0 <= i < |trace| ::
      && CallsFrom(trace[..i], trace[i].cpu, trace[i].now - WINDOW + 1) < U32 - 1
      && PassesFrom(trace[..i], trace[i].now - WINDOW + 1) < U64 - 1
  }

  lemma Prefix(trace: seq<Call>)
    requires trace != []
    ensures Ordered(trace) ==> Ordered(trace[..|trace| - 1]) && Last(trace[..|trace| - 1]) <= Last(trace)
    ensures FitsCounters(trace) ==> FitsCounters(trace[..|trace| - 1])
  {
    hide CallsFrom, PassesFrom;
    var front := trace[..|trace| - 1];
    assert forall i | 0 <= i < |front| :: front[i] == trace[i] && front[..i] == trace[..i];
    if |front| > 0 { assert front[|front| - 1] == trace[|trace| - 2]; }
  }

  lemma {:induction false} CallsFromEarlier(trace: seq<Call>, cpu: nat, t: int, earlier: int)
    requires earlier <= t
    ensures CallsFrom(trace, cpu, t) <= CallsFrom(trace, cpu, earlier)
  {
    if trace != [] { CallsFromEarlier(trace[..|trace| - 1], cpu, t, earlier); }
  }

  lemma {:induction false} PassesFromEarlier(trace: seq<Call>, t: int, earlier: int)
    requires earlier <= t
    ensures PassesFrom(trace, t) <= PassesFrom(trace, earlier)
  {
    if trace != [] { PassesFromEarlier(trace[..|trace| - 1], t, earlier); }
  }

  /** Window starts lie in the past, and a count never exceeds the calls since its start. */
  ghost predicate CountsAreReal(trace: seq<Call>, cpu: nat) {
    var s := After(trace);
    && CpuOf(s, cpu).windowStart <= Last(trace) && s.g.windowStart <= Last(trace)
    && CpuOf(s, cpu).count <= CallsFrom(trace, cpu, CpuOf(s, cpu).windowStart)
    && s.g.count <= PassesFrom(trace, s.g.windowStart)
  }

  function Last(trace: seq<Call>): int {
    if trace == [] then 0 else trace[|trace| - 1].now
  }

  lemma OneMoreReal(trace: seq<Call>, cpu: nat)
    requires Ordered(trace) && trace != [] && CountsAreReal(trace[..|trace| - 1], cpu)
    requires Last(trace[..|trace| - 1]) <= Last(trace)
    ensures CountsAreReal(trace, cpu)
  {
    hide Inc32, Inc64, Elapsed, Ordered;
    var k := |trace| - 1;
    var before := After(trace[..k]);
    RestartedCount(trace, cpu);
  }

  /** A call counts itself. */
  lemma RestartedCount(trace: seq<Call>, cpu: nat)
    requires trace != []
    ensures var c := trace[|trace| - 1]; c.cpu == cpu ==> CallsFrom(trace, cpu, c.now) >= 1
    ensures Passed(trace, |trace| - 1) ==> PassesFrom(trace, trace[|trace| - 1].now) >= 1
  {
    hide CpuTier, After;
  }

  lemma {:induction false} CountsStayReal(trace: seq<Call>, cpu: nat)
    requires Ordered(trace)
    ensures CountsAreReal(trace, cpu)
  {
    if trace != [] {
      hide CountsAreReal, Ordered;
      Prefix(trace);
      CountsStayReal(trace[..|trace| - 1], cpu);
      OneMoreReal(trace, cpu);
    } else {
      StartIsReal(cpu);
    }
  }

  lemma StartIsReal(cpu: nat)
    ensures CountsAreReal([], cpu)
  {
  }

  /** The limiter drops nothing without need: before a dropped event its CPU was called at
      least 9,999 times within the second, or 200,000 calls passed the first tier. */
  lemma DropsAreNeeded(trace: seq<Call>, i: nat)
    requires Ordered(trace) && i < |trace| && !Emitted(trace, i)
    ensures || CallsFrom(trace[..i], trace[i].cpu, trace[i].now - 999_999_999) >= 9_999
            || PassesFrom(trace[..i], trace[i].now - 999_999_999) >= 200_000
  {
    hide Inc32, Inc64, Elapsed, CallsFrom, PassesFrom, After;
    var before, cpu, now := trace[..i], trace[i].cpu, trace[i].now;
    var s := After(before);
    CountsStayReal(before, cpu);
    assert Last(before) <= now by {
      if i > 0 { assert trace[i - 1].now <= trace[i].now; }
    }
    if !Passed(trace, i) {
      CallsFromEarlier(before, cpu, CpuOf(s, cpu).windowStart, now - WINDOW + 1);
    } else {
      PassesFromEarlier(before, s.g.windowStart, now - WINDOW + 1);
    }
  }

  // ---------- upper bounds ----------

  function Min(a: int, b: int): int { if a < b then a else b }

  /** The most a window can have emitted inside the interval so far, given where the
      window starts: an interval meets at most two windows. */
  ghost predicate Bounded(emitted: nat, windowStart: int, inWindow: int, limit: int, a: int, last: int) {
    && (last < a ==> emitted == 0)
    && emitted <= if windowStart < a then Min(inWindow, limit)
                  else if windowStart < a + WINDOW then limit + Min(inWindow, limit)
                  else 2 * limit
  }

  ghost predicate CpuBounded(trace: seq<Call>, cpu: nat, a: int) {
    var c := CpuOf(After(trace), cpu);
    && Bounded(EmittedBy(trace, cpu, a), c.windowStart, c.count, PER_CPU - 1, a, Last(trace))
    && (c.windowStart == 0 ==> EmittedBy(trace, cpu, a) == 0 && c.count == 0)
  }

  /** One more call of this CPU, on values. */
  lemma CpuTierBounded(c: CpuState, now: u64, emittedBefore: nat, emits: bool, a: int, last: int)
    requires Bounded(emittedBefore, c.windowStart, c.count, PER_CPU - 1, a, last)
    requires c.windowStart == 0 ==> emittedBefore == 0
    requires c.windowStart <= last <= now && now > 0
    requires !Restarts(c, now) ==> c.count < U32 - 1
    requires emits ==> CpuTier(c, now).1
    ensures var c' := CpuTier(c, now).0;
            Bounded(emittedBefore + One(emits && Inside(now, a)), c'.windowStart, c'.count, PER_CPU - 1, a, now)
  {
    hide Inc32, Inc64, Elapsed;
  }

  /** A step changes only the state of its own CPU, and that like the first tier up to
      the count of drops. */
  lemma StepCpus(s: State, call: Call, cpu: nat)
    ensures var c, c' := CpuOf(s, cpu), CpuOf(Step(s, call).0, cpu);
            var r := if cpu == call.cpu then CpuTier(c, call.now).0 else c;
            c'.windowStart == r.windowStart && c'.count == r.count
    ensures Step(s, call).1 ==> CpuTier(CpuOf(s, call.cpu), call.now).1
  {
    hide Inc32, Inc64, Elapsed;
  }

  lemma CpuTierKeepsStart(c: CpuState, now: u64)
    requires now > 0
    ensures CpuTier(c, now).0.windowStart > 0
  {
    hide Inc32, Elapsed;
  }

  lemma OneMoreCpu(trace: seq<Call>, cpu: nat, a: int)
    requires Ordered(trace) && FitsCounters(trace) && trace != []
    requires CpuBounded(trace[..|trace| - 1], cpu, a)
    requires CountsAreReal(trace[..|trace| - 1], cpu)
    requires Last(trace[..|trace| - 1]) <= Last(trace)
    ensures CpuBounded(trace, cpu, a)
  {
    hide Inc32, Inc64, CallsFrom, PassesFrom, CpuTier, Step, CpuOf;
    var k := |trace| - 1;
    var before, now := trace[..k], trace[k].now;
    var c := CpuOf(After(before), cpu);
    StepCpus(After(before), trace[k], cpu);
    if trace[k].cpu == cpu {
      if !Restarts(c, now) {
        CallsFromEarlier(before, cpu, c.windowStart, now - WINDOW + 1);
      }
      CpuTierBounded(c, now, EmittedBy(before, cpu, a), Emitted(trace, k), a, Last(before));
      CpuTierKeepsStart(c, now);
    }
  }

  lemma {:induction false} CpuStaysBounded(trace: seq<Call>, cpu: nat, a: int)
    requires Ordered(trace) && FitsCounters(trace)
    ensures CpuBounded(trace, cpu, a)
  {
    if trace != [] {
      Prefix(trace);
      CpuStaysBounded(trace[..|trace| - 1], cpu, a);
      CountsStayReal(trace[..|trace| - 1], cpu);
      OneMoreCpu(trace, cpu, a);
    }
  }

  ghost predicate SystemBounded(trace: seq<Call>, a: int) {
    var g := After(trace).g;
    Bounded(EmittedByAll(trace, a), g.windowStart, g.count, GLOBAL, a, Last(trace))
  }

  /** One more call that reaches the second tier, on values. */
  lemma GlobalTierBounded(g: GlobalState, now: u64, emittedBefore: nat, a: int, last: int)
    requires Bounded(emittedBefore, g.windowStart, g.count, GLOBAL, a, last)
    requires g.windowStart <= last <= now
    requires Elapsed(now, g.windowStart) < WINDOW ==> g.count < U64 - 1
    ensures var (g', emits) := GlobalTier(g, now);
            Bounded(emittedBefore + One(emits && Inside(now, a)), g'.windowStart, g'.count, GLOBAL, a, now)
  {
    hide Inc32, Inc64, Elapsed;
  }

  lemma OneMoreGlobal(trace: seq<Call>, a: int)
    requires Ordered(trace) && FitsCounters(trace) && trace != []
    requires SystemBounded(trace[..|trace| - 1], a)
    requires CountsAreReal(trace[..|trace| - 1], trace[|trace| - 1].cpu)
    requires Last(trace[..|trace| - 1]) <= Last(trace)
    ensures SystemBounded(trace, a)
  {
    hide Inc32, Inc64, CallsFrom, PassesFrom, CpuTier, GlobalTier, CpuOf;
    var k := |trace| - 1;
    var before, now := trace[..k], trace[k].now;
    var g := After(before).g;
    if Elapsed(now, g.windowStart) < WINDOW {
      PassesFromEarlier(before, g.windowStart, now - WINDOW + 1);
    }
    GlobalTierBounded(g, now, EmittedByAll(before, a), a, Last(before));
  }

  lemma {:induction false} SystemStaysBounded(trace: seq<Call>, a: int)
    requires Ordered(trace) && FitsCounters(trace)
    ensures SystemBounded(trace, a)
  {
    if trace != [] {
      Prefix(trace);
      SystemStaysBounded(trace[..|trace| - 1], a);
      CountsStayReal(trace[..|trace| - 1], trace[|trace| - 1].cpu);
      OneMoreGlobal(trace, a);
    }
  }

  /** In any one second, at any offset, one CPU emits at most 19,998 events and all CPUs
      together at most 400,000, however the calls are spread over the CPUs. */
  lemma EmissionIsBounded(trace: seq<Call>, cpu: nat, a: int)
    requires Ordered(trace) && FitsCounters(trace)
    ensures EmittedBy(trace, cpu, a) <= 19_998
    ensures EmittedByAll(trace, a) <= 400_000
  {
    CpuStaysBounded(trace, cpu, a);
    SystemStaysBounded(trace, a);
  }

  // ---------- per window ----------

  /** Events emitted by one CPU in its window that started at `w`. */
  function EmittedInWindow(trace: seq<Call>, cpu: nat, w: int): nat {
    if trace == [] then 0
    else
      var k := |trace| - 1;
      EmittedInWindow(trace[..k], cpu, w)
      + One(trace[k].cpu == cpu && Emitted(trace, k) && CpuOf(After(trace), cpu).windowStart == w)
  }

  /** Events emitted by the whole system in the shared window that started at `w`. */
  function EmittedInSharedWindow(trace: seq<Call>, w: int): nat {
    if trace == [] then 0
    else
      var k := |trace| - 1;
      EmittedInSharedWindow(trace[..k], w) + One(Emitted(trace, k) && After(trace).g.windowStart == w)
  }

  ghost predicate WindowBounded(emitted: nat, windowStart: int, inWindow: int, limit: int, w: int) {
    emitted <= if w == windowStart then Min(inWindow, limit) else if w > windowStart then 0 else limit
  }

  lemma {:induction false} CpuWindows(trace: seq<Call>, cpu: nat, w: int)
    requires Ordered(trace) && FitsCounters(trace)
    ensures var c := CpuOf(After(trace), cpu);
            WindowBounded(EmittedInWindow(trace, cpu, w), c.windowStart, c.count, PER_CPU - 1, w)
  {
    hide Inc32, Inc64, CallsFrom, PassesFrom, CpuTier, Step, CpuOf;
    if trace == [] {
      IdleCount(cpu);
    } else {
      var k := |trace| - 1;
      var before, now := trace[..k], trace[k].now;
      Prefix(trace);
      CpuWindows(before, cpu, w);
      CountsStayReal(before, cpu);
      var c := CpuOf(After(before), cpu);
      StepCpus(After(before), trace[k], cpu);
      if trace[k].cpu == cpu {
        if !Restarts(c, now) {
          CallsFromEarlier(before, cpu, c.windowStart, now - WINDOW + 1);
        }
        CpuTierWindow(c, now, EmittedInWindow(before, cpu, w), Emitted(trace, k), w);
      }
    }
  }

  lemma IdleCount(cpu: nat)
    ensures CpuOf(After([]), cpu) == IDLE
  {
  }

  lemma CpuTierWindow(c: CpuState, now: u64, emittedBefore: nat, emits: bool, w: int)
    requires WindowBounded(emittedBefore, c.windowStart, c.count, PER_CPU - 1, w)
    requires c.windowStart <= now && now > 0
    requires !Restarts(c, now) ==> c.count < U32 - 1
    requires emits ==> CpuTier(c, now).1
    ensures var c' := CpuTier(c, now).0;
            WindowBounded(emittedBefore + One(emits && c'.windowStart == w), c'.windowStart, c'.count, PER_CPU - 1, w)
  {
    hide Inc32, Inc64, Elapsed;
  }

  lemma {:induction false} SharedWindows(trace: seq<Call>, w: int)
    requires Ordered(trace) && FitsCounters(trace)
    ensures WindowBounded(EmittedInSharedWindow(trace, w), After(trace).g.windowStart, After(trace).g.count, GLOBAL, w)
  {
    hide Inc32, Inc64, CallsFrom, PassesFrom, CpuTier, GlobalTier, CpuOf;
    if trace != [] {
      var k := |trace| - 1;
      var before, now := trace[..k], trace[k].now;
      Prefix(trace);
      SharedWindows(before, w);
      CountsStayReal(before, trace[k].cpu);
      var g := After(before).g;
      if Elapsed(now, g.windowStart) < WINDOW {
        PassesFromEarlier(before, g.windowStart, now - WINDOW + 1);
      }
      GlobalTierWindow(g, now, EmittedInSharedWindow(before, w), w);
    }
  }

  lemma GlobalTierWindow(g: GlobalState, now: u64, emittedBefore: nat, w: int)
    requires WindowBounded(emittedBefore, g.windowStart, g.count, GLOBAL, w)
    requires g.windowStart <= now
    requires Elapsed(now, g.windowStart) < WINDOW ==> g.count < U64 - 1
    ensures var (g', emits) := GlobalTier(g, now);
            WindowBounded(emittedBefore + One(emits && g'.windowStart == w), g'.windowStart, g'.count, GLOBAL, w)
  {
    hide Inc32, Inc64, Elapsed;
  }

  /** Per window a CPU emits at most 9,999 events and the system at most 200,000. */
  lemma WindowsAreBounded(trace: seq<Call>, cpu: nat, w: int)
    requires Ordered(trace) && FitsCounters(trace)
    ensures EmittedInWindow(trace, cpu, w) <= 9_999
    ensures EmittedInSharedWindow(trace, w) <= 200_000
  {
    CpuWindows(trace, cpu, w);
    SharedWindows(trace, w);
  }

  // ---------- the drop counters ----------

  /** Calls on one CPU that were not emitted. */
  function DroppedBy(trace: seq<Call>, cpu: nat): nat {
    if trace == [] then 0
    else
      DroppedBy(trace[..|trace| - 1], cpu)
      + One(trace[|trace| - 1].cpu == cpu && !Emitted(trace, |trace| - 1))
  }

  lemma AddedModulo(x: nat, d: nat)
    ensures (x % 0x1_0000_0000 + d) % 0x1_0000_0000 == (x + d) % 0x1_0000_0000
  {
  }

  lemma OneMoreDrop(s: State, call: Call, cpu: nat)
    ensures var (t, emitted) := Step(s, call);
            CpuOf(t, cpu).dropped == (CpuOf(s, cpu).dropped + One(call.cpu == cpu && !emitted)) % 0x1_0000_0000
  {
  }

  /** On every trace, ordered or not, the counter of a CPU is the number of its events that
      either tier has dropped, modulo 2^32. */
  lemma {:induction false} DropsAreCounted(trace: seq<Call>, cpu: nat)
    ensures CpuOf(After(trace), cpu).dropped == DroppedBy(trace, cpu) % 0x1_0000_0000
  {
    if trace != [] {
      hide Step, CpuOf;
      var front, call := trace[..|trace| - 1], trace[|trace| - 1];
      DropsAreCounted(front, cpu);
      OneMoreDrop(After(front), call, cpu);
      var last := One(call.cpu == cpu && !Emitted(trace, |trace| - 1));
      assert DroppedBy(trace, cpu) == DroppedBy(front, cpu) + last;
      hide DroppedBy, After, Emitted, One;
      AddedModulo(DroppedBy(front, cpu), last);
    } else {
      IdleCount(cpu);
    }
  }
}
