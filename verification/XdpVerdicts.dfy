/** What the packet path answers, told from the entries and counters themselves. */
module XdpVerdicts {
  import opened Options
  import opened Words
  import opened Blocklist
  import opened XdpFirewall

  /** An expiry that never comes or has not passed. */
  predicate Live(expires: u64, now: u64) {
    expires == 0 || now <= expires
  }

  ghost predicate EntryIsLive(m: map<Address, u64>, src: Address, now: u64) {
    src in m && Live(m[src], now)
  }

  /** `n` bits of the source are its longest range in the map. */
  ghost predicate IsLongest(m: map<Bits, u64>, src: Address, n: int) {
    0 <= n <= 32 && src[..n] in m && forall k | n < k <= 32 :: src[..k] !in m
  }

  ghost predicate LongestIsLive(m: map<Bits, u64>, src: Address, now: u64) {
    exists n :: IsLongest(m, src, n) && Live(m[src[..n]], now)
  }

  lemma OnlyOneLongest(m: map<Bits, u64>, src: Address, a: int, b: int)
    requires IsLongest(m, src, a) && IsLongest(m, src, b)
    ensures a == b
  {
  }

  lemma RangeVerdict(m: map<Bits, u64>, src: Address, now: u64)
    ensures CidrBlocked(m, src, now) <==> LongestIsLive(m, src, now)
  {
    var n := LongestMatch(m, src, 32);
    if n >= 0 {
      assert IsLongest(m, src, n);
      forall k | IsLongest(m, src, k) ensures k == n {
        OnlyOneLongest(m, src, k, n);
      }
    }
  }

  ghost predicate IsBlocked(s: State, src: Address, now: u64) {
    EntryIsLive(s.blocklist, src, now) || LongestIsLive(s.ranges, src, now)
  }

  /** With any limiter: a packet of a blocked source is dropped and changes nothing. */
  lemma BlockedIsDropped(cfg: Option<Config>, s: State, src: Address, length: nat, now: u64)
    requires IsBlocked(s, src, now)
    ensures Process(cfg, s, src, length, now) == (s, Drop)
  {
    hide Count, CidrBlocked;
    RangeVerdict(s.ranges, src, now);
  }

  /** Without a limiter nothing else is dropped, and no packet changes anything. */
  lemma VerdictWithoutLimiter(cfg: Option<Config>, s: State, src: Address, length: nat, now: u64)
    requires cfg.Some? ==> cfg.value.maxPps == 0 && cfg.value.maxBps == 0
    ensures Process(cfg, s, src, length, now).1 == Drop <==> IsBlocked(s, src, now)
    ensures Process(cfg, s, src, length, now).0 == s
  {
    hide Count, CidrBlocked;
    RangeVerdict(s.ranges, src, now);
  }

  /** The packet stays below both limits: it is the first one, it opens a new window, or the
      counters of the running window, itself included, allow it. */
  ghost predicate WithinWindow(c: Config, st: Option<RateState>, length: nat, now: u64) {
    || st == None
    || now - st.value.windowStart >= 1_000_000_000
    || ((c.maxPps > 0 ==> st.value.packets + 1 < c.maxPps) && (c.maxBps > 0 ==> st.value.bytes + length <= c.maxBps))
  }

  /** With a limiter a source that is not blocked passes exactly when it is within its window. */
  lemma VerdictWithLimiter(c: Config, s: State, src: Address, length: nat, now: u64)
    requires c.maxPps > 0 || c.maxBps > 0
    requires src in s.rates ==> s.rates[src].windowStart <= now
    ensures Process(Some(c), s, src, length, now).1 == Pass
            <==> !IsBlocked(s, src, now) && WithinWindow(c, RateOf(s, src), length, now)
  {
    hide CidrBlocked;
    RangeVerdict(s.ranges, src, now);
  }

  /** A packet touches the entries of its own source only. Its entry in the blocklist changes
      only when it exceeds a limit and a block time is set, and then lasts for that time. */
  lemma PacketTouchesItsSource(cfg: Option<Config>, s: State, src: Address, length: nat, now: u64, other: Address)
    ensures var (t, verdict) := Process(cfg, s, src, length, now);
            var tripped := verdict == Drop && !IsBlocked(s, src, now) && cfg.Some? && cfg.value.blockTime > 0;
            && t.ranges == s.ranges
            && (other != src ==> RateOf(t, other) == RateOf(s, other))
            && (if tripped then
                  var until := now + cfg.value.blockTime;
                  t.blocklist == s.blocklist[src := if until < 0x1_0000_0000_0000_0000 then until
                                                    else 0xFFFF_FFFF_FFFF_FFFF]
                else t.blocklist == s.blocklist)
  {
    hide Count, CidrBlocked;
    RangeVerdict(s.ranges, src, now);
  }

  // ---------- commands ----------

  /** After a block an address is dropped exactly as long as the entry lasts or its longest
      range is live; other addresses get the verdicts they got before. */
  lemma BlockTakesEffect(cfg: Option<Config>, s: State, ip: Address, expires: u64, at: u64,
                         other: Address, length: nat, now: u64)
    ensures var t := Next(cfg, s, Put(ip, expires, at));
            && t.ranges == s.ranges && t.rates == s.rates
            && (IsBlocked(t, ip, now) <==> expires == 0 || now <= expires || LongestIsLive(s.ranges, ip, now))
            && (IsBlocked(t, ip, now) ==> Process(cfg, t, ip, length, now) == (t, Drop))
            && (other != ip ==> Process(cfg, t, other, length, now).1 == Process(cfg, s, other, length, now).1)
  {
    hide Count, CidrBlocked;
    var t := Next(cfg, s, Put(ip, expires, at));
    if IsBlocked(t, ip, now) { BlockedIsDropped(cfg, t, ip, length, now); }
  }

  /** After an unblock only the ranges still block the address; other addresses get the
      verdicts they got before. */
  lemma UnblockTakesEffect(cfg: Option<Config>, s: State, ip: Address, at: u64, other: Address, length: nat, now: u64)
    ensures var t := Next(cfg, s, Remove(ip, at));
            && t.ranges == s.ranges && t.rates == s.rates
            && (IsBlocked(t, ip, now) <==> LongestIsLive(s.ranges, ip, now))
            && (other != ip ==> Process(cfg, t, other, length, now).1 == Process(cfg, s, other, length, now).1)
  {
    hide Count, CidrBlocked;
  }

  // ---------- ranges over runs ----------

  predicate Lasts(expires: u64, until: u64) {
    expires == 0 || expires >= until
  }

  /** The longest range of the source lasts until `until`. */
  ghost predicate RangeLasts(m: map<Bits, u64>, src: Address, until: u64) {
    exists n :: IsLongest(m, src, n) && Lasts(m[src[..n]], until)
  }

  /** Ranges are replaced only by ranges that block the source as long. */
  ghost predicate LeavesRange(step: Step, src: Address, until: u64) {
    step.SetRanges? ==> RangeLasts(step.ranges, src, until)
  }

  lemma RangeStepHolds(cfg: Option<Config>, s: State, step: Step, src: Address, until: u64)
    requires RangeLasts(s.ranges, src, until) && InTime(step, until) && LeavesRange(step, src, until)
    ensures RangeLasts(Next(cfg, s, step).ranges, src, until)
  {
    hide Count, CidrBlocked;
    if step.Sweep? {
      var n :| IsLongest(s.ranges, src, n) && Lasts(s.ranges[src[..n]], until);
      assert IsLongest(Next(cfg, s, step).ranges, src, n);
    }
  }

  lemma {:induction false} RangeHoldsThrough(cfg: Option<Config>, s: State, steps: seq<Step>, i: nat, j: nat,
                                             src: Address, until: u64)
    requires i <= j <= |steps| && RangeLasts(After(cfg, s, steps[..i]).ranges, src, until)
    requires forall k | i <= k < j :: InTime(steps[k], until) && LeavesRange(steps[k], src, until)
    ensures RangeLasts(After(cfg, s, steps[..j]).ranges, src, until)
    decreases j
  {
    hide RangeLasts, LeavesRange, InTime, Next;
    if i < j {
      RangeHoldsThrough(cfg, s, steps, i, j - 1, src, until);
      AfterOne(cfg, s, steps, j - 1);
      RangeStepHolds(cfg, After(cfg, s, steps[..j - 1]), steps[j - 1], src, until);
    }
  }

  /** While its longest range lasts no packet of a source passes or changes anything, whatever
      packets, commands on addresses, window resets and sweeps come in between. */
  lemma RangeBlocksTheSource(cfg: Option<Config>, s: State, steps: seq<Step>, i: nat, j: nat, src: Address, until: u64)
    requires i <= j < |steps| && RangeLasts(After(cfg, s, steps[..i]).ranges, src, until)
    requires IsPacketOf(steps[j], src) && steps[j].now <= until
    requires forall k | i <= k < j :: InTime(steps[k], until) && LeavesRange(steps[k], src, until)
    ensures VerdictAt(cfg, s, steps, j) == Drop && After(cfg, s, steps[..j + 1]) == After(cfg, s, steps[..j])
  {
    hide InTime, LeavesRange, Process;
    RangeHoldsThrough(cfg, s, steps, i, j, src, until);
    var before := After(cfg, s, steps[..j]);
    assert IsBlocked(before, src, steps[j].now);
    BlockedIsDropped(cfg, before, src, steps[j].length, steps[j].now);
    AfterOne(cfg, s, steps, j);
  }

  /** The step visits every range and deletes without failures. */
  ghost predicate SweepsAllRanges(s: State, step: Step) {
    step.Sweep? && step.stuckRanges == {} && s.ranges.Keys <= step.visitedRanges
  }

  /** Of the ranges of the source that a sweep at `now` leaves, the longest lasts until `until`. */
  ghost predicate LiveRangeLasts(m: map<Bits, u64>, src: Address, now: u64, until: u64) {
    exists n: nat ::
      && n <= 32 && src[..n] in m && Lasts(m[src[..n]], until)
      && forall k | n < k <= 32 && src[..k] in m :: !Live(m[src[..k]], now)
  }

  lemma SweepLeavesLongest(cfg: Option<Config>, s: State, step: Step, src: Address, until: u64)
    requires SweepsAllRanges(s, step) && step.now <= until
    ensures RangeLasts(Next(cfg, s, step).ranges, src, until) <==> LiveRangeLasts(s.ranges, src, step.now, until)
  {
    var t := Next(cfg, s, step).ranges;
    assert forall k: Bits :: k in t <==> k in s.ranges && Live(s.ranges[k], step.now);
    assert forall k: Bits | k in t :: t[k] == s.ranges[k];
    if LiveRangeLasts(s.ranges, src, step.now, until) {
      var n: nat :| && n <= 32 && src[..n] in s.ranges && Lasts(s.ranges[src[..n]], until)
                    && forall k | n < k <= 32 && src[..k] in s.ranges :: !Live(s.ranges[src[..k]], step.now);
      assert IsLongest(t, src, n);
    }
    if RangeLasts(t, src, until) {
      var n :| IsLongest(t, src, n) && Lasts(t[src[..n]], until);
      assert src[..n] in s.ranges;
      forall k | n < k <= 32 && src[..k] in s.ranges ensures !Live(s.ranges[src[..k]], step.now) {
        assert src[..k] !in t;
      }
    }
  }

  /** From a complete sweep on, a source inside a live range gets no packet through until
      `until`, if the longest of its live ranges lasts until then. */
  lemma SweptRangeBlocksTheSource(cfg: Option<Config>, s: State, steps: seq<Step>, i: nat, j: nat,
                                  src: Address, until: u64)
    requires i < j < |steps| && steps[i].Sweep? && steps[i].now <= until
    requires SweepsAllRanges(After(cfg, s, steps[..i]), steps[i])
    requires LiveRangeLasts(After(cfg, s, steps[..i]).ranges, src, steps[i].now, until)
    requires IsPacketOf(steps[j], src) && steps[j].now <= until
    requires forall k | i < k < j :: InTime(steps[k], until) && LeavesRange(steps[k], src, until)
    ensures VerdictAt(cfg, s, steps, j) == Drop
  {
    hide Process, Next, SweepsAllRanges, LiveRangeLasts, RangeLasts, InTime, LeavesRange;
    SweepLeavesLongest(cfg, After(cfg, s, steps[..i]), steps[i], src, until);
    AfterOne(cfg, s, steps, i);
    RangeBlocksTheSource(cfg, s, steps, i + 1, j, src, until);
  }

  /** And only then: without a limiter every packet of a source without an entry is dropped,
      from the sweep up to `until`, if and only if the longest of its live ranges lasts. */
  lemma SweptRangeBlocksIff(cfg: Option<Config>, s: State, step: Step, src: Address, length: nat, until: u64)
    requires cfg.Some? ==> cfg.value.maxPps == 0 && cfg.value.maxBps == 0
    requires SweepsAllRanges(s, step) && step.now <= until && src !in s.blocklist
    ensures (forall now: u64 | step.now <= now <= until ::
               Process(cfg, Next(cfg, s, step), src, length, now).1 == Drop)
            <==> LiveRangeLasts(s.ranges, src, step.now, until)
  {
    var t := Next(cfg, s, step);
    SweepLeavesLongest(cfg, s, step, src, until);
    hide Process, Next, SweepsAllRanges, LiveRangeLasts;
    VerdictWithoutLimiter(cfg, t, src, length, until);
    assert src !in t.blocklist by { SweepAddsNothing(cfg, s, step, src); }
    if RangeLasts(t.ranges, src, until) {
      forall now: u64 | step.now <= now <= until ensures Process(cfg, t, src, length, now).1 == Drop {
        var n :| IsLongest(t.ranges, src, n) && Lasts(t.ranges[src[..n]], until);
        assert LongestIsLive(t.ranges, src, now);
        VerdictWithoutLimiter(cfg, t, src, length, now);
      }
    }
  }

  lemma SweepAddsNothing(cfg: Option<Config>, s: State, step: Step, src: Address)
    requires step.Sweep? && src !in s.blocklist
    ensures src !in Next(cfg, s, step).blocklist
  {
  }

  /** Being inside a live range is not enough: a longer one that ends earlier hides it again
      until the next sweep. */
  lemma EndedRangeHidesALiveOne()
    ensures exists s: State, step: Step, src: Address, now: u64 ::
              && SweepsAllRanges(s, step) && step.now <= now
              && (exists k: nat :: k <= 32 && src[..k] in s.ranges && Live(s.ranges[src[..k]], now))
              && Process(None, Next(None, s, step), src, 60, now).1 == Pass
  {
    var src: Address := seq(32, _ => false);
    var s := State(map[], map[src[..8] := 0, src[..16] := 10], map[]);
    var step := Sweep({}, {}, {src[..8], src[..16]}, {}, 5);
    var t := Next(None, s, step);
    assert |src[..8]| == 8 && |src[..16]| == 16;
    assert t.ranges == s.ranges;
    assert IsLongest(t.ranges, src, 16) by {
      forall k | 16 < k <= 32 ensures src[..k] !in t.ranges { assert |src[..k]| == k; }
    }
    forall n | IsLongest(t.ranges, src, n) ensures n == 16 {
      OnlyOneLongest(t.ranges, src, n, 16);
    }
    assert !LongestIsLive(t.ranges, src, 11);
    VerdictWithoutLimiter(None, t, src, 60, 11);
    assert src[..8] in s.ranges && Live(s.ranges[src[..8]], 11);
  }
}
