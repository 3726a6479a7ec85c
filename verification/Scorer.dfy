/** The threat scorer over real numbers: five components, blending with a decayed history,
    caps, the level and the threat type. Rounding is not modelled. */
module Scorer {

  /** The library functions, of which only sign and range are used. */
  datatype Maths = Maths(log10: real -> real, sqrt: real -> real, decay: real -> real) {
    ghost predicate Sound() {
      && (forall x: real | x >= 1.0 :: log10(x) >= 0.0)
      && (forall x: real | x >= 0.0 :: sqrt(x) >= 0.0)
      && (forall h: real | h > 0.0 :: 0.0 <= decay(h) <= 1.0)
    }
  }

  const SYN_WEIGHT: real := 10.0
  const PORTS_WEIGHT: real := 2.0
  const FAILED_WEIGHT: real := 15.0
  const SERVICE_WEIGHT: real := 8.0
  const PORT_SCAN_THRESHOLD: int := 3
  const FAILED_RATE: real := 0.5
  const SERVICE_ABUSE_THRESHOLD: int := 5
  const SUSPICIOUS_THRESHOLD: int := 20
  const MALICIOUS_THRESHOLD: int := 40
  const MIN_WINDOW: real := 10.0

  /** The two rates that the environment can adjust. */
  datatype Rates = Rates(normalSyn: real, suspiciousSyn: real) {
    predicate Valid() {
      0.0 <= normalSyn <= suspiciousSyn && (normalSyn == 0.0 ==> suspiciousSyn == 0.0)
    }
  }

  const DEFAULT_RATES := Rates(0.05, 1.0)

  function Adjusted(avgSynRate: real): (r: Rates)
    requires avgSynRate >= 0.0
    ensures r.Valid()
    ensures 2.0 * r.normalSyn == 3.0 * avgSynRate && r.suspiciousSyn == 5.0 * avgSynRate
  {
    Rates(avgSynRate * 1.5, avgSynRate * 5.0)
  }

  /** `window` is the observed time in seconds; `hoursSince` the time since the address was
      last seen, if known. */
  datatype Metrics = Metrics(syn: nat, ack: nat, rst: nat, failed: nat, uniquePorts: nat, total: nat, established: nat,
                             previousScore: int, lastSeenKnown: bool, hoursSince: real, servicePorts: seq<int>,
                             maxPortHits: nat, cumulativePorts: nat, cumulativeHours: real, outbound: bool,
                             window: real)

  function MaxReal(a: real, b: real): real { if a < b then b else a }

  function EffectiveWindow(window: real): (w: real)
    ensures w >= window && w >= 10.0 && (w == window || w == 10.0)
  {
    var w := if window < MIN_WINDOW then MIN_WINDOW else window;
    if w < 1.0 then 1.0 else w
  }

  function Confidence(window: real): (c: real)
    ensures 0.1 <= c <= 1.0
    ensures c == 1.0 <==> window >= 10.0
    ensures 1.0 <= window <= 10.0 ==> 10.0 * c == window
  {
    if window >= MIN_WINDOW then 1.0
    else
      var c := window / MIN_WINDOW;
      if c < 0.1 then 0.1 else c
  }

  function SynScore(maths: Maths, r: Rates, synRate: real, m: Metrics): real
    requires r.Valid()
  {
    if synRate <= r.normalSyn then 0.0
    else if m.syn + m.ack > 10 && synRate <= r.suspiciousSyn && m.syn as real / (m.syn + m.ack) as real < 0.5 then 0.0
    else if synRate > r.suspiciousSyn then 5.0 + maths.log10(synRate - r.suspiciousSyn + 1.0) * 3.0
    else (synRate - r.normalSyn) / r.normalSyn
  }

  /** The part of the port score that looks at the window only. */
  function FastPortScore(maths: Maths, m: Metrics, connectionRate: real): real
    requires connectionRate >= 0.0
  {
    var duration := if m.window <= 0.0 then MIN_WINDOW else m.window;
    var perSecond := m.uniquePorts as real / duration;
    var perConnection := m.uniquePorts as real / (connectionRate + 1.0);
    var threshold := MaxReal(0.5, 5.0 / duration);
    var excess := if m.uniquePorts < PORT_SCAN_THRESHOLD then 0.0 else (m.uniquePorts - PORT_SCAN_THRESHOLD) as real;
    if perConnection <= 0.8 then
      if m.uniquePorts >= PORT_SCAN_THRESHOLD + 3 && perSecond > threshold * 1.5 then 1.0 + excess * 0.25 else 0.0
    else if m.uniquePorts <= 10 then
      if perSecond >= threshold * 0.6 then 1.0 + excess * 0.4 else 0.0
    else if perSecond > threshold then 5.0 + maths.sqrt(excess)
    else 0.0
  }

  function PortScore(maths: Maths, m: Metrics, connectionRate: real): real
    requires connectionRate >= 0.0
  {
    if m.uniquePorts < PORT_SCAN_THRESHOLD && m.cumulativePorts < PORT_SCAN_THRESHOLD * 2 then 0.0
    else
      var fast := FastPortScore(maths, m, connectionRate);
      if m.cumulativePorts >= PORT_SCAN_THRESHOLD * 3 && m.cumulativeHours > 0.5 then
        var rate := m.cumulativePorts as real / m.cumulativeHours;
        if rate > 10.0 then MaxReal(fast, maths.log10(rate) * 2.0) else fast
      else fast
  }

  function FailedScore(failedRate: real, m: Metrics): real {
    var multiplier := if m.outbound then 2.0 else 1.0;
    var attempts := m.failed + m.established;
    var penalty := (failedRate - FAILED_RATE * multiplier) * 1.5;
    if m.failed < 3 then 0.0
    else if failedRate <= FAILED_RATE * multiplier then 0.0
    else
      var ratio := m.failed as real / attempts as real;
      if ratio < 0.5 && m.established > 5 then 0.0
      else if failedRate > 5.0 * multiplier && ratio > 0.6 then
        (if m.outbound then 2.0 else 3.0) + (failedRate - FAILED_RATE * multiplier)
      else if ratio > 0.9 && m.failed >= 5 then 3.0 + (failedRate - FAILED_RATE)
      else if m.outbound then penalty * 0.5
      else penalty
  }

  function ServiceScore(m: Metrics, window: real): (s: real)
    ensures 0.0 <= s <= 10.0
  {
    if m.maxPortHits < SERVICE_ABUSE_THRESHOLD then 0.0
    else
      var perSecond := m.maxPortHits as real / MaxReal(1.0, window);
      var severity := if perSecond >= 50.0 then 10.0 else if perSecond >= 25.0 then 7.0
                      else if perSecond >= 10.0 then 5.0 else 3.0;
      var volume := if m.maxPortHits >= 1000 then 10.0 else if m.maxPortHits >= 500 then 8.0
                    else if m.maxPortHits >= 200 then 6.0 else if m.maxPortHits >= 100 then 4.0 else 0.0;
      MaxReal(severity, volume)
  }

  function AdaptiveThreshold(window: real): (t: real)
    ensures t >= 10.0
  {
    10.0 * MaxReal(1.0, window / 60.0)
  }

  function BurstScore(maths: Maths, rate: real, window: real, total: nat, syn: nat): real {
    if window < 10.0 && rate > 20.0 then 5.0
    else
      var initiations := if syn == 0 then total else syn;
      var volume := if initiations > 1000 then 3.0 else if initiations > 500 then 2.0
                    else if initiations > 200 then 1.0 else 0.0;
      var threshold := AdaptiveThreshold(window);
      if rate > threshold then maths.log10(rate / threshold) * 5.0 + volume else volume
  }

  lemma ProductPositive(x: real, y: real)
    requires x > 0.0 && y > 0.0
    ensures x * y > 0.0
  {
  }

  lemma ProductNonNegative(x: real, y: real)
    requires x >= 0.0 && y >= 0.0
    ensures x * y >= 0.0
  {
  }

  /** A quotient is at least `c` when the dividend is at least `c` times the divisor. */
  lemma QuotientAtLeast(a: real, b: real, c: real)
    requires b > 0.0 && a >= c * b
    ensures a / b >= c
  {
    var q := a / b;
    assert q * b == a;
    if q < c {
      ProductPositive(c - q, b);
    }
  }

  lemma QuotientNonNegative(a: real, b: real)
    requires a >= 0.0 && b > 0.0
    ensures a / b >= 0.0
  {
  }

  datatype Components = Components(syn: real, port: real, failed: real, service: real, burst: real) {
    predicate NonNegative() {
      syn >= 0.0 && port >= 0.0 && failed >= 0.0 && service >= 0.0 && burst >= 0.0
    }
  }

  function ComponentsOf(maths: Maths, r: Rates, m: Metrics): Components
    requires r.Valid()
  {
    var w := EffectiveWindow(m.window);
    var connectionRate := m.total as real / w;
    QuotientNonNegative(m.total as real, w);
    var burst := BurstScore(maths, connectionRate, m.window, m.total, m.syn);
    var resets := m.rst > 5 && (m.established == 0 || m.rst > m.established * 2);
    Components(SynScore(maths, r, m.syn as real / w, m), PortScore(maths, m, connectionRate),
               FailedScore(m.failed as real / w, m), ServiceScore(m, w),
               if resets then burst + 3.0 else burst)
  }

  lemma SynNonNegative(maths: Maths, r: Rates, synRate: real, m: Metrics)
    requires maths.Sound() && r.Valid()
    ensures SynScore(maths, r, synRate, m) >= 0.0
  {
    if r.normalSyn < synRate <= r.suspiciousSyn {
      QuotientNonNegative(synRate - r.normalSyn, r.normalSyn);
    }
  }

  lemma PortNonNegative(maths: Maths, m: Metrics, connectionRate: real)
    requires maths.Sound() && connectionRate >= 0.0
    ensures PortScore(maths, m, connectionRate) >= 0.0
  {
  }

  lemma BurstNonNegative(maths: Maths, rate: real, window: real, total: nat, syn: nat)
    requires maths.Sound()
    ensures BurstScore(maths, rate, window, total, syn) >= 0.0
  {
    if rate > AdaptiveThreshold(window) {
      QuotientAtLeast(rate, AdaptiveThreshold(window), 1.0);
    }
  }

  /** No component is ever negative, for the default rates and for every adjusted pair. */
  lemma ComponentsAreNonNegative(maths: Maths, r: Rates, m: Metrics)
    requires maths.Sound() && r.Valid()
    ensures ComponentsOf(maths, r, m).NonNegative()
  {
    hide SynScore, PortScore, BurstScore, ServiceScore;
    var w := EffectiveWindow(m.window);
    QuotientNonNegative(m.total as real, w);
    SynNonNegative(maths, r, m.syn as real / w, m);
    PortNonNegative(maths, m, m.total as real / w);
    BurstNonNegative(maths, m.total as real / w, m.window, m.total, m.syn);
  }

  // ---------- the final score ----------

  function ClampPrevious(score: int): (s: int)
    ensures 0 <= s <= 100
  {
    if score > 100 then 100 else if score < 0 then 0 else score
  }

  function Decayed(maths: Maths, score: real, hoursSince: real): real {
    if score <= 0.0 then 0.0
    else if hoursSince <= 0.0 then score
    else
      var d := score * maths.decay(hoursSince);
      if d < 5.0 then 0.0 else d
  }

  lemma DecayedInRange(maths: Maths, score: real, hoursSince: real)
    requires maths.Sound() && score >= 0.0
    ensures 0.0 <= Decayed(maths, score, hoursSince) <= score
  {
    if score > 0.0 && hoursSince > 0.0 {
      var f := maths.decay(hoursSince);
      assert score * f <= score * 1.0;
    }
  }

  /** Rises fast, falls slowly; always between the two. */
  function Blend(current: real, past: real): (b: real)
    ensures current <= b <= past || past <= b <= current
    ensures current > past ==> b - past >= current - b
    ensures current < past ==> past - b <= b - current
  {
    if current > past then current * 0.7 + past * 0.3 else current * 0.3 + past * 0.7
  }

  function RawScore(c: Components, servicePortHits: nat, uniquePorts: nat): real {
    var raw := c.syn * SYN_WEIGHT + c.port * PORTS_WEIGHT + c.failed * FAILED_WEIGHT
               + c.service * SERVICE_WEIGHT + c.burst;
    if servicePortHits > 0 && uniquePorts > 0 && servicePortHits >= uniquePorts / 2 then raw * 0.8 else raw
  }

  predicate IsServicePort(p: int) { p == 80 || p == 443 || p == 22 || p == 53 }

  function ServiceHits(ports: seq<int>): nat {
    if ports == [] then 0
    else ServiceHits(ports[..|ports| - 1]) + if IsServicePort(ports[|ports| - 1]) then 1 else 0
  }

  function Capped(x: real, cap: real): real { if x > cap then cap else x }

  function Blended(maths: Maths, raw: real, m: Metrics): real {
    var previous := ClampPrevious(m.previousScore);
    if previous > 0 && m.lastSeenKnown then Blend(raw, Decayed(maths, previous as real, m.hoursSince)) else raw
  }

  predicate LowVolumeOutbound(m: Metrics) { m.outbound && m.syn + m.ack + m.failed <= 3 }

  predicate LowConfidence(m: Metrics) { Confidence(m.window) < 0.5 && m.syn + m.ack + m.failed < 5 }

  function FinalScore(maths: Maths, r: Rates, m: Metrics): real
    requires r.Valid()
  {
    FinalFrom(maths, ComponentsOf(maths, r, m), m)
  }

  function FinalFrom(maths: Maths, c: Components, m: Metrics): real {
    var blended := Blended(maths, RawScore(c, ServiceHits(m.servicePorts), m.uniquePorts), m);
    var a := if LowConfidence(m) then Capped(blended, 40.0) else blended;
    var b := if LowVolumeOutbound(m) then Capped(a, 30.0) else a;
    Capped(b, 100.0)
  }

  datatype Level = Normal | Suspicious | Malicious

  function LevelOf(score: int): Level {
    if score >= MALICIOUS_THRESHOLD then Malicious else if score >= SUSPICIOUS_THRESHOLD then Suspicious else Normal
  }

  lemma RawNonNegative(c: Components, hits: nat, uniquePorts: nat)
    requires c.NonNegative()
    ensures RawScore(c, hits, uniquePorts) >= 0.0
  {
  }

  lemma FinalInRange(maths: Maths, r: Rates, m: Metrics)
    requires maths.Sound() && r.Valid()
    ensures 0.0 <= FinalScore(maths, r, m) <= 100.0
    ensures LowVolumeOutbound(m) ==> FinalScore(maths, r, m) <= 30.0
    ensures LowConfidence(m) ==> FinalScore(maths, r, m) <= 40.0
  {
    hide ComponentsOf, RawScore, Decayed;
    ComponentsAreNonNegative(maths, r, m);
    RawNonNegative(ComponentsOf(maths, r, m), ServiceHits(m.servicePorts), m.uniquePorts);
    DecayedInRange(maths, ClampPrevious(m.previousScore) as real, m.hoursSince);
  }

  // ---------- the threat type ----------

  datatype ThreatType = NoThreat | ServiceAbuse | PortScan | SynFlood | FailedHandshake | ConnectionBurst

  datatype Candidate = Candidate(kind: ThreatType, value: real, priority: nat)

  predicate Eligible(m: Metrics, c: Candidate) {
    && c.value > 0.0
    && (c.kind == PortScan ==> m.uniquePorts >= PORT_SCAN_THRESHOLD)
    && (c.kind == ServiceAbuse ==> m.maxPortHits >= SERVICE_ABUSE_THRESHOLD)
    && (c.kind == ConnectionBurst ==> c.value > 5.0)
  }

  predicate Beats(c: Candidate, d: Candidate) {
    c.value > d.value || (c.value == d.value && c.priority <= d.priority)
  }

  /** The eligible candidate with the greatest value, ties going to the lower priority. */
  ghost predicate IsBest(m: Metrics, cs: seq<Candidate>, kind: ThreatType) {
    if forall c | c in cs :: !Eligible(m, c) then kind == NoThreat
    else exists c :: c in cs && Eligible(m, c) && c.kind == kind && forall d | d in cs && Eligible(m, d) :: Beats(c, d)
  }

  predicate DistinctPriorities(cs: seq<Candidate>) {
    forall i, j | 0 <= i < j < |cs| :: cs[i].priority != cs[j].priority
  }

  method ClassifyThreatType(m: Metrics, cs: seq<Candidate>) returns (bestType: ThreatType)
    ensures IsBest(m, cs, bestType)
  {
    bestType := NoThreat;
    var best: Candidate := Candidate(NoThreat, 0.0, 0);
    var found := false;
    for i := 0 to |cs|
      invariant !found ==> best.value == 0.0 && bestType == NoThreat
      invariant !found ==> forall j | 0 <= j < i :: !Eligible(m, cs[j])
      invariant found ==> best in cs && Eligible(m, best) && bestType == best.kind
      invariant found ==> forall j | 0 <= j < i && Eligible(m, cs[j]) :: Beats(best, cs[j])
    {
      var c := cs[i];
      if c.value <= 0.0 {
        continue;
      }
      if c.kind == PortScan && m.uniquePorts < PORT_SCAN_THRESHOLD {
        continue;
      }
      if c.kind == ServiceAbuse && m.maxPortHits < SERVICE_ABUSE_THRESHOLD {
        continue;
      }
      if c.kind == ConnectionBurst && c.value <= 5.0 {
        continue;
      }
      if c.value > best.value || (found && c.value == best.value && c.priority < best.priority) {
        best := c;
        bestType := c.kind;
        found := true;
      }
    }
    assert forall c | c in cs && Eligible(m, c) :: found && Beats(best, c);
  }

  lemma PriorityIdentifies(cs: seq<Candidate>, c: Candidate, d: Candidate)
    requires DistinctPriorities(cs) && c in cs && d in cs && c.priority == d.priority
    ensures c == d
  {
    var i :| 0 <= i < |cs| && cs[i] == c;
    var j :| 0 <= j < |cs| && cs[j] == d;
  }

  /** The type does not depend on the order in which the candidates are listed. */
  lemma BestIgnoresOrder(m: Metrics, cs: seq<Candidate>, ds: seq<Candidate>, kind: ThreatType, other: ThreatType)
    requires multiset(cs) == multiset(ds) && DistinctPriorities(cs)
    requires IsBest(m, cs, kind) && IsBest(m, ds, other)
    ensures kind == other
  {
    assert forall c :: c in cs <==> c in multiset(cs);
    assert forall c :: c in ds <==> c in multiset(ds);
    if exists c :: c in cs && Eligible(m, c) {
      var c :| c in cs && Eligible(m, c) && c.kind == kind && forall d | d in cs && Eligible(m, d) :: Beats(c, d);
      var d :| d in ds && Eligible(m, d) && d.kind == other && forall x | x in ds && Eligible(m, x) :: Beats(d, x);
      assert Beats(c, d) && Beats(d, c);
      PriorityIdentifies(cs, c, d);
    }
  }

  function CandidatesOf(c: Components): seq<Candidate> {
    [Candidate(ServiceAbuse, c.service, 0), Candidate(PortScan, c.port, 1), Candidate(SynFlood, c.syn, 2),
     Candidate(FailedHandshake, c.failed, 3), Candidate(ConnectionBurst, c.burst, 4)]
  }

  // ---------- scoring ----------

  method CountServiceHits(ports: seq<int>) returns (hits: nat)
    ensures hits == ServiceHits(ports)
  {
    hits := 0;
    for i := 0 to |ports|
      invariant hits == ServiceHits(ports[..i])
    {
      assert ports[..i + 1][..i] == ports[..i];
      if ports[i] == 80 || ports[i] == 443 || ports[i] == 22 || ports[i] == 53 {
        hits := hits + 1;
      }
    }
    assert ports[..|ports|] == ports;
  }

  /** The score is the integer part of the final score: always 0 to 100, at most 30 for
      low-volume outbound traffic, with the level that belongs to it and the best type. */
  method CalculateScore(maths: Maths, r: Rates, m: Metrics) returns (score: int, level: Level, kind: ThreatType)
    requires maths.Sound() && r.Valid()
    ensures 0 <= score <= 100 && score as real <= FinalScore(maths, r, m) < score as real + 1.0
    ensures LowVolumeOutbound(m) ==> score <= 30 && level != Malicious
    ensures LowConfidence(m) ==> score <= 40
    ensures level == Malicious <==> score >= 40
    ensures level == Suspicious <==> 20 <= score < 40
    ensures IsBest(m, CandidatesOf(ComponentsOf(maths, r, m)), kind)
  {
    hide ComponentsOf, RawScore, IsBest;
    FinalInRange(maths, r, m);
    var c := ComponentsOf(maths, r, m);
    var hits := CountServiceHits(m.servicePorts);
    var adjusted := Blended(maths, RawScore(c, hits, m.uniquePorts), m);
    var totalEvents := m.syn + m.ack + m.failed;
    if Confidence(m.window) < 0.5 && totalEvents < 5 {
      if adjusted > 40.0 {
        adjusted := 40.0;
      }
    }
    if m.outbound && totalEvents <= 3 {
      if adjusted > 30.0 {
        adjusted := 30.0;
      }
    }
    if adjusted > 100.0 {
      adjusted := 100.0;
    }
    assert adjusted == FinalScore(maths, r, m);
    score := adjusted.Floor;
    level := LevelOf(score);
    kind := ClassifyThreatType(m, CandidatesOf(c));
  }

  // ---------- the SYN component over the rate ----------

  /** Most packets are acknowledgements: rates up to the suspicious one do not score. */
  predicate MostlyAcks(m: Metrics) {
    m.syn + m.ack > 10 && m.syn as real / (m.syn + m.ack) as real < 0.5
  }

  predicate StaysBelow(log10: real -> real, e: real, d: real) {
    d > 0.0 && log10(1.0 + d) < e
  }

  ghost predicate StartsBelow(log10: real -> real, e: real) {
    exists d: real :: StaysBelow(log10, e, d)
  }

  /** The logarithm rises, and starts from zero at one without a jump. */
  ghost predicate RisesFromOne(log10: real -> real) {
    && (forall x: real, y: real | 1.0 <= x <= y :: 0.0 <= log10(x) <= log10(y))
    && (forall e: real | e > 0.0 :: StartsBelow(log10, e))
  }

  /** (x - n) / n grows with x. */
  lemma ExcessGrows(x: real, y: real, n: real)
    requires n > 0.0 && x <= y
    ensures (x - n) / n <= (y - n) / n
  {
    var p, q := (x - n) / n, (y - n) / n;
    assert p * n == x - n && q * n == y - n;
    if p > q { ProductPositive(p - q, n); }
  }

  lemma ExcessAtMostFive(s: real, n: real)
    requires n > 0.0
    ensures (s - n) / n <= 5.0 <==> s <= 6.0 * n
  {
    var q := (s - n) / n;
    assert q * n == s - n;
    if q > 5.0 { ProductPositive(q - 5.0, n); }
    if q < 5.0 { ProductPositive(5.0 - q, n); }
  }

  lemma SynScoreRises(maths: Maths, r: Rates, m: Metrics, x: real, y: real)
    requires RisesFromOne(maths.log10) && r.Valid() && x <= y
    requires r.suspiciousSyn <= 6.0 * r.normalSyn || MostlyAcks(m) || y <= r.suspiciousSyn || x > r.suspiciousSyn
    ensures SynScore(maths, r, x, m) <= SynScore(maths, r, y, m)
  {
    var n, s := r.normalSyn, r.suspiciousSyn;
    if x > s {
      assert maths.log10(x - s + 1.0) <= maths.log10(y - s + 1.0);
    } else if y > s {
      assert maths.log10(y - s + 1.0) >= 0.0;
      if x > n && !MostlyAcks(m) {
        ExcessGrows(x, s, n);
        ExcessAtMostFive(s, n);
      }
    } else if y > n {
      QuotientNonNegative(y - n, n);
      if x > n { ExcessGrows(x, y, n); }
    }
  }

  // ---------- the SYN component over the window ----------

  /** The SYN component of these counts in a window of this length. */
  function SynInWindow(maths: Maths, r: Rates, m: Metrics, window: real): real
    requires r.Valid()
  {
    ComponentsOf(maths, r, m.(window := window)).syn
  }

  lemma SynInWindowIs(maths: Maths, r: Rates, m: Metrics, window: real)
    requires r.Valid()
    ensures SynInWindow(maths, r, m, window) == SynScore(maths, r, m.syn as real / EffectiveWindow(window), m)
  {
  }

  /** The same counts never score less in a shorter window. */
  ghost predicate RisesAsWindowShrinks(maths: Maths, r: Rates, m: Metrics)
    requires r.Valid()
  {
    forall v: real, w: real | v <= w :: SynInWindow(maths, r, m, w) <= SynInWindow(maths, r, m, v)
  }

  lemma SmallerDivisor(x: real, v: real, w: real)
    requires x >= 0.0 && 0.0 < v <= w
    ensures x / w <= x / v
  {
    var p, q := x / w, x / v;
    assert p * w == x && q * v == x;
    QuotientNonNegative(x, w);
    ProductNonNegative(p, w - v);
    if p > q { ProductPositive(p - q, v); }
  }

  /** Just above the suspicious rate the component falls back to little more than five. */
  lemma StepThatDrops(maths: Maths, r: Rates, m: Metrics, reach: real) returns (step: real)
    requires RisesFromOne(maths.log10) && r.Valid() && reach > 0.0
    requires r.suspiciousSyn > 6.0 * r.normalSyn && !MostlyAcks(m)
    ensures 0.0 < step <= reach
    ensures SynScore(maths, r, r.suspiciousSyn, m) > SynScore(maths, r, r.suspiciousSyn + step, m)
  {
    var n, s := r.normalSyn, r.suspiciousSyn;
    ExcessAtMostFive(s, n);
    var gap := (s - n) / n - 5.0;
    assert StartsBelow(maths.log10, gap / 3.0);
    var d :| StaysBelow(maths.log10, gap / 3.0, d);
    step := if d < reach then d else reach;
    assert maths.log10(1.0 + step) <= maths.log10(1.0 + d);
    assert s + step - s + 1.0 == 1.0 + step;
  }

  /** The window in which a count comes at a given rate. */
  lemma WindowAtRate(maths: Maths, r: Rates, m: Metrics, rate: real) returns (w: real)
    requires r.Valid() && 0.0 < rate <= m.syn as real / MIN_WINDOW
    ensures w == m.syn as real / rate && SynInWindow(maths, r, m, w) == SynScore(maths, r, rate, m)
  {
    var syn := m.syn as real;
    w := syn / rate;
    DivideBack(syn, rate);
    DivideBack(syn, MIN_WINDOW);
    SmallerDivisor(syn, rate, syn / MIN_WINDOW);
    SynInWindowIs(maths, r, m, w);
  }

  /** With more than the suspicious rate in reach: two windows of which the shorter scores less. */
  lemma WindowsThatDrop(maths: Maths, r: Rates, m: Metrics) returns (v: real, w: real)
    requires RisesFromOne(maths.log10) && r.Valid()
    requires r.suspiciousSyn > 6.0 * r.normalSyn && !MostlyAcks(m) && m.syn as real / MIN_WINDOW > r.suspiciousSyn
    ensures v <= w && SynInWindow(maths, r, m, w) > SynInWindow(maths, r, m, v)
  {
    hide SynScore, SynInWindow, MostlyAcks;
    var s, syn := r.suspiciousSyn, m.syn as real;
    var step := StepThatDrops(maths, r, m, syn / MIN_WINDOW - s);
    v := WindowAtRate(maths, r, m, s + step);
    w := WindowAtRate(maths, r, m, s);
    SmallerDivisor(syn, s, s + step);
  }

  lemma DivideBack(x: real, y: real)
    requires x > 0.0 && y > 0.0
    ensures x / y > 0.0 && x / (x / y) == y
  {
    var q := x / y;
    assert q * y == x;
    if q <= 0.0 { ProductNonNegative(-q, y); }
  }

  /** For fixed counts the SYN component never falls as the window shrinks, if and only if the
      suspicious rate is at most six times the normal one, most packets are acknowledgements,
      or the shortest window does not take the counts above the suspicious rate. */
  lemma RisesAsWindowShrinksIff(maths: Maths, r: Rates, m: Metrics)
    requires RisesFromOne(maths.log10) && r.Valid()
    ensures RisesAsWindowShrinks(maths, r, m)
            <==> || r.suspiciousSyn <= 6.0 * r.normalSyn
                 || MostlyAcks(m)
                 || m.syn as real / MIN_WINDOW <= r.suspiciousSyn
  {
    if r.suspiciousSyn <= 6.0 * r.normalSyn || MostlyAcks(m) || m.syn as real / MIN_WINDOW <= r.suspiciousSyn {
      forall v: real, w: real | v <= w ensures SynInWindow(maths, r, m, w) <= SynInWindow(maths, r, m, v) {
        var syn := m.syn as real;
        SynInWindowIs(maths, r, m, v);
        SynInWindowIs(maths, r, m, w);
        SmallerDivisor(syn, EffectiveWindow(v), EffectiveWindow(w));
        SmallerDivisor(syn, MIN_WINDOW, EffectiveWindow(v));
        SynScoreRises(maths, r, m, syn / EffectiveWindow(w), syn / EffectiveWindow(v));
      }
    } else {
      var v, w := WindowsThatDrop(maths, r, m);
    }
  }

  // ---------- the SYN component over the count ----------

  /** The SYN component with this many SYNs and everything else as it is. */
  function SynOfCount(maths: Maths, r: Rates, m: Metrics, syn: nat): real
    requires r.Valid()
  {
    ComponentsOf(maths, r, m.(syn := syn)).syn
  }

  /** More SYNs never score less. */
  ghost predicate RisesWithSyns(maths: Maths, r: Rates, m: Metrics)
    requires r.Valid()
  {
    forall j: nat, k: nat | j <= k :: SynOfCount(maths, r, m, j) <= SynOfCount(maths, r, m, k)
  }

  /** Ten packets score, and an eleventh, one more SYN, starts the suppression. */
  predicate StopsAtEleven(r: Rates, m: Metrics) {
    var w := EffectiveWindow(m.window);
    && 6 <= m.ack <= 10
    && (10 - m.ack) as real / w > r.normalSyn
    && (11 - m.ack) as real / w <= r.suspiciousSyn
  }

  /** The largest count up to the suspicious rate. */
  function LastModerate(r: Rates, w: real): (j: nat)
    requires r.Valid() && w > 0.0
    ensures j as real / w <= r.suspiciousSyn < (j + 1) as real / w
  {
    assert r.suspiciousSyn * w >= 0.0;
    var j := (r.suspiciousSyn * w).Floor;
    QuotientAtMost(j as real, w, r.suspiciousSyn);
    QuotientAbove((j + 1) as real, w, r.suspiciousSyn);
    j
  }

  lemma QuotientAtMost(a: real, b: real, c: real)
    requires b > 0.0 && a <= c * b
    ensures a / b <= c
  {
    var q := a / b;
    assert q * b == a;
    if q > c { ProductPositive(q - c, b); }
  }

  lemma QuotientAbove(a: real, b: real, c: real)
    requires b > 0.0 && a > c * b
    ensures a / b > c
  {
    var q := a / b;
    assert q * b == a;
    if q <= c { ProductNonNegative(c - q, b); }
  }

  /** That count scores more than the next one, which is above the suspicious rate. */
  predicate FallsBack(maths: Maths, r: Rates, m: Metrics)
    requires r.Valid()
  {
    var w := EffectiveWindow(m.window);
    var j := LastModerate(r, w);
    && j as real / w > r.normalSyn > 0.0
    && !(j + m.ack > 10 && j < m.ack)
    && (j as real / w - r.normalSyn) / r.normalSyn
       > 5.0 + maths.log10((j + 1) as real / w - r.suspiciousSyn + 1.0) * 3.0
  }

  lemma FewerThanAcks(syn: nat, ack: nat)
    requires syn + ack > 0
    ensures syn as real / (syn + ack) as real < 0.5 <==> syn < ack
  {
    var t := (syn + ack) as real;
    var q := syn as real / t;
    assert q * t == syn as real;
    if q >= 0.5 { ProductNonNegative(q - 0.5, t); } else { ProductPositive(0.5 - q, t); }
  }

  /** The component of `k` SYNs in plain terms. */
  lemma SynOfCountIs(maths: Maths, r: Rates, m: Metrics, k: nat)
    requires r.Valid()
    ensures var w := EffectiveWindow(m.window);
            var x := k as real / w;
            SynOfCount(maths, r, m, k)
            == if x <= r.normalSyn then 0.0
               else if x > r.suspiciousSyn then 5.0 + maths.log10(x - r.suspiciousSyn + 1.0) * 3.0
               else if k + m.ack > 10 && k < m.ack then 0.0
               else (x - r.normalSyn) / r.normalSyn
  {
    if k + m.ack > 10 { FewerThanAcks(k, m.ack); }
  }

  lemma FewerCount(j: nat, k: nat, w: real)
    requires j <= k && w > 0.0
    ensures j as real / w <= k as real / w
  {
    var p, q := j as real / w, k as real / w;
    assert p * w == j as real && q * w == k as real;
    if p > q { ProductPositive(p - q, w); }
  }

  /** Up to the suspicious rate only the suppression can lower the component. */
  lemma ModerateCountsRise(maths: Maths, r: Rates, m: Metrics, j: nat, k: nat)
    requires r.Valid() && j <= k && k as real / EffectiveWindow(m.window) <= r.suspiciousSyn && !StopsAtEleven(r, m)
    ensures SynOfCount(maths, r, m, j) <= SynOfCount(maths, r, m, k)
    ensures SynOfCount(maths, r, m, j) > 0.0 ==> !(k + m.ack > 10 && k < m.ack)
  {
    var n, w := r.normalSyn, EffectiveWindow(m.window);
    var x, y := j as real / w, k as real / w;
    SynOfCountIs(maths, r, m, j);
    SynOfCountIs(maths, r, m, k);
    FewerCount(j, k, w);
    if x > n && !(j + m.ack > 10 && j < m.ack) {
      ExcessGrows(x, y, n);
      if k + m.ack > 10 && k < m.ack {
        FewerCount(j, 10 - m.ack, w);
        FewerCount(11 - m.ack, k, w);
      }
    } else if y > n {
      QuotientNonNegative(y - n, n);
    }
  }

  lemma CountsRise(maths: Maths, r: Rates, m: Metrics, j: nat, k: nat)
    requires RisesFromOne(maths.log10) && r.Valid() && j <= k && !StopsAtEleven(r, m) && !FallsBack(maths, r, m)
    ensures SynOfCount(maths, r, m, j) <= SynOfCount(maths, r, m, k)
  {
    var n, s, w := r.normalSyn, r.suspiciousSyn, EffectiveWindow(m.window);
    var x, y := j as real / w, k as real / w;
    FewerCount(j, k, w);
    if y <= s {
      ModerateCountsRise(maths, r, m, j, k);
    } else {
      SynOfCountIs(maths, r, m, j);
      SynOfCountIs(maths, r, m, k);
      if x > s {
        assert maths.log10(x - s + 1.0) <= maths.log10(y - s + 1.0);
      } else {
        var last := LastModerate(r, w);
        if last + 1 > k { FewerCount(k, last, w); }
        if last < j { FewerCount(last + 1, j, w); }
        FewerCount(last + 1, k, w);
        assert maths.log10((last + 1) as real / w - s + 1.0) <= maths.log10(y - s + 1.0);
        assert maths.log10(y - s + 1.0) >= 0.0;
        ModerateCountsRise(maths, r, m, j, last);
        SynOfCountIs(maths, r, m, last);
      }
    }
  }

  /** With everything else fixed, one more SYN never lowers the component, if and only if
      neither the eleventh packet stops it from scoring nor the step above the suspicious rate
      makes it fall back. */
  lemma RisesWithSynsIff(maths: Maths, r: Rates, m: Metrics)
    requires RisesFromOne(maths.log10) && r.Valid()
    ensures RisesWithSyns(maths, r, m) <==> !StopsAtEleven(r, m) && !FallsBack(maths, r, m)
  {
    hide SynOfCount;
    var w := EffectiveWindow(m.window);
    if StopsAtEleven(r, m) {
      var k := 10 - m.ack;
      SynOfCountIs(maths, r, m, k);
      SynOfCountIs(maths, r, m, k + 1);
      FewerCount(k, k + 1, w);
      ExcessPositive(k as real / w, r.normalSyn);
      assert SynOfCount(maths, r, m, k) > SynOfCount(maths, r, m, k + 1);
    } else if FallsBack(maths, r, m) {
      var j := LastModerate(r, w);
      SynOfCountIs(maths, r, m, j);
      SynOfCountIs(maths, r, m, j + 1);
      assert SynOfCount(maths, r, m, j) > SynOfCount(maths, r, m, j + 1);
    } else {
      forall j: nat, k: nat | j <= k ensures SynOfCount(maths, r, m, j) <= SynOfCount(maths, r, m, k) {
        CountsRise(maths, r, m, j, k);
      }
    }
  }

  lemma ExcessPositive(x: real, n: real)
    requires n > 0.0 && x > n
    ensures (x - n) / n > 0.0
  {
    var q := (x - n) / n;
    assert q * n == x - n;
    if q <= 0.0 { ProductNonNegative(-q, n); }
  }

  /** Adjusted rates never fall back: over the window they always rise, over the count exactly
      unless the eleventh packet stops them. With the default rates counts of more than ten SYNs,
      not mostly acknowledged, score less in some shorter window. */
  lemma AdjustedRatesRise(maths: Maths, avgSynRate: real, m: Metrics)
    requires RisesFromOne(maths.log10) && avgSynRate >= 0.0
    ensures RisesAsWindowShrinks(maths, Adjusted(avgSynRate), m)
    ensures RisesWithSyns(maths, Adjusted(avgSynRate), m) <==> !StopsAtEleven(Adjusted(avgSynRate), m)
    ensures RisesAsWindowShrinks(maths, DEFAULT_RATES, m) <==> MostlyAcks(m) || m.syn <= 10
  {
    hide RisesAsWindowShrinks, RisesWithSyns, StopsAtEleven;
    var r := Adjusted(avgSynRate);
    RisesAsWindowShrinksIff(maths, r, m);
    RisesAsWindowShrinksIff(maths, DEFAULT_RATES, m);
    RisesWithSynsIff(maths, r, m);
    if FallsBack(maths, r, m) {
      var w := EffectiveWindow(m.window);
      var j := LastModerate(r, w);
      ExcessAtMostFive(j as real / w, r.normalSyn);
      assert maths.log10((j + 1) as real / w - r.suspiciousSyn + 1.0) >= 0.0;
    }
  }

  /** Eight acknowledgements in ten seconds: the third SYN takes the component from a third to zero. */
  lemma ThirdSynScoresNothing(maths: Maths, m: Metrics)
    requires RisesFromOne(maths.log10) && m.ack == 8 && m.window == 10.0
    ensures SynOfCount(maths, Adjusted(0.1), m, 2) == 1.0 / 3.0 && SynOfCount(maths, Adjusted(0.1), m, 3) == 0.0
    ensures !RisesWithSyns(maths, Adjusted(0.1), m)
  {
    SynOfCountIs(maths, Adjusted(0.1), m, 2);
    SynOfCountIs(maths, Adjusted(0.1), m, 3);
    RisesWithSynsIff(maths, Adjusted(0.1), m);
  }
}
