/** What the scores mean: the final score out of its components, the threat type, and each
    component out of the counts. Comparisons of rates are multiplied out. */
module ScorerLaws {
  import opened Scorer

  // ---------- the final score ----------

  function Weighted(c: Components): real {
    10.0 * c.syn + 2.0 * c.port + 15.0 * c.failed + 8.0 * c.service + c.burst
  }

  /** Listed ports that are HTTP, HTTPS, SSH or DNS. */
  function WellKnown(ports: seq<int>): (hits: set<nat>) {
    set i: nat | i < |ports| && ports[i] in {80, 443, 22, 53}
  }

  lemma {:induction false} HitsAreWellKnown(ports: seq<int>)
    ensures ServiceHits(ports) == |WellKnown(ports)|
  {
    if ports != [] {
      var k := |ports| - 1;
      HitsAreWellKnown(ports[..k]);
      OneMorePort(ports);
    }
  }

  lemma OneMorePort(ports: seq<int>)
    requires ports != []
    ensures var k := |ports| - 1;
            |WellKnown(ports)| == |WellKnown(ports[..k])| + if ports[k] in {80, 443, 22, 53} then 1 else 0
  {
    var k := |ports| - 1;
    assert WellKnown(ports) == WellKnown(ports[..k]) + if ports[k] in {80, 443, 22, 53} then {k} else {};
  }

  /** Such ports make up half of the distinct ports, rounded down, or more. */
  predicate Discounted(m: Metrics) {
    |WellKnown(m.servicePorts)| > 0 && 1 <= m.uniquePorts <= 2 * |WellKnown(m.servicePorts)| + 1
  }

  /** The score before history and caps. */
  function Raw(c: Components, m: Metrics): real {
    if Discounted(m) then Weighted(c) * 0.8 else Weighted(c)
  }

  lemma RawIs(c: Components, m: Metrics)
    ensures RawScore(c, ServiceHits(m.servicePorts), m.uniquePorts) == Raw(c, m)
  {
    HitsAreWellKnown(m.servicePorts);
  }

  predicate HasHistory(m: Metrics) {
    m.previousScore > 0 && m.lastSeenKnown
  }

  /** What is left of the previous score, at most 100, after decay; less than five counts as none. */
  function Past(maths: Maths, m: Metrics): real {
    Left(maths, if m.previousScore > 100 then 100.0 else m.previousScore as real, m.hoursSince)
  }

  function Left(maths: Maths, score: real, hours: real): real {
    if hours <= 0.0 then score
    else if score * maths.decay(hours) < 5.0 then 0.0
    else score * maths.decay(hours)
  }

  function Cap(m: Metrics): real {
    var events := m.syn + m.ack + m.failed;
    if m.outbound && events <= 3 then 30.0
    else if m.window < 5.0 && events < 5 then 40.0
    else 100.0
  }

  lemma LowConfidenceIs(m: Metrics)
    ensures LowConfidence(m) <==> m.window < 5.0 && m.syn + m.ack + m.failed < 5
  {
  }

  /** The final score in full: weights 10, 2, 15, 8 and 1, a fifth off for well-known ports,
      seven tenths of the higher and three tenths of the lower of score and history when the score
      rises, the other way round when it falls, and the cap of the traffic. */
  lemma FinalScoreIs(maths: Maths, c: Components, m: Metrics)
    ensures var raw, past := Raw(c, m), Past(maths, m);
            var score := if !HasHistory(m) then raw
                         else if raw > past then 0.7 * raw + 0.3 * past
                         else 0.3 * raw + 0.7 * past;
            FinalFrom(maths, c, m) == if score > Cap(m) then Cap(m) else score
  {
    RawIs(c, m);
    LowConfidenceIs(m);
    if HasHistory(m) { PastIs(maths, m); }
    hide Raw, RawScore, LowConfidence, Past, Decayed;
  }

  lemma PastIs(maths: Maths, m: Metrics)
    requires HasHistory(m)
    ensures Decayed(maths, ClampPrevious(m.previousScore) as real, m.hoursSince) == Past(maths, m)
  {
    hide Decayed, Left;
    var previous := if m.previousScore > 100 then 100.0 else m.previousScore as real;
    assert ClampPrevious(m.previousScore) as real == previous;
    DecayedIs(maths, previous, m.hoursSince);
  }

  lemma DecayedIs(maths: Maths, score: real, hoursSince: real)
    requires score > 0.0
    ensures Decayed(maths, score, hoursSince) == Left(maths, score, hoursSince)
  {
  }

  /** Component by component at most the other one. */
  predicate Below(c: Components, d: Components) {
    c.syn <= d.syn && c.port <= d.port && c.failed <= d.failed && c.service <= d.service && c.burst <= d.burst
  }

  /** The final score never falls when a component rises, and below the cap it rises strictly. */
  lemma FinalScoreRises(maths: Maths, c: Components, d: Components, m: Metrics)
    requires Below(c, d)
    ensures FinalFrom(maths, c, m) <= FinalFrom(maths, d, m)
    ensures c != d && FinalFrom(maths, d, m) < Cap(m) ==> FinalFrom(maths, c, m) < FinalFrom(maths, d, m)
  {
    FinalScoreIs(maths, c, m);
    FinalScoreIs(maths, d, m);
    RawRises(c, d, m);
    hide FinalFrom, Raw, Past, Cap, HasHistory;
  }

  lemma RawRises(c: Components, d: Components, m: Metrics)
    requires Below(c, d)
    ensures Raw(c, m) <= Raw(d, m)
    ensures c != d ==> Raw(c, m) < Raw(d, m)
  {
    hide Discounted;
  }

  /** Without history, discount and low caps each component alone carries the score up to 100. */
  lemma EachComponentCounts(maths: Maths, r: Rates, m: Metrics)
    requires maths.Sound() && r.Valid() && !HasHistory(m) && !Discounted(m) && Cap(m) == 100.0
    ensures var c, score := ComponentsOf(maths, r, m), FinalScore(maths, r, m);
            && AtLeast(score, 10.0 * c.syn) && AtLeast(score, 2.0 * c.port) && AtLeast(score, 15.0 * c.failed)
            && AtLeast(score, 8.0 * c.service) && AtLeast(score, c.burst)
            && (score < 100.0 ==> score == Weighted(c))
  {
    var c := ComponentsOf(maths, r, m);
    ComponentsAreNonNegative(maths, r, m);
    FinalScoreIs(maths, c, m);
    hide ComponentsOf, FinalFrom, Discounted, HasHistory, Cap;
  }

  predicate AtLeast(score: real, x: real) {
    score >= if x < 100.0 then x else 100.0
  }

  /** Any rate above the suspicious one, in any window: without history the level is Malicious,
      discount or not, unless it is low-volume outbound traffic. */
  lemma FloodsAreMalicious(maths: Maths, r: Rates, m: Metrics)
    requires maths.Sound() && r.Valid() && !HasHistory(m)
    requires !(m.outbound && m.syn + m.ack + m.failed <= 3)
    requires m.syn as real / EffectiveWindow(m.window) > r.suspiciousSyn
    ensures FinalScore(maths, r, m) >= 40.0 && LevelOf(FinalScore(maths, r, m).Floor) == Malicious
  {
    var c := ComponentsOf(maths, r, m);
    ComponentsAreNonNegative(maths, r, m);
    SynOfCountIs(maths, r, m, m.syn);
    assert m.(syn := m.syn) == m;
    assert c.syn >= 5.0;
    FinalScoreIs(maths, c, m);
    hide ComponentsOf, FinalFrom, Discounted, HasHistory, EffectiveWindow;
    assert Raw(c, m) >= 40.0;
  }

  // ---------- the threat type ----------

  /** What each candidate is worth; one that is not eligible is worth nothing. */
  function ServiceWorth(m: Metrics, c: Components): real { if m.maxPortHits >= 5 then c.service else 0.0 }
  function PortWorth(m: Metrics, c: Components): real { if m.uniquePorts >= 3 then c.port else 0.0 }
  function BurstWorth(c: Components): real { if c.burst > 5.0 then c.burst else 0.0 }

  /** The type is the candidate of greatest positive worth, ties going to service abuse, port scan,
      SYN flood, failed handshakes and bursts in this order. */
  lemma KindIs(m: Metrics, c: Components, kind: ThreatType)
    requires IsBest(m, CandidatesOf(c), kind)
    ensures var service, port, burst := ServiceWorth(m, c), PortWorth(m, c), BurstWorth(c);
            var syn, failed := c.syn, c.failed;
            && (kind == ServiceAbuse <==>
                  service > 0.0 && service >= port && service >= syn && service >= failed && service >= burst)
            && (kind == PortScan <==> port > 0.0 && port > service && port >= syn && port >= failed && port >= burst)
            && (kind == SynFlood <==> syn > 0.0 && syn > service && syn > port && syn >= failed && syn >= burst)
            && (kind == FailedHandshake <==>
                  failed > 0.0 && failed > service && failed > port && failed > syn && failed >= burst)
            && (kind == ConnectionBurst <==>
                  burst > 0.0 && burst > service && burst > port && burst > syn && burst > failed)
            && (kind == NoThreat <==> service <= 0.0 && port <= 0.0 && syn <= 0.0 && failed <= 0.0 && burst <= 0.0)
  {
    hide IsBest, CandidatesOf, ServiceWorth, PortWorth, BurstWorth;
    KindWins(m, c, kind);
    assert WorthOf(m, c, ServiceAbuse) == ServiceWorth(m, c) && WorthOf(m, c, PortScan) == PortWorth(m, c);
    assert WorthOf(m, c, SynFlood) == c.syn && WorthOf(m, c, FailedHandshake) == c.failed;
    assert WorthOf(m, c, ConnectionBurst) == BurstWorth(c) && WorthOf(m, c, NoThreat) == 0.0;
    hide WorthOf;
  }

  function WorthOf(m: Metrics, c: Components, kind: ThreatType): real {
    match kind
    case ServiceAbuse => ServiceWorth(m, c)
    case PortScan => PortWorth(m, c)
    case SynFlood => c.syn
    case FailedHandshake => c.failed
    case ConnectionBurst => BurstWorth(c)
    case NoThreat => 0.0
  }

  function Rank(kind: ThreatType): nat {
    match kind
    case ServiceAbuse => 0 case PortScan => 1 case SynFlood => 2 case FailedHandshake => 3 case ConnectionBurst => 4
    case NoThreat => 5
  }

  /** The chosen type is worth at least as much as any other, and more than those before it. */
  lemma KindWins(m: Metrics, c: Components, kind: ThreatType)
    requires IsBest(m, CandidatesOf(c), kind)
    ensures kind != NoThreat ==> WorthOf(m, c, kind) > 0.0
    ensures forall other: ThreatType ::
              && WorthOf(m, c, kind) >= WorthOf(m, c, other)
              && (Rank(other) < Rank(kind) && kind != NoThreat ==> WorthOf(m, c, kind) > WorthOf(m, c, other))
  {
    forall other: ThreatType | other != NoThreat
      ensures WorthOf(m, c, kind) >= WorthOf(m, c, other)
      ensures Rank(other) < Rank(kind) && kind != NoThreat ==> WorthOf(m, c, kind) > WorthOf(m, c, other)
    {
      KindBeats(m, c, kind, other);
    }
    KindBeats(m, c, kind, SynFlood);
  }

  lemma KindBeats(m: Metrics, c: Components, kind: ThreatType, other: ThreatType)
    requires IsBest(m, CandidatesOf(c), kind) && other != NoThreat
    ensures kind != NoThreat ==> WorthOf(m, c, kind) > 0.0
    ensures WorthOf(m, c, kind) >= WorthOf(m, c, other) && WorthOf(m, c, kind) >= 0.0
    ensures Rank(other) < Rank(kind) && kind != NoThreat ==> WorthOf(m, c, kind) > WorthOf(m, c, other)
  {
    var cs := CandidatesOf(c);
    var d := cs[Rank(other)];
    assert d in cs && d.kind == other && d.priority == Rank(other);
    EligibleIsWorth(m, c, d);
    if exists x :: x in cs && Eligible(m, x) {
      var x :| x in cs && Eligible(m, x) && x.kind == kind && forall y | y in cs && Eligible(m, y) :: Beats(x, y);
      EligibleIsWorth(m, c, x);
      hide Eligible, WorthOf;
    }
  }

  lemma EligibleIsWorth(m: Metrics, c: Components, d: Candidate)
    requires d in CandidatesOf(c)
    ensures d.kind != NoThreat && d.priority == Rank(d.kind)
    ensures Eligible(m, d) ==> WorthOf(m, c, d.kind) == d.value > 0.0
    ensures !Eligible(m, d) ==> WorthOf(m, c, d.kind) <= 0.0
  {
  }

  // ---------- the components ----------

  lemma MultipliedOut(a: real, b: real, x: real)
    requires b > 0.0
    ensures (a / b > x <==> a > x * b) && (a / b >= x <==> a >= x * b)
    ensures (a / b < x <==> a < x * b) && (a / b <= x <==> a <= x * b)
  {
    var q := a / b;
    assert q * b == a;
    if q > x { ProductPositive(q - x, b); }
    if q < x { ProductPositive(x - q, b); }
  }

  /** Service abuse: nothing below five hits, then a tier by hits per second or by hits, whichever
      is higher. */
  lemma ServiceScoreIs(maths: Maths, r: Rates, m: Metrics)
    requires r.Valid()
    ensures var s, w, hits := ComponentsOf(maths, r, m).service, EffectiveWindow(m.window), m.maxPortHits as real;
            && (s > 0.0 <==> m.maxPortHits >= 5) && (s > 0.0 ==> s >= 3.0)
            && (s > 3.0 <==> m.maxPortHits >= 5 && (hits >= 10.0 * w || m.maxPortHits >= 100)) && (s > 3.0 ==> s >= 4.0)
            && (s > 4.0 <==> m.maxPortHits >= 5 && (hits >= 10.0 * w || m.maxPortHits >= 200)) && (s > 4.0 ==> s >= 5.0)
            && (s > 5.0 <==> m.maxPortHits >= 5 && (hits >= 25.0 * w || m.maxPortHits >= 200)) && (s > 5.0 ==> s >= 6.0)
            && (s > 6.0 <==> m.maxPortHits >= 5 && (hits >= 25.0 * w || m.maxPortHits >= 500)) && (s > 6.0 ==> s >= 7.0)
            && (s > 7.0 <==> m.maxPortHits >= 5 && (hits >= 50.0 * w || m.maxPortHits >= 500)) && (s > 7.0 ==> s >= 8.0)
            && (s > 8.0 <==> m.maxPortHits >= 5 && (hits >= 50.0 * w || m.maxPortHits >= 1000))
            && (s == 0.0 || s == 3.0 || s == 4.0 || s == 5.0 || s == 6.0 || s == 7.0 || s == 8.0 || s == 10.0)
  {
    hide PortScore, FailedScore, SynScore, BurstScore;
    var w, hits := EffectiveWindow(m.window), m.maxPortHits as real;
    assert MaxReal(1.0, w) == w;
    MultipliedOut(hits, w, 50.0);
    MultipliedOut(hits, w, 25.0);
    MultipliedOut(hits, w, 10.0);
  }

  /** With the default rates SYNs score from more than three a minute on, unless their rate is at
      most one a second and they are fewer than the acknowledgements among more than ten packets. */
  lemma DefaultRatesScore(maths: Maths, m: Metrics, k: nat)
    requires maths.Sound()
    ensures var w := EffectiveWindow(m.window);
            SynOfCount(maths, DEFAULT_RATES, m, k) > 0.0
            <==> 20.0 * k as real > w && !(k as real <= w && k + m.ack > 10 && k < m.ack)
  {
    hide EffectiveWindow;
    var w := EffectiveWindow(m.window);
    SynOfCountIs(maths, DEFAULT_RATES, m, k);
    MultipliedOut(k as real, w, 0.05);
    MultipliedOut(k as real, w, 1.0);
    if k as real / w > 0.05 { ExcessPositive(k as real / w, 0.05); }
    hide SynOfCount;
  }

  /** Failed handshakes: nothing below three, at up to the allowed rate, or when fewer than half
      of the attempts fail and more than five succeed. Beyond, `over` is the rate above the
      allowed one, which is doubled outbound. */
  lemma FailedScoreIs(maths: Maths, r: Rates, m: Metrics)
    requires r.Valid()
    ensures var w := EffectiveWindow(m.window);
            var rate, allowed := m.failed as real / w, if m.outbound then 1.0 else 0.5;
            var over := rate - allowed;
            ComponentsOf(maths, r, m).failed
            == if m.failed < 3 || over <= 0.0 || (m.failed < m.established && m.established > 5) then 0.0
               else if rate > (if m.outbound then 10.0 else 5.0) && 2 * m.failed > 3 * m.established then
                 over + if m.outbound then 2.0 else 3.0
               else if m.failed > 9 * m.established && m.failed >= 5 then rate + 2.5
               else over * (if m.outbound then 0.75 else 1.5)
  {
    hide PortScore, ServiceScore, SynScore, BurstScore;
    if m.failed >= 3 {
      var a, t := m.failed as real, (m.failed + m.established) as real;
      MultipliedOut(a, t, 0.5);
      MultipliedOut(a, t, 0.6);
      MultipliedOut(a, t, 0.9);
    }
  }

  /** The same handshakes never score more outbound than inbound. */
  lemma OutboundFailuresAreMilder(maths: Maths, r: Rates, m: Metrics)
    requires r.Valid()
    ensures ComponentsOf(maths, r, m.(outbound := true)).failed <= ComponentsOf(maths, r, m.(outbound := false)).failed
  {
    FailedScoreIs(maths, r, m.(outbound := true));
    FailedScoreIs(maths, r, m.(outbound := false));
    hide ComponentsOf;
  }

  /** Bursts: five for more than twenty connections a second in less than ten seconds; else a tier
      by the number of SYNs, or of connections when there are none, and above the threshold of ten
      a second, growing with windows of more than a minute, a logarithm on top. Three more when
      more than five resets outnumber twice the established connections, or none is established. */
  lemma BurstScoreIs(maths: Maths, r: Rates, m: Metrics)
    requires r.Valid()
    ensures var w := EffectiveWindow(m.window);
            var started := if m.syn > 0 then m.syn else m.total;
            var tier := if started > 1000 then 3.0 else if started > 500 then 2.0
                        else if started > 200 then 1.0 else 0.0;
            var threshold := if m.window > 60.0 then m.window / 6.0 else 10.0;
            var rate := m.total as real / w;
            var burst := if m.window < 10.0 && m.total as real > 20.0 * w then 5.0
                         else if m.total as real > threshold * w then maths.log10(rate / threshold) * 5.0 + tier
                         else tier;
            ComponentsOf(maths, r, m).burst
            == burst + if m.rst > 5 && (m.established == 0 || m.rst > 2 * m.established) then 3.0 else 0.0
  {
    hide PortScore, FailedScore, ServiceScore, SynScore, BurstScore;
    BurstIs(maths, m, EffectiveWindow(m.window));
    hide EffectiveWindow;
  }

  lemma BurstIs(maths: Maths, m: Metrics, w: real)
    requires w > 0.0
    ensures var started := if m.syn > 0 then m.syn else m.total;
            var tier := if started > 1000 then 3.0 else if started > 500 then 2.0
                        else if started > 200 then 1.0 else 0.0;
            var threshold := if m.window > 60.0 then m.window / 6.0 else 10.0;
            var rate := m.total as real / w;
            BurstScore(maths, rate, m.window, m.total, m.syn)
            == if m.window < 10.0 && m.total as real > 20.0 * w then 5.0
               else if m.total as real > threshold * w then maths.log10(rate / threshold) * 5.0 + tier
               else tier
  {
    var threshold := if m.window > 60.0 then m.window / 6.0 else 10.0;
    ThresholdIs(m.window);
    MultipliedOut(m.total as real, w, 20.0);
    MultipliedOut(m.total as real, w, threshold);
    hide AdaptiveThreshold;
  }

  lemma ThresholdIs(window: real)
    ensures AdaptiveThreshold(window) == if window > 60.0 then window / 6.0 else 10.0
  {
    MultipliedOut(window, 60.0, 1.0);
    assert 10.0 * (window / 60.0) == window / 6.0;
  }

  /** Ports in a window of length `d`: the number that counts as the bar is half a port a second
      and at least five. Dispersed traffic, mid-range scans and wide scans are told apart. */
  function FastScan(maths: Maths, m: Metrics, connectionRate: real): real {
    var ports := m.uniquePorts as real;
    var d := if m.window <= 0.0 then 10.0 else m.window;
    var bar := if d > 10.0 then 0.5 * d else 5.0;
    if ports <= 0.8 * (connectionRate + 1.0) then
      if m.uniquePorts >= 6 && ports > 1.5 * bar then 0.25 + 0.25 * ports else 0.0
    else if m.uniquePorts <= 10 then
      if ports < 0.6 * bar then 0.0 else if m.uniquePorts <= 3 then 1.0 else 0.4 * ports - 0.2
    else if ports > bar then 5.0 + maths.sqrt(ports - 3.0)
    else 0.0
  }

  /** Port scans: nothing for few ports now and over time; else the fast scan of the window or the
      slow scan over hours, whichever is higher. */
  lemma PortScoreIs(maths: Maths, r: Rates, m: Metrics)
    requires r.Valid()
    ensures var cumulative := m.cumulativePorts as real;
            var fast := FastScan(maths, m, m.total as real / EffectiveWindow(m.window));
            var slow := m.cumulativePorts >= 9 && m.cumulativeHours > 0.5 && cumulative > 10.0 * m.cumulativeHours;
            var byHours := if slow then maths.log10(cumulative / m.cumulativeHours) * 2.0 else 0.0;
            ComponentsOf(maths, r, m).port
            == if m.uniquePorts < 3 && m.cumulativePorts < 6 then 0.0
               else if slow && byHours > fast then byHours
               else fast
  {
    hide FailedScore, ServiceScore, SynScore, BurstScore, FastScan, FastPortScore;
    QuotientNonNegative(m.total as real, EffectiveWindow(m.window));
    FastScanIs(maths, m, m.total as real / EffectiveWindow(m.window));
    if m.cumulativeHours > 0.5 {
      MultipliedOut(m.cumulativePorts as real, m.cumulativeHours, 10.0);
    }
  }

  lemma FastScanIs(maths: Maths, m: Metrics, connectionRate: real)
    requires connectionRate >= 0.0
    ensures FastPortScore(maths, m, connectionRate) == FastScan(maths, m, connectionRate)
  {
    var d := if m.window <= 0.0 then 10.0 else m.window;
    var ports := m.uniquePorts as real;
    var bar := if d > 10.0 then 0.5 * d else 5.0;
    var threshold := MaxReal(0.5, 5.0 / d);
    BarIs(d);
    MultipliedOut(ports, connectionRate + 1.0, 0.8);
    MultipliedOut(ports, d, threshold * 1.5);
    MultipliedOut(ports, d, threshold * 0.6);
    MultipliedOut(ports, d, threshold);
    assert threshold * 1.5 * d == 1.5 * bar && threshold * 0.6 * d == 0.6 * bar;
  }

  lemma BarIs(d: real)
    requires d > 0.0
    ensures MaxReal(0.5, 5.0 / d) * d == if d > 10.0 then 0.5 * d else 5.0
  {
    MultipliedOut(5.0, d, 0.5);
    assert 5.0 / d * d == 5.0;
  }
}
