/** Blocklist maps whose entries expire lazily, and the sweep that deletes expired ones.

    A value is an expiry time, zero for never. Keys of the exact maps are of any type; a
    CIDR key is the list of its prefix bits, so a source matches when the key is a prefix
    of the source address. */
module Blocklist {
  import opened Words

  type Bits = seq<bool>
  const ADDRESS_BITS: nat := 32
  type Address = a: Bits | |a| == 32 witness seq(32, _ => false)

  predicate IsExpired(expires: u64, now: u64) {
    expires != 0 && now > expires
  }

  // ---------- verdicts ----------

  predicate Blocked<K>(m: map<K, u64>, k: K, now: u64) {
    k in m && !IsExpired(m[k], now)
  }

  /** Length of the longest key of the map, of at most `n` bits, that matches the source. */
  function LongestMatch(m: map<Bits, u64>, src: Bits, n: nat): (r: int)
    requires n <= |src|
    ensures -1 <= r <= n
    ensures r >= 0 ==> src[..r] in m
    ensures forall k | r < k <= n :: src[..k] !in m
  {
    if src[..n] in m then n
    else if n == 0 then -1
    else LongestMatch(m, src, n - 1)
  }

  /** Only the longest match is looked at, expired or not. */
  predicate CidrBlocked(m: map<Bits, u64>, src: Address, now: u64) {
    var n := LongestMatch(m, src, ADDRESS_BITS);
    n >= 0 && !IsExpired(m[src[..n]], now)
  }

  /** What a list of blocked ranges is for: some live range contains the source. */
  ghost predicate Covered(m: map<Bits, u64>, src: Address, now: u64) {
    exists k :: 0 <= k <= ADDRESS_BITS && src[..k] in m && !IsExpired(m[src[..k]], now)
  }

  // ---------- the sweep ----------

  /** A sweep that visits some keys and fails to delete some of them. */
  function Swept<K>(m: map<K, u64>, visited: set<K>, stuck: set<K>, now: u64): map<K, u64> {
    map k | k in m && !(k in visited && k !in stuck && IsExpired(m[k], now)) :: m[k]
  }

  /** A sweep that visits every key and deletes without failures. */
  function FullySwept<K>(m: map<K, u64>, now: u64): map<K, u64> {
    Swept(m, m.Keys, {}, now)
  }

  /** Iterates over the visited keys that are in the map and deletes the expired ones. */
  method CleanupMap<K>(m: map<K, u64>, visited: set<K>, stuck: set<K>, now: u64)
    returns (left: map<K, u64>, cleaned: nat)
    ensures left == Swept(m, visited, stuck, now)
    ensures forall k :: k in left <==> k in m && (k !in visited || k in stuck || m[k] == 0 || now <= m[k])
    ensures forall k | k in left :: left[k] == m[k]
    ensures cleaned == |m| - |left|
  {
    left, cleaned := m, 0;
    var todo := visited * m.Keys;
    while todo != {}
      invariant todo <= visited * m.Keys
      invariant forall k | k in m :: k in left <==> k in todo || !(k in visited && k !in stuck && IsExpired(m[k], now))
      invariant forall k | k in left :: k in m && left[k] == m[k]
      invariant cleaned + |left.Keys| == |m.Keys|
      decreases todo
    {
      var k :| k in todo;
      todo := todo - {k};
      if m[k] > 0 && now > m[k] {
        if k !in stuck {
          assert (left - {k}).Keys == left.Keys - {k};
          left := left - {k};
          cleaned := cleaned + 1;
        }
      }
    }
  }

  /** The keys that are listed as blocked. */
  method ListBlocked<K>(m: map<K, u64>, now: u64) returns (entries: set<K>)
    ensures forall k :: k in entries <==> k in m && (m[k] == 0 || now <= m[k])
  {
    entries := {};
    var todo := m.Keys;
    while todo != {}
      invariant todo <= m.Keys
      invariant forall k :: k in entries <==> k in m && k !in todo && !IsExpired(m[k], now)
      decreases todo
    {
      var k :| k in todo;
      todo := todo - {k};
      if m[k] != 0 && m[k] < now {
        continue;
      }
      entries := entries + {k};
    }
  }

  /** On an exact map no sweep, complete or not, changes any verdict at its own time or
      later; so listings do not change either. */
  lemma SweepKeepsVerdicts<K>(m: map<K, u64>, visited: set<K>, stuck: set<K>, sweepTime: u64, k: K, now: u64)
    requires sweepTime <= now
    ensures Blocked(Swept(m, visited, stuck, sweepTime), k, now) <==> Blocked(m, k, now)
  {
  }

  /** Sweep and packet may read different clocks. The sweep is harmless for every map
      exactly when its clock is not ahead of the packet's. */
  lemma SweepIsHarmlessIffNotAhead(sweepTime: u64, now: u64)
    requires now > 0
    ensures (forall m: map<int, u64>, k: int :: Blocked(m, k, now) ==> Blocked(FullySwept(m, sweepTime), k, now))
            <==> sweepTime <= now
  {
    if sweepTime <= now {
      forall m: map<int, u64>, k: int | Blocked(m, k, now)
        ensures Blocked(FullySwept(m, sweepTime), k, now)
      {
      }
    } else {
      var m: map<int, u64> := map[0 := now];
      assert Blocked(m, 0, now) && !Blocked(FullySwept(m, sweepTime), 0, now);
    }
  }

  // ---------- ranges ----------

  lemma {:induction false} LongestMatchIs(m: map<Bits, u64>, src: Bits, n: nat, r: nat)
    requires r <= n <= |src| && src[..r] in m
    requires forall k | r < k <= n :: src[..k] !in m
    ensures LongestMatch(m, src, n) == r
  {
    var l := LongestMatch(m, src, n);
    assert src[..l] in m;
  }

  /** A sweep never lets a blocked source through, complete or not, at its own time or later. */
  lemma SweepNeverUnblocksRange(m: map<Bits, u64>, visited: set<Bits>, stuck: set<Bits>, sweepTime: u64,
                                src: Address, now: u64)
    requires sweepTime <= now && CidrBlocked(m, src, now)
    ensures CidrBlocked(Swept(m, visited, stuck, sweepTime), src, now)
  {
    var n := LongestMatch(m, src, ADDRESS_BITS);
    LongestMatchIs(Swept(m, visited, stuck, sweepTime), src, ADDRESS_BITS, n);
  }

  /** Right after a complete sweep the lookup blocks exactly the sources inside a live range. */
  lemma SweptRangesAreExact(m: map<Bits, u64>, src: Address, now: u64)
    ensures CidrBlocked(FullySwept(m, now), src, now) <==> Covered(m, src, now)
  {
    var swept := FullySwept(m, now);
    var n := LongestMatch(swept, src, ADDRESS_BITS);
    if Covered(m, src, now) {
      var k :| 0 <= k <= ADDRESS_BITS && src[..k] in m && !IsExpired(m[src[..k]], now);
      assert src[..k] in swept;
    }
    if n >= 0 {
      assert src[..n] in m;
    }
  }

  /** Between sweeps the lookup misses a live range exactly when an expired, longer range
      shadows it. */
  lemma LookupMissesIffShadowed(m: map<Bits, u64>, src: Address, now: u64)
    ensures var n := LongestMatch(m, src, ADDRESS_BITS);
            (CidrBlocked(m, src, now) <==> Covered(m, src, now))
            <==> !(n >= 0 && IsExpired(m[src[..n]], now) && exists k :: 0 <= k < n && Blocked(m, src[..k], now))
  {
    var n := LongestMatch(m, src, ADDRESS_BITS);
    if Covered(m, src, now) {
      var k :| 0 <= k <= ADDRESS_BITS && src[..k] in m && !IsExpired(m[src[..k]], now);
      assert k <= n && (k == n || Blocked(m, src[..k], now));
    }
    if n >= 0 && exists k :: 0 <= k < n && Blocked(m, src[..k], now) {
      var k :| 0 <= k < n && Blocked(m, src[..k], now);
      assert src[..k] in m;
    }
  }

  /** Such a shadow exists: an expired sixteen-bit range hides a permanent eight-bit one,
      and the sweep then turns a pass into a drop. */
  lemma ExpiredRangeShadowsLiveOne()
    ensures exists m: map<Bits, u64>, src: Address, now: u64 ::
              && Covered(m, src, now) && !CidrBlocked(m, src, now)
              && CidrBlocked(FullySwept(m, now), src, now)
  {
    var src: Address := seq(32, _ => false);
    var m: map<Bits, u64> := map[src[..8] := 0, src[..16] := 5];
    assert src[..8] in m && src[..16] in m && m[src[..16]] == 5 && m[src[..8]] == 0 by {
      assert |src[..8]| != |src[..16]|;
    }
    assert forall k | 16 < k <= 32 :: src[..k] !in m by {
      assert forall k | 16 < k <= 32 :: |src[..k]| == k;
    }
    LongestMatchIs(m, src, ADDRESS_BITS, 16);
    assert Covered(m, src, 10);
    SweptRangesAreExact(m, src, 10);
  }
}
