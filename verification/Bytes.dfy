/** Bytes, the big-endian integers of the payload formats and the decimal integers of
    the command map and the nonce file. */
module Bytes {
  import opened Options

  type byte = b: int | 0 <= b < 256
  type Bytes = seq<byte>

  const INT32_HALF: int := 0x8000_0000
  const INT64_HALF: int := 0x8000_0000_0000_0000
  const UINT32_SIZE: int := 0x1_0000_0000

  type int32 = x: int | -0x8000_0000 <= x < 0x8000_0000
  type int64 = x: int | -0x8000_0000_0000_0000 <= x < 0x8000_0000_0000_0000

  // ---------- big-endian ----------

  /** The low `width` bytes of `x`, most significant first. Division rounds down, so a
      negative number gives its two's complement, as the arithmetic shifts of the source do. */
  function BigEndian(x: int, width: nat): (bs: Bytes)
    ensures |bs| == width
    decreases width
  {
    if width == 0 then [] else BigEndian(x / 256, width - 1) + [x % 256]
  }

  function Unsigned(bs: Bytes): (x: nat) {
    if bs == [] then 0 else Unsigned(bs[..|bs| - 1]) * 256 + bs[|bs| - 1]
  }

  function Signed(bs: Bytes): (x: int) {
    if bs == [] then 0
    else if |bs| == 1 then if bs[0] < 128 then bs[0] else bs[0] - 256
    else Signed(bs[..|bs| - 1]) * 256 + bs[|bs| - 1]
  }

  /** 256^width / 2 */
  function Half(width: nat): (h: int)
    requires width > 0
    ensures h > 0
  {
    if width == 1 then 128 else 256 * Half(width - 1)
  }

  lemma HalfOf32And64()
    ensures Half(4) == INT32_HALF && Half(8) == INT64_HALF
  {
    assert Half(1) == 0x80;
    assert Half(2) == 0x8000;
    assert Half(3) == 0x80_0000;
    assert Half(4) == 0x8000_0000;
    assert Half(5) == 0x80_0000_0000;
    assert Half(6) == 0x8000_0000_0000;
    assert Half(7) == 0x80_0000_0000_0000;
  }

  lemma {:induction false} SignedRoundTrip(x: int, width: nat)
    requires width > 0 && -Half(width) <= x < Half(width)
    ensures Signed(BigEndian(x, width)) == x
    decreases width
  {
    var bs := BigEndian(x, width);
    if width == 1 {
      assert BigEndian(x / 256, 0) == [];
      assert bs[0] == x % 256;
    } else {
      SignedRoundTrip(x / 256, width - 1);
      assert bs[..|bs| - 1] == BigEndian(x / 256, width - 1);
    }
  }

  lemma {:induction false} UnsignedRoundTrip(x: nat, width: nat)
    requires width > 0 && x < 2 * Half(width)
    ensures Unsigned(BigEndian(x, width)) == x
  {
    var bs := BigEndian(x, width);
    if width == 1 {
      assert BigEndian(x / 256, 0) == [];
      assert bs == [x];
      assert bs[..0] == [];
    } else {
      UnsignedRoundTrip(x / 256, width - 1);
      assert bs[..|bs| - 1] == BigEndian(x / 256, width - 1);
    }
  }

  lemma {:induction false} SignedInRange(bs: Bytes)
    requires bs != []
    ensures -Half(|bs|) <= Signed(bs) < Half(|bs|)
  {
    if |bs| > 1 {
      SignedInRange(bs[..|bs| - 1]);
    }
  }

  lemma Int32RoundTrip(x: int32)
    ensures Signed(BigEndian(x, 4)) == x
  {
    HalfOf32And64();
    SignedRoundTrip(x, 4);
  }

  lemma Int64RoundTrip(x: int64)
    ensures Signed(BigEndian(x, 8)) == x
  {
    HalfOf32And64();
    SignedRoundTrip(x, 8);
  }

  lemma LengthRoundTrip(n: nat)
    requires n < UINT32_SIZE
    ensures Unsigned(BigEndian(n, 4)) == n
  {
    HalfOf32And64();
    UnsignedRoundTrip(n, 4);
  }

  // ---------- decimal ----------

  const PLUS: byte := 43
  const MINUS: byte := 45

  predicate IsDigit(b: byte) { 48 <= b <= 57 }

  function FormatDigits(n: nat): (bs: Bytes)
    ensures bs != [] && IsDigit(bs[0])
  {
    if n < 10 then [48 + n] else FormatDigits(n / 10) + [48 + n % 10]
  }

  function FormatInt(n: int): (bs: Bytes)
    ensures bs != []
  {
    if n < 0 then [MINUS] + FormatDigits(-n) else FormatDigits(n)
  }

  function ParseDigits(bs: Bytes): (r: Option<nat>) {
    if bs == [] || !IsDigit(bs[|bs| - 1]) then None
    else if |bs| == 1 then Some(bs[0] - 48)
    else
      match ParseDigits(bs[..|bs| - 1])
      case None => None
      case Some(v) => Some(v * 10 + (bs[|bs| - 1] - 48))
  }

  /** A signed decimal with an optional sign, rejected when it does not fit 64 bits. */
  function ParseInt64(bs: Bytes): (r: Option<int64>) {
    if bs == [] then None
    else
      var negative := bs[0] == MINUS;
      var digits := if bs[0] == MINUS || bs[0] == PLUS then bs[1..] else bs;
      match ParseDigits(digits)
      case None => None
      case Some(v) =>
        if negative then (if v <= INT64_HALF then var m: int := v; Some(-m) else None)
        else (if v < INT64_HALF then Some(v) else None)
  }

  lemma {:induction false} DigitsRoundTrip(n: nat)
    ensures ParseDigits(FormatDigits(n)) == Some(n)
  {
    var bs := FormatDigits(n);
    if n >= 10 {
      DigitsRoundTrip(n / 10);
      assert bs[..|bs| - 1] == FormatDigits(n / 10);
    }
  }

  /** What `%d` prints, the parser reads back, over the whole 64-bit range. */
  lemma DecimalRoundTrip(n: int64)
    ensures ParseInt64(FormatInt(n)) == Some(n)
  {
    hide FormatDigits, ParseDigits;
    var m: int := n;
    if n < 0 {
      DigitsRoundTrip(-m);
      assert FormatInt(n)[1..] == FormatDigits(-m);
    } else {
      DigitsRoundTrip(n);
    }
  }

  predicate IsSpace(b: byte) { b == 32 || 9 <= b <= 13 }

  function TrimLeft(bs: Bytes): Bytes {
    if bs != [] && IsSpace(bs[0]) then TrimLeft(bs[1..]) else bs
  }

  function TrimRight(bs: Bytes): Bytes {
    if bs != [] && IsSpace(bs[|bs| - 1]) then TrimRight(bs[..|bs| - 1]) else bs
  }

  function TrimSpace(bs: Bytes): Bytes {
    TrimRight(TrimLeft(bs))
  }

  lemma {:induction false} FormatEndsInDigit(n: nat)
    ensures var bs := FormatDigits(n); IsDigit(bs[|bs| - 1])
  {
  }

  lemma TrimKeepsDecimal(n: int64)
    ensures TrimSpace(FormatInt(n)) == FormatInt(n)
  {
    var m: int := n;
    FormatEndsInDigit(if m < 0 then -m else m);
  }

  // ---------- what is read as a number ----------

  predicate AllDigits(bs: Bytes) {
    bs != [] && forall i | 0 <= i < |bs| :: 48 <= bs[i] <= 57
  }

  lemma {:induction false} OnlyDigitsParse(bs: Bytes)
    ensures ParseDigits(bs).Some? <==> AllDigits(bs)
  {
    if bs != [] {
      var front, last := bs[..|bs| - 1], bs[|bs| - 1];
      assert bs == front + [last];
      if front != [] { OnlyDigitsParse(front); }
      assert AllDigits(bs) <==> IsDigit(last) && (front == [] || AllDigits(front));
    }
  }

  /** Nothing but digits with at most one sign in front is read as a number. */
  lemma OnlyDecimalsParse(bs: Bytes)
    requires ParseInt64(bs).Some?
    ensures AllDigits(if bs[0] == 45 || bs[0] == 43 then bs[1..] else bs)
  {
    hide ParseDigits;
    OnlyDigitsParse(if bs[0] == MINUS || bs[0] == PLUS then bs[1..] else bs);
  }

  predicate AllSpace(bs: Bytes) {
    forall i | 0 <= i < |bs| :: bs[i] == 32 || 9 <= bs[i] <= 13
  }

  lemma {:induction false} SpaceBefore(pad: Bytes, bs: Bytes)
    requires AllSpace(pad)
    ensures TrimLeft(pad + bs) == TrimLeft(bs)
  {
    if pad == [] {
      assert pad + bs == bs;
    } else {
      assert IsSpace(pad[0]) && (pad + bs)[0] == pad[0];
      assert (pad + bs)[1..] == pad[1..] + bs;
      SpaceBefore(pad[1..], bs);
    }
  }

  lemma {:induction false} SpaceAfter(bs: Bytes, pad: Bytes)
    requires AllSpace(pad)
    ensures TrimRight(bs + pad) == TrimRight(bs)
  {
    if pad == [] {
      assert bs + pad == bs;
    } else {
      assert IsSpace(pad[|pad| - 1]) && (bs + pad)[|bs + pad| - 1] == pad[|pad| - 1];
      assert (bs + pad)[..|bs + pad| - 1] == bs + pad[..|pad| - 1];
      SpaceAfter(bs, pad[..|pad| - 1]);
    }
  }

  /** Space around a written number is dropped. */
  lemma TrimDropsSpace(before: Bytes, n: int64, after: Bytes)
    requires AllSpace(before) && AllSpace(after)
    ensures TrimSpace(before + FormatInt(n) + after) == FormatInt(n)
  {
    var m: int := n;
    FormatEndsInDigit(if m < 0 then -m else m);
    var bs := FormatInt(n);
    assert before + bs + after == before + (bs + after);
    SpaceBefore(before, bs + after);
    assert TrimLeft(bs + after) == bs + after;
    SpaceAfter(bs, after);
  }
}
