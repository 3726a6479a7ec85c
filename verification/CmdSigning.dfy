/** The signed byte formats of shared/cmdsigning, their decoders and the signature check.

    The keyed hash is a parameter: any function from key and message to 32 bytes. */
module CmdSigning {
  import opened Options
  import opened Bytes

  type Digest = d: Bytes | |d| == 32 witness seq(32, _ => 0)
  type Mac = (Bytes, Bytes) -> Digest

  // ---------- the command payload ----------

  datatype Command = Command(action: int32, ip: Bytes, duration: int64, reason: Bytes,
                             blockId: Bytes, blockType: int32, issuedAt: int64) {
    /** Every string has a length that the 32-bit prefix can hold. */
    predicate Fits() {
      |ip| < UINT32_SIZE && |reason| < UINT32_SIZE && |blockId| < UINT32_SIZE
    }
  }

  /** A length prefix and the bytes. */
  function Field(s: Bytes): Bytes {
    BigEndian(|s|, 4) + s
  }

  function BuildCanonicalPayload(c: Command): (buf: Bytes) {
    BigEndian(c.action, 4) + (Field(c.ip) + (BigEndian(c.duration, 8) + (Field(c.reason)
      + (Field(c.blockId) + (BigEndian(c.blockType, 4) + BigEndian(c.issuedAt, 8))))))
  }

  function TakeInt(bs: Bytes, width: nat): (r: Option<(int, Bytes)>)
    requires width > 0
  {
    if |bs| < width then None else Some((Signed(bs[..width]), bs[width..]))
  }

  function TakeField(bs: Bytes): (r: Option<(Bytes, Bytes)>) {
    if |bs| < 4 then None
    else
      var n := Unsigned(bs[..4]);
      if |bs| - 4 < n then None else Some((bs[4..4 + n], bs[4 + n..]))
  }

  datatype Decoded = Decoded(action: int, ip: Bytes, duration: int, reason: Bytes, blockId: Bytes,
                             blockType: int, issuedAt: int, rest: Bytes)

  /** Reads one payload off the front of `bs`. */
  function DecodeCanonical(bs: Bytes): (r: Option<Decoded>) {
    match TakeInt(bs, 4) case None => None case Some((action, b1)) =>
    match TakeField(b1) case None => None case Some((ip, b2)) =>
    match TakeInt(b2, 8) case None => None case Some((duration, b3)) =>
    match TakeField(b3) case None => None case Some((reason, b4)) =>
    match TakeField(b4) case None => None case Some((blockId, b5)) =>
    match TakeInt(b5, 4) case None => None case Some((blockType, b6)) =>
    match TakeInt(b6, 8) case None => None case Some((issuedAt, b7)) =>
      Some(Decoded(action, ip, duration, reason, blockId, blockType, issuedAt, b7))
  }

  lemma TakeInt32(x: int32, rest: Bytes)
    ensures TakeInt(BigEndian(x, 4) + rest, 4) == Some((x as int, rest))
  {
    Int32RoundTrip(x);
    var bs := BigEndian(x, 4) + rest;
    assert bs[..4] == BigEndian(x, 4) && bs[4..] == rest;
  }

  lemma TakeInt64(x: int64, rest: Bytes)
    ensures TakeInt(BigEndian(x, 8) + rest, 8) == Some((x as int, rest))
  {
    Int64RoundTrip(x);
    var bs := BigEndian(x, 8) + rest;
    assert bs[..8] == BigEndian(x, 8) && bs[8..] == rest;
  }

  lemma TakeOneField(s: Bytes, rest: Bytes)
    requires |s| < UINT32_SIZE
    ensures TakeField(Field(s) + rest) == Some((s, rest))
  {
    LengthRoundTrip(|s|);
    var bs := Field(s) + rest;
    assert bs[..4] == BigEndian(|s|, 4);
    assert bs[4..4 + |s|] == s && bs[4 + |s|..] == rest;
  }

  lemma Assoc(a: Bytes, b: Bytes, c: Bytes)
    ensures (a + b) + c == a + (b + c)
  {
  }

  /** The decoder recovers all seven fields, negative numbers included, and leaves
      exactly what follows the payload. */
  lemma CanonicalRoundTrip(c: Command, rest: Bytes)
    requires c.Fits()
    ensures DecodeCanonical(BuildCanonicalPayload(c) + rest)
            == Some(Decoded(c.action, c.ip, c.duration, c.reason, c.blockId, c.blockType, c.issuedAt, rest))
  {
    hide TakeInt, TakeField, Field, BigEndian;
    var b7 := rest;
    var p6 := BigEndian(c.issuedAt, 8);
    var p5 := BigEndian(c.blockType, 4) + p6;
    var p4 := Field(c.blockId) + p5;
    var p3 := Field(c.reason) + p4;
    var p2 := BigEndian(c.duration, 8) + p3;
    var p1 := Field(c.ip) + p2;
    Assoc(BigEndian(c.action, 4), p1, rest);
    TakeInt32(c.action, p1 + rest);
    Assoc(Field(c.ip), p2, rest);
    TakeOneField(c.ip, p2 + rest);
    Assoc(BigEndian(c.duration, 8), p3, rest);
    TakeInt64(c.duration, p3 + rest);
    Assoc(Field(c.reason), p4, rest);
    TakeOneField(c.reason, p4 + rest);
    Assoc(Field(c.blockId), p5, rest);
    TakeOneField(c.blockId, p5 + rest);
    Assoc(BigEndian(c.blockType, 4), p6, rest);
    TakeInt32(c.blockType, p6 + rest);
    TakeInt64(c.issuedAt, rest);
  }

  /** No payload is a prefix of the payload of another command. */
  lemma CanonicalPrefixFree(c: Command, d: Command)
    requires c.Fits() && d.Fits() && BuildCanonicalPayload(c) <= BuildCanonicalPayload(d)
    ensures c == d
  {
    hide BuildCanonicalPayload, DecodeCanonical;
    var p, q := BuildCanonicalPayload(c), BuildCanonicalPayload(d);
    CanonicalRoundTrip(c, q[|p|..]);
    CanonicalRoundTrip(d, []);
    assert p + q[|p|..] == q && q + [] == q;
  }

  // ---------- the block list payload ----------

  datatype BlockListEntry = BlockListEntry(ip: Bytes, duration: int64, reason: Bytes, blockType: int32,
                                           expiresAt: int64) {
    /** What the separators of the format leave unambiguous. */
    predicate Clean() {
      Allowed(false, false, false)
    }

    /** Clean, but for what is let in: NUL bytes in the address, newlines in the reason, or
        types wider than a byte. */
    predicate Allowed(nuls: bool, newlines: bool, wideTypes: bool) {
      (nuls || 0 !in ip) && (newlines || 10 !in reason) && (wideTypes || 0 <= blockType < 256)
    }
  }

  const NUL: byte := 0
  const NEWLINE: byte := 10

  /** What follows the address in an entry. */
  function Tail(e: BlockListEntry): Bytes {
    [NUL] + ([e.blockType % 256] + ([NUL] + (BigEndian(e.duration, 8)
      + ([NUL] + (BigEndian(e.expiresAt, 8) + ([NUL] + e.reason))))))
  }

  function EntryBytes(e: BlockListEntry): (bs: Bytes)
    ensures bs != []
  {
    e.ip + Tail(e)
  }

  function JoinEntries(es: seq<BlockListEntry>): (bs: Bytes)
    ensures es != [] ==> bs != []
  {
    if es == [] then []
    else if |es| == 1 then EntryBytes(es[0])
    else EntryBytes(es[0]) + ([NEWLINE] + JoinEntries(es[1..]))
  }

  lemma {:induction false} JoinOneMore(es: seq<BlockListEntry>, e: BlockListEntry)
    ensures JoinEntries(es + [e]) == if es == [] then EntryBytes(e) else JoinEntries(es) + ([NEWLINE] + EntryBytes(e))
  {
    hide EntryBytes;
    if es == [] {
      assert es + [e] == [e];
    } else {
      assert (es + [e])[1..] == es[1..] + [e];
      JoinOneMore(es[1..], e);
    }
  }

  lemma JoinNext(entries: seq<BlockListEntry>, i: nat)
    requires i < |entries|
    ensures JoinEntries(entries[..i + 1])
            == (if i > 0 then JoinEntries(entries[..i]) + [NEWLINE] else JoinEntries(entries[..i]))
               + EntryBytes(entries[i])
  {
    hide JoinEntries, EntryBytes;
    assert entries[..i + 1] == entries[..i] + [entries[i]];
    JoinOneMore(entries[..i], entries[i]);
    if i > 0 {
      Assoc(JoinEntries(entries[..i]), [NEWLINE], EntryBytes(entries[i]));
    } else {
      JoinNone();
      assert [] + EntryBytes(entries[0]) == EntryBytes(entries[0]);
    }
  }

  method BuildBlockListPayload(entries: seq<BlockListEntry>) returns (buf: Bytes)
    ensures buf == JoinEntries(entries)
  {
    hide JoinEntries, EntryBytes;
    buf := [];
    JoinNone();
    for i := 0 to |entries|
      invariant buf == JoinEntries(entries[..i])
    {
      JoinNext(entries, i);
      if i > 0 {
        buf := buf + [NEWLINE];
      }
      buf := AppendEntry(buf, entries[i]);
    }
    assert entries[..|entries|] == entries;
  }

  lemma JoinNone()
    ensures JoinEntries([]) == []
  {
  }

  method AppendEntry(start: Bytes, e: BlockListEntry) returns (buf: Bytes)
    ensures buf == start + EntryBytes(e)
  {
    hide BigEndian;
    buf := start + e.ip;
    buf := buf + [NUL];
    buf := buf + [e.blockType % 256];
    buf := buf + [NUL];
    buf := buf + BigEndian(e.duration, 8);
    buf := buf + [NUL];
    buf := buf + BigEndian(e.expiresAt, 8);
    buf := buf + [NUL];
    buf := buf + e.reason;
  }

  /** Splits at the first `stop`; the second part starts with it, or is empty. */
  function SplitAt(bs: Bytes, stop: byte): (r: (Bytes, Bytes))
    ensures r.0 + r.1 == bs && stop !in r.0
    ensures r.1 != [] ==> r.1[0] == stop
  {
    if bs == [] then ([], [])
    else if bs[0] == stop then ([], bs)
    else
      var (a, b) := SplitAt(bs[1..], stop);
      ([bs[0]] + a, b)
  }

  lemma {:induction false} SplitUnique(a: Bytes, b: Bytes, stop: byte)
    requires stop !in a && (b != [] ==> b[0] == stop)
    ensures SplitAt(a + b, stop) == (a, b)
  {
    if a == [] {
      assert a + b == b;
    } else {
      assert (a + b)[1..] == a[1..] + b;
      SplitUnique(a[1..], b, stop);
      assert [a[0]] + a[1..] == a;
    }
  }

  function TakeNul(bs: Bytes): (r: Option<Bytes>) {
    if bs != [] && bs[0] == NUL then Some(bs[1..]) else None
  }

  function TakeByte(bs: Bytes): (r: Option<(byte, Bytes)>) {
    if bs == [] then None else Some((bs[0], bs[1..]))
  }

  /** Reads one entry and returns what follows it: nothing, or a newline and more. */
  function DecodeEntry(bs: Bytes): (r: Option<(BlockListEntry, Bytes)>)
    ensures r.Some? ==> |r.value.1| < |bs| && (r.value.1 != [] ==> r.value.1[0] == NEWLINE)
    ensures r.Some? ==> r.value.0.Clean()
  {
    HalfOf32And64();
    var (ip, b1) := SplitAt(bs, NUL);
    match TakeNul(b1) case None => None case Some(b2) =>
    match TakeByte(b2) case None => None case Some((blockType, b3)) =>
    match TakeNul(b3) case None => None case Some(b4) =>
    match TakeInt(b4, 8) case None => None case Some((duration, b5)) =>
    match TakeNul(b5) case None => None case Some(b6) =>
    match TakeInt(b6, 8) case None => None case Some((expiresAt, b7)) =>
    match TakeNul(b7) case None => None case Some(b8) =>
      SignedInRange(b4[..8]);
      SignedInRange(b6[..8]);
      var (reason, b9) := SplitAt(b8, NEWLINE);
      Some((BlockListEntry(ip, duration, reason, blockType, expiresAt), b9))
  }

  function DecodeEntries(bs: Bytes): (r: Option<seq<BlockListEntry>>)
    ensures r.Some? ==> forall e | e in r.value :: e.Clean()
    decreases |bs|
  {
    var first := DecodeEntry(bs);
    if first == None then None
    else
      var (e, rest) := first.value;
      if rest == [] then Some([e])
      else
        match DecodeEntries(rest[1..])
        case None => None
        case Some(es) => Some([e] + es)
  }

  function DecodeBlockList(bs: Bytes): (r: Option<seq<BlockListEntry>>)
    ensures r.Some? ==> forall e | e in r.value :: e.Clean()
  {
    if bs == [] then Some([]) else DecodeEntries(bs)
  }

  lemma TakeNulFront(rest: Bytes)
    ensures TakeNul([NUL] + rest) == Some(rest)
  {
    assert ([NUL] + rest)[1..] == rest;
  }

  lemma TakeByteFront(b: byte, rest: Bytes)
    ensures TakeByte([b] + rest) == Some((b, rest))
  {
    assert ([b] + rest)[1..] == rest;
  }

  lemma EntryRoundTrip(e: BlockListEntry, rest: Bytes)
    requires e.Clean() && (rest != [] ==> rest[0] == NEWLINE)
    ensures DecodeEntry(EntryBytes(e) + rest) == Some((e, rest))
  {
    hide SplitAt, TakeNul, TakeByte, TakeInt, BigEndian;
    var p8 := e.reason;
    var p7 := [NUL] + p8;
    var p6 := BigEndian(e.expiresAt, 8) + p7;
    var p5 := [NUL] + p6;
    var p4 := BigEndian(e.duration, 8) + p5;
    var p3 := [NUL] + p4;
    var p2 := [e.blockType] + p3;
    var p1 := [NUL] + p2;
    Assoc(e.ip, p1, rest);
    Assoc([NUL], p2, rest);
    SplitUnique(e.ip, [NUL] + (p2 + rest), NUL);
    TakeNulFront(p2 + rest);
    Assoc([e.blockType], p3, rest);
    TakeByteFront(e.blockType, p3 + rest);
    Assoc([NUL], p4, rest);
    TakeNulFront(p4 + rest);
    Assoc(BigEndian(e.duration, 8), p5, rest);
    TakeInt64(e.duration, p5 + rest);
    Assoc([NUL], p6, rest);
    TakeNulFront(p6 + rest);
    Assoc(BigEndian(e.expiresAt, 8), p7, rest);
    TakeInt64(e.expiresAt, p7 + rest);
    Assoc([NUL], p8, rest);
    TakeNulFront(p8 + rest);
    SplitUnique(e.reason, rest, NEWLINE);
  }

  lemma {:induction false} EntriesRoundTrip(es: seq<BlockListEntry>)
    requires es != [] && forall e | e in es :: e.Clean()
    ensures DecodeEntries(JoinEntries(es)) == Some(es)
  {
    hide EntryBytes, DecodeEntry;
    if |es| == 1 {
      EntryRoundTrip(es[0], []);
      assert EntryBytes(es[0]) + [] == EntryBytes(es[0]);
      assert es == [es[0]];
    } else {
      var more := [NEWLINE] + JoinEntries(es[1..]);
      EntriesRoundTrip(es[1..]);
      EntryRoundTrip(es[0], more);
      assert more[1..] == JoinEntries(es[1..]);
      assert es == [es[0]] + es[1..];
    }
  }

  /** The decoder recovers a list of any length exactly when every entry is clean. */
  lemma BlockListRoundTrip(es: seq<BlockListEntry>)
    ensures DecodeBlockList(JoinEntries(es)) == Some(es) <==> forall e | e in es :: e.Clean()
  {
    hide JoinEntries, DecodeEntries;
    if es == [] {
      JoinNone();
    } else if forall e | e in es :: e.Clean() {
      EntriesRoundTrip(es);
    }
  }

  lemma BlockListInjective(es: seq<BlockListEntry>, fs: seq<BlockListEntry>)
    requires (forall e | e in es :: e.Clean()) && (forall e | e in fs :: e.Clean())
    requires JoinEntries(es) == JoinEntries(fs)
    ensures es == fs
  {
    BlockListRoundTrip(es);
    BlockListRoundTrip(fs);
  }

  // ---------- lists and commands ----------

  lemma FirstByte(x: int)
    ensures BigEndian(x, 4)[0] == x / 0x100_0000 % 256
  {
    assert BigEndian(x, 4) == BigEndian(x / 256, 3) + [x % 256];
    assert BigEndian(x / 256, 3) == BigEndian(x / 256 / 256, 2) + [x / 256 % 256];
    assert BigEndian(x / 256 / 256, 2) == BigEndian(x / 256 / 256 / 256, 1) + [x / 256 / 256 % 256];
    assert BigEndian(x / 256 / 256 / 256, 1) == [] + [x / 256 / 256 / 256 % 256];
    assert x / 256 / 256 / 256 == x / 0x100_0000;
  }

  /** A command starts with the high byte of its action code, a list with an address. */
  lemma ListIsNoCommand(c: Command, es: seq<BlockListEntry>)
    requires 0 <= c.action < 0x100_0000
    requires forall e | e in es :: e.ip != [] && e.ip[0] != NUL
    ensures BuildCanonicalPayload(c) != JoinEntries(es)
  {
    hide BuildCanonicalPayload, JoinEntries;
    CommandStart(c);
    if es == [] {
      JoinNone();
    } else {
      ListStart(es);
    }
  }

  lemma CommandStart(c: Command)
    ensures var p := BuildCanonicalPayload(c); p != [] && p[0] == c.action / 0x100_0000 % 256
  {
    FirstByte(c.action);
    hide BigEndian, Field;
  }

  lemma ListStart(es: seq<BlockListEntry>)
    requires es != [] && es[0].ip != []
    ensures JoinEntries(es) != [] && JoinEntries(es)[0] == es[0].ip[0]
  {
    hide Tail;
  }

  // ---------- ambiguous lists ----------

  /** Entry `b` inside the reason of entry `a` reads like both entries. */
  lemma HiddenEntry(a: BlockListEntry, b: BlockListEntry)
    ensures JoinEntries([a.(reason := a.reason + ([NEWLINE] + EntryBytes(b)))]) == JoinEntries([a, b])
  {
    hide BigEndian;
    ReasonIsLast(a, [NEWLINE] + EntryBytes(b));
    assert [a, b][1..] == [b];
  }

  lemma ReasonIsLast(a: BlockListEntry, more: Bytes)
    ensures EntryBytes(a.(reason := a.reason + more)) == EntryBytes(a) + more
  {
    hide BigEndian;
    Assoc(a.ip, Tail(a), more);
    Assoc([NUL], [a.blockType % 256] + ([NUL] + (BigEndian(a.duration, 8)
      + ([NUL] + (BigEndian(a.expiresAt, 8) + ([NUL] + a.reason))))), more);
  }

  /** An address that holds a whole entry reads like that entry with a longer reason. */
  lemma HiddenAddress(a: BlockListEntry, b: BlockListEntry)
    ensures EntryBytes(b.(ip := EntryBytes(a))) == EntryBytes(a.(reason := a.reason + Tail(b)))
  {
    hide BigEndian;
    ReasonIsLast(a, Tail(b));
  }

  /** Only the low byte of the type is written. */
  lemma HiddenType(e: BlockListEntry, blockType: int32)
    requires blockType % 256 == e.blockType % 256
    ensures EntryBytes(e.(blockType := blockType)) == EntryBytes(e)
  {
    hide BigEndian;
  }

  lemma {:induction false} ZeroBytes(width: nat)
    ensures forall b | b in BigEndian(0, width) :: b == 0
  {
    if width > 0 { ZeroBytes(width - 1); }
  }

  ghost predicate Ambiguous(es: seq<BlockListEntry>, fs: seq<BlockListEntry>) {
    es != fs && JoinEntries(es) == JoinEntries(fs)
  }

  ghost predicate AllAllowed(es: seq<BlockListEntry>, nuls: bool, newlines: bool, wideTypes: bool) {
    forall e | e in es :: e.Allowed(nuls, newlines, wideTypes)
  }

  /** Two different lists with the same payload, as soon as one of the three is let in. */
  lemma AmbiguousLists(nuls: bool, newlines: bool, wideTypes: bool)
    returns (es: seq<BlockListEntry>, fs: seq<BlockListEntry>)
    requires nuls || newlines || wideTypes
    ensures AllAllowed(es, nuls, newlines, wideTypes) && AllAllowed(fs, nuls, newlines, wideTypes) && Ambiguous(es, fs)
  {
    hide BigEndian, EntryBytes;
    var zero := BlockListEntry([], 0, [], 0, 0);
    if nuls {
      ZeroBytes(8);
      es, fs := [zero.(ip := EntryBytes(zero))], [zero.(reason := zero.reason + Tail(zero))];
      HiddenAddress(zero, zero);
      assert EntryBytes(zero) != [];
    } else if newlines {
      es, fs := [zero.(reason := zero.reason + ([NEWLINE] + EntryBytes(zero)))], [zero, zero];
      HiddenEntry(zero, zero);
    } else {
      es, fs := [zero.(blockType := 256)], [zero];
      HiddenType(zero, 256);
      assert es[0].blockType != fs[0].blockType;
    }
  }

  /** The payload determines the list exactly when none of the three is let in. */
  lemma UnambiguousIffClean(nuls: bool, newlines: bool, wideTypes: bool)
    ensures (forall es, fs | AllAllowed(es, nuls, newlines, wideTypes) && AllAllowed(fs, nuls, newlines, wideTypes) ::
               !Ambiguous(es, fs))
            <==> !nuls && !newlines && !wideTypes
  {
    if nuls || newlines || wideTypes {
      var es, fs := AmbiguousLists(nuls, newlines, wideTypes);
    } else {
      forall es, fs | AllAllowed(es, nuls, newlines, wideTypes) && AllAllowed(fs, nuls, newlines, wideTypes)
        ensures !Ambiguous(es, fs)
      {
        hide JoinEntries;
        if Ambiguous(es, fs) {
          BlockListInjective(es, fs);
        }
      }
    }
  }

  // ---------- signatures ----------

  datatype VerifyResult = Accepted | MissingNonce | InvalidSignature

  /** What is hashed: the nonce, then the payload. */
  function Message(nonce: int64, payload: Bytes): Bytes {
    BigEndian(nonce, 8) + payload
  }

  function Sign(mac: Mac, key: Bytes, nonce: int64, payload: Bytes): Digest {
    mac(key, Message(nonce, payload))
  }

  function Verify(mac: Mac, key: Bytes, nonce: int64, payload: Bytes, signature: Bytes): VerifyResult {
    if |signature| == 0 then MissingNonce
    else if nonce <= 0 then MissingNonce
    else if Sign(mac, key, nonce, payload) != signature then InvalidSignature
    else Accepted
  }

  /** Whatever is presented as a signature: it is accepted exactly when the nonce is positive
      and it is the digest of the nonce followed by the payload. */
  lemma OnlyTheDigestIsAccepted(mac: Mac, key: Bytes, nonce: int64, payload: Bytes, signature: Bytes)
    ensures Verify(mac, key, nonce, payload, signature) == Accepted
            <==> nonce > 0 && signature == mac(key, BigEndian(nonce, 8) + payload)
  {
    hide BigEndian;
  }

  /** Two different messages with one digest. */
  predicate Collide(mac: Mac, key: Bytes, m: Bytes, n: Bytes) {
    m != n && mac(key, m) == mac(key, n)
  }

  lemma MessageInjective(nonce: int64, p: Bytes, other: int64, q: Bytes)
    requires Message(nonce, p) == Message(other, q)
    ensures nonce == other && p == q
  {
    hide BigEndian;
    var a, b := BigEndian(nonce, 8), BigEndian(other, 8);
    assert (a + p)[..8] == a && (a + p)[8..] == p;
    assert (b + q)[..8] == b && (b + q)[8..] == q;
    Int64RoundTrip(nonce);
    Int64RoundTrip(other);
  }

  /** A signature is accepted for its own nonce and command and, unless the digest of
      the two messages collides, for no other. */
  lemma SignatureBinds(mac: Mac, key: Bytes, nonce: int64, c: Command, signedNonce: int64, signed: Command)
    requires c.Fits() && signed.Fits()
    requires !Collide(mac, key, Message(nonce, BuildCanonicalPayload(c)),
                      Message(signedNonce, BuildCanonicalPayload(signed)))
    ensures Verify(mac, key, nonce, BuildCanonicalPayload(c),
                   Sign(mac, key, signedNonce, BuildCanonicalPayload(signed))) == Accepted
            <==> nonce > 0 && nonce == signedNonce && c == signed
  {
    hide BuildCanonicalPayload, Message;
    var p, q := BuildCanonicalPayload(c), BuildCanonicalPayload(signed);
    if Message(nonce, p) == Message(signedNonce, q) {
      MessageInjective(nonce, p, signedNonce, q);
      CanonicalPrefixFree(c, signed);
    }
  }

  /** Lists and commands share key and nonces, but the signature of a list never passes for a
      command with the same or another nonce, nor the other way round, unless two different
      messages collide. */
  lemma SignaturesDoNotCross(mac: Mac, key: Bytes, nonce: int64, c: Command, signedNonce: int64,
                             es: seq<BlockListEntry>)
    requires 0 <= c.action < 0x100_0000
    requires forall e | e in es :: e.ip != [] && e.ip[0] != NUL
    requires !Collide(mac, key, Message(nonce, BuildCanonicalPayload(c)), Message(signedNonce, JoinEntries(es)))
    ensures Verify(mac, key, nonce, BuildCanonicalPayload(c), Sign(mac, key, signedNonce, JoinEntries(es))) != Accepted
    ensures Verify(mac, key, signedNonce, JoinEntries(es), Sign(mac, key, nonce, BuildCanonicalPayload(c))) != Accepted
  {
    hide BuildCanonicalPayload, JoinEntries, BigEndian;
    ListIsNoCommand(c, es);
    if Message(nonce, BuildCanonicalPayload(c)) == Message(signedNonce, JoinEntries(es)) {
      MessageInjective(nonce, BuildCanonicalPayload(c), signedNonce, JoinEntries(es));
    }
  }
}
