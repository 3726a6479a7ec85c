/** From the command map of the backend, over the stream, to the agent's checks.

    The backend signs a map, the stream handler re-reads the map into a protobuf command,
    and the agent rebuilds the signed bytes from that command. */
module CommandProtocol {
  import opened Options
  import opened Bytes
  import opened CmdSigning

  // ---------- the command map ----------

  datatype Key = Action | Ip | Duration | Reason | BlockId | BlockType | Signature | Nonce | IssuedAt
  datatype Value = Str(s: Bytes) | Int64(n: int64) | Blob(b: Bytes)
  type CommandMap = map<Key, Value>

  const BLOCK: Bytes := [98, 108, 111, 99, 107]
  const UNBLOCK: Bytes := [117, 110, 98, 108, 111, 99, 107]
  const RATELIMIT: Bytes := [114, 97, 116, 101, 108, 105, 109, 105, 116]
  const BLOCKLIST: Bytes := [98, 108, 111, 99, 107, 108, 105, 115, 116]
  const CIDR: Bytes := [99, 105, 100, 114]

  /** A type assertion to string whose failure gives the empty string. */
  function StrOf(m: CommandMap, k: Key): Bytes {
    if k in m && m[k].Str? then m[k].s else []
  }

  function Int64Of(m: CommandMap, k: Key): int64 {
    if k in m && m[k].Int64? then m[k].n else 0
  }

  function ActionCode(action: Bytes): int32 {
    if action == UNBLOCK then 1 else if action == RATELIMIT then 2 else 0
  }

  function BlockTypeCode(blockType: Bytes): int32 {
    if blockType == BLOCKLIST then 1 else if blockType == RATELIMIT then 2 else if blockType == CIDR then 3 else 0
  }

  /** What signing reads from a map. */
  function SignedFields(m: CommandMap, issuedAt: int64): Command {
    Command(ActionCode(StrOf(m, Action)), StrOf(m, Ip), Int64Of(m, Duration), StrOf(m, Reason),
            StrOf(m, BlockId), BlockTypeCode(StrOf(m, BlockType)), issuedAt)
  }

  function Stamp(m: CommandMap, signature: Bytes, nonce: int64, issuedAt: int64): CommandMap {
    m[Signature := Blob(signature)][Nonce := Str(FormatInt(nonce))][IssuedAt := Str(FormatInt(issuedAt))]
  }

  function SignCommand(mac: Mac, key: Bytes, m: CommandMap, nonce: int64, issuedAt: int64): CommandMap {
    if key == [] then m
    else Stamp(m, Sign(mac, key, nonce, BuildCanonicalPayload(SignedFields(m, issuedAt))), nonce, issuedAt)
  }

  /** The map of a new enforcement. */
  function BlockMap(ip: Bytes, duration: int64, reason: Bytes, blockType: Bytes, blockId: Bytes): CommandMap {
    map[Action := Str(if blockType == RATELIMIT then RATELIMIT else BLOCK), Ip := Str(ip), Duration := Int64(duration),
        Reason := Str(reason), BlockId := Str(blockId), BlockType := Str(blockType)]
  }

  /** The map of an unblock by the block manager: no block type, no duration. */
  function UnblockMap(ip: Bytes, reason: Bytes): CommandMap {
    map[Action := Str(UNBLOCK), Ip := Str(ip), Reason := Str(reason)]
  }

  /** The map of a command sent by the API handlers. */
  function HubMap(action: Bytes, ip: Bytes, reason: Bytes, blockType: Bytes, duration: int64): CommandMap {
    var m := map[Action := Str(action), Ip := Str(ip), Reason := Str(reason), BlockType := Str(blockType)];
    if duration > 0 then m[Duration := Int64(duration)] else m
  }

  /** The handlers sign their arguments, not the map they fill. */
  function HubFields(action: Bytes, ip: Bytes, reason: Bytes, blockType: Bytes, duration: int64,
                     issuedAt: int64): Command {
    Command(ActionCode(action), ip, duration, reason, [], BlockTypeCode(blockType), issuedAt)
  }

  method SignHubCommand(mac: Mac, key: Bytes, action: Bytes, ip: Bytes, reason: Bytes, blockType: Bytes,
                        duration: int64, nonce: int64, issuedAt: int64)
    returns (cmd: CommandMap)
    ensures key == [] ==> cmd == HubMap(action, ip, reason, blockType, duration)
    ensures key != [] ==>
      cmd == Stamp(HubMap(action, ip, reason, blockType, duration),
                   Sign(mac, key, nonce,
                        BuildCanonicalPayload(HubFields(action, ip, reason, blockType, duration, issuedAt))),
                   nonce, issuedAt)
  {
    hide BuildCanonicalPayload, FormatInt;
    cmd := map[Action := Str(action), Ip := Str(ip), Reason := Str(reason), BlockType := Str(blockType)];
    if duration > 0 {
      cmd := cmd[Duration := Int64(duration)];
    }
    if key != [] {
      var actionCode: int32 := 0;
      if action == UNBLOCK {
        actionCode := 1;
      } else if action == RATELIMIT {
        actionCode := 2;
      }
      var blockTypeCode: int32 := 0;
      if blockType == BLOCKLIST {
        blockTypeCode := 1;
      } else if blockType == RATELIMIT {
        blockTypeCode := 2;
      } else if blockType == CIDR {
        blockTypeCode := 3;
      }
      var payload := BuildCanonicalPayload(Command(actionCode, ip, duration, reason, [], blockTypeCode, issuedAt));
      cmd := cmd[Signature := Blob(Sign(mac, key, nonce, payload))];
      cmd := cmd[Nonce := Str(FormatInt(nonce))];
      cmd := cmd[IssuedAt := Str(FormatInt(issuedAt))];
    }
  }

  // ---------- the stream ----------

  /** Seconds and nanoseconds of a protobuf timestamp. */
  datatype Timestamp = Timestamp(seconds: int, nanos: int)

  function ToTimestamp(unixNano: int): Timestamp {
    Timestamp(unixNano / 1_000_000_000, unixNano % 1_000_000_000)
  }

  /** 64-bit wrap-around. */
  function Wrap64(x: int): int64 {
    (x + INT64_HALF) % (2 * INT64_HALF) - INT64_HALF
  }

  function UnixNano(t: Timestamp): int64 {
    Wrap64(t.seconds * 1_000_000_000 + t.nanos)
  }

  lemma TimestampRoundTrip(n: int64)
    ensures UnixNano(ToTimestamp(n)) == n
  {
  }

  datatype PbCommand = PbCommand(action: int32, ip: Bytes, duration: int64, reason: Bytes, blockId: Bytes,
                                 blockType: int32, issuedAt: Option<Timestamp>, signature: Bytes, nonce: int64)

  function StreamedAction(m: CommandMap): int32 {
    var action := ActionCode(StrOf(m, Action));
    if StrOf(m, BlockType) == RATELIMIT && action == 0 then 2 else action
  }

  function StreamedBlockType(m: CommandMap): int32 {
    if StrOf(m, BlockType) == RATELIMIT then 2 else if StrOf(m, BlockType) == CIDR then 3 else 1
  }

  function ParsedOr(m: CommandMap, k: Key, default: int64): int64 {
    if k in m && m[k].Str? && ParseInt64(m[k].s).Some? then ParseInt64(m[k].s).value else default
  }

  /** The command the stream handler sends for a map; a map without an IP is skipped. */
  function Streamed(m: CommandMap, now: int64): (r: Option<PbCommand>) {
    if StrOf(m, Ip) == [] then None
    else
      Some(PbCommand(StreamedAction(m), StrOf(m, Ip), Int64Of(m, Duration), StrOf(m, Reason), StrOf(m, BlockId),
                     StreamedBlockType(m), Some(ToTimestamp(ParsedOr(m, IssuedAt, now))),
                     if Signature in m && m[Signature].Blob? then m[Signature].b else [],
                     ParsedOr(m, Nonce, 0)))
  }

  method StreamCommand(cmd: CommandMap, now: int64) returns (sent: Option<PbCommand>)
    ensures sent == Streamed(cmd, now)
  {
    hide ParseInt64;
    var action: int32 := 0;
    if Action in cmd && cmd[Action] == Str(UNBLOCK) {
      action := 1;
    } else if Action in cmd && cmd[Action] == Str(RATELIMIT) {
      action := 2;
    }
    assert action == ActionCode(StrOf(cmd, Action));
    var blockType: int32 := 1;
    if BlockType in cmd && cmd[BlockType].Str? {
      if cmd[BlockType].s == RATELIMIT {
        blockType := 2;
        if action == 0 {
          action := 2;
        }
      } else if cmd[BlockType].s == CIDR {
        blockType := 3;
      }
    }
    assert action == StreamedAction(cmd) && blockType == StreamedBlockType(cmd);
    var duration: int64 := 0;
    if Duration in cmd && cmd[Duration].Int64? {
      duration := cmd[Duration].n;
    }
    if !(Ip in cmd && cmd[Ip].Str?) || cmd[Ip].s == [] {
      return None;
    }
    var signature: Bytes := [];
    if Signature in cmd && cmd[Signature].Blob? {
      signature := cmd[Signature].b;
    }
    var nonce: int64 := 0;
    if Nonce in cmd && cmd[Nonce].Str? {
      var n := ParseInt64(cmd[Nonce].s);
      if n.Some? {
        nonce := n.value;
      }
    }
    assert nonce == ParsedOr(cmd, Nonce, 0);
    var issuedAt := now;
    if IssuedAt in cmd && cmd[IssuedAt].Str? {
      var n := ParseInt64(cmd[IssuedAt].s);
      if n.Some? {
        issuedAt := n.value;
      }
    }
    assert issuedAt == ParsedOr(cmd, IssuedAt, now);
    return Some(PbCommand(action, cmd[Ip].s, duration, StrOf(cmd, Reason), StrOf(cmd, BlockId),
                          blockType, Some(ToTimestamp(issuedAt)), signature, nonce));
  }

  // ---------- the agent's checks ----------

  /** The fields the agent rebuilds the signed bytes from. */
  function RebuiltFields(cmd: PbCommand): Command {
    Command(cmd.action, cmd.ip, cmd.duration, cmd.reason, cmd.blockId, cmd.blockType,
            match cmd.issuedAt case Some(t) => UnixNano(t) case None => 0)
  }

  datatype Verdict = Valid | NoKey | Unsigned | Replayed | Expired | FromTheFuture | BadSignature

  const MAX_AGE: int := 300_000_000_000

  function CheckCommand(mac: Mac, key: Bytes, lastSeen: int64, cmd: PbCommand, now: int): Verdict {
    if key == [] then NoKey
    else if cmd.nonce <= 0 || cmd.signature == [] then Unsigned
    else if cmd.nonce <= lastSeen then Replayed
    else if cmd.issuedAt.Some? && now - InstantOf(cmd.issuedAt.value) > MAX_AGE then Expired
    else if cmd.issuedAt.Some? && now - InstantOf(cmd.issuedAt.value) < -MAX_AGE then FromTheFuture
    else if Verify(mac, key, cmd.nonce, BuildCanonicalPayload(RebuiltFields(cmd)), cmd.signature) != Accepted then
      BadSignature
    else Valid
  }

  function InstantOf(t: Timestamp): int {
    t.seconds * 1_000_000_000 + t.nanos
  }

  /** The rest of the checks pass. */
  predicate Fresh(lastSeen: int64, nonce: int64, issuedAt: int64, now: int) {
    nonce > 0 && nonce > lastSeen && -300_000_000_000 <= now - issuedAt <= 300_000_000_000
  }

  /** Any command whatsoever is accepted exactly when there is a key, its nonce is positive and
      above the last one, its time, if it has one, is within five minutes, and its signature is
      the digest of that nonce and its own seven fields. */
  lemma CommandIsAcceptedIff(mac: Mac, key: Bytes, lastSeen: int64, cmd: PbCommand, now: int)
    ensures var at := if cmd.issuedAt == None then now
                      else cmd.issuedAt.value.seconds * 1_000_000_000 + cmd.issuedAt.value.nanos;
            CheckCommand(mac, key, lastSeen, cmd, now) == Valid
            <==> && key != [] && cmd.nonce > 0 && cmd.nonce > lastSeen
                 && -300_000_000_000 <= now - at <= 300_000_000_000
                 && cmd.signature == mac(key, BigEndian(cmd.nonce, 8) + BuildCanonicalPayload(RebuiltFields(cmd)))
  {
    hide BuildCanonicalPayload, BigEndian;
  }

  // ---------- signed, streamed, verified ----------

  lemma StampedStream(m: CommandMap, signature: Bytes, nonce: int64, issuedAt: int64, now: int64)
    requires Streamed(m, now).Some?
    ensures var s, u := Streamed(Stamp(m, signature, nonce, issuedAt), now), Streamed(m, now).value;
            s == Some(PbCommand(u.action, u.ip, u.duration, u.reason, u.blockId, u.blockType,
                                Some(ToTimestamp(issuedAt)), signature, nonce))
  {
    hide ParseInt64, FormatInt;
    DecimalRoundTrip(nonce);
    DecimalRoundTrip(issuedAt);
  }

  /** A streamed command is accepted exactly when it is fresh and its rebuilt fields are the
      signed ones, unless the two messages collide. */
  lemma AcceptedIffFreshAndSame(mac: Mac, key: Bytes, lastSeen: int64, m: CommandMap, signed: Command, nonce: int64,
                                issuedAt: int64, streamTime: int64, now: int)
    requires key != [] && Streamed(m, streamTime).Some?
    requires signed.Fits()
    requires var cmd := Streamed(Stamp(m, Sign(mac, key, nonce, BuildCanonicalPayload(signed)), nonce, issuedAt),
                                 streamTime).value;
             RebuiltFields(cmd).Fits()
             && !Collide(mac, key, Message(nonce, BuildCanonicalPayload(RebuiltFields(cmd))),
                         Message(nonce, BuildCanonicalPayload(signed)))
    ensures var cmd := Streamed(Stamp(m, Sign(mac, key, nonce, BuildCanonicalPayload(signed)), nonce, issuedAt),
                                streamTime).value;
            var verdict := CheckCommand(mac, key, lastSeen, cmd, now);
            && (verdict == Valid <==> Fresh(lastSeen, nonce, issuedAt, now) && RebuiltFields(cmd) == signed)
            && (verdict == BadSignature <==> Fresh(lastSeen, nonce, issuedAt, now) && RebuiltFields(cmd) != signed)
  {
    hide BuildCanonicalPayload, Streamed, Stamp, Message;
    var signature := Sign(mac, key, nonce, BuildCanonicalPayload(signed));
    StampedStream(m, signature, nonce, issuedAt, streamTime);
    var cmd := Streamed(Stamp(m, signature, nonce, issuedAt), streamTime).value;
    TimestampRoundTrip(issuedAt);
    SignatureBinds(mac, key, nonce, RebuiltFields(cmd), nonce, signed);
  }

  predicate KnownBlockType(blockType: Bytes) {
    blockType == BLOCKLIST || blockType == RATELIMIT || blockType == CIDR
  }

  /** The fields the agent rebuilds from a stamped map. */
  function RebuiltFrom(m: CommandMap, signature: Bytes, nonce: int64, issuedAt: int64, now: int64): Command
    requires Streamed(Stamp(m, signature, nonce, issuedAt), now).Some?
  {
    RebuiltFields(Streamed(Stamp(m, signature, nonce, issuedAt), now).value)
  }

  lemma TypeNamesDiffer()
    ensures BLOCKLIST != RATELIMIT && CIDR != RATELIMIT && CIDR != BLOCKLIST
    ensures BLOCK != UNBLOCK && BLOCK != RATELIMIT && UNBLOCK != RATELIMIT
  {
    assert BLOCKLIST[0] != RATELIMIT[0];
  }

  /** For a new enforcement the agent rebuilds exactly the signed fields if and only if
      the block type is one of the three known names. */
  lemma BlockMapAgrees(ip: Bytes, duration: int64, reason: Bytes, blockType: Bytes, blockId: Bytes,
                       signature: Bytes, nonce: int64, issuedAt: int64, now: int64)
    requires ip != []
    ensures var m := BlockMap(ip, duration, reason, blockType, blockId);
            && Streamed(Stamp(m, signature, nonce, issuedAt), now).Some?
            && (RebuiltFrom(m, signature, nonce, issuedAt, now) == SignedFields(m, issuedAt)
                <==> KnownBlockType(blockType))
  {
    hide ParseInt64, FormatInt;
    TypeNamesDiffer();
    var m := BlockMap(ip, duration, reason, blockType, blockId);
    StampedStream(m, signature, nonce, issuedAt, now);
    TimestampRoundTrip(issuedAt);
  }

  /** For a command of the API handlers the two agree if and only if the block type is
      known, the duration is not negative, and it is not a plain block of rate-limit type. */
  lemma HubMapAgrees(action: Bytes, ip: Bytes, reason: Bytes, blockType: Bytes, duration: int64,
                     signature: Bytes, nonce: int64, issuedAt: int64, now: int64)
    requires ip != []
    ensures var m := HubMap(action, ip, reason, blockType, duration);
            && Streamed(Stamp(m, signature, nonce, issuedAt), now).Some?
            && (RebuiltFrom(m, signature, nonce, issuedAt, now)
                == HubFields(action, ip, reason, blockType, duration, issuedAt)
                <==> KnownBlockType(blockType) && duration >= 0 && !(ActionCode(action) == 0 && blockType == RATELIMIT))
  {
    hide HubMap, StrOf, Int64Of, Stamp, ToTimestamp, UnixNano, ParsedOr;
    TypeNamesDiffer();
    var m := HubMap(action, ip, reason, blockType, duration);
    HubMapReads(action, ip, reason, blockType, duration);
    StampedStream(m, signature, nonce, issuedAt, now);
    TimestampRoundTrip(issuedAt);
  }

  lemma HubMapReads(action: Bytes, ip: Bytes, reason: Bytes, blockType: Bytes, duration: int64)
    ensures var m := HubMap(action, ip, reason, blockType, duration);
            && StrOf(m, Action) == action && StrOf(m, Ip) == ip && StrOf(m, Reason) == reason
            && StrOf(m, BlockType) == blockType && StrOf(m, BlockId) == []
            && Int64Of(m, Duration) == if duration > 0 then duration else 0
  {
  }

  /** An unblock by the block manager never agrees: it is signed with block type 0 and
      streamed with block type 1. */
  lemma UnblockMapNeverAgrees(ip: Bytes, reason: Bytes, signature: Bytes, nonce: int64, issuedAt: int64, now: int64)
    requires ip != []
    ensures var m := UnblockMap(ip, reason);
            && Streamed(Stamp(m, signature, nonce, issuedAt), now).Some?
            && RebuiltFrom(m, signature, nonce, issuedAt, now) == SignedFields(m, issuedAt).(blockType := 1)
            && SignedFields(m, issuedAt).blockType == 0
  {
    hide ParseInt64, FormatInt;
    TypeNamesDiffer();
    var m := UnblockMap(ip, reason);
    StampedStream(m, signature, nonce, issuedAt, now);
    TimestampRoundTrip(issuedAt);
  }

  /** The stored fields of a protobuf command are short enough to be signed. */
  predicate ShortStrings(ip: Bytes, reason: Bytes, blockId: Bytes) {
    |ip| < UINT32_SIZE && |reason| < UINT32_SIZE && |blockId| < UINT32_SIZE
  }

  /** End to end for a new enforcement: what the backend signs and streams, the agent accepts
      exactly when nonce and age are fresh. */
  lemma EnforcementsAreAccepted(mac: Mac, key: Bytes, lastSeen: int64, ip: Bytes, duration: int64, reason: Bytes,
                                blockType: Bytes, blockId: Bytes, nonce: int64, issuedAt: int64, streamTime: int64,
                                now: int)
    requires key != [] && ip != [] && KnownBlockType(blockType)
    ensures var m := BlockMap(ip, duration, reason, blockType, blockId);
            var sent := Streamed(SignCommand(mac, key, m, nonce, issuedAt), streamTime);
            && sent.Some?
            && (CheckCommand(mac, key, lastSeen, sent.value, now) == Valid <==> Fresh(lastSeen, nonce, issuedAt, now))
  {
    hide BuildCanonicalPayload, Streamed, Stamp, Message, BlockMap, SignedFields;
    var m := BlockMap(ip, duration, reason, blockType, blockId);
    var signed := SignedFields(m, issuedAt);
    var signature := Sign(mac, key, nonce, BuildCanonicalPayload(signed));
    BlockMapAgrees(ip, duration, reason, blockType, blockId, signature, nonce, issuedAt, streamTime);
    AgreeingIsAccepted(mac, key, lastSeen, m, signed, nonce, issuedAt, streamTime, now);
  }

  lemma AgreeingIsAccepted(mac: Mac, key: Bytes, lastSeen: int64, m: CommandMap, signed: Command, nonce: int64,
                           issuedAt: int64, streamTime: int64, now: int)
    requires key != []
    requires var signature := Sign(mac, key, nonce, BuildCanonicalPayload(signed));
             && Streamed(Stamp(m, signature, nonce, issuedAt), streamTime).Some?
             && RebuiltFrom(m, signature, nonce, issuedAt, streamTime) == signed
    ensures var cmd := Streamed(Stamp(m, Sign(mac, key, nonce, BuildCanonicalPayload(signed)), nonce, issuedAt),
                                streamTime).value;
            CheckCommand(mac, key, lastSeen, cmd, now) == Valid <==> Fresh(lastSeen, nonce, issuedAt, now)
  {
    hide BuildCanonicalPayload, Message, FormatInt, ParseInt64;
    var signature := Sign(mac, key, nonce, BuildCanonicalPayload(signed));
    assert Streamed(m, streamTime).Some?;
    StampedStream(m, signature, nonce, issuedAt, streamTime);
  }

  lemma HubCommandsAreAccepted(mac: Mac, key: Bytes, lastSeen: int64, action: Bytes, ip: Bytes, reason: Bytes,
                               blockType: Bytes, duration: int64, nonce: int64, issuedAt: int64, streamTime: int64,
                               now: int)
    requires key != [] && ip != [] && KnownBlockType(blockType) && duration >= 0
    requires !(ActionCode(action) == 0 && blockType == RATELIMIT)
    ensures var signed := HubFields(action, ip, reason, blockType, duration, issuedAt);
            var sent := Streamed(Stamp(HubMap(action, ip, reason, blockType, duration),
                                       Sign(mac, key, nonce, BuildCanonicalPayload(signed)), nonce, issuedAt),
                                 streamTime);
            && sent.Some?
            && (CheckCommand(mac, key, lastSeen, sent.value, now) == Valid <==> Fresh(lastSeen, nonce, issuedAt, now))
  {
    hide BuildCanonicalPayload, Streamed, Stamp, Message, HubMap, HubFields;
    var m := HubMap(action, ip, reason, blockType, duration);
    var signed := HubFields(action, ip, reason, blockType, duration, issuedAt);
    var signature := Sign(mac, key, nonce, BuildCanonicalPayload(signed));
    HubMapAgrees(action, ip, reason, blockType, duration, signature, nonce, issuedAt, streamTime);
    AgreeingIsAccepted(mac, key, lastSeen, m, signed, nonce, issuedAt, streamTime, now);
  }

  /** Every fresh, correctly signed unblock of the block manager is refused by the agent,
      unless the digests of two different messages collide. */
  lemma ManagerUnblocksAreRefused(mac: Mac, key: Bytes, lastSeen: int64, ip: Bytes, reason: Bytes,
                                  nonce: int64, issuedAt: int64, streamTime: int64, now: int)
    requires key != [] && ip != [] && ShortStrings(ip, reason, [])
    requires Fresh(lastSeen, nonce, issuedAt, now)
    requires var signed := SignedFields(UnblockMap(ip, reason), issuedAt);
             !Collide(mac, key, Message(nonce, BuildCanonicalPayload(signed.(blockType := 1))),
                      Message(nonce, BuildCanonicalPayload(signed)))
    ensures var sent := Streamed(SignCommand(mac, key, UnblockMap(ip, reason), nonce, issuedAt), streamTime);
            sent.Some? && CheckCommand(mac, key, lastSeen, sent.value, now) == BadSignature
  {
    hide BuildCanonicalPayload, Streamed, Stamp, Message, FormatInt, ParseInt64;
    var m := UnblockMap(ip, reason);
    var signed := SignedFields(m, issuedAt);
    var signature := Sign(mac, key, nonce, BuildCanonicalPayload(signed));
    UnblockMapNeverAgrees(ip, reason, signature, nonce, issuedAt, streamTime);
    UnstampedIsSent(m, signature, nonce, issuedAt, streamTime);
    AcceptedIffFreshAndSame(mac, key, lastSeen, m, signed, nonce, issuedAt, streamTime, now);
  }

  lemma UnstampedIsSent(m: CommandMap, signature: Bytes, nonce: int64, issuedAt: int64, now: int64)
    ensures Streamed(m, now).Some? <==> Streamed(Stamp(m, signature, nonce, issuedAt), now).Some?
  {
  }

  // ---------- what an accepted command does ----------

  datatype Effect =
    | CallBlock(ip: Bytes, seconds: int, reason: Bytes)
    | CallUnblock(ip: Bytes, blockType: int, reason: Bytes)
    | CallRateLimit(ip: Bytes, seconds: int, reason: Bytes)
    | Ignored

  /** The handler an accepted command reaches; zero seconds means no expiry. */
  function Dispatch(cmd: PbCommand): Effect {
    var seconds := if cmd.duration > 0 then cmd.duration else 0;
    if cmd.action == 0 then CallBlock(cmd.ip, seconds, cmd.reason)
    else if cmd.action == 1 then
      CallUnblock(cmd.ip, if cmd.blockType == 2 || cmd.blockType == 3 then cmd.blockType else 1, cmd.reason)
    else if cmd.action == 2 then CallRateLimit(cmd.ip, seconds, cmd.reason)
    else Ignored
  }

  /** A new enforcement reaches the handler the manager meant: rate limits as rate limits,
      everything else as a block, for the same IP and the same time. */
  lemma EnforcementsTakeEffect(mac: Mac, key: Bytes, ip: Bytes, duration: int64, reason: Bytes,
                               blockType: Bytes, blockId: Bytes, nonce: int64, issuedAt: int64, streamTime: int64)
    requires key != [] && ip != [] && duration >= 0
    ensures var m := BlockMap(ip, duration, reason, blockType, blockId);
            var sent := Streamed(SignCommand(mac, key, m, nonce, issuedAt), streamTime);
            && sent.Some?
            && Dispatch(sent.value)
               == if blockType == RATELIMIT then CallRateLimit(ip, duration, reason)
                  else CallBlock(ip, duration, reason)
  {
    hide BuildCanonicalPayload, FormatInt, ParseInt64, Stamp;
    TypeNamesDiffer();
    var m := BlockMap(ip, duration, reason, blockType, blockId);
    StampedStream(m, Sign(mac, key, nonce, BuildCanonicalPayload(SignedFields(m, issuedAt))), nonce, issuedAt,
                  streamTime);
  }

  /** An unblock sent by the API handlers reaches the unblock handler for its own type. */
  lemma UnblocksTakeEffect(ip: Bytes, reason: Bytes, blockType: Bytes, signature: Bytes, nonce: int64,
                           issuedAt: int64, streamTime: int64)
    requires ip != [] && KnownBlockType(blockType)
    ensures var sent := Streamed(Stamp(HubMap(UNBLOCK, ip, reason, blockType, 0), signature, nonce, issuedAt),
                                 streamTime);
            && sent.Some?
            && Dispatch(sent.value)
               == CallUnblock(ip, if blockType == BLOCKLIST then 1 else if blockType == RATELIMIT then 2 else 3, reason)
  {
    hide FormatInt, ParseInt64, Stamp;
    TypeNamesDiffer();
    StampedStream(HubMap(UNBLOCK, ip, reason, blockType, 0), signature, nonce, issuedAt, streamTime);
  }

  /** What travels, field by field: the command of a new enforcement. */
  lemma EnforcementFields(ip: Bytes, duration: int64, reason: Bytes, blockType: Bytes, blockId: Bytes,
                          signature: Bytes, nonce: int64, issuedAt: int64, now: int64)
    requires ip != []
    ensures var m := BlockMap(ip, duration, reason, blockType, blockId);
            var sent := Streamed(Stamp(m, signature, nonce, issuedAt), now);
            && SignedFields(m, issuedAt)
               == Command(if blockType == RATELIMIT then 2 else 0, ip, duration, reason, blockId,
                          if blockType == BLOCKLIST then 1 else if blockType == RATELIMIT then 2
                          else if blockType == CIDR then 3 else 0, issuedAt)
            && sent == Some(PbCommand(if blockType == RATELIMIT then 2 else 0, ip, duration, reason, blockId,
                                      if blockType == RATELIMIT then 2 else if blockType == CIDR then 3 else 1,
                                      Some(ToTimestamp(issuedAt)), signature, nonce))
  {
    hide FormatInt, ParseInt64, Stamp, ToTimestamp;
    TypeNamesDiffer();
    StampedStream(BlockMap(ip, duration, reason, blockType, blockId), signature, nonce, issuedAt, now);
  }

  /** The command of an unblock by the block manager. */
  lemma UnblockFields(ip: Bytes, reason: Bytes, signature: Bytes, nonce: int64, issuedAt: int64, now: int64)
    requires ip != []
    ensures var m := UnblockMap(ip, reason);
            && SignedFields(m, issuedAt) == Command(1, ip, 0, reason, [], 0, issuedAt)
            && Streamed(Stamp(m, signature, nonce, issuedAt), now)
               == Some(PbCommand(1, ip, 0, reason, [], 1, Some(ToTimestamp(issuedAt)), signature, nonce))
  {
    hide FormatInt, ParseInt64, Stamp, ToTimestamp;
    TypeNamesDiffer();
    StampedStream(UnblockMap(ip, reason), signature, nonce, issuedAt, now);
  }

  /** Without a key in the backend the command travels unsigned, and no agent accepts it. */
  lemma UnsignedIsRefused(mac: Mac, key: Bytes, lastSeen: int64, ip: Bytes, duration: int64, reason: Bytes,
                          blockType: Bytes, blockId: Bytes, nonce: int64, issuedAt: int64, streamTime: int64, now: int)
    requires ip != []
    ensures var m := BlockMap(ip, duration, reason, blockType, blockId);
            var sent := Streamed(SignCommand(mac, [], m, nonce, issuedAt), streamTime);
            && sent.Some? && sent.value.nonce == 0 && sent.value.signature == []
            && sent.value.issuedAt == Some(ToTimestamp(streamTime))
            && CheckCommand(mac, key, lastSeen, sent.value, now) == if key == [] then NoKey else Unsigned
  {
    hide ToTimestamp;
  }

  /** Blocks and rate limits of the API handlers reach their handlers too; a plain block of
      rate-limit type becomes a rate limit. */
  lemma HubCommandsTakeEffect(action: Bytes, ip: Bytes, reason: Bytes, blockType: Bytes, duration: int64,
                              signature: Bytes, nonce: int64, issuedAt: int64, streamTime: int64)
    requires ip != [] && (action == BLOCK || action == RATELIMIT)
    ensures var seconds := if duration > 0 then duration else 0;
            var sent := Streamed(Stamp(HubMap(action, ip, reason, blockType, duration), signature, nonce, issuedAt),
                                 streamTime);
            && sent.Some?
            && Dispatch(sent.value)
               == if action == RATELIMIT || blockType == RATELIMIT then CallRateLimit(ip, seconds, reason)
                  else CallBlock(ip, seconds, reason)
  {
    hide HubMap, StrOf, Int64Of, Stamp, ToTimestamp, ParsedOr;
    TypeNamesDiffer();
    HubMapReads(action, ip, reason, blockType, duration);
    StampedStream(HubMap(action, ip, reason, blockType, duration), signature, nonce, issuedAt, streamTime);
  }
}
