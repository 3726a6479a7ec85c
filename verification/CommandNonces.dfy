/** Replay protection of the agent: one nonce tracker shared by streamed commands and
    block-list fetches, and a file that carries the last nonce over a restart. */
module CommandNonces {
  import opened Options
  import opened Bytes
  import opened CmdSigning
  import opened CommandProtocol

  datatype BlockListResponse = BlockListResponse(blocks: seq<BlockListEntry>, signature: Bytes, nonce: int64)

  /** How a write of the nonce file ends. A failed write, or a configuration without a
      file, leaves some content behind, possibly none. */
  datatype WriteOutcome = Written | NotWritten(left: Option<Bytes>)

  datatype Step =
    | Receive(cmd: PbCommand, now: int, write: WriteOutcome)
    | Fetch(response: BlockListResponse, write: WriteOutcome)
    | Restart

  datatype State = State(lastSeen: int64, file: Option<Bytes>)

  function CheckResponse(mac: Mac, key: Bytes, lastSeen: int64, resp: BlockListResponse): bool {
    && resp.signature != [] && resp.nonce > 0
    && resp.nonce > lastSeen
    && Verify(mac, key, resp.nonce, JoinEntries(resp.blocks), resp.signature) == Accepted
  }

  function FileAfter(nonce: int64, write: WriteOutcome): Option<Bytes> {
    match write
    case Written => Some(FormatInt(nonce))
    case NotWritten(left) => left
  }

  /** The tracker of a restarted agent. */
  function Reloaded(file: Option<Bytes>): int64 {
    if file.Some? && ParseInt64(TrimSpace(file.value)).Some? then
      var last := ParseInt64(TrimSpace(file.value)).value;
      if last > 0 then last else 0
    else 0
  }

  /** The nonce a step gets accepted, if any. Without a key nothing is checked or recorded. */
  function AcceptedNonce(mac: Mac, key: Bytes, s: State, step: Step): (r: Option<int64>) {
    match step
    case Receive(cmd, now, _) => if CheckCommand(mac, key, s.lastSeen, cmd, now) == Valid then Some(cmd.nonce) else None
    case Fetch(resp, _) => if key != [] && CheckResponse(mac, key, s.lastSeen, resp) then Some(resp.nonce) else None
    case Restart => None
  }

  function Next(mac: Mac, key: Bytes, s: State, step: Step): State {
    if step == Restart then State(Reloaded(s.file), s.file)
    else
      match AcceptedNonce(mac, key, s, step)
      case None => s
      case Some(nonce) => State(nonce, FileAfter(nonce, step.write))
  }

  class BlockCommandClient {
    const mac: Mac
    const key: Bytes
    var lastSeen: int64
    var file: Option<Bytes>

    function View(): State
      reads this
    {
      State(lastSeen, file)
    }

    /** A new client restores the nonce that an earlier one saved. */
    constructor (mac: Mac, key: Bytes, file: Option<Bytes>)
      ensures this.mac == mac && this.key == key
      ensures View() == State(Reloaded(file), file)
    {
      this.mac, this.key, this.file := mac, key, file;
      lastSeen := 0;
      new;
      LoadNonce();
    }

    method Record(nonce: int64)
      modifies this`lastSeen
      ensures lastSeen == if nonce > old(lastSeen) then nonce else old(lastSeen)
    {
      if nonce > lastSeen {
        lastSeen := nonce;
      }
    }

    method LoadNonce()
      requires lastSeen == 0
      modifies this`lastSeen
      ensures lastSeen == Reloaded(file)
    {
      if file == None {
        return;
      }
      var last := ParseInt64(TrimSpace(file.value));
      if last == None {
        return;
      }
      Record(last.value);
    }

    method PersistNonce(nonce: int64, write: WriteOutcome)
      modifies this`file
      ensures file == FileAfter(nonce, write)
    {
      match write {
        case Written => file := Some(FormatInt(nonce));
        case NotWritten(left) => file := left;
      }
    }

    method VerifyCommand(cmd: PbCommand, now: int, write: WriteOutcome) returns (verdict: Verdict)
      modifies this
      ensures verdict == CheckCommand(mac, key, old(lastSeen), cmd, now)
      ensures View() == Next(mac, key, old(View()), Receive(cmd, now, write))
    {
      hide RebuiltFields, BuildCanonicalPayload, Sign, FormatInt, InstantOf, Reloaded;
      if key == [] {
        return NoKey;
      }
      if cmd.nonce <= 0 || |cmd.signature| == 0 {
        return Unsigned;
      }
      if !(cmd.nonce > lastSeen) {
        return Replayed;
      }
      if cmd.issuedAt.Some? {
        var age := now - InstantOf(cmd.issuedAt.value);
        if age > MAX_AGE {
          return Expired;
        }
        if age < -MAX_AGE {
          return FromTheFuture;
        }
      }
      var payload := BuildCanonicalPayload(RebuiltFields(cmd));
      var result := Verify(mac, key, cmd.nonce, payload, cmd.signature);
      if result != Accepted {
        return BadSignature;
      }
      Record(cmd.nonce);
      PersistNonce(cmd.nonce, write);
      return Valid;
    }

    /** With a key, an unverified list is refused and leaves no trace. Without one, every
        list is taken as it is. */
    method FetchBlockList(resp: BlockListResponse, write: WriteOutcome) returns (ok: bool)
      modifies this
      ensures ok == (key == [] || CheckResponse(mac, key, old(lastSeen), resp))
      ensures View() == Next(mac, key, old(View()), Fetch(resp, write))
    {
      if key != [] {
        if |resp.signature| == 0 || resp.nonce <= 0 {
          return false;
        }
        if !(resp.nonce > lastSeen) {
          return false;
        }
        var payload := BuildBlockListPayload(resp.blocks);
        var result := Verify(mac, key, resp.nonce, payload, resp.signature);
        if result != Accepted {
          return false;
        }
        Record(resp.nonce);
        PersistNonce(resp.nonce, write);
      }
      return true;
    }
  }

  // ---------- lists from the backend ----------

  /** The signed part of a block-list response. */
  function SignedResponse(mac: Mac, key: Bytes, blocks: seq<BlockListEntry>, nonce: int64): BlockListResponse {
    BlockListResponse(blocks, Sign(mac, key, nonce, JoinEntries(blocks)), nonce)
  }

  /** With a key a list is accepted exactly when its nonce is positive and above the last one
      and its signature is the digest of that nonce and those entries. */
  lemma ListIsAcceptedIff(mac: Mac, key: Bytes, s: State, resp: BlockListResponse, write: WriteOutcome)
    ensures AcceptedNonce(mac, key, s, Fetch(resp, write)).Some?
            <==> && key != [] && resp.nonce > 0 && resp.nonce > s.lastSeen
                 && resp.signature == mac(key, BigEndian(resp.nonce, 8) + JoinEntries(resp.blocks))
  {
    hide JoinEntries, BigEndian;
  }

  /** A list is accepted with the signature of another one only when nonce and entries are
      the same, given that the entries are clean and the two messages do not collide. */
  lemma ListSignatureBinds(mac: Mac, key: Bytes, lastSeen: int64, resp: BlockListResponse,
                           signed: seq<BlockListEntry>, nonce: int64)
    requires resp.signature == Sign(mac, key, nonce, JoinEntries(signed))
    requires (forall e | e in resp.blocks :: e.Clean()) && (forall e | e in signed :: e.Clean())
    requires !Collide(mac, key, Message(resp.nonce, JoinEntries(resp.blocks)), Message(nonce, JoinEntries(signed)))
    ensures CheckResponse(mac, key, lastSeen, resp)
            <==> resp == SignedResponse(mac, key, signed, nonce) && nonce > 0 && nonce > lastSeen
  {
    hide JoinEntries, Message;
    if Message(resp.nonce, JoinEntries(resp.blocks)) == Message(nonce, JoinEntries(signed)) {
      MessageInjective(resp.nonce, JoinEntries(resp.blocks), nonce, JoinEntries(signed));
      BlockListInjective(resp.blocks, signed);
    }
  }

  // ---------- whole runs ----------

  function After(mac: Mac, key: Bytes, s: State, steps: seq<Step>): (r: State) {
    if steps == [] then s
    else Next(mac, key, After(mac, key, s, steps[..|steps| - 1]), steps[|steps| - 1])
  }

  /** The nonces accepted along a run, in order. */
  function AcceptedNonces(mac: Mac, key: Bytes, s: State, steps: seq<Step>): (ns: seq<int64>) {
    if steps == [] then []
    else
      var prefix := steps[..|steps| - 1];
      AcceptedNonces(mac, key, s, prefix)
      + match AcceptedNonce(mac, key, After(mac, key, s, prefix), steps[|steps| - 1])
        case None => []
        case Some(n) => [n]
  }

  ghost predicate StrictlyIncreasing(ns: seq<int64>) {
    forall i, j | 0 <= i < j < |ns| :: ns[i] < ns[j]
  }

  /** A refused command or list changes neither the tracker nor the file. */
  lemma RefusedLeavesNoTrace(mac: Mac, key: Bytes, s: State, step: Step)
    requires step != Restart
    ensures AcceptedNonce(mac, key, s, step) == None <==> Next(mac, key, s, step).lastSeen == s.lastSeen
    ensures AcceptedNonce(mac, key, s, step) == None ==> Next(mac, key, s, step) == s
  {
    hide CheckCommand, CheckResponse;
    AcceptedIsNewer(mac, key, s, step);
  }

  lemma AcceptedIsNewer(mac: Mac, key: Bytes, s: State, step: Step)
    ensures AcceptedNonce(mac, key, s, step).Some? ==>
              var n := AcceptedNonce(mac, key, s, step).value; n > 0 && n > s.lastSeen
  {
    hide Verify, JoinEntries, BuildCanonicalPayload;
  }

  ghost predicate EveryWriteSucceeds(steps: seq<Step>) {
    forall i | 0 <= i < |steps| && steps[i] != Restart :: steps[i].write == Written
  }

  ghost predicate NoRestart(steps: seq<Step>) {
    forall i | 0 <= i < |steps| :: steps[i] != Restart
  }

  /** The file gives back at least the last accepted nonce, if there was one. */
  predicate FileKeeps(file: Option<Bytes>, ns: seq<int64>) {
    ns != [] ==> Reloaded(file) >= ns[|ns| - 1]
  }

  /** At every restart the file gives back at least the last nonce accepted before. */
  ghost predicate RestartsKeep(mac: Mac, key: Bytes, s: State, steps: seq<Step>) {
    forall i | 0 <= i < |steps| && steps[i] == Restart ::
      FileKeeps(After(mac, key, s, steps[..i]).file, AcceptedNonces(mac, key, s, steps[..i]))
  }

  /** In order so far, and the tracker refuses everything accepted so far. */
  ghost predicate InOrder(s: State, ns: seq<int64>) {
    StrictlyIncreasing(ns) && (ns != [] ==> s.lastSeen >= ns[|ns| - 1])
  }

  lemma OneMoreStep(mac: Mac, key: Bytes, s: State, ns: seq<int64>, step: Step)
    requires InOrder(s, ns) && (step == Restart ==> FileKeeps(s.file, ns))
    ensures InOrder(Next(mac, key, s, step),
                    ns + match AcceptedNonce(mac, key, s, step) case None => [] case Some(n) => [n])
  {
    hide CheckCommand, CheckResponse, FormatInt, ParseInt64, TrimSpace;
    AcceptedIsNewer(mac, key, s, step);
  }

  /** Over commands and lists together, from any state, accepted nonces strictly increase as
      long as every restart finds a file that gives back the last accepted nonce. */
  lemma {:induction false} KeptRunsIncrease(mac: Mac, key: Bytes, s: State, steps: seq<Step>)
    requires RestartsKeep(mac, key, s, steps)
    ensures StrictlyIncreasing(AcceptedNonces(mac, key, s, steps))
    ensures InOrder(After(mac, key, s, steps), AcceptedNonces(mac, key, s, steps))
  {
    if steps != [] {
      hide InOrder, Next, AcceptedNonce, FileKeeps;
      var k := |steps| - 1;
      forall i | 0 <= i < k ensures steps[..k][..i] == steps[..i] {}
      KeptRunsIncrease(mac, key, s, steps[..k]);
      OneMoreStep(mac, key, After(mac, key, s, steps[..k]), AcceptedNonces(mac, key, s, steps[..k]), steps[k]);
      InOrderIncreases(After(mac, key, s, steps), AcceptedNonces(mac, key, s, steps));
    }
  }

  lemma InOrderIncreases(s: State, ns: seq<int64>)
    requires InOrder(s, ns)
    ensures StrictlyIncreasing(ns)
  {
  }

  /** Between restarts, from any state and whatever happens to the file, accepted nonces
      strictly increase, over commands and lists together. So nothing is accepted twice. */
  lemma NoncesIncrease(mac: Mac, key: Bytes, s: State, steps: seq<Step>)
    requires NoRestart(steps)
    ensures StrictlyIncreasing(AcceptedNonces(mac, key, s, steps))
  {
    KeptRunsIncrease(mac, key, s, steps);
  }

  lemma ReloadKeeps(n: int64)
    requires n > 0
    ensures Reloaded(Some(FormatInt(n))) == n
  {
    hide FormatInt, ParseInt64, TrimSpace;
    TrimKeepsDecimal(n);
    DecimalRoundTrip(n);
  }

  /** A file that holds a positive number with any space around it gives back that number, a
      file that holds no number, or no file at all, gives back zero. */
  lemma FileGivesBack(before: Bytes, n: int64, after: Bytes, other: Option<Bytes>)
    requires AllSpace(before) && AllSpace(after)
    ensures Reloaded(Some(before + FormatInt(n) + after)) == if n > 0 then n else 0
    ensures (other == None || (var t := TrimSpace(other.value);
                               t == [] || !AllDigits(if t[0] == 45 || t[0] == 43 then t[1..] else t)))
            ==> Reloaded(other) == 0
  {
    hide FormatInt, ParseInt64, TrimSpace, AllDigits, AllSpace;
    TrimDropsSpace(before, n, after);
    DecimalRoundTrip(n);
    if other.Some? && ParseInt64(TrimSpace(other.value)).Some? {
      NothingParses();
      OnlyDecimalsParse(TrimSpace(other.value));
    }
  }

  lemma NothingParses()
    ensures ParseInt64([]) == None
  {
  }

  /** A nonce that was accepted and written is exactly what a restart gives back. */
  lemma WrittenNonceComesBack(mac: Mac, key: Bytes, s: State, step: Step)
    requires AcceptedNonce(mac, key, s, step).Some? && step.write == Written
    ensures Next(mac, key, Next(mac, key, s, step), Restart).lastSeen == AcceptedNonce(mac, key, s, step).value
  {
    hide CheckCommand, CheckResponse, FormatInt, ParseInt64, TrimSpace, Reloaded;
    AcceptedIsNewer(mac, key, s, step);
    ReloadKeeps(AcceptedNonce(mac, key, s, step).value);
  }

  lemma WrittenStep(mac: Mac, key: Bytes, s: State, ns: seq<int64>, step: Step)
    requires FileKeeps(s.file, ns) && (step != Restart ==> step.write == Written)
    ensures FileKeeps(Next(mac, key, s, step).file,
                      ns + match AcceptedNonce(mac, key, s, step) case None => [] case Some(n) => [n])
  {
    hide CheckCommand, CheckResponse, FormatInt, ParseInt64, TrimSpace, Reloaded;
    AcceptedIsNewer(mac, key, s, step);
    var accepted := AcceptedNonce(mac, key, s, step);
    if accepted.Some? {
      ReloadKeeps(accepted.value);
    }
  }

  lemma {:induction false} WritesKeep(mac: Mac, key: Bytes, s: State, steps: seq<Step>)
    requires EveryWriteSucceeds(steps)
    ensures RestartsKeep(mac, key, s, steps)
    ensures FileKeeps(After(mac, key, s, steps).file, AcceptedNonces(mac, key, s, steps))
  {
    hide FileKeeps, Next, AcceptedNonce;
    if steps == [] {
      assert FileKeeps(s.file, []) by { NothingToKeep(s.file); }
    } else {
      var k := |steps| - 1;
      forall i | 0 <= i < k ensures steps[..k][..i] == steps[..i] && steps[..k][i] == steps[i] {}
      WritesKeep(mac, key, s, steps[..k]);
      WrittenStep(mac, key, After(mac, key, s, steps[..k]), AcceptedNonces(mac, key, s, steps[..k]), steps[k]);
    }
  }

  lemma NothingToKeep(file: Option<Bytes>)
    ensures FileKeeps(file, [])
  {
  }

  /** When every write succeeds this holds across any number of restarts as well, from any
      state and with any file to begin with. */
  lemma NoncesIncreaseAcrossRestarts(mac: Mac, key: Bytes, s: State, steps: seq<Step>)
    requires EveryWriteSucceeds(steps)
    ensures StrictlyIncreasing(AcceptedNonces(mac, key, s, steps))
  {
    WritesKeep(mac, key, s, steps);
    KeptRunsIncrease(mac, key, s, steps);
  }

  // ---------- when a restart allows a replay ----------

  /** A list that the backend signs for a nonce is accepted exactly when the nonce is new. */
  lemma SignedListIsAccepted(mac: Mac, key: Bytes, s: State, blocks: seq<BlockListEntry>, nonce: int64,
                             write: WriteOutcome)
    requires key != [] && nonce > 0
    ensures AcceptedNonce(mac, key, s, Fetch(SignedResponse(mac, key, blocks, nonce), write))
            == if nonce > s.lastSeen then Some(nonce) else None
  {
    hide JoinEntries, BigEndian;
  }

  /** After a restart a nonce can be accepted, by whatever command or list, exactly when it
      is above what the file gives back. */
  lemma AcceptableAfterRestartIff(mac: Mac, key: Bytes, s: State, nonce: int64)
    requires key != [] && nonce > 0
    ensures (exists step :: AcceptedNonce(mac, key, Next(mac, key, s, Restart), step) == Some(nonce))
            <==> Reloaded(s.file) < nonce
  {
    hide AcceptedNonce, Reloaded, SignedResponse;
    var t := Next(mac, key, s, Restart);
    SignedListIsAccepted(mac, key, t, [], nonce, Written);
    if step :| AcceptedNonce(mac, key, t, step) == Some(nonce) {
      AcceptedIsNewer(mac, key, t, step);
    }
  }

  lemma {:induction false} RunsAppend(mac: Mac, key: Bytes, s: State, a: seq<Step>, b: seq<Step>)
    ensures After(mac, key, s, a + b) == After(mac, key, After(mac, key, s, a), b)
    ensures AcceptedNonces(mac, key, s, a + b)
            == AcceptedNonces(mac, key, s, a) + AcceptedNonces(mac, key, After(mac, key, s, a), b)
  {
    hide Next, AcceptedNonce;
    if b == [] {
      assert a + b == a;
    } else {
      var front := b[..|b| - 1];
      assert (a + b)[..|a + b| - 1] == a + front;
      RunsAppend(mac, key, s, a, front);
    }
  }

  lemma {:induction false} RunIsAbove(mac: Mac, key: Bytes, s: State, steps: seq<Step>)
    requires NoRestart(steps)
    ensures forall n | n in AcceptedNonces(mac, key, s, steps) :: n > s.lastSeen
    ensures After(mac, key, s, steps).lastSeen >= s.lastSeen
  {
    if steps != [] {
      hide AcceptedNonce;
      var k := |steps| - 1;
      RunIsAbove(mac, key, s, steps[..k]);
      AcceptedIsNewer(mac, key, After(mac, key, s, steps[..k]), steps[k]);
    }
  }

  lemma OneStepRun(mac: Mac, key: Bytes, s: State, step: Step)
    ensures After(mac, key, s, [step]) == Next(mac, key, s, step)
    ensures AcceptedNonces(mac, key, s, [step])
            == match AcceptedNonce(mac, key, s, step) case None => [] case Some(n) => [n]
  {
    hide Next, AcceptedNonce;
    assert [step][..0] == [];
    assert After(mac, key, s, []) == s && AcceptedNonces(mac, key, s, []) == [];
  }

  lemma RestartedRun(mac: Mac, key: Bytes, s: State, before: seq<Step>, later: seq<Step>)
    ensures AcceptedNonces(mac, key, s, before + [Restart] + later)
            == AcceptedNonces(mac, key, s, before)
               + AcceptedNonces(mac, key, Next(mac, key, After(mac, key, s, before), Restart), later)
  {
    hide Next, AcceptedNonces, After, Reloaded;
    RunsAppend(mac, key, s, before, [Restart]);
    RunsAppend(mac, key, s, before + [Restart], later);
    OneStepRun(mac, key, After(mac, key, s, before), Restart);
  }

  lemma JoinedIncreases(ns: seq<int64>, later: seq<int64>, bound: int64)
    requires StrictlyIncreasing(ns) && StrictlyIncreasing(later)
    requires (ns != [] ==> bound >= ns[|ns| - 1]) && forall n | n in later :: n > bound
    ensures StrictlyIncreasing(ns + later)
  {
    var all := ns + later;
    forall i, j | 0 <= i < j < |all| ensures all[i] < all[j] {
      if i < |ns| <= j {
        assert ns[i] <= ns[|ns| - 1];
        assert later[j - |ns|] in later;
      }
    }
  }

  /** However a run in order went so far, with or without lost writes: it stays in order
      through a restart and everything that may follow until the next one, if and only if
      the file gives back at least the last accepted nonce. */
  lemma OrderSurvivesRestartIff(mac: Mac, key: Bytes, s: State, before: seq<Step>)
    requires key != [] && StrictlyIncreasing(AcceptedNonces(mac, key, s, before))
    ensures (forall later | NoRestart(later) ::
               StrictlyIncreasing(AcceptedNonces(mac, key, s, before + [Restart] + later)))
            <==> FileKeeps(After(mac, key, s, before).file, AcceptedNonces(mac, key, s, before))
  {
    var ns, t := AcceptedNonces(mac, key, s, before), After(mac, key, s, before);
    if FileKeeps(t.file, ns) {
      forall later | NoRestart(later)
        ensures StrictlyIncreasing(AcceptedNonces(mac, key, s, before + [Restart] + later))
      {
        hide After, AcceptedNonces, StrictlyIncreasing, Reloaded;
        var u := Next(mac, key, t, Restart);
        RestartedRun(mac, key, s, before, later);
        NoncesIncrease(mac, key, u, later);
        RunIsAbove(mac, key, u, later);
        JoinedIncreases(ns, AcceptedNonces(mac, key, u, later), u.lastSeen);
      }
    } else {
      ReplayAfterRestart(mac, key, s, before);
    }
  }

  lemma {:induction false} AnyAcceptedIsPositive(mac: Mac, key: Bytes, s: State, steps: seq<Step>)
    ensures forall n | n in AcceptedNonces(mac, key, s, steps) :: n > 0
  {
    if steps != [] {
      hide AcceptedNonce;
      var k := |steps| - 1;
      AnyAcceptedIsPositive(mac, key, s, steps[..k]);
      AcceptedIsNewer(mac, key, After(mac, key, s, steps[..k]), steps[k]);
    }
  }

  lemma ReplayAfterRestart(mac: Mac, key: Bytes, s: State, before: seq<Step>)
    requires key != [] && !FileKeeps(After(mac, key, s, before).file, AcceptedNonces(mac, key, s, before))
    ensures exists later ::
              NoRestart(later) && !StrictlyIncreasing(AcceptedNonces(mac, key, s, before + [Restart] + later))
  {
    hide After, AcceptedNonces, AcceptedNonce, SignedResponse, Reloaded;
    var ns, t := AcceptedNonces(mac, key, s, before), After(mac, key, s, before);
    var u, last := Next(mac, key, t, Restart), ns[|ns| - 1];
    AnyAcceptedIsPositive(mac, key, s, before);
    assert last in ns;
    var again := Fetch(SignedResponse(mac, key, [], last), Written);
    SignedListIsAccepted(mac, key, u, [], last, Written);
    RestartedRun(mac, key, s, before, [again]);
    OneStepRun(mac, key, u, again);
    assert AcceptedNonces(mac, key, s, before + [Restart] + [again]) == ns + [last];
    assert (ns + [last])[|ns| - 1] == (ns + [last])[|ns|];
    assert NoRestart([again]);
  }

  /** One failed write: the same signed list is accepted again after a restart exactly when
      what the write left behind gives back less than its nonce. */
  lemma LostWriteAllowsReplay(mac: Mac, key: Bytes, s: State, blocks: seq<BlockListEntry>, nonce: int64,
                              left: Option<Bytes>)
    requires key != [] && nonce > 0 && nonce > s.lastSeen
    ensures var fetch := Fetch(SignedResponse(mac, key, blocks, nonce), NotWritten(left));
            AcceptedNonces(mac, key, s, [fetch] + [Restart] + [fetch])
            == if Reloaded(left) < nonce then [nonce, nonce] else [nonce]
  {
    hide After, AcceptedNonces, AcceptedNonce, SignedResponse, Reloaded;
    var fetch := Fetch(SignedResponse(mac, key, blocks, nonce), NotWritten(left));
    SignedListIsAccepted(mac, key, s, blocks, nonce, NotWritten(left));
    OneStepRun(mac, key, s, fetch);
    RestartedRun(mac, key, s, [fetch], [fetch]);
    var u := State(Reloaded(left), left);
    assert Next(mac, key, After(mac, key, s, [fetch]), Restart) == u;
    SignedListIsAccepted(mac, key, u, blocks, nonce, NotWritten(left));
    OneStepRun(mac, key, u, fetch);
  }
}
