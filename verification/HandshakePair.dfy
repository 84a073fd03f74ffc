/**
 * The two handshake scripts over faithful channels: they meet the terms of Exchange, so its
 * theorems hold of them, and the signature policy decides who succeeds.
 */
module HandshakePair {
  import opened Bytes
  import opened Crypto
  import opened Exchange
  import opened Handshake

  /** The responder goes through with the session: floor, signature policy and primitives all pass. */
  predicate ResponderAccepts(c: Primitives, i: Initiator, r: Responder) {
    var t := Hello(c, i);
    && i.level >= CRYPTO_FLOOR
    && Accepts(c, r.auth, t, Signature(c, i.auth, t, i.sigCoins))
    && |t| >= HELLO_PREFIX && RespondTo(c, r, t).Some?
  }

  function TheAnswer(c: Primitives, i: Initiator, r: Responder): Answer
    requires ResponderAccepts(c, i, r)
  {
    RespondTo(c, r, Hello(c, i)).value
  }

  /** The responder goes through, and the initiator accepts its reply. */
  predicate InitiatorAccepts(c: Primitives, i: Initiator, r: Responder) {
    && ResponderAccepts(c, i, r)
    && var t := Hello(c, i) + TheAnswer(c, i, r).reply;
       Accepts(c, i.auth, t, Signature(c, r.auth, t, r.sigCoins))
  }

  function Pair(c: Primitives, i: Initiator, r: Responder, capIR: nat, capRI: nat): Scripts {
    var ok := ResponderAccepts(c, i, r);
    Scripts(
      (got: Bytes, sent: nat) => InitiatorNext(c, i, got, sent),
      (got: Bytes, sent: nat) => ResponderNext(c, r, got, sent),
      InitiatorFlight(c, i),
      if ok then ResponderFlight(c, r, Hello(c, i)) else [],
      ok, InitiatorAccepts(c, i, r),
      if ok then TheAnswer(c, i, r).key else [],
      capIR, capRI)
  }

  // ---- The scripts against the full flights ----

  lemma ReadBlockOfPrefix(auth: Auth, head: Bytes, sig: Bytes, k: nat)
    requires |sig| <= SIG_MAX_LEN
    requires |head| <= k <= |head + Prefixed(sig)|
    ensures var whole := head + Prefixed(sig);
      var b := ReadBlock(auth, whole[..k], |head|);
      if k < |whole| then b.Need? && 1 <= b.n <= |whole| - k else b == Complete(sig)
  {
    var whole, base, header := head + Prefixed(sig), |head|, BigEndian(|sig|);
    BigEndianDecodes(|sig|);
    assert whole == head + header + sig;
    if k >= base + 4 {
      var data := sig[..k - base - 4];
      assert whole[..k] == head + header + data;
      BlockAfter(auth, head, header, data);
    }
  }

  /** Inside the initiator's flight the responder only reads or refuses, and never reads past its end. */
  lemma ResponderOnPrefix(c: Primitives, i: Initiator, r: Responder, capIR: nat, capRI: nat, k: nat, sent: nat)
    requires Lawful(c) && k <= |InitiatorFlight(c, i)|
    ensures ResponderFollows(Pair(c, i, r, capIR, capRI), k, sent)
  {
    var t := Hello(c, i);
    var sig := Signature(c, i.auth, t, i.sigCoins);
    var m1 := InitiatorFlight(c, i);
    HelloIsValid(c, i);
    assert m1 == t + Prefixed(sig);
    if k >= 1 {
      assert m1[..k][0] == i.level;
    }
    if k >= |t| {
      assert m1[..k][..|t|] == t;
      ReadBlockOfPrefix(r.auth, t, sig, k);
    }
  }

  lemma ReplyIsValid(c: Primitives, r: Responder, hello: Bytes)
    requires Lawful(c) && |hello| >= HELLO_PREFIX && RespondTo(c, r, hello).Some?
    ensures |RespondTo(c, r, hello).value.reply| == ReplyLength(hello[0])
  {
  }

  /** Inside the responder's flight the initiator only reads, and never past its end. */
  lemma InitiatorOnPrefix(c: Primitives, i: Initiator, r: Responder, capIR: nat, capRI: nat, k: nat, sent: nat)
    requires Lawful(c) && k <= |Pair(c, i, r, capIR, capRI).m2|
    ensures InitiatorFollows(Pair(c, i, r, capIR, capRI), k, sent)
  {
    HelloIsValid(c, i);
    var m2 := Pair(c, i, r, capIR, capRI).m2;
    if sent >= |InitiatorFlight(c, i)| && ResponderAccepts(c, i, r) {
      var t := Hello(c, i);
      var reply := TheAnswer(c, i, r).reply;
      ReplyIsValid(c, r, t);
      var sig := Signature(c, r.auth, t + reply, r.sigCoins);
      assert m2 == reply + Prefixed(sig);
      if k >= |reply| {
        assert m2[..k][..|reply|] == reply;
        ReadBlockOfPrefix(i.auth, reply, sig, k);
      }
      KeysAgree(c, i, r);
    }
  }

  /** The handshake meets the terms of Exchange, for every pair of sides and every channel size. */
  lemma PairIsMatched(c: Primitives, i: Initiator, r: Responder, capIR: nat, capRI: nat)
    requires Lawful(c) && capIR >= 1 && capRI >= 1
    ensures Matched(Pair(c, i, r, capIR, capRI))
  {
    var u := Pair(c, i, r, capIR, capRI);
    forall k: nat, sent: nat | k <= |u.m2| ensures InitiatorFollows(u, k, sent) {
      InitiatorOnPrefix(c, i, r, capIR, capRI, k, sent);
    }
    forall k: nat, sent: nat | k <= |u.m1| ensures ResponderFollows(u, k, sent) {
      ResponderOnPrefix(c, i, r, capIR, capRI, k, sent);
    }
  }

  // ---- Theorems ----

  /** Deadlock freedom of the handshake: some side always has a move of its own until both return. */
  lemma HandshakeNeverDeadlocks(c: Primitives, i: Initiator, r: Responder, capIR: nat, capRI: nat,
                                run: seq<State>, k: nat) returns (m: Move)
    requires Lawful(c) && capIR >= 1 && capRI >= 1
    requires IsRun(Pair(c, i, r, capIR, capRI), run) && k < |run|
    requires run[k].iEnd.Running? || run[k].rEnd.Running?
    ensures FaultFree(m) && Enabled(Pair(c, i, r, capIR, capRI), run[k], m)
  {
    PairIsMatched(c, i, r, capIR, capRI);
    m := NoDeadlock(Pair(c, i, r, capIR, capRI), run, k);
  }

  /** A bound, in bytes, on the moves of any run: 2 * (T_i + block) + 2 * (reply + block) + 2. */
  lemma HandshakeTerminates(c: Primitives, i: Initiator, r: Responder, capIR: nat, capRI: nat,
                            run: seq<State>, k: nat)
    requires Lawful(c) && capIR >= 1 && capRI >= 1
    requires IsRun(Pair(c, i, r, capIR, capRI), run) && k < |run|
    ensures MoveCount(Pair(c, i, r, capIR, capRI), run, k)
      <= 2 * (HelloLength(i.level) + ReplyLength(i.level)) + 4 * (4 + SIG_MAX_LEN) + 2
  {
    PairIsMatched(c, i, r, capIR, capRI);
    Terminates(Pair(c, i, r, capIR, capRI), run, k);
    HelloIsValid(c, i);
    if ResponderAccepts(c, i, r) {
      ReplyIsValid(c, r, Hello(c, i));
    }
  }

  /** From any point the handshake can be carried on without a fault until both sides have returned. */
  lemma HandshakeRunsToTheEnd(c: Primitives, i: Initiator, r: Responder, capIR: nat, capRI: nat, run: seq<State>)
    returns (longer: seq<State>)
    requires Lawful(c) && capIR >= 1 && capRI >= 1
    requires IsRun(Pair(c, i, r, capIR, capRI), run)
    ensures IsRun(Pair(c, i, r, capIR, capRI), longer) && run <= longer
    ensures var s := longer[|longer| - 1];
      !s.iEnd.Running? && !s.rEnd.Running? && s.faulted == run[|run| - 1].faulted
  {
    PairIsMatched(c, i, r, capIR, capRI);
    longer := RunsToTheEnd(Pair(c, i, r, capIR, capRI), run);
  }

  /** Two sides that both authenticate were given each other's identities; a side that does not holds none. */
  ghost predicate PinsMatch(c: Primitives, i: Initiator, r: Responder) {
    i.auth.enabled && r.auth.enabled ==>
      i.auth.pinned == c.sigPublic(r.auth.sk) && r.auth.pinned == c.sigPublic(i.auth.sk)
  }

  /** The level clears the floor and neither X25519 nor ML-KEM refuses its inputs. */
  predicate Viable(c: Primitives, i: Initiator, r: Responder) {
    i.level >= CRYPTO_FLOOR && |Hello(c, i)| >= HELLO_PREFIX && RespondTo(c, r, Hello(c, i)).Some?
  }

  /**
   * The result of the handshake on a faithful stream with matching pinned keys, for the four
   * settings of the two `enabled` flags: the responder returns 0 unless it demands a signature the
   * initiator does not make, the initiator exactly when both flags are equal; and they share a key.
   */
  lemma HandshakeOutcome(c: Primitives, i: Initiator, r: Responder, capIR: nat, capRI: nat,
                         run: seq<State>, k: nat)
    requires Lawful(c) && capIR >= 1 && capRI >= 1 && PinsMatch(c, i, r)
    requires IsRun(Pair(c, i, r, capIR, capRI), run) && k < |run|
    requires !run[k].iEnd.Running? && !run[k].rEnd.Running? && !run[k].faulted
    ensures run[k].rEnd.Done? <==> Viable(c, i, r) && (r.auth.enabled ==> i.auth.enabled)
    ensures run[k].iEnd.Done? <==> Viable(c, i, r) && r.auth.enabled == i.auth.enabled
    ensures run[k].iEnd.Done? && run[k].rEnd.Done? ==> run[k].iEnd == run[k].rEnd
  {
    PairIsMatched(c, i, r, capIR, capRI);
    Outcome(Pair(c, i, r, capIR, capRI), run, k);
    if ResponderAccepts(c, i, r) {
      var t := Hello(c, i) + TheAnswer(c, i, r).reply;
      assert c.verify(c.sigPublic(r.auth.sk), t, c.sign(r.auth.sk, t, r.sigCoins));
    }
    assert c.verify(c.sigPublic(i.auth.sk), Hello(c, i), c.sign(i.auth.sk, Hello(c, i), i.sigCoins));
  }

  /**
   * The same outcome in terms of the key files the two processes find. Only two complete pairs have
   * to belong together; files that are missing, unreadable or of a wrong size are the other three
   * settings.
   */
  lemma OutcomeOfKeyFiles(c: Primitives, i: Initiator, r: Responder, gateway: KeyFiles, receiver: KeyFiles,
                          capIR: nat, capRI: nat, run: seq<State>, k: nat)
    requires Lawful(c) && capIR >= 1 && capRI >= 1
    requires i.auth == LoadAuth(gateway) && r.auth == LoadAuth(receiver)
    requires gateway.Complete() && receiver.Complete() ==>
      gateway.pk.value == c.sigPublic(receiver.sk.value) && receiver.pk.value == c.sigPublic(gateway.sk.value)
    requires IsRun(Pair(c, i, r, capIR, capRI), run) && k < |run|
    requires !run[k].iEnd.Running? && !run[k].rEnd.Running? && !run[k].faulted
    ensures run[k].rEnd.Done? <==> Viable(c, i, r) && (receiver.Complete() ==> gateway.Complete())
    ensures run[k].iEnd.Done? <==> Viable(c, i, r) && (receiver.Complete() <==> gateway.Complete())
    ensures run[k].iEnd.Done? && run[k].rEnd.Done? ==> run[k].iEnd == run[k].rEnd
  {
    HandshakeOutcome(c, i, r, capIR, capRI, run, k);
  }

  /**
   * The floor test is not a floor on strength. Without authentication two sides on a faithful stream
   * complete a handshake at the unassigned level 3, which passes the test and runs as ML-KEM-512.
   */
  lemma UnassignedLevelCompletes(c: Primitives, i: Initiator, r: Responder) returns (run: seq<State>)
    requires Lawful(c) && i.level == 3 && !i.auth.enabled && !r.auth.enabled && Viable(c, i, r)
    ensures IsRun(Pair(c, i, r, 1, 1), run)
    ensures var s := run[|run| - 1];
      && s.iEnd.Done? && s.rEnd == s.iEnd
      && s.rGot != [] && s.rGot[0] >= CRYPTO_FLOOR && Weaker(LevelToAlg(s.rGot[0]), Kem768)
  {
    run := HandshakeRunsToTheEnd(c, i, r, 1, 1, [INITIAL]);
    HandshakeOutcome(c, i, r, 1, 1, run, |run| - 1);
    CompletedHandshakeIsSynchronised(c, i, r, 1, 1, run, |run| - 1);
  }

  /** There are such sides: two processes that find no key files. */
  lemma UnassignedLevelRun() returns (c: Primitives, i: Initiator, r: Responder, run: seq<State>)
    ensures Lawful(c) && i.auth == r.auth == LoadAuth(KeyFiles(true, None, None))
    ensures IsRun(Pair(c, i, r, 1, 1), run)
    ensures var s := run[|run| - 1];
      s.iEnd.Done? && s.rEnd == s.iEnd && s.rGot != [] && Weaker(LevelToAlg(s.rGot[0]), Kem768)
  {
    LawsAreConsistent();
    c := Toy();
    var none := LoadAuth(KeyFiles(true, None, None));
    i, r := Initiator(3, [1], [], none, []), Responder([2], [], none, []);
    HelloIsValid(c, i);
    run := UnassignedLevelCompletes(c, i, r);
  }

  /**
   * Whenever both sides return 0, even in a run with faults, they hold the same key for the same
   * level, that level clears the floor, each has read exactly what the other wrote for the
   * handshake, and what the receiver has read since, with what is in the channel, is exactly
   * what the gateway has written since.
   */
  lemma CompletedHandshakeIsSynchronised(c: Primitives, i: Initiator, r: Responder, capIR: nat, capRI: nat,
                                         run: seq<State>, k: nat)
    requires Lawful(c) && capIR >= 1 && capRI >= 1
    requires IsRun(Pair(c, i, r, capIR, capRI), run) && k < |run|
    requires run[k].iEnd.Done? && run[k].rEnd.Done?
    ensures run[k].iEnd == run[k].rEnd
    ensures run[k].rGot == InitiatorFlight(c, i) && |run[k].rGot| == run[k].iSent
    ensures run[k].rGot[0] == i.level >= CRYPTO_FLOOR
    ensures ResponderAccepts(c, i, r) && run[k].iGot == ResponderFlight(c, r, Hello(c, i))
    ensures run[k].rSent == |run[k].iGot| && run[k].ri == []
    ensures run[k].taken + run[k].ir == run[k].app
  {
    var u := Pair(c, i, r, capIR, capRI);
    PairIsMatched(c, i, r, capIR, capRI);
    StreamsAreSynchronised(u, run, k);
    RunKeepsInv(u, run, k);
    ResponderDoneMeansAllRead(u, run[k]);
    HelloIsValid(c, i);
  }
}
