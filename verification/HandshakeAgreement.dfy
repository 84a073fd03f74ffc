/**
 * Any number of handshake sessions over a network that may drop, alter, replay, delay or invent
 * bytes. Signatures are ideal for the identities in `honest`: a signature that verifies under one
 * of them, over some transcript, means that a session holding that identity signed the transcript.
 */
module HandshakeAgreement {
  import opened Bytes
  import opened Crypto
  import opened Exchange
  import opened Handshake

  datatype ISession = ISession(me: Initiator, got: Bytes, sent: nat, end: Status)

  datatype RSession = RSession(me: Responder, got: Bytes, sent: nat, end: Status)

  datatype World = World(inits: map<nat, ISession>, resps: map<nat, RSession>)

  const EMPTY: World := World(map[], map[])

  // ---- What a session has built so far ----

  /** The initiator has T_r in its buffer. */
  predicate IHasTranscript(s: ISession) { |s.got| >= ReplyLength(s.me.level) }

  function ITranscript(c: Primitives, s: ISession): Bytes
    requires IHasTranscript(s)
  {
    Hello(c, s.me) + s.got[..ReplyLength(s.me.level)]
  }

  /** The responder has T_i in its buffer. */
  predicate RHasHello(s: RSession) { |s.got| >= 1 && |s.got| >= HelloLength(s.got[0]) }

  function RHello(s: RSession): Bytes
    requires RHasHello(s)
  {
    s.got[..HelloLength(s.got[0])]
  }

  /** The responder has verified T_i and computed its answer. */
  predicate RHasAnswer(c: Primitives, s: RSession) {
    && RHasHello(s)
    && RHello(s)[0] >= CRYPTO_FLOOR
    && ReadBlock(s.me.auth, s.got, HelloLength(s.got[0])).Complete?
    && Accepts(c, s.me.auth, RHello(s), ReadBlock(s.me.auth, s.got, HelloLength(s.got[0])).sig)
    && RespondTo(c, s.me, RHello(s)).Some?
  }

  function RAnswer(c: Primitives, s: RSession): Answer
    requires RHasAnswer(c, s)
  {
    RespondTo(c, s.me, RHello(s)).value
  }

  function RTranscript(c: Primitives, s: RSession): Bytes
    requires RHasAnswer(c, s)
  {
    RHello(s) + RAnswer(c, s).reply
  }

  // ---- Ideal signatures ----

  /** An initiator signs T_i after writing it. */
  predicate ISigned(c: Primitives, s: ISession, pk: Bytes, m: Bytes) {
    s.me.auth.enabled && c.sigPublic(s.me.auth.sk) == pk && m == Hello(c, s.me) && s.sent >= |m|
  }

  /** A responder signs T_r after writing its reply. */
  predicate RSigned(c: Primitives, s: RSession, pk: Bytes, m: Bytes) {
    && s.me.auth.enabled && c.sigPublic(s.me.auth.sk) == pk
    && RHasAnswer(c, s) && m == RTranscript(c, s) && s.sent >= |RAnswer(c, s).reply|
  }

  ghost predicate Signed(c: Primitives, w: World, pk: Bytes, m: Bytes) {
    || (exists id :: id in w.inits && ISigned(c, w.inits[id], pk, m))
    || (exists id :: id in w.resps && RSigned(c, w.resps[id], pk, m))
  }

  /** What an ideal scheme lets this initiator believe about the signature block it has read. */
  ghost predicate IUnforged(c: Primitives, honest: set<Bytes>, w: World, s: ISession) {
    s.me.auth.enabled && s.me.auth.pinned in honest && IHasTranscript(s) ==>
      var b := ReadBlock(s.me.auth, s.got, ReplyLength(s.me.level));
      b.Complete? && b.sig != [] && c.verify(s.me.auth.pinned, ITranscript(c, s), b.sig) ==>
        Signed(c, w, s.me.auth.pinned, ITranscript(c, s))
  }

  ghost predicate RUnforged(c: Primitives, honest: set<Bytes>, w: World, s: RSession) {
    s.me.auth.enabled && s.me.auth.pinned in honest && RHasHello(s) ==>
      var b := ReadBlock(s.me.auth, s.got, HelloLength(s.got[0]));
      b.Complete? && b.sig != [] && c.verify(s.me.auth.pinned, RHello(s), b.sig) ==>
        Signed(c, w, s.me.auth.pinned, RHello(s))
  }

  // ---- Steps of the world ----

  /** The network hands the session any bytes its pending read asks for. */
  predicate IReads(c: Primitives, s: ISession, s': ISession) {
    var a := InitiatorNext(c, s.me, s.got, s.sent);
    && s.end.Running? && a.Recv?
    && |s.got| < |s'.got| <= |s.got| + a.n && s.got <= s'.got
    && s' == s.(got := s'.got)
  }

  predicate RReads(c: Primitives, s: RSession, s': RSession) {
    var a := ResponderNext(c, s.me, s.got, s.sent);
    && s.end.Running? && a.Recv?
    && |s.got| < |s'.got| <= |s.got| + a.n && s.got <= s'.got
    && s' == s.(got := s'.got)
  }

  predicate IWrites(c: Primitives, s: ISession, s': ISession) {
    var a := InitiatorNext(c, s.me, s.got, s.sent);
    && s.end.Running? && a.Send?
    && s.sent < s'.sent <= s.sent + |a.data|
    && s' == s.(sent := s'.sent)
  }

  predicate RWrites(c: Primitives, s: RSession, s': RSession) {
    var a := ResponderNext(c, s.me, s.got, s.sent);
    && s.end.Running? && a.Send?
    && s.sent < s'.sent <= s.sent + |a.data|
    && s' == s.(sent := s'.sent)
  }

  /** A session returns what its script says, or fails for any reason at any time. */
  predicate IEnds(c: Primitives, s: ISession, s': ISession) {
    var a := InitiatorNext(c, s.me, s.got, s.sent);
    && s.end.Running?
    && (s' == s.(end := Failed) || (a.Return? && s' == s.(end := Done(a.key))))
  }

  predicate REnds(c: Primitives, s: RSession, s': RSession) {
    var a := ResponderNext(c, s.me, s.got, s.sent);
    && s.end.Running?
    && (s' == s.(end := Failed) || (a.Return? && s' == s.(end := Done(a.key))))
  }

  ghost predicate IStep(c: Primitives, honest: set<Bytes>, w: World, id: nat, s': ISession) {
    if id !in w.inits then s'.got == [] && s'.sent == 0 && s'.end == Running
    else
      || (IReads(c, w.inits[id], s') && IUnforged(c, honest, w, s'))
      || IWrites(c, w.inits[id], s') || IEnds(c, w.inits[id], s')
  }

  ghost predicate RStep(c: Primitives, honest: set<Bytes>, w: World, id: nat, s': RSession) {
    if id !in w.resps then s'.got == [] && s'.sent == 0 && s'.end == Running
    else
      || (RReads(c, w.resps[id], s') && RUnforged(c, honest, w, s'))
      || RWrites(c, w.resps[id], s') || REnds(c, w.resps[id], s')
  }

  ghost predicate WorldStep(c: Primitives, honest: set<Bytes>, w: World, w': World) {
    || (exists id, s' :: IStep(c, honest, w, id, s') && w' == w.(inits := w.inits[id := s']))
    || (exists id, s' :: RStep(c, honest, w, id, s') && w' == w.(resps := w.resps[id := s']))
  }

  ghost predicate IsWorldRun(c: Primitives, honest: set<Bytes>, ws: seq<World>) {
    && ws != [] && ws[0] == EMPTY
    && forall k :: 0 <= k < |ws| - 1 ==> WorldStep(c, honest, ws[k], ws[k + 1])
  }

  // ---- Signing is permanent ----

  /** Sessions are never forgotten, and nothing a session has signed is unsigned. */
  ghost predicate Grows(c: Primitives, w: World, w': World) {
    && (forall id :: id in w.inits ==> id in w'.inits && w'.inits[id].me == w.inits[id].me && w.inits[id].sent <= w'.inits[id].sent)
    && (forall id, pk, m :: id in w.resps && RSigned(c, w.resps[id], pk, m) ==> id in w'.resps && RSigned(c, w'.resps[id], pk, m))
  }

  /** Once the whole block has been read, the script never asks for another byte. */
  lemma AnsweredNeverReads(c: Primitives, s: RSession)
    requires RHasAnswer(c, s)
    ensures !ResponderNext(c, s.me, s.got, s.sent).Recv?
  {
  }

  /** A step of a responder keeps what it has signed: it has read its whole block and only writes on. */
  lemma RStepKeepsSigned(c: Primitives, honest: set<Bytes>, w: World, id: nat, s': RSession, pk: Bytes, m: Bytes)
    requires id in w.resps && RStep(c, honest, w, id, s') && RSigned(c, w.resps[id], pk, m)
    ensures RSigned(c, s', pk, m)
  {
    AnsweredNeverReads(c, w.resps[id]);
    assert s'.me == w.resps[id].me && s'.got == w.resps[id].got && s'.sent >= w.resps[id].sent;
  }

  lemma StepGrows(c: Primitives, honest: set<Bytes>, w: World, w': World)
    requires WorldStep(c, honest, w, w')
    ensures Grows(c, w, w')
  {
    if id, s' :| IStep(c, honest, w, id, s') && w' == w.(inits := w.inits[id := s']) {
    } else {
      var id, s' :| RStep(c, honest, w, id, s') && w' == w.(resps := w.resps[id := s']);
      forall j, pk, m | j in w.resps && RSigned(c, w.resps[j], pk, m)
        ensures j in w'.resps && RSigned(c, w'.resps[j], pk, m)
      {
        if j == id {
          RStepKeepsSigned(c, honest, w, id, s', pk, m);
        }
      }
    }
  }

  lemma SignedForever(c: Primitives, w: World, w': World, pk: Bytes, m: Bytes)
    requires Grows(c, w, w') && Signed(c, w, pk, m)
    ensures Signed(c, w', pk, m)
  {
    if id :| id in w.inits && ISigned(c, w.inits[id], pk, m) {
      assert ISigned(c, w'.inits[id], pk, m);
    } else {
      var id :| id in w.resps && RSigned(c, w.resps[id], pk, m);
      assert RSigned(c, w'.resps[id], pk, m);
    }
  }

  // ---- The invariant ----

  ghost predicate IGood(c: Primitives, honest: set<Bytes>, w: World, s: ISession) {
    IUnforged(c, honest, w, s) && (s.end.Done? ==> InitiatorNext(c, s.me, s.got, s.sent) == Return(s.end.key))
  }

  ghost predicate RGood(c: Primitives, honest: set<Bytes>, w: World, s: RSession) {
    RUnforged(c, honest, w, s) && (s.end.Done? ==> ResponderNext(c, s.me, s.got, s.sent) == Return(s.end.key))
  }

  ghost predicate WorldInv(c: Primitives, honest: set<Bytes>, w: World) {
    && (forall id :: id in w.inits ==> IGood(c, honest, w, w.inits[id]))
    && (forall id :: id in w.resps ==> RGood(c, honest, w, w.resps[id]))
  }

  lemma StillUnforged(c: Primitives, honest: set<Bytes>, w: World, w': World)
    requires Grows(c, w, w')
    ensures forall s :: IUnforged(c, honest, w, s) ==> IUnforged(c, honest, w', s)
    ensures forall s :: RUnforged(c, honest, w, s) ==> RUnforged(c, honest, w', s)
  {
    forall pk, m | Signed(c, w, pk, m) ensures Signed(c, w', pk, m) {
      SignedForever(c, w, w', pk, m);
    }
  }

  lemma IStepIsGood(c: Primitives, honest: set<Bytes>, w: World, id: nat, s': ISession)
    requires WorldInv(c, honest, w) && IStep(c, honest, w, id, s')
    ensures IGood(c, honest, w, s')
  {
  }

  lemma RStepIsGood(c: Primitives, honest: set<Bytes>, w: World, id: nat, s': RSession)
    requires WorldInv(c, honest, w) && RStep(c, honest, w, id, s')
    ensures RGood(c, honest, w, s')
  {
  }

  lemma WorldStepKeepsInv(c: Primitives, honest: set<Bytes>, w: World, w': World)
    requires WorldInv(c, honest, w) && WorldStep(c, honest, w, w')
    ensures WorldInv(c, honest, w')
  {
    StepGrows(c, honest, w, w');
    StillUnforged(c, honest, w, w');
    if id, s' :| IStep(c, honest, w, id, s') && w' == w.(inits := w.inits[id := s']) {
      IStepIsGood(c, honest, w, id, s');
    } else {
      var id, s' :| RStep(c, honest, w, id, s') && w' == w.(resps := w.resps[id := s']);
      RStepIsGood(c, honest, w, id, s');
    }
  }

  lemma {:induction false} WorldRunKeepsInv(c: Primitives, honest: set<Bytes>, ws: seq<World>, k: nat)
    requires IsWorldRun(c, honest, ws) && k < |ws|
    ensures WorldInv(c, honest, ws[k])
  {
    if k == 0 {
    } else {
      WorldRunKeepsInv(c, honest, ws, k - 1);
      WorldStepKeepsInv(c, honest, ws[k - 1], ws[k - 1 + 1]);
    }
  }

  // ---- Agreement ----

  /** The two sessions built the same T_r, and the responder's key for it is `key`. */
  predicate AgreeOn(c: Primitives, i: ISession, r: RSession, key: Bytes) {
    && IHasTranscript(i) && RHasAnswer(c, r)
    && RTranscript(c, r) == ITranscript(c, i)
    && RAnswer(c, r).key == key
  }

  lemma ITranscriptDecodes(c: Primitives, s: ISession)
    requires Lawful(c) && IHasTranscript(s)
    ensures DecodeFull(ITranscript(c, s)).Some?
  {
    var n := ReplyLength(s.me.level);
    var f := HelloFields(s.me.level, c.dhPublic(s.me.ecdhSk), c.kemPublic(LevelToAlg(s.me.level), s.me.kemSk));
    FullDecodes(ITranscript(c, s), FullFields(f, s.got[..ECDH_KEY_LEN], s.got[ECDH_KEY_LEN..n]));
    assert s.got[..n] == s.got[..ECDH_KEY_LEN] + s.got[ECDH_KEY_LEN..n];
    assert ITranscript(c, s) == f.Encode() + s.got[..ECDH_KEY_LEN] + s.got[ECDH_KEY_LEN..n];
  }

  lemma RTranscriptDecodes(c: Primitives, s: RSession)
    requires Lawful(c) && RHasAnswer(c, s)
    ensures DecodeFull(RTranscript(c, s)).Some?
    ensures |RAnswer(c, s).reply| == ReplyLength(RHello(s)[0])
  {
    assert RTranscript(c, s)[..HelloLength(s.got[0])] == RHello(s);
  }

  /** Equal transcripts split at the same place, and then the two keys are equal. */
  lemma EqualTranscriptsEqualKeys(c: Primitives, i: ISession, r: RSession)
    requires Lawful(c) && IHasTranscript(i) && RHasAnswer(c, r)
    requires RTranscript(c, r) == ITranscript(c, i)
    ensures RHello(r) == Hello(c, i.me)
    ensures RAnswer(c, r).reply == i.got[..ReplyLength(i.me.level)]
    ensures InitiatorKey(c, i.me, i.got[..ReplyLength(i.me.level)]) == Some(RAnswer(c, r).key)
  {
    HelloIsValid(c, i.me);
    RTranscriptDecodes(c, r);
    var t := RTranscript(c, r);
    assert t[0] == RHello(r)[0] && ITranscript(c, i)[0] == Hello(c, i.me)[0];
    var n := HelloLength(i.me.level);
    assert RHello(r) == t[..n] && Hello(c, i.me) == ITranscript(c, i)[..n];
    assert RAnswer(c, r).reply == t[n..];
    KeysAgree(c, i.me, r.me);
  }

  /**
   * Agreement. In every run, whenever an initiator that demands a signature from an honest identity
   * returns 0, a responder session holding that identity has built the identical T_r, and the key of
   * that session is the initiator's. No assumption keeps the two roles' identities apart.
   */
  lemma InitiatorAgreement(c: Primitives, honest: set<Bytes>, ws: seq<World>, k: nat, id: nat) returns (rid: nat)
    requires Lawful(c) && IsWorldRun(c, honest, ws) && k < |ws|
    requires id in ws[k].inits && ws[k].inits[id].end.Done?
    requires ws[k].inits[id].me.auth.enabled && ws[k].inits[id].me.auth.pinned in honest
    ensures rid in ws[k].resps
    ensures AgreeOn(c, ws[k].inits[id], ws[k].resps[rid], ws[k].inits[id].end.key)
    ensures c.sigPublic(ws[k].resps[rid].me.auth.sk) == ws[k].inits[id].me.auth.pinned
    ensures ws[k].resps[rid].got[0] == ws[k].inits[id].me.level >= CRYPTO_FLOOR
  {
    WorldRunKeepsInv(c, honest, ws, k);
    var w := ws[k];
    var s := w.inits[id];
    var t := ITranscript(c, s);
    ITranscriptDecodes(c, s);
    assert Signed(c, w, s.me.auth.pinned, t);
    if j :| j in w.inits && ISigned(c, w.inits[j], s.me.auth.pinned, t) {
      HelloIsValid(c, w.inits[j].me);
      RolesAreSeparated(t);
      assert false;
    }
    rid :| rid in w.resps && RSigned(c, w.resps[rid], s.me.auth.pinned, t);
    EqualTranscriptsEqualKeys(c, s, w.resps[rid]);
    HelloIsValid(c, s.me);
  }

  /**
   * The other direction: whenever a responder that demands a signature from an honest identity
   * returns 0, an initiator session holding that identity has built and sent the identical T_i.
   */
  lemma ResponderAgreement(c: Primitives, honest: set<Bytes>, ws: seq<World>, k: nat, rid: nat) returns (id: nat)
    requires Lawful(c) && IsWorldRun(c, honest, ws) && k < |ws|
    requires rid in ws[k].resps && ws[k].resps[rid].end.Done?
    requires ws[k].resps[rid].me.auth.enabled && ws[k].resps[rid].me.auth.pinned in honest
    ensures id in ws[k].inits && RHasHello(ws[k].resps[rid])
    ensures Hello(c, ws[k].inits[id].me) == RHello(ws[k].resps[rid])
    ensures c.sigPublic(ws[k].inits[id].me.auth.sk) == ws[k].resps[rid].me.auth.pinned
    ensures ws[k].inits[id].me.level == ws[k].resps[rid].got[0] >= CRYPTO_FLOOR
  {
    WorldRunKeepsInv(c, honest, ws, k);
    var w := ws[k];
    var s := w.resps[rid];
    var t := RHello(s);
    assert DecodeHello(t).Some?;
    assert Signed(c, w, s.me.auth.pinned, t);
    if j :| j in w.resps && RSigned(c, w.resps[j], s.me.auth.pinned, t) {
      RTranscriptDecodes(c, w.resps[j]);
      RolesAreSeparated(t);
      assert false;
    }
    id :| id in w.inits && ISigned(c, w.inits[id], s.me.auth.pinned, t);
    HelloIsValid(c, w.inits[id].me);
  }

  /**
   * When the floor test is a floor on strength, over any network: a responder that returns 0 has run
   * below ML-KEM-768 exactly when the level byte it read was above 2.
   */
  lemma ResponderIsWeakIff(c: Primitives, honest: set<Bytes>, ws: seq<World>, k: nat, rid: nat)
    requires IsWorldRun(c, honest, ws) && k < |ws|
    requires rid in ws[k].resps && ws[k].resps[rid].end.Done?
    ensures var got := ws[k].resps[rid].got;
      got != [] && (Weaker(LevelToAlg(got[0]), Kem768) <==> got[0] > ML_KEM_1024)
  {
    WorldRunKeepsInv(c, honest, ws, k);
    FloorTestAdmitsUnassignedLevels(ws[k].resps[rid].got[0]);
  }

  /** Over any network the key an initiator returns is made of both secrets. */
  lemma InitiatorSessionKey(c: Primitives, honest: set<Bytes>, ws: seq<World>, k: nat, id: nat)
    requires IsWorldRun(c, honest, ws) && k < |ws| && id in ws[k].inits && ws[k].inits[id].end.Done?
    ensures var s := ws[k].inits[id];
      && |s.got| >= ReplyLength(s.me.level)
      && var dh := c.dhShared(s.me.ecdhSk, s.got[..32]);
         var kem := c.decaps(LevelToAlg(s.me.level), s.me.kemSk, s.got[32..ReplyLength(s.me.level)]);
         dh.Some? && kem.Some? && s.end.key == c.hkdf(dh.value + kem.value, "pqc-gw", "session-key")
  {
    WorldRunKeepsInv(c, honest, ws, k);
    var s := ws[k].inits[id];
    InitiatorKeyIsHybrid(c, s.me, s.got, s.sent, s.end.key);
  }

  lemma ResponderSessionKey(c: Primitives, honest: set<Bytes>, ws: seq<World>, k: nat, id: nat)
    requires IsWorldRun(c, honest, ws) && k < |ws| && id in ws[k].resps && ws[k].resps[id].end.Done?
    ensures var s := ws[k].resps[id];
      && |s.got| >= 33 && |s.got| >= HelloLength(s.got[0])
      && var dh := c.dhShared(s.me.ecdhSk, s.got[1..33]);
         var kem := c.encaps(LevelToAlg(s.got[0]), s.got[33..HelloLength(s.got[0])], s.me.kemCoins);
         dh.Some? && kem.Some? && s.end.key == c.hkdf(dh.value + kem.value.1, "pqc-gw", "session-key")
  {
    WorldRunKeepsInv(c, honest, ws, k);
    var s := ws[k].resps[id];
    ResponderKeyIsHybrid(c, s.me, s.got, s.sent, s.end.key);
  }

  /** Distinct sessions drew distinct X25519 keys. */
  ghost predicate FreshKeys(c: Primitives, w: World) {
    && (forall a, b :: a in w.inits && b in w.inits && a != b ==>
          c.dhPublic(w.inits[a].me.ecdhSk) != c.dhPublic(w.inits[b].me.ecdhSk))
    && (forall a, b :: a in w.resps && b in w.resps && a != b ==>
          c.dhPublic(w.resps[a].me.ecdhSk) != c.dhPublic(w.resps[b].me.ecdhSk))
  }

  /** With fresh keys agreement is one-to-one: no two sessions of a role share a partner. */
  lemma AgreementIsInjective(c: Primitives, w: World, a: nat, b: nat, ra: nat, rb: nat, ka: Bytes, kb: Bytes)
    requires Lawful(c) && FreshKeys(c, w)
    requires a in w.inits && b in w.inits && ra in w.resps && rb in w.resps
    requires AgreeOn(c, w.inits[a], w.resps[ra], ka) && AgreeOn(c, w.inits[b], w.resps[rb], kb)
    ensures a == b <==> ra == rb
  {
    EqualTranscriptsEqualKeys(c, w.inits[a], w.resps[ra]);
    EqualTranscriptsEqualKeys(c, w.inits[b], w.resps[rb]);
    var p, q := w.resps[ra], w.resps[rb];
    assert RAnswer(c, p).reply[..ECDH_KEY_LEN] == c.dhPublic(p.me.ecdhSk);
    assert RAnswer(c, q).reply[..ECDH_KEY_LEN] == c.dhPublic(q.me.ecdhSk);
    assert Hello(c, w.inits[a].me)[1..HELLO_PREFIX] == c.dhPublic(w.inits[a].me.ecdhSk);
    assert Hello(c, w.inits[b].me)[1..HELLO_PREFIX] == c.dhPublic(w.inits[b].me.ecdhSk);
    if a == b {
      assert RTranscript(c, p) == RTranscript(c, q);
    }
  }
}
