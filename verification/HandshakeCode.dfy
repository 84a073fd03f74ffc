/**
 * The handshake as the code runs it: loops over a socket, a transcript buffer, early returns.
 * Each role is proved to stop exactly where its script stops, for every chunking of the stream.
 */
module HandshakeCode {
  import opened Bytes
  import opened Crypto
  import opened Exchange
  import opened Handshake
  import opened HandshakePair
  import opened Sockets

  /** The long-term identity of one side. */
  class PqcAuth {
    var sigObject: bool
    var mySk: Option<Bytes>
    var peerPk: Option<Bytes>
    var enabled: bool

    ghost predicate Valid()
      reads this
    {
      if enabled then
        && sigObject
        && mySk.Some? && |mySk.value| == SIG_SECRET_LEN
        && peerPk.Some? && |peerPk.value| == SIG_PUBLIC_LEN
      else mySk.None? && peerPk.None?
    }

    function View(): Auth
      reads this
    {
      Auth(enabled, sigObject,
        if mySk.Some? then mySk.value else [], if peerPk.Some? then peerPk.value else [])
    }

    /** pqc_auth_init. */
    constructor (files: KeyFiles)
      ensures Valid() && View() == LoadAuth(files) && sigObject == files.sigNew
      ensures enabled <==> files.sigNew && files.sk.Some? && |files.sk.value| == 4032 && files.pk.Some? && |files.pk.value| == 1952
      ensures View().pinned == (if enabled then files.pk.value else []) && View().sk == (if enabled then files.sk.value else [])
    {
      sigObject, mySk, peerPk, enabled := false, None, None, false;
      new;
      if !files.sigNew {
        return;
      }
      sigObject := true;
      mySk, peerPk := files.sk, files.pk;
      if mySk.None? || peerPk.None? || |mySk.value| != SIG_SECRET_LEN || |peerPk.value| != SIG_PUBLIC_LEN {
        mySk, peerPk := None, None;
        enabled := false;
        return;
      }
      enabled := true;
    }

    /** Every valid identity is one that some key files load to. */
    lemma IsLoaded() returns (files: KeyFiles)
      requires Valid()
      ensures View() == LoadAuth(files) && (enabled <==> files.Complete())
    {
      files := KeyFiles(sigObject, mySk, peerPk);
    }

    method Free()
      requires Valid()
      modifies this
      ensures Valid() && !enabled && !sigObject && View() == Auth(false, false, [], [])
    {
      sigObject, mySk, peerPk, enabled := false, None, None, false;
    }
  }

  // ---- Signature blocks ----

  /** send_sig_block: an empty signature makes a block of four zero bytes. */
  method SendSigBlock(fd: Socket, sig: Bytes) returns (rc: int)
    requires |sig| < 0x1_0000_0000
    modifies fd`room, fd`sent
    ensures Wrote(old(fd.sent), fd.sent, Prefixed(sig), rc, fd.room)
  {
    PrefixedIs(sig);
    ghost var before := fd.sent;
    var header := BigEndian(|sig|);
    rc := WriteExact(fd, header);
    if rc != 0 {
      WroteAndStopped(before, fd.sent, header, sig, rc, fd.room);
      return;
    }
    ghost var mid, room := fd.sent, fd.room;
    if |sig| != 0 {
      rc := WriteExact(fd, sig);
    } else {
      assert mid + sig == mid;
    }
    WroteThenWrote(before, mid, fd.sent, header, sig, rc, room, fd.room);
  }

  /** A block reader that has not read a byte beyond the block. */
  predicate ReadNoFurther(b: BlockState, got: Bytes, base: nat) {
    b.Need? || (b.Oversized? && |got| == base + 4) || (b.Complete? && |got| == base + 4 + |b.sig|)
  }

  /** A reader that has a header within the cap and no more data than it announces. */
  lemma BlockEnds(auth: Auth, pre: Bytes, header: Bytes, data: Bytes)
    requires |header| == 4 && |data| <= FromBigEndian(header) <= SigCap(auth)
    ensures var got, len := pre + header + data, FromBigEndian(header);
      var b := ReadBlock(auth, got, |pre|);
      ReadNoFurther(b, got, |pre|) && if |data| < len then b.Need? else b == Complete(data)
  {
    BlockAfter(auth, pre, header, data);
    assert data[..|data|] == data;
  }

  /** The four bytes of the length. */
  method RecvLength(fd: Socket) returns (rc: int, len: nat, ghost header: Bytes)
    modifies fd`incoming, fd`received
    ensures fd.received + fd.incoming == old(fd.received + fd.incoming) && old(fd.received) <= fd.received
    ensures rc == 0 || rc == -1
    ensures rc == 0 ==> |header| == 4 && len == FromBigEndian(header) && fd.received == old(fd.received) + header
    ensures rc != 0 ==> fd.incoming == [] && |fd.received| < |old(fd.received)| + 4
  {
    len, header := 0, [];
    var buf := new byte[4](_ => 0);
    rc := ReadExact(fd, buf, 4);
    if rc == 0 {
      len, header := FromBigEndian(buf[..]), buf[..];
    }
  }

  /** recv_sig_block, in terms of everything read from the connection so far. */
  method RecvSigBlock(fd: Socket, ghost auth: Auth, cap: nat) returns (rc: int, sig: Bytes)
    requires cap == SigCap(auth)
    modifies fd`incoming, fd`received
    ensures fd.received + fd.incoming == old(fd.received + fd.incoming)
    ensures old(fd.received) <= fd.received
    ensures var b := ReadBlock(auth, fd.received, |old(fd.received)|);
      && (rc == 0 <==> b.Complete?) && (rc == 0 || rc == -1)
      && (b.Complete? ==> sig == b.sig)
      && ReadNoFurther(b, fd.received, |old(fd.received)|)
      && (b.Need? ==> fd.incoming == [])
  {
    sig := [];
    ghost var pre := fd.received;
    var len;
    ghost var header;
    rc, len, header := RecvLength(fd);
    if rc != 0 {
      return -1, [];
    }
    assert pre + header + [] == fd.received;
    if len > cap {
      BlockAfter(auth, pre, header, []);
      return -1, [];
    }
    ghost var rest := fd.incoming;
    if len != 0 {
      rc, sig := RecvSignature(fd, cap, len);
    }
    BlockEnds(auth, pre, header, if rc == 0 then sig else rest);
  }

  /** The signature itself, into a buffer of the cap's size. */
  method RecvSignature(fd: Socket, cap: nat, len: nat) returns (rc: int, sig: Bytes)
    requires len <= cap
    modifies fd`incoming, fd`received
    ensures rc == 0 || rc == -1
    ensures rc == 0 <==> len <= |old(fd.incoming)|
    ensures rc == 0 ==> |sig| == len && fd.received == old(fd.received) + sig && old(fd.incoming) == sig + fd.incoming
    ensures rc != 0 ==> fd.received == old(fd.received) + old(fd.incoming) && fd.incoming == []
  {
    var buf := new byte[cap](_ => 0);
    rc := ReadExact(fd, buf, len);
    sig := if rc == 0 then buf[..len] else [];
  }

  /** `works` says whether the signature buffer can be had and the signature made. */
  method SignAndSend(c: Primitives, auth: Auth, fd: Socket, transcript: Bytes, coins: Bytes, works: bool) returns (rc: int)
    requires Lawful(c)
    modifies fd`room, fd`sent
    ensures if auth.enabled && !works then rc == -1 && fd.sent == old(fd.sent)
      else Wrote(old(fd.sent), fd.sent, Prefixed(Signature(c, auth, transcript, coins)), rc, fd.room)
  {
    if !auth.enabled {
      rc := SendSigBlock(fd, []);
      return;
    }
    if !works {
      return -1;
    }
    var sig := c.sign(auth.sk, transcript, coins);
    rc := SendSigBlock(fd, sig);
  }

  /** `works` says whether the buffer for the signature can be had. */
  method RecvAndVerify(c: Primitives, auth: Auth, fd: Socket, transcript: Bytes, works: bool) returns (rc: int)
    modifies fd`incoming, fd`received
    ensures fd.received + fd.incoming == old(fd.received + fd.incoming)
    ensures old(fd.received) <= fd.received && (rc == 0 || rc == -1)
    ensures !works ==> rc == -1 && fd.received == old(fd.received)
    ensures works ==>
      var b := ReadBlock(auth, fd.received, |old(fd.received)|);
      && (rc == 0 <==> b.Complete? && Accepts(c, auth, transcript, b.sig))
      && ReadNoFurther(b, fd.received, |old(fd.received)|)
      && (b.Need? ==> fd.incoming == [])
  {
    var cap := if auth.sigObject then SIG_MAX_LEN else SIG_FALLBACK_CAP;
    if !works {
      return -1;
    }
    var sig;
    rc, sig := RecvSigBlock(fd, auth, cap);
    if rc != 0 {
      return -1;
    }
    if !auth.enabled {
      return 0;
    }
    if |sig| == 0 {
      return -1;
    }
    if !c.verify(auth.pinned, transcript, sig) {
      return -1;
    }
    return 0;
  }

  // ---- The two roles ----

  /** The code returned rc at a point where its script says `a`. */
  ghost predicate StoppedAt(a: Action, inputGone: bool, outputGone: bool, rc: int, key: Bytes) {
    match a
    case Return(k) => rc == 0 && key == k
    case Abort => rc == -1
    case Recv(_) => rc == -1 && inputGone    // the stream ended while it was reading
    case Send(_) => rc == -1 && outputGone   // the stream broke while it was writing
  }

  /** A block reader asks for every byte up to the point where it stopped. */
  lemma BlockAskedForEveryByte(auth: Auth, got: Bytes, base: nat, k: nat)
    requires base <= k < |got|
    requires ReadNoFurther(ReadBlock(auth, got, base), got, base)
    ensures ReadBlock(auth, got[..k], base).Need?
  {
    if k >= base + 4 {
      assert got[..k][base..base + 4] == got[base..base + 4];
    }
  }

  /** A buffer holding three strings one after the other: how both transcripts are laid out. */
  method Concatenate(a: Bytes, b: Bytes, d: Bytes) returns (buf: array<byte>)
    ensures fresh(buf) && buf[..] == a + b + d
  {
    var m, n := |a|, |a| + |b|;
    buf := new byte[n + |d|](_ => 0);
    CopyInto(buf, 0, a);
    CopyInto(buf, m, b);
    assert buf[..n] == buf[..m] + buf[m..n];
    CopyInto(buf, n, d);
    assert buf[..] == buf[..n] + buf[n..n + |d|];
  }

  /**
   * The first call of a handshake that fails although nothing it was given is wrong: an allocation, or
   * one inside OpenSSL or liboqs. `Setup` makes keys and buffers, `Extending` grows T_i to T_r,
   * `Verifying` gets the buffers for a signature, `Deriving` computes the secrets, `Finishing` is HKDF.
   */
  datatype Fault = NoFault | Setup | Signing | Extending | Verifying | Deriving | Finishing

  /** A call that is not made cannot fail: with authentication off nothing is signed. */
  predicate Harmless(auth: Auth, fault: Fault) { fault.NoFault? || (fault.Signing? && !auth.enabled) }

  /** Build T_i, write it, then the signature block over it. */
  method SendHello(c: Primitives, me: Initiator, fault: Fault, fd: Socket) returns (rc: int, ti: array<byte>)
    requires Lawful(c)
    modifies fd`room, fd`sent
    ensures fresh(ti) && ti[..] == Hello(c, me)
    ensures Wrote(old(fd.sent), fd.sent, InitiatorFlight(c, me), rc, fd.room)
      || (rc == -1 && fault.Signing? && me.auth.enabled && fd.sent == old(fd.sent) + Hello(c, me))
    ensures rc == 0 ==> !(fault.Signing? && me.auth.enabled)
  {
    var ecdhPub := c.dhPublic(me.ecdhSk);
    var alg := LevelToAlg(me.level);
    var kemPub := c.kemPublic(alg, me.kemSk);
    ti := Concatenate([me.level], ecdhPub, kemPub);

    ghost var before := fd.sent;
    ghost var block := Prefixed(Signature(c, me.auth, ti[..], me.sigCoins));
    rc := WriteExact(fd, ti[..]);
    if rc != 0 {
      WroteAndStopped(before, fd.sent, ti[..], block, rc, fd.room);
      return;
    }
    ghost var mid, room := fd.sent, fd.room;
    rc := SignAndSend(c, me.auth, fd, ti[..], me.sigCoins, !fault.Signing?);
    if !(me.auth.enabled && fault.Signing?) {
      WroteThenWrote(before, mid, fd.sent, ti[..], block, rc, room, fd.room);
    }
  }

  /** Two exact reads in a row: an X25519 key and n more bytes. */
  method RecvKeyAnd(fd: Socket, n: nat) returns (rc: int, pub: array<byte>, rest: array<byte>)
    modifies fd`incoming, fd`received
    ensures fd.received + fd.incoming == old(fd.received + fd.incoming)
    ensures fresh(pub) && fresh(rest) && pub.Length == ECDH_KEY_LEN && rest.Length == n
    ensures rc == 0 ==> fd.received == old(fd.received) + pub[..] + rest[..]
    ensures rc == 0 || rc == -1
    ensures rc != 0 ==> fd.incoming == [] && |fd.received| < |old(fd.received)| + ECDH_KEY_LEN + n
    ensures rc != 0 ==> old(fd.received) <= fd.received
  {
    pub := new byte[ECDH_KEY_LEN](_ => 0);
    rest := new byte[n](_ => 0);
    rc := ReadExact(fd, pub, ECDH_KEY_LEN);
    if rc != 0 {
      return -1, pub, rest;
    }
    rc := ReadExact(fd, rest, n);
  }

  /** How a call of the initiator's code ends, by how far it came. */
  ghost predicate InitiatorStopped(c: Primitives, me: Initiator, got: Bytes, sent: Bytes,
                                   inputGone: bool, outputGone: bool, rc: int, key: Bytes)
  {
    var base := ReplyLength(me.level);
    && sent <= InitiatorFlight(c, me)
    && if |sent| < |InitiatorFlight(c, me)| then got == [] && outputGone && rc == -1
       else if |got| < base then inputGone && rc == -1
       else
         var b := ReadBlock(me.auth, got, base);
         && ReadNoFurther(b, got, base)
         && (b.Need? ==> inputGone && rc == -1)
         && (b.Oversized? ==> rc == -1)
         && (b.Complete? ==>
               var k := InitiatorKey(c, me, got[..base]);
               if Accepts(c, me.auth, Hello(c, me) + got[..base], b.sig) && k.Some? then rc == 0 && key == k.value
               else rc == -1)
  }

  /** Where the initiator's code stands when an internal call fails. */
  ghost predicate InitiatorFaulted(c: Primitives, me: Initiator, fault: Fault, got: Bytes, sent: Bytes) {
    var base := ReplyLength(me.level);
    match fault
    case NoFault => false
    case Setup => got == [] && sent == []
    case Signing => me.auth.enabled && got == [] && sent == Hello(c, me)
    case Extending => |got| == base && sent == InitiatorFlight(c, me)
    case Verifying => |got| == base && sent == InitiatorFlight(c, me)
    case _ =>
      && |got| >= base && sent == InitiatorFlight(c, me)
      && var b := ReadBlock(me.auth, got, base);
         b.Complete? && ReadNoFurther(b, got, base) && Accepts(c, me.auth, Hello(c, me) + got[..base], b.sig)
  }

  /** The script asked for every byte that was read, wherever the code stopped. */
  lemma InitiatorAskedForEveryByte(c: Primitives, me: Initiator, got: Bytes, sent: nat)
    requires got == [] || sent >= |InitiatorFlight(c, me)|
    requires |got| > ReplyLength(me.level) ==>
      ReadNoFurther(ReadBlock(me.auth, got, ReplyLength(me.level)), got, ReplyLength(me.level))
    ensures forall k: nat :: k < |got| ==> InitiatorNext(c, me, got[..k], sent).Recv?
  {
    var base := ReplyLength(me.level);
    forall k: nat | k < |got| ensures InitiatorNext(c, me, got[..k], sent).Recv? {
      if k >= base {
        BlockAskedForEveryByte(me.auth, got, base, k);
      }
    }
  }

  lemma InitiatorFollowedItsScript(c: Primitives, me: Initiator, got: Bytes, sent: Bytes,
                                   inputGone: bool, outputGone: bool, rc: int, key: Bytes)
    requires InitiatorStopped(c, me, got, sent, inputGone, outputGone, rc, key)
    ensures forall k: nat :: k < |got| ==> InitiatorNext(c, me, got[..k], |sent|).Recv?
    ensures StoppedAt(InitiatorNext(c, me, got, |sent|), inputGone, outputGone, rc, key)
  {
    InitiatorAskedForEveryByte(c, me, got, |sent|);
  }

  /** The body of pqc_initiator_handshake_timed, less its timing. */
  method RunInitiator(c: Primitives, me: Initiator, fault: Fault, fd: Socket) returns (rc: int, key: Bytes)
    requires Lawful(c)
    requires fd.received == [] && fd.sent == []
    modifies fd
    ensures fd.received + fd.incoming == old(fd.incoming)
    ensures InitiatorStopped(c, me, fd.received, fd.sent, fd.incoming == [], fd.room == 0, rc, key)
      || (rc == -1 && InitiatorFaulted(c, me, fault, fd.received, fd.sent))
    ensures rc == 0 ==> Harmless(me.auth, fault)
  {
    key := [];
    if fault.Setup? {
      return -1, [];
    }
    var ti;
    rc, ti := SendHello(c, me, fault, fd);
    if rc != 0 {
      return -1, [];
    }
    assert fd.sent == InitiatorFlight(c, me);

    var alg := LevelToAlg(me.level);
    var ctLen := CiphertextLength(alg);
    var peerPub, ct;
    rc, peerPub, ct := RecvKeyAnd(fd, ctLen);
    if rc != 0 {
      return -1, [];
    }
    ghost var reply := fd.received;
    assert reply[..ECDH_KEY_LEN] == peerPub[..] && reply[ECDH_KEY_LEN..] == ct[..];

    if fault.Extending? {
      return -1, [];
    }
    var tr := Concatenate(ti[..], peerPub[..], ct[..]);
    assert tr[..] == Hello(c, me) + reply;
    rc := RecvAndVerify(c, me.auth, fd, tr[..], !fault.Verifying?);
    assert fd.received[..ReplyLength(me.level)] == reply;
    if rc != 0 {
      return -1, [];
    }
    rc, key := DeriveKey(c, me, peerPub[..], ct[..], fault, reply);
  }

  /** Both secrets and the session key, from the responder's reply. */
  method DeriveKey(c: Primitives, me: Initiator, peerPub: Bytes, ct: Bytes, fault: Fault, ghost reply: Bytes)
    returns (rc: int, key: Bytes)
    requires |reply| >= ECDH_KEY_LEN && peerPub == reply[..ECDH_KEY_LEN] && ct == reply[ECDH_KEY_LEN..]
    ensures if fault.Deriving? || fault.Finishing? then rc == -1
      else match InitiatorKey(c, me, reply)
        case None => rc == -1
        case Some(k) => rc == 0 && key == k
  {
    if fault.Deriving? {
      return -1, [];
    }
    var ecdhSecret := c.dhShared(me.ecdhSk, peerPub);
    if ecdhSecret.None? {
      return -1, [];
    }
    var kemSecret := c.decaps(LevelToAlg(me.level), me.kemSk, ct);
    if kemSecret.None? {
      return -1, [];
    }
    if fault.Finishing? {
      return -1, [];
    }
    key := SessionKey(c, ecdhSecret.value, kemSecret.value);
    return 0, key;
  }

  /**
   * pqc_initiator_handshake, from the key files on. It writes its flight and nothing else, reads a byte
   * only when its script asks for one, and stops where the script stops, or returns -1 at the very
   * point where an internal call fails.
   */
  method InitiatorHandshake(c: Primitives, me: Initiator, files: KeyFiles, fault: Fault, fd: Socket) returns (rc: int, key: Bytes)
    requires Lawful(c) && me.auth == LoadAuth(files)
    requires fd.received == [] && fd.sent == []
    modifies fd
    ensures fd.received + fd.incoming == old(fd.incoming)
    ensures fd.sent <= InitiatorFlight(c, me)
    ensures fd.received != [] ==> fd.sent == InitiatorFlight(c, me)
    ensures forall k: nat :: k < |fd.received| ==> InitiatorNext(c, me, fd.received[..k], |fd.sent|).Recv?
    ensures StoppedAt(InitiatorNext(c, me, fd.received, |fd.sent|), fd.incoming == [], fd.room == 0, rc, key)
      || (rc == -1 && InitiatorFaulted(c, me, fault, fd.received, fd.sent))
    ensures rc == 0 ==> Harmless(me.auth, fault)
    ensures rc == 0 ==>
      && |fd.received| >= ReplyLength(me.level)
      && var dh := c.dhShared(me.ecdhSk, fd.received[..32]);
         var kem := c.decaps(LevelToAlg(me.level), me.kemSk, fd.received[32..ReplyLength(me.level)]);
         dh.Some? && kem.Some? && key == c.hkdf(dh.value + kem.value, "pqc-gw", "session-key")
  {
    var auth := new PqcAuth(files);
    rc, key := RunInitiator(c, me.(auth := auth.View()), fault, fd);
    auth.Free();
    if InitiatorStopped(c, me, fd.received, fd.sent, fd.incoming == [], fd.room == 0, rc, key) {
      InitiatorFollowedItsScript(c, me, fd.received, fd.sent, fd.incoming == [], fd.room == 0, rc, key);
    } else {
      InitiatorAskedForEveryByte(c, me, fd.received, |fd.sent|);
    }
    if rc == 0 {
      InitiatorKeyIsHybrid(c, me, fd.received, |fd.sent|, key);
    }
  }

  /** The responder has accepted the T_i at the start of what it read. */
  ghost predicate Accepted(c: Primitives, me: Responder, got: Bytes) {
    && |got| >= 1 && got[0] >= CRYPTO_FLOOR && |got| >= HelloLength(got[0])
    && var b := ReadBlock(me.auth, got, HelloLength(got[0]));
       b.Complete? && Accepts(c, me.auth, got[..HelloLength(got[0])], b.sig)
  }

  /** How a call of the responder's code ends, by how far it came. */
  ghost predicate ResponderStopped(c: Primitives, me: Responder, got: Bytes, sent: Bytes,
                                   inputGone: bool, outputGone: bool, rc: int, key: Bytes)
  {
    if |got| < 1 then sent == [] && inputGone && rc == -1
    else if got[0] < CRYPTO_FLOOR then |got| == 1 && sent == [] && rc == -1
    else if |got| < HelloLength(got[0]) then sent == [] && inputGone && rc == -1
    else
      var base := HelloLength(got[0]);
      var b := ReadBlock(me.auth, got, base);
      && ReadNoFurther(b, got, base)
      && (b.Need? ==> sent == [] && inputGone && rc == -1)
      && (b.Oversized? ==> sent == [] && rc == -1)
      && (b.Complete? ==>
            if Accepts(c, me.auth, got[..base], b.sig) then AnswerStopped(c, me, got[..base], sent, outputGone, rc, key)
            else sent == [] && rc == -1)
  }

  ghost predicate AnswerStopped(c: Primitives, me: Responder, hello: Bytes, sent: Bytes,
                                outputGone: bool, rc: int, key: Bytes)
    requires |hello| >= HELLO_PREFIX
  {
    match RespondTo(c, me, hello)
    case None => sent == [] && rc == -1
    case Some(a) =>
      var flight := ResponderFlight(c, me, hello);
      && sent <= flight
      && if |sent| < |flight| then outputGone && rc == -1 else rc == 0 && key == a.key
  }

  /** The ends that remain once T_i has been read. */
  lemma StoppedAfterHello(c: Primitives, me: Responder, hello: Bytes, got: Bytes, sent: Bytes,
                          inputGone: bool, outputGone: bool, rc: int, key: Bytes)
    requires |hello| >= 1 && hello[0] >= CRYPTO_FLOOR && |hello| == HelloLength(hello[0]) && hello <= got
    requires var b := ReadBlock(me.auth, got, |hello|);
      && ReadNoFurther(b, got, |hello|)
      && if b.Complete? && Accepts(c, me.auth, hello, b.sig) then AnswerStopped(c, me, hello, sent, outputGone, rc, key)
         else sent == [] && rc == -1 && (b.Need? ==> inputGone)
    ensures ResponderStopped(c, me, got, sent, inputGone, outputGone, rc, key)
  {
    assert got[0] == hello[0] && got[..|hello|] == hello;
  }

  /** Where the responder's code stands when an internal call fails. */
  ghost predicate ResponderFaulted(c: Primitives, me: Responder, fault: Fault, got: Bytes, sent: Bytes) {
    && |got| >= 1 && got[0] >= CRYPTO_FLOOR
    && match fault
       case NoFault => false
       case Setup => |got| == HELLO_PREFIX && sent == []
       case Verifying => |got| == HelloLength(got[0]) && sent == []
       case _ =>
         && Accepted(c, me, got) && ReadNoFurther(ReadBlock(me.auth, got, HelloLength(got[0])), got, HelloLength(got[0]))
         && AnswerFaulted(c, me, fault, got[..HelloLength(got[0])], sent)
  }

  ghost predicate AnswerFaulted(c: Primitives, me: Responder, fault: Fault, hello: Bytes, sent: Bytes)
    requires |hello| >= HELLO_PREFIX
  {
    if fault.Deriving? then sent == []
    else
      && RespondTo(c, me, hello).Some?
      && match fault
         case Extending => sent == RespondTo(c, me, hello).value.reply
         case Signing => me.auth.enabled && sent == RespondTo(c, me, hello).value.reply
         case Finishing => sent == ResponderFlight(c, me, hello)
         case _ => false
  }

  lemma ResponderAskedForEveryByte(c: Primitives, me: Responder, got: Bytes)
    requires |got| > 1 ==> got[0] >= CRYPTO_FLOOR
    requires |got| > 1 && |got| > HelloLength(got[0]) ==>
      ReadNoFurther(ReadBlock(me.auth, got, HelloLength(got[0])), got, HelloLength(got[0]))
    ensures forall k: nat :: k < |got| ==> ResponderNext(c, me, got[..k], 0).Recv?
  {
    forall k: nat | k < |got| ensures ResponderNext(c, me, got[..k], 0).Recv? {
      if k >= 1 && k >= HelloLength(got[0]) {
        BlockAskedForEveryByte(me.auth, got, HelloLength(got[0]), k);
      }
    }
  }

  /** What has been written is part of the answer to an accepted T_i. */
  ghost predicate WroteItsAnswer(c: Primitives, me: Responder, got: Bytes, sent: Bytes) {
    sent == [] || (Accepted(c, me, got) && RespondTo(c, me, got[..HelloLength(got[0])]).Some?
      && sent <= ResponderFlight(c, me, got[..HelloLength(got[0])]))
  }

  lemma ResponderFollowedItsScript(c: Primitives, me: Responder, got: Bytes, sent: Bytes,
                                   inputGone: bool, outputGone: bool, rc: int, key: Bytes)
    requires ResponderStopped(c, me, got, sent, inputGone, outputGone, rc, key)
    ensures forall k: nat :: k < |got| ==> ResponderNext(c, me, got[..k], 0).Recv?
    ensures StoppedAt(ResponderNext(c, me, got, |sent|), inputGone, outputGone, rc, key)
    ensures WroteItsAnswer(c, me, got, sent)
  {
    ResponderAskedForEveryByte(c, me, got);
  }

  /** Write the reply in two calls, then the signature block over T_r. */
  method SendReply(c: Primitives, me: Responder, fault: Fault, fd: Socket, ti: Bytes, ecdhPub: Bytes, ct: Bytes) returns (rc: int)
    requires Lawful(c)
    modifies fd`room, fd`sent
    ensures var reply := ecdhPub + ct;
      Wrote(old(fd.sent), fd.sent, reply + Prefixed(Signature(c, me.auth, ti + reply, me.sigCoins)), rc, fd.room)
      || (rc == -1 && fd.sent == old(fd.sent) + reply && (fault.Extending? || (fault.Signing? && me.auth.enabled)))
    ensures rc == 0 ==> !fault.Extending? && !(fault.Signing? && me.auth.enabled)
  {
    ghost var before, reply := fd.sent, ecdhPub + ct;
    ghost var block := Prefixed(Signature(c, me.auth, ti + reply, me.sigCoins));
    rc := WriteExact(fd, ecdhPub);
    if rc != 0 {
      WroteAndStopped(before, fd.sent, ecdhPub, ct, rc, fd.room);
      WroteAndStopped(before, fd.sent, reply, block, rc, fd.room);
      return;
    }
    ghost var mid, room := fd.sent, fd.room;
    rc := WriteExact(fd, ct);
    WroteThenWrote(before, mid, fd.sent, ecdhPub, ct, rc, room, fd.room);
    if rc != 0 {
      WroteAndStopped(before, fd.sent, reply, block, rc, fd.room);
      return;
    }
    if fault.Extending? {
      return -1;
    }
    var tr := Concatenate(ti, ecdhPub, ct);
    assert tr[..] == ti + reply;
    mid, room := fd.sent, fd.room;
    rc := SignAndSend(c, me.auth, fd, tr[..], me.sigCoins, !fault.Signing?);
    if !(me.auth.enabled && fault.Signing?) {
      WroteThenWrote(before, mid, fd.sent, reply, block, rc, room, fd.room);
    }
  }

  /** What the responder does once T_i has been verified: both secrets, its reply, the key. */
  method SendAnswer(c: Primitives, me: Responder, fault: Fault, fd: Socket, hello: Bytes, alg: Alg, peerPub: Bytes, kemPub: Bytes)
    returns (rc: int, key: Bytes)
    requires Lawful(c)
    requires |hello| >= HELLO_PREFIX && alg == LevelToAlg(hello[0])
    requires peerPub == hello[1..HELLO_PREFIX] && kemPub == hello[HELLO_PREFIX..]
    requires fd.sent == []
    modifies fd`room, fd`sent
    ensures AnswerStopped(c, me, hello, fd.sent, fd.room == 0, rc, key)
      || (rc == -1 && AnswerFaulted(c, me, fault, hello, fd.sent))
    ensures rc == 0 ==> fault.Setup? || fault.Verifying? || Harmless(me.auth, fault)
  {
    key := [];
    if fault.Deriving? {
      return -1, [];
    }
    var ecdhPub := c.dhPublic(me.ecdhSk);
    var ecdhSecret := c.dhShared(me.ecdhSk, peerPub);
    if ecdhSecret.None? {
      return -1, [];
    }
    var sealed := c.encaps(alg, kemPub, me.kemCoins);
    if sealed.None? {
      return -1, [];
    }
    var (ct, kemSecret) := sealed.value;
    rc := SendReply(c, me, fault, fd, hello, ecdhPub, ct);
    if rc != 0 {
      return -1, [];
    }
    if fault.Finishing? {
      return -1, [];
    }
    key := SessionKey(c, ecdhSecret.value, kemSecret);
    return 0, key;
  }

  /** The level byte and its floor test, then the two public keys that the level announces. */
  method RecvHello(fault: Fault, fd: Socket) returns (rc: int, level: byte, peerPub: Bytes, kemPub: Bytes)
    requires fd.received == []
    modifies fd`incoming, fd`received
    ensures fd.received + fd.incoming == old(fd.incoming)
    ensures rc == 0 || rc == -1
    ensures rc == 0 ==> fd.received == [level] + peerPub + kemPub && level >= CRYPTO_FLOOR && !fault.Setup?
    ensures rc == 0 ==> |peerPub| == ECDH_KEY_LEN && |kemPub| == PublicKeyLength(LevelToAlg(level))
    ensures rc != 0 ==> var got := fd.received;
      || (|got| >= 1 && got[0] < CRYPTO_FLOOR && |got| == 1)
      || (fd.incoming == [] && (|got| < 1 || (got[0] >= CRYPTO_FLOOR && |got| < HelloLength(got[0]))))
      || (fault.Setup? && |got| == HELLO_PREFIX && got[0] >= CRYPTO_FLOOR)
  {
    level, peerPub, kemPub := 0, [], [];
    var hdr, pub := new byte[1](_ => 0), new byte[ECDH_KEY_LEN](_ => 0);
    rc := ReadExact(fd, hdr, 1);
    if rc != 0 {
      return;
    }
    level := hdr[0];
    assert fd.received == [level];
    if level < CRYPTO_FLOOR {
      rc := -1;
      return;
    }
    rc := ReadExact(fd, pub, ECDH_KEY_LEN);
    assert fd.received[0] == level;
    if rc != 0 {
      return;
    }
    peerPub := pub[..];
    assert fd.received == [level] + peerPub;
    if fault.Setup? {
      rc := -1;
      return;
    }
    var kem := new byte[PublicKeyLength(LevelToAlg(level))](_ => 0);
    rc := ReadExact(fd, kem, kem.Length);
    assert fd.received[0] == level;
    kemPub := kem[..];
  }

  /** Open the key files, verify T_i, and answer it. */
  method AnswerHello(c: Primitives, me: Responder, files: KeyFiles, fault: Fault, fd: Socket,
                     level: byte, peerPub: Bytes, kemPub: Bytes)
    returns (rc: int, key: Bytes)
    requires Lawful(c) && me.auth == LoadAuth(files) && !fault.Setup?
    requires fd.sent == [] && fd.received == [level] + peerPub + kemPub && level >= CRYPTO_FLOOR
    requires |peerPub| == ECDH_KEY_LEN && |kemPub| == PublicKeyLength(LevelToAlg(level))
    modifies fd
    ensures fd.received + fd.incoming == old(fd.received + fd.incoming)
    ensures ResponderStopped(c, me, fd.received, fd.sent, fd.incoming == [], fd.room == 0, rc, key)
      || (rc == -1 && ResponderFaulted(c, me, fault, fd.received, fd.sent))
    ensures rc == 0 ==> Harmless(me.auth, fault)
  {
    key := [];
    var auth := new PqcAuth(files);
    var ti := Concatenate([level], peerPub, kemPub);
    ghost var hello := ti[..];
    rc := RecvAndVerify(c, auth.View(), fd, ti[..], !fault.Verifying?);
    assert hello <= fd.received && fd.received[..|hello|] == hello;
    if rc == 0 {
      assert hello[1..HELLO_PREFIX] == peerPub && hello[HELLO_PREFIX..] == kemPub;
      rc, key := SendAnswer(c, me, fault, fd, ti[..], LevelToAlg(level), peerPub, kemPub);
    }
    auth.Free();
    if !fault.Verifying? && (rc == 0 || !ResponderFaulted(c, me, fault, fd.received, fd.sent)) {
      StoppedAfterHello(c, me, hello, fd.received, fd.sent, fd.incoming == [], fd.room == 0, rc, key);
    }
  }

  /** The body of pqc_responder_handshake; the key files are opened once T_i is there. */
  method RunResponder(c: Primitives, me: Responder, files: KeyFiles, fault: Fault, fd: Socket) returns (rc: int, key: Bytes)
    requires Lawful(c) && me.auth == LoadAuth(files)
    requires fd.received == [] && fd.sent == []
    modifies fd
    ensures fd.received + fd.incoming == old(fd.incoming)
    ensures ResponderStopped(c, me, fd.received, fd.sent, fd.incoming == [], fd.room == 0, rc, key)
      || (rc == -1 && ResponderFaulted(c, me, fault, fd.received, fd.sent))
    ensures rc == 0 ==> Harmless(me.auth, fault)
  {
    key := [];
    var level, peerPub, kemPub;
    rc, level, peerPub, kemPub := RecvHello(fault, fd);
    if rc != 0 {
      return -1, [];
    }
    rc, key := AnswerHello(c, me, files, fault, fd, level, peerPub, kemPub);
  }

  /** pqc_responder_handshake, in the same terms. */
  method ResponderHandshake(c: Primitives, me: Responder, files: KeyFiles, fault: Fault, fd: Socket) returns (rc: int, key: Bytes)
    requires Lawful(c) && me.auth == LoadAuth(files)
    requires fd.received == [] && fd.sent == []
    modifies fd
    ensures fd.received + fd.incoming == old(fd.incoming)
    ensures WroteItsAnswer(c, me, fd.received, fd.sent)
    ensures forall k: nat :: k < |fd.received| ==> ResponderNext(c, me, fd.received[..k], 0).Recv?
    ensures StoppedAt(ResponderNext(c, me, fd.received, |fd.sent|), fd.incoming == [], fd.room == 0, rc, key)
      || (rc == -1 && ResponderFaulted(c, me, fault, fd.received, fd.sent))
    ensures rc == 0 ==> Harmless(me.auth, fault)
    ensures rc == 0 ==>
      && |fd.received| >= 33 && |fd.received| >= HelloLength(fd.received[0])
      && var dh := c.dhShared(me.ecdhSk, fd.received[1..33]);
         var kem := c.encaps(LevelToAlg(fd.received[0]), fd.received[33..HelloLength(fd.received[0])], me.kemCoins);
         dh.Some? && kem.Some? && key == c.hkdf(dh.value + kem.value.1, "pqc-gw", "session-key")
  {
    rc, key := RunResponder(c, me, files, fault, fd);
    if ResponderStopped(c, me, fd.received, fd.sent, fd.incoming == [], fd.room == 0, rc, key) {
      ResponderFollowedItsScript(c, me, fd.received, fd.sent, fd.incoming == [], fd.room == 0, rc, key);
    } else {
      ResponderAskedForEveryByte(c, me, fd.received);
    }
    if rc == 0 {
      ResponderKeyIsHybrid(c, me, fd.received, |fd.sent|, key);
    }
  }

  /** The outcome of HandshakePair for two processes that hold these identities, whatever they are. */
  lemma OutcomeOfIdentities(c: Primitives, i: Initiator, r: Responder, gateway: PqcAuth, receiver: PqcAuth,
                            capIR: nat, capRI: nat, run: seq<State>, k: nat)
    requires Lawful(c) && capIR >= 1 && capRI >= 1
    requires gateway.Valid() && receiver.Valid() && i.auth == gateway.View() && r.auth == receiver.View()
    requires gateway.enabled && receiver.enabled ==>
      i.auth.pinned == c.sigPublic(r.auth.sk) && r.auth.pinned == c.sigPublic(i.auth.sk)
    requires IsRun(Pair(c, i, r, capIR, capRI), run) && k < |run|
    requires !run[k].iEnd.Running? && !run[k].rEnd.Running? && !run[k].faulted
    ensures run[k].rEnd.Done? <==> Viable(c, i, r) && (receiver.enabled ==> gateway.enabled)
    ensures run[k].iEnd.Done? <==> Viable(c, i, r) && receiver.enabled == gateway.enabled
    ensures run[k].iEnd.Done? && run[k].rEnd.Done? ==> run[k].iEnd == run[k].rEnd
  {
    var g := gateway.IsLoaded();
    var f := receiver.IsLoaded();
    OutcomeOfKeyFiles(c, i, r, g, f, capIR, capRI, run, k);
  }
}
