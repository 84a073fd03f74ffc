/**
 * The hybrid handshake as two reactive scripts: what each side does next is a function of the
 * bytes it has read so far and of how many it has written.
 */
module Handshake {
  import opened Bytes
  import opened Crypto
  import opened Exchange

  /** What PqcAuth holds after load_auth. */
  datatype Auth = Auth(enabled: bool, sigObject: bool, sk: Bytes, pinned: Bytes)

  /** What pqc_auth_init finds: whether the signature object was created, and what the two files hold. */
  datatype KeyFiles = KeyFiles(sigNew: bool, sk: Option<Bytes>, pk: Option<Bytes>) {
    predicate Complete() {
      && sigNew && sk.Some? && pk.Some?
      && |sk.value| == SIG_SECRET_LEN && |pk.value| == SIG_PUBLIC_LEN
    }
  }

  /** A side whose files are not both there in the right size holds no key at all. */
  function LoadAuth(f: KeyFiles): Auth {
    if f.Complete() then Auth(true, true, f.sk.value, f.pk.value) else Auth(false, f.sigNew, [], [])
  }

  /** Everything an initiator knows before it reads anything, coins included. */
  datatype Initiator = Initiator(level: byte, ecdhSk: Bytes, kemSk: Bytes, auth: Auth, sigCoins: Bytes)

  datatype Responder = Responder(ecdhSk: Bytes, kemCoins: Bytes, auth: Auth, sigCoins: Bytes)

  // ---- Transcripts ----

  const HELLO_PREFIX: nat := 1 + ECDH_KEY_LEN

  function HelloLength(level: byte): nat { HELLO_PREFIX + PublicKeyLength(LevelToAlg(level)) }

  function ReplyLength(level: byte): nat { ECDH_KEY_LEN + CiphertextLength(LevelToAlg(level)) }

  /** T_i. */
  function Hello(c: Primitives, i: Initiator): Bytes {
    [i.level] + c.dhPublic(i.ecdhSk) + c.kemPublic(LevelToAlg(i.level), i.kemSk)
  }

  // ---- Signature blocks ----

  /** An empty signature stands for the unauthenticated block. */
  function Signature(c: Primitives, auth: Auth, transcript: Bytes, coins: Bytes): Bytes {
    if auth.enabled then c.sign(auth.sk, transcript, coins) else []
  }

  function SigCap(auth: Auth): nat { if auth.sigObject then SIG_MAX_LEN else SIG_FALLBACK_CAP }

  /** How far recv_sig_block has come when `got` has been read and the block starts at `base`. */
  datatype BlockState = Need(n: nat) | Oversized | Complete(sig: Bytes)

  function ReadBlock(auth: Auth, got: Bytes, base: nat): BlockState
    requires base <= |got|
  {
    if |got| < base + 4 then Need(base + 4 - |got|)
    else
      var len := FromBigEndian(got[base..base + 4]);
      if len > SigCap(auth) then Oversized
      else if |got| < base + 4 + len then Need(base + 4 + len - |got|)
      else Complete(got[base + 4..base + 4 + len])
  }

  /** The state of a block reader that has read `header` and then `data` after `pre`. */
  lemma BlockAfter(auth: Auth, pre: Bytes, header: Bytes, data: Bytes)
    requires |header| == 4
    ensures var b, len := ReadBlock(auth, pre + header + data, |pre|), FromBigEndian(header);
      if len > (if auth.sigObject then 3309 else 8192) then b == Oversized
      else if |data| < len then b.Need?
      else b == Complete(data[..len])
  {
    var got, base := pre + header + data, |pre|;
    assert got[base..base + 4] == header;
    var len := FromBigEndian(header);
    if |data| >= len {
      assert got[base + 4..base + 4 + len] == data[..len];
    }
  }

  /** recv_and_verify once the block has arrived: with authentication off nothing is checked. */
  predicate Accepts(c: Primitives, auth: Auth, transcript: Bytes, sig: Bytes) {
    auth.enabled ==> sig != [] && c.verify(auth.pinned, transcript, sig)
  }

  // ---- Scripts ----

  /** The rest of the write_exact call in progress: `cuts` are the offsets where calls end. */
  function WriteRest(flight: Bytes, cuts: seq<nat>, sent: nat): (r: Bytes)
    requires sent < |flight|
    ensures r != [] && |r| <= |flight| - sent && r == flight[sent..sent + |r|]
  {
    if cuts == [] then flight[sent..]
    else if sent < cuts[0] <= |flight| then flight[sent..cuts[0]]
    else WriteRest(flight, cuts[1..], sent)
  }

  function InitiatorFlight(c: Primitives, i: Initiator): Bytes {
    Hello(c, i) + Prefixed(Signature(c, i.auth, Hello(c, i), i.sigCoins))
  }

  /** The initiator's key from the responder's reply: X25519 public key, then ciphertext. */
  function InitiatorKey(c: Primitives, i: Initiator, reply: Bytes): Option<Bytes>
    requires |reply| >= ECDH_KEY_LEN
  {
    var ecdh := c.dhShared(i.ecdhSk, reply[..ECDH_KEY_LEN]);
    var kem := c.decaps(LevelToAlg(i.level), i.kemSk, reply[ECDH_KEY_LEN..]);
    if ecdh.None? || kem.None? then None else Some(SessionKey(c, ecdh.value, kem.value))
  }

  function InitiatorNext(c: Primitives, i: Initiator, got: Bytes, sent: nat): Action {
    var flight := InitiatorFlight(c, i);
    var base := ReplyLength(i.level);
    var hello := |Hello(c, i)|;
    if sent < |flight| then Send(WriteRest(flight, [hello, hello + 4], sent))
    else if |got| < ECDH_KEY_LEN then Recv(ECDH_KEY_LEN - |got|)
    else if |got| < base then Recv(base - |got|)
    else match ReadBlock(i.auth, got, base)
      case Need(n) => Recv(n)
      case Oversized => Abort
      case Complete(sig) =>
        if !Accepts(c, i.auth, Hello(c, i) + got[..base], sig) then Abort
        else match InitiatorKey(c, i, got[..base])
          case None => Abort
          case Some(key) => Return(key)
  }

  /** What the responder computes from a verified T_i: its reply and its session key. */
  datatype Answer = Answer(reply: Bytes, key: Bytes)

  function RespondTo(c: Primitives, r: Responder, hello: Bytes): (a: Option<Answer>)
    requires |hello| >= HELLO_PREFIX
  {
    var ecdh := c.dhShared(r.ecdhSk, hello[1..HELLO_PREFIX]);
    var kem := c.encaps(LevelToAlg(hello[0]), hello[HELLO_PREFIX..], r.kemCoins);
    if ecdh.None? || kem.None? then None
    else Some(Answer(c.dhPublic(r.ecdhSk) + kem.value.0, SessionKey(c, ecdh.value, kem.value.1)))
  }

  function ResponderFlight(c: Primitives, r: Responder, hello: Bytes): Bytes
    requires |hello| >= HELLO_PREFIX
    requires RespondTo(c, r, hello).Some?
  {
    var reply := RespondTo(c, r, hello).value.reply;
    reply + Prefixed(Signature(c, r.auth, hello + reply, r.sigCoins))
  }

  /** The responder's script after it has accepted `hello`. */
  function AnswerNext(c: Primitives, r: Responder, hello: Bytes, sent: nat): Action
    requires |hello| >= HELLO_PREFIX
  {
    match RespondTo(c, r, hello)
    case None => Abort
    case Some(a) =>
      var flight := ResponderFlight(c, r, hello);
      if sent < |flight| then
        Send(WriteRest(flight, [ECDH_KEY_LEN, |a.reply|, |a.reply| + 4], sent))
      else Return(a.key)
  }

  function ResponderNext(c: Primitives, r: Responder, got: Bytes, sent: nat): Action {
    if |got| < 1 then Recv(1)
    else if got[0] < CRYPTO_FLOOR then Abort
    else
      var base := HelloLength(got[0]);
      if |got| < HELLO_PREFIX then Recv(HELLO_PREFIX - |got|)
      else if |got| < base then Recv(base - |got|)
      else match ReadBlock(r.auth, got, base)
        case Need(n) => Recv(n)
        case Oversized => Abort
        case Complete(sig) =>
          if !Accepts(c, r.auth, got[..base], sig) then Abort
          else AnswerNext(c, r, got[..base], sent)
  }

  // ---- The transcript format is uniquely decodable ----

  datatype HelloFields = HelloFields(level: byte, ecdh: Bytes, kem: Bytes) {
    predicate Valid() {
      |ecdh| == ECDH_KEY_LEN && |kem| == PublicKeyLength(LevelToAlg(level))
    }
    function Encode(): Bytes { [level] + ecdh + kem }
  }

  datatype FullFields = FullFields(hello: HelloFields, ecdh: Bytes, ct: Bytes) {
    predicate Valid() {
      hello.Valid() && |ecdh| == ECDH_KEY_LEN && |ct| == CiphertextLength(LevelToAlg(hello.level))
    }
    function Encode(): Bytes { hello.Encode() + ecdh + ct }
  }

  /** A decoder for T_i. */
  function DecodeHello(b: Bytes): Option<HelloFields> {
    if |b| < 1 || |b| != HelloLength(b[0]) then None
    else Some(HelloFields(b[0], b[1..HELLO_PREFIX], b[HELLO_PREFIX..]))
  }

  /** A decoder for T_r. */
  function DecodeFull(b: Bytes): Option<FullFields> {
    if |b| < 1 || |b| != HelloLength(b[0]) + ReplyLength(b[0]) then None
    else
      var n := HelloLength(b[0]);
      var hello := DecodeHello(b[..n]);
      if hello.None? then None
      else Some(FullFields(hello.value, b[n..n + ECDH_KEY_LEN], b[n + ECDH_KEY_LEN..]))
  }

  lemma HelloDecodes(b: Bytes, f: HelloFields)
    ensures DecodeHello(b) == Some(f) <==> f.Valid() && f.Encode() == b
  {
    if f.Valid() && f.Encode() == b {
      assert b[1..HELLO_PREFIX] == f.ecdh;
      assert b[HELLO_PREFIX..] == f.kem;
    }
    if DecodeHello(b) == Some(f) {
      assert b == [b[0]] + b[1..HELLO_PREFIX] + b[HELLO_PREFIX..];
    }
  }

  lemma FullDecodes(b: Bytes, f: FullFields)
    ensures DecodeFull(b) == Some(f) <==> f.Valid() && f.Encode() == b
  {
    var n := HelloLength(f.hello.level);
    if f.Valid() && f.Encode() == b {
      HelloDecodes(f.hello.Encode(), f.hello);
      assert b[..n] == f.hello.Encode();
      assert b[n..n + ECDH_KEY_LEN] == f.ecdh;
      assert b[n + ECDH_KEY_LEN..] == f.ct;
    }
    if DecodeFull(b) == Some(f) {
      assert |b[..HelloLength(b[0])]| == HelloLength(b[0]);
      HelloDecodes(b[..HelloLength(b[0])], f.hello);
      assert b == b[..n] + b[n..n + ECDH_KEY_LEN] + b[n + ECDH_KEY_LEN..];
    }
  }

  /** No byte string is a transcript of both kinds: a signature over one is never one over the other. */
  lemma RolesAreSeparated(b: Bytes)
    ensures DecodeHello(b).None? || DecodeFull(b).None?
  {
  }

  lemma HelloIsValid(c: Primitives, i: Initiator)
    requires Lawful(c)
    ensures |Hello(c, i)| == HelloLength(i.level) && Hello(c, i)[0] == i.level
    ensures Hello(c, i)[1..33] == c.dhPublic(i.ecdhSk) && Hello(c, i)[33..] == c.kemPublic(LevelToAlg(i.level), i.kemSk)
    ensures DecodeHello(Hello(c, i)) ==
      Some(HelloFields(i.level, c.dhPublic(i.ecdhSk), c.kemPublic(LevelToAlg(i.level), i.kemSk)))
  {
    HelloDecodes(Hello(c, i),
      HelloFields(i.level, c.dhPublic(i.ecdhSk), c.kemPublic(LevelToAlg(i.level), i.kemSk)));
  }

  /**
   * A reply computed from an honest T_i gives the initiator the responder's key. This is the
   * algebra of the hybrid: X25519 commutes and decapsulation inverts encapsulation.
   */
  lemma KeysAgree(c: Primitives, i: Initiator, r: Responder)
    requires Lawful(c)
    ensures |Hello(c, i)| >= HELLO_PREFIX
    ensures var a := RespondTo(c, r, Hello(c, i));
      a.Some? ==> InitiatorKey(c, i, a.value.reply) == Some(a.value.key)
  {
    var t := Hello(c, i);
    HelloIsValid(c, i);
    var alg := LevelToAlg(i.level);
    assert t[1..HELLO_PREFIX] == c.dhPublic(i.ecdhSk);
    assert t[HELLO_PREFIX..] == c.kemPublic(alg, i.kemSk);
    var a := RespondTo(c, r, t);
    if a.Some? {
      var e := c.encaps(alg, c.kemPublic(alg, i.kemSk), r.kemCoins);
      assert a.value.reply[..ECDH_KEY_LEN] == c.dhPublic(r.ecdhSk);
      assert a.value.reply[ECDH_KEY_LEN..] == e.value.0;
      assert c.dhShared(i.ecdhSk, c.dhPublic(r.ecdhSk)) == c.dhShared(r.ecdhSk, c.dhPublic(i.ecdhSk));
    }
  }

  // ---- The session key in terms of the primitives ----

  /**
   * An initiator that returns a key has hashed both secrets, the X25519 one first: that of the
   * first 32 bytes it read, and what the rest of the reply decapsulates to.
   */
  lemma InitiatorKeyIsHybrid(c: Primitives, i: Initiator, got: Bytes, sent: nat, key: Bytes)
    requires InitiatorNext(c, i, got, sent) == Return(key)
    ensures |got| >= ReplyLength(i.level)
    ensures var dh := c.dhShared(i.ecdhSk, got[..32]);
      var kem := c.decaps(LevelToAlg(i.level), i.kemSk, got[32..ReplyLength(i.level)]);
      dh.Some? && kem.Some? && key == c.hkdf(dh.value + kem.value, "pqc-gw", "session-key")
  {
    var n := ReplyLength(i.level);
    assert got[..n][..32] == got[..32] && got[..n][32..] == got[32..n];
  }

  /** The same for a responder: it encapsulates to the KEM key it read after the X25519 key. */
  lemma ResponderKeyIsHybrid(c: Primitives, r: Responder, got: Bytes, sent: nat, key: Bytes)
    requires ResponderNext(c, r, got, sent) == Return(key)
    ensures |got| >= 33 && |got| >= HelloLength(got[0])
    ensures var dh := c.dhShared(r.ecdhSk, got[1..33]);
      var kem := c.encaps(LevelToAlg(got[0]), got[33..HelloLength(got[0])], r.kemCoins);
      dh.Some? && kem.Some? && key == c.hkdf(dh.value + kem.value.1, "pqc-gw", "session-key")
  {
    var n := HelloLength(got[0]);
    assert got[..n][1..33] == got[1..33] && got[..n][33..] == got[33..n];
  }

  /** HKDF as an ideal: different key material gives different keys. */
  ghost predicate HkdfIsInjective(c: Primitives) {
    forall a, b, salt, info :: c.hkdf(a, salt, info) == c.hkdf(b, salt, info) ==> a == b
  }

  lemma SplitsAlike(a: Bytes, b: Bytes, x: Bytes, y: Bytes)
    requires |a| == |x| && a + b == x + y
    ensures a == x && b == y
  {
    assert (a + b)[..|a|] == a && (x + y)[..|x|] == x;
    assert (a + b)[|a|..] == b && (x + y)[|x|..] == y;
  }

  /** The key depends on both secrets: two initiators with one key have both secrets in common. */
  lemma EqualKeysEqualSecrets(c: Primitives, i: Initiator, got: Bytes, sent: nat,
                             i': Initiator, got': Bytes, sent': nat, key: Bytes)
    requires Lawful(c) && HkdfIsInjective(c)
    requires InitiatorNext(c, i, got, sent) == Return(key) && InitiatorNext(c, i', got', sent') == Return(key)
    ensures |got| >= ReplyLength(i.level) && |got'| >= ReplyLength(i'.level)
    ensures c.dhShared(i.ecdhSk, got[..32]) == c.dhShared(i'.ecdhSk, got'[..32])
    ensures c.decaps(LevelToAlg(i.level), i.kemSk, got[32..ReplyLength(i.level)])
      == c.decaps(LevelToAlg(i'.level), i'.kemSk, got'[32..ReplyLength(i'.level)])
  {
    InitiatorKeyIsHybrid(c, i, got, sent, key);
    InitiatorKeyIsHybrid(c, i', got', sent', key);
    var n, n' := ReplyLength(i.level), ReplyLength(i'.level);
    SplitsAlike(
      c.dhShared(i.ecdhSk, got[..32]).value, c.decaps(LevelToAlg(i.level), i.kemSk, got[32..n]).value,
      c.dhShared(i'.ecdhSk, got'[..32]).value, c.decaps(LevelToAlg(i'.level), i'.kemSk, got'[32..n']).value);
  }

  /** The same of an initiator and a responder, honest partners or not. */
  lemma EqualKeysEqualSecretsAcross(c: Primitives, i: Initiator, got: Bytes, sent: nat,
                                   r: Responder, got': Bytes, sent': nat, key: Bytes)
    requires Lawful(c) && HkdfIsInjective(c)
    requires InitiatorNext(c, i, got, sent) == Return(key) && ResponderNext(c, r, got', sent') == Return(key)
    ensures |got| >= ReplyLength(i.level) && |got'| >= 33 && |got'| >= HelloLength(got'[0])
    ensures c.dhShared(i.ecdhSk, got[..32]) == c.dhShared(r.ecdhSk, got'[1..33])
    ensures var kem := c.encaps(LevelToAlg(got'[0]), got'[33..HelloLength(got'[0])], r.kemCoins);
      kem.Some? && c.decaps(LevelToAlg(i.level), i.kemSk, got[32..ReplyLength(i.level)]) == Some(kem.value.1)
  {
    InitiatorKeyIsHybrid(c, i, got, sent, key);
    ResponderKeyIsHybrid(c, r, got', sent', key);
    var n, n' := ReplyLength(i.level), HelloLength(got'[0]);
    SplitsAlike(
      c.dhShared(i.ecdhSk, got[..32]).value, c.decaps(LevelToAlg(i.level), i.kemSk, got[32..n]).value,
      c.dhShared(r.ecdhSk, got'[1..33]).value, c.encaps(LevelToAlg(got'[0]), got'[33..n'], r.kemCoins).value.1);
  }
}
