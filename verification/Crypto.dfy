/** The cryptographic primitives, known only by their laws, and the KEM level policy. */
module Crypto {
  import opened Bytes

  /** The three parameter sets of section 8 of FIPS 203. */
  datatype Alg = Kem512 | Kem768 | Kem1024

  function PublicKeyLength(alg: Alg): nat {
    match alg
    case Kem512 => 800
    case Kem768 => 1184
    case Kem1024 => 1568
  }

  function CiphertextLength(alg: Alg): nat {
    match alg
    case Kem512 => 768
    case Kem768 => 1088
    case Kem1024 => 1568
  }

  const ECDH_KEY_LEN: nat := 32
  const SHARED_SECRET_LEN: nat := 32
  const SIG_PUBLIC_LEN: nat := 1952   // ML-DSA-65, section 4 of FIPS 204
  const SIG_SECRET_LEN: nat := 4032
  const SIG_MAX_LEN: nat := 3309
  const SIG_FALLBACK_CAP: nat := 8192
  const GCM_IV_LEN: nat := 12
  const GCM_TAG_LEN: nat := 16

  /**
   * OpenSSL and liboqs as functions of their inputs. Randomness is an explicit argument:
   * a key pair is a function of its secret, an encapsulation and a signature of their coins.
   */
  datatype Primitives = Primitives(
    dhPublic: Bytes -> Bytes,
    dhShared: (Bytes, Bytes) -> Option<Bytes>,
    kemPublic: (Alg, Bytes) -> Bytes,
    encaps: (Alg, Bytes, Bytes) -> Option<(Bytes, Bytes)>,
    decaps: (Alg, Bytes, Bytes) -> Option<Bytes>,
    sigPublic: Bytes -> Bytes,
    sign: (Bytes, Bytes, Bytes) -> Bytes,
    verify: (Bytes, Bytes, Bytes) -> bool,
    hkdf: (Bytes, string, string) -> Bytes,
    seal: (Bytes, Bytes, Bytes) -> (Bytes, Bytes),
    unseal: (Bytes, Bytes, Bytes, Bytes) -> Option<Bytes>)

  /** X25519: 32-byte public keys and secrets; both ends reach the same secret, or both are refused it. */
  ghost predicate DhLaws(c: Primitives) {
    && (forall x :: |c.dhPublic(x)| == ECDH_KEY_LEN)
    && (forall x, p :: c.dhShared(x, p).Some? ==> |c.dhShared(x, p).value| == SHARED_SECRET_LEN)
    && (forall x, y :: c.dhShared(x, c.dhPublic(y)) == c.dhShared(y, c.dhPublic(x)))
  }

  /** ML-KEM: lengths are fixed by the parameter set, and decapsulation inverts encapsulation. */
  ghost predicate KemLaws(c: Primitives) {
    && (forall alg, s :: |c.kemPublic(alg, s)| == PublicKeyLength(alg))
    && (forall alg, pk, coins :: c.encaps(alg, pk, coins).Some? ==>
          |c.encaps(alg, pk, coins).value.0| == CiphertextLength(alg)
          && |c.encaps(alg, pk, coins).value.1| == SHARED_SECRET_LEN)
    && (forall alg, s, ct :: c.decaps(alg, s, ct).Some? ==> |c.decaps(alg, s, ct).value| == SHARED_SECRET_LEN)
    && (forall alg, s, coins :: var e := c.encaps(alg, c.kemPublic(alg, s), coins);
          e.Some? && c.decaps(alg, s, e.value.0) == Some(e.value.1))
  }

  /** ML-DSA-65: a signature is never empty, fits the buffer, and verifies under its own key. */
  ghost predicate SigLaws(c: Primitives) {
    && (forall sk :: |c.sigPublic(sk)| == SIG_PUBLIC_LEN)
    && (forall sk, m, coins :: var s := c.sign(sk, m, coins);
          0 < |s| <= SIG_MAX_LEN && c.verify(c.sigPublic(sk), m, s))
  }

  /** AES-256-GCM: ciphertext as long as the plaintext, a 16-byte tag, and opening inverts sealing. */
  ghost predicate AeadLaws(c: Primitives) {
    && (forall k, iv, m :: |c.seal(k, iv, m).0| == |m| && |c.seal(k, iv, m).1| == GCM_TAG_LEN)
    && (forall k, iv, m :: c.unseal(k, iv, c.seal(k, iv, m).0, c.seal(k, iv, m).1) == Some(m))
    && (forall k, iv, ct, tag :: c.unseal(k, iv, ct, tag).Some? ==>
          |c.unseal(k, iv, ct, tag).value| == |ct|)
  }

  ghost predicate Lawful(c: Primitives) {
    DhLaws(c) && KemLaws(c) && SigLaws(c) && AeadLaws(c)
  }

  /** hkdf_derive: the ECDH secret first, then the KEM secret (section 2 of RFC 5869). */
  function SessionKey(c: Primitives, ecdhSecret: Bytes, kemSecret: Bytes): Bytes {
    c.hkdf(ecdhSecret + kemSecret, "pqc-gw", "session-key")
  }

  // ---- crypto_policy ----

  datatype DataClass = Routine | Sensitive | Critical

  const ML_KEM_768: byte := 1
  const ML_KEM_1024: byte := 2
  const CRYPTO_FLOOR: byte := ML_KEM_768

  function SelectKem(cls: DataClass): (level: byte)
    ensures CRYPTO_FLOOR <= level <= ML_KEM_1024
    ensures level == ML_KEM_1024 <==> cls == Critical
  {
    var level := if cls == Critical then ML_KEM_1024 else CRYPTO_FLOOR;
    if level < CRYPTO_FLOOR then CRYPTO_FLOOR else level
  }

  /** ASCII lower-casing, as strcasecmp compares. */
  function Lower(s: string): (r: string)
    ensures |r| == |s|
  {
    seq(|s|, i requires 0 <= i < |s| => if 'A' <= s[i] <= 'Z' then s[i] + ('a' - 'A') else s[i])
  }

  function DataClassFromString(s: Option<string>): DataClass {
    if s.None? then Routine
    else if Lower(s.value) == "critical" then Critical
    else if Lower(s.value) == "sensitive" then Sensitive
    else Routine
  }

  /** read_data_class: the first token of the class file if there is one, else the variable. */
  function ReadDataClass(fileToken: Option<string>, variable: Option<string>): DataClass {
    if fileToken.Some? then DataClassFromString(fileToken) else DataClassFromString(variable)
  }

  /** "critical", in any letter case. */
  predicate SaysCritical(t: string) {
    && |t| == 8
    && (t[0] == 'c' || t[0] == 'C') && (t[1] == 'r' || t[1] == 'R') && (t[2] == 'i' || t[2] == 'I')
    && (t[3] == 't' || t[3] == 'T') && (t[4] == 'i' || t[4] == 'I') && (t[5] == 'c' || t[5] == 'C')
    && (t[6] == 'a' || t[6] == 'A') && (t[7] == 'l' || t[7] == 'L')
  }

  lemma LowerIs(s: string, k: nat)
    requires k < |s|
    ensures Lower(s)[k] == 'c' <==> s[k] == 'c' || s[k] == 'C'
    ensures Lower(s)[k] == 'r' <==> s[k] == 'r' || s[k] == 'R'
    ensures Lower(s)[k] == 'i' <==> s[k] == 'i' || s[k] == 'I'
    ensures Lower(s)[k] == 't' <==> s[k] == 't' || s[k] == 'T'
    ensures Lower(s)[k] == 'a' <==> s[k] == 'a' || s[k] == 'A'
    ensures Lower(s)[k] == 'l' <==> s[k] == 'l' || s[k] == 'L'
  {
  }

  lemma LowerSaysCritical(s: string)
    ensures Lower(s) == "critical" <==> SaysCritical(s)
  {
    if |s| == 8 {
      forall k: nat | k < 8 ensures Lower(s)[k] == "critical"[k] <==> SameLetter(s[k], k) {
        LowerIs(s, k);
      }
      assert SaysCritical(s) <==> forall k: nat :: k < 8 ==> SameLetter(s[k], k);
    }
  }

  /** The k-th letter of "critical", in either case. */
  predicate SameLetter(ch: char, k: nat)
    requires k < 8
  {
    ch == "critical"[k] || ch == "CRITICAL"[k]
  }

  /** Exactly the word "critical" raises the level, to 2; everything else, or nothing, leaves it at 1. */
  lemma OnlyCriticalRaises(fileToken: Option<string>, variable: Option<string>)
    ensures var token := if fileToken.Some? then fileToken else variable;
      SelectKem(ReadDataClass(fileToken, variable)) == if token.Some? && SaysCritical(token.value) then 2 else 1
  {
    var token := if fileToken.Some? then fileToken else variable;
    if token.Some? {
      LowerSaysCritical(token.value);
    }
  }

  /** level_to_alg, whose default arm is the weakest parameter set. */
  function LevelToAlg(level: byte): Alg {
    if level == 0 then Kem512
    else if level == ML_KEM_768 then Kem768
    else if level == ML_KEM_1024 then Kem1024
    else Kem512
  }

  /** The sizes that travel at each level: 1 and 2 are ML-KEM-768 and 1024, all the rest ML-KEM-512. */
  lemma SizesOfLevels(level: byte)
    ensures PublicKeyLength(LevelToAlg(level)) == if level == 1 then 1184 else if level == 2 then 1568 else 800
    ensures CiphertextLength(LevelToAlg(level)) == if level == 1 then 1088 else if level == 2 then 1568 else 768
  {
  }

  predicate Weaker(a: Alg, b: Alg) { PublicKeyLength(a) < PublicKeyLength(b) }

  /**
   * The floor test compares level bytes, not parameter sets. A byte that passes it still runs
   * below ML-KEM-768 exactly when it is one of the unassigned bytes 3..255.
   */
  lemma FloorTestAdmitsUnassignedLevels(level: byte)
    ensures level >= CRYPTO_FLOOR && Weaker(LevelToAlg(level), Kem768) <==> level > ML_KEM_1024
  {
  }

  // ---- The laws can be met ----

  /** The first n bytes of s, zeros after its end. */
  function Pad(s: Bytes, n: nat): (r: Bytes)
    ensures |r| == n
  {
    seq(n, k requires 0 <= k < n => if k < |s| then s[k] else 0)
  }

  /** Byte by byte, so in either order. */
  function Mix(a: Bytes, b: Bytes): (r: Bytes)
    requires |a| == |b|
    ensures |r| == |a|
  {
    seq(|a|, k requires 0 <= k < |a| => (a[k] as int + b[k] as int) % 256)
  }

  /** Toy primitives: identities and key pairs are told apart, and a signature names its maker. */
  function Toy(): Primitives {
    Primitives(
      x => Pad(x, ECDH_KEY_LEN),
      (x, y) => Some(Mix(Pad(x, ECDH_KEY_LEN), Pad(y, ECDH_KEY_LEN))),
      (alg, s) => Pad(s, PublicKeyLength(alg)),
      (alg, pk, coins) => Some((Pad(coins, CiphertextLength(alg)), Pad(coins, SHARED_SECRET_LEN))),
      (alg, s, ct) => Some(Pad(ct, SHARED_SECRET_LEN)),
      sk => Pad(sk, SIG_PUBLIC_LEN),
      (sk, m, coins) => Pad(sk, SIG_PUBLIC_LEN),
      (pk, m, sig) => sig == pk,
      (ikm, salt, info) => Pad(ikm, SHARED_SECRET_LEN),
      (k, iv, m) => (m, Pad([], GCM_TAG_LEN)),
      (k, iv, ct, tag) => Some(ct))
  }

  lemma PadAgain(s: Bytes, m: nat, n: nat)
    requires m <= n
    ensures Pad(Pad(s, n), m) == Pad(s, m)
  {
  }

  lemma MixCommutes(a: Bytes, b: Bytes)
    requires |a| == |b|
    ensures Mix(a, b) == Mix(b, a)
  {
  }

  /** The laws do not contradict one another, nor do they force two secrets to share a public key. */
  lemma LawsAreConsistent()
    ensures Lawful(Toy())
    ensures forall s, t :: |s| == |t| == ECDH_KEY_LEN && s != t ==> Toy().dhPublic(s) != Toy().dhPublic(t)
  {
    var c := Toy();
    forall x, y ensures c.dhShared(x, c.dhPublic(y)) == c.dhShared(y, c.dhPublic(x)) {
      PadAgain(x, ECDH_KEY_LEN, ECDH_KEY_LEN);
      PadAgain(y, ECDH_KEY_LEN, ECDH_KEY_LEN);
      MixCommutes(Pad(x, ECDH_KEY_LEN), Pad(y, ECDH_KEY_LEN));
    }
    forall alg, s, coins ensures var e := c.encaps(alg, c.kemPublic(alg, s), coins);
      e.Some? && c.decaps(alg, s, e.value.0) == Some(e.value.1)
    {
      PadAgain(coins, SHARED_SECRET_LEN, CiphertextLength(alg));
    }
    forall s, t | |s| == |t| == ECDH_KEY_LEN && s != t ensures c.dhPublic(s) != c.dhPublic(t) {
      PadWhole(s);
      PadWhole(t);
    }
    assert DhLaws(c) && KemLaws(c) && SigLaws(c) && AeadLaws(c);
  }

  lemma PadWhole(s: Bytes)
    ensures Pad(s, |s|) == s
  {
  }
}
