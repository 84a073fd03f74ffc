/** Length-prefixed framing of a byte stream. */
module Framing {
  import opened Bytes
  import opened Sockets

  predicate Framable(m: Bytes, cap: nat) { |m| <= cap && |m| < 0x1_0000_0000 }

  function Frames(ms: seq<Bytes>): Bytes {
    if ms == [] then [] else Prefixed(ms[0]) + Frames(ms[1..])
  }

  datatype OneFrame = OneFrame(payload: Bytes, rest: Bytes)

  /** What frame_read makes of a stream that will deliver exactly s; None is its -1. */
  function ReadFrame(s: Bytes, cap: nat): Option<OneFrame> {
    if |s| < 4 then None
    else
      var len := FromBigEndian(s[..4]);
      if len > cap || |s| < 4 + len then None
      else Some(OneFrame(s[4..4 + len], s[4 + len..]))
  }

  /** The payloads of repeated frame_read calls, up to the first -1. */
  function ReadAll(s: Bytes, cap: nat): seq<Bytes>
    decreases |s|
  {
    match ReadFrame(s, cap)
    case None => []
    case Some(f) => [f.payload] + ReadAll(f.rest, cap)
  }

  /** What is left of the stream at the first -1. */
  function Leftover(s: Bytes, cap: nat): Bytes
    decreases |s|
  {
    match ReadFrame(s, cap)
    case None => s
    case Some(f) => Leftover(f.rest, cap)
  }

  /** How many of the messages lie entirely within the first n bytes of their framing. */
  function WholeFrames(ms: seq<Bytes>, n: nat): (k: nat)
    ensures k <= |ms|
  {
    if ms == [] || n < 4 + |ms[0]| then 0 else 1 + WholeFrames(ms[1..], n - 4 - |ms[0]|)
  }

  /** The first k messages are whole exactly when n reaches to the end of their framing. */
  lemma {:induction false} WholeFramesIff(ms: seq<Bytes>, n: nat, k: nat)
    requires k <= |ms|
    ensures k <= WholeFrames(ms, n) <==> |Frames(ms[..k])| <= n
  {
    if k == 0 {
    } else {
      assert ms[..k][0] == ms[0] && ms[..k][1..] == ms[1..][..k - 1];
      if n >= 4 + |ms[0]| {
        WholeFramesIff(ms[1..], n - 4 - |ms[0]|, k - 1);
      }
    }
  }

  lemma ReadFrameOfFrame(m: Bytes, tail: Bytes, cap: nat)
    requires Framable(m, cap)
    ensures ReadFrame(Prefixed(m) + tail, cap) == Some(OneFrame(m, tail))
  {
    var s := Prefixed(m) + tail;
    assert s[..4] == BigEndian(|m|);
    BigEndianDecodes(|m|);
    assert s[4..4 + |m|] == m;
    assert s[4 + |m|..] == tail;
  }

  /** A proper prefix of one frame yields nothing. */
  lemma ReadFrameOfPart(m: Bytes, n: nat, cap: nat)
    requires Framable(m, cap) && n < 4 + |m|
    ensures ReadFrame(Prefixed(m)[..n], cap).None?
  {
    if n >= 4 {
      assert Prefixed(m)[..n][..4] == BigEndian(|m|);
      BigEndianDecodes(|m|);
    }
  }

  /**
   * A stream cut anywhere. Repeated frame_read returns exactly the messages whose frames arrived
   * whole, in order, and then -1.
   */
  lemma {:induction false} CutStream(ms: seq<Bytes>, n: nat, cap: nat)
    requires forall m :: m in ms ==> Framable(m, cap)
    requires n <= |Frames(ms)|
    ensures ReadAll(Frames(ms)[..n], cap) == ms[..WholeFrames(ms, n)]
  {
    if ms == [] {
    } else {
      var m, rest := ms[0], Frames(ms[1..]);
      var s := Frames(ms)[..n];
      if n < 4 + |m| {
        assert s == Prefixed(m)[..n];
        ReadFrameOfPart(m, n, cap);
      } else {
        var n' := n - 4 - |m|;
        assert s == Prefixed(m) + rest[..n'];
        ReadFrameOfFrame(m, rest[..n'], cap);
        CutStream(ms[1..], n', cap);
      }
    }
  }

  lemma {:induction false} AllWhole(ms: seq<Bytes>)
    ensures WholeFrames(ms, |Frames(ms)|) == |ms|
  {
    if ms == [] {
    } else {
      AllWhole(ms[1..]);
    }
  }

  /** The round trip: an uncut stream gives back every message. */
  lemma FramesRoundTrip(ms: seq<Bytes>, cap: nat)
    requires forall m :: m in ms ==> Framable(m, cap)
    ensures ReadAll(Frames(ms), cap) == ms
  {
    CutStream(ms, |Frames(ms)|, cap);
    assert Frames(ms)[..|Frames(ms)|] == Frames(ms);
    AllWhole(ms);
  }

  lemma ReadFrameIsExact(s: Bytes, cap: nat)
    ensures match ReadFrame(s, cap)
      case None => true
      case Some(f) => Framable(f.payload, cap) && s == Prefixed(f.payload) + f.rest
  {
    if ReadFrame(s, cap).Some? {
      BigEndianIsOnto(s[..4]);
      var f := ReadFrame(s, cap).value;
      assert s == s[..4] + f.payload + f.rest;
    }
  }

  /** The other direction, for any stream at all: what was read, framed again, is what was consumed. */
  lemma {:induction false} ReadAllIsExact(s: Bytes, cap: nat)
    ensures Frames(ReadAll(s, cap)) + Leftover(s, cap) == s
    ensures ReadFrame(Leftover(s, cap), cap).None?
    ensures forall m :: m in ReadAll(s, cap) ==> Framable(m, cap)
    decreases |s|
  {
    ReadFrameIsExact(s, cap);
    if ReadFrame(s, cap).Some? {
      var f := ReadFrame(s, cap).value;
      ReadAllIsExact(f.rest, cap);
      var tail := ReadAll(f.rest, cap);
      assert ([f.payload] + tail)[1..] == tail;
      assert Frames(ReadAll(s, cap)) == Prefixed(f.payload) + Frames(tail);
    }
  }

  lemma {:induction false} FramesConcat(a: seq<Bytes>, b: seq<Bytes>)
    ensures Frames(a + b) == Frames(a) + Frames(b)
  {
    if a == [] {
      assert a + b == b;
    } else {
      assert (a + b)[1..] == a[1..] + b;
      FramesConcat(a[1..], b);
    }
  }

  // ---- frame.h ----

  method FrameWrite(fd: Socket, data: Bytes) returns (rc: int)
    requires |data| < 0x1_0000_0000
    modifies fd`room, fd`sent
    ensures Wrote(old(fd.sent), fd.sent, Prefixed(data), rc, fd.room)
  {
    ghost var before := fd.sent;
    var header := BigEndian(|data|);
    PrefixedIs(data);
    rc := WriteExact(fd, header);
    if rc != 0 {
      WroteAndStopped(before, fd.sent, header, data, rc, fd.room);
      return;
    }
    ghost var mid, room := fd.sent, fd.room;
    rc := WriteExact(fd, data);
    WroteThenWrote(before, mid, fd.sent, header, data, rc, room, fd.room);
  }

  method FrameRead(fd: Socket, buf: array<byte>, cap: nat) returns (rc: int, outLen: nat)
    requires cap <= buf.Length
    modifies fd`incoming, fd`received, buf
    ensures fd.received + fd.incoming == old(fd.received + fd.incoming)
    ensures rc == 0 || rc == -1
    ensures match ReadFrame(old(fd.incoming), cap)
      case None => rc == -1
      case Some(f) => rc == 0 && outLen == |f.payload| <= cap && buf[..outLen] == f.payload && fd.incoming == f.rest
  {
    var header := new byte[4](_ => 0);
    ghost var input := fd.incoming;
    rc := ReadExact(fd, header, 4);
    if rc != 0 {
      return -1, 0;
    }
    var len := FromBigEndian(header[..]);
    assert header[..] == input[..4];
    if len > cap {
      return -1, 0;
    }
    rc := ReadExact(fd, buf, len);
    if rc != 0 {
      return -1, 0;
    }
    assert input[4..][..len] == input[4..4 + len];
    assert input[4..][len..] == input[4 + len..];
    return 0, len;
  }
}
