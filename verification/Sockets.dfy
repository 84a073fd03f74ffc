/** A connected stream socket and the two loops that move an exact number of bytes through it. */
module Sockets {
  import opened Bytes

  /**
   * One end of a byte stream. `incoming` is what the peer and the network will still deliver
   * before end-of-file or an error; `room` is how many more bytes they will accept before a
   * write fails. How many bytes one call moves is left open, so every chunking is covered.
   */
  class Socket {
    var incoming: Bytes
    var room: nat
    ghost var received: Bytes
    ghost var sent: Bytes

    constructor (incoming: Bytes, room: nat)
      ensures this.incoming == incoming && this.room == room
      ensures received == [] && sent == []
    {
      this.incoming, this.room := incoming, room;
      received, sent := [], [];
    }

    /** read(2): a positive count of bytes stored at buf[off..], or a result <= 0. */
    method Read(buf: array<byte>, off: nat, n: nat) returns (r: int)
      requires 0 < n && off + n <= buf.Length
      modifies this`incoming, this`received, buf
      ensures r > 0 <==> old(incoming) != []
      ensures r > 0 ==>
        && r <= n && r <= |old(incoming)|
        && incoming == old(incoming)[r..]
        && received == old(received) + old(incoming)[..r]
        && buf[..off] == old(buf[..off]) && buf[off..off + r] == old(incoming)[..r] && buf[off + r..] == old(buf[off + r..])
      ensures r <= 0 ==> incoming == [] && received == old(received) && buf[..] == old(buf[..])
    {
      if incoming == [] {
        r :| r <= 0;
      } else {
        var m := Min(n, |incoming|);
        r :| 1 <= r <= m;
        forall k | 0 <= k < r {
          buf[off + k] := incoming[k];
        }
        received := received + incoming[..r];
        incoming := incoming[r..];
      }
    }

    /** write(2): a positive count of bytes taken from data, or a result <= 0. */
    method Write(data: Bytes) returns (w: int)
      requires data != []
      modifies this`room, this`sent
      ensures w > 0 <==> old(room) > 0
      ensures w > 0 ==>
        && w <= |data| && w <= old(room)
        && room == old(room) - w
        && sent == old(sent) + data[..w]
      ensures w <= 0 ==> room == 0 && sent == old(sent)
    {
      if room == 0 {
        w :| w <= 0;
      } else {
        var m := Min(|data|, room);
        w :| 1 <= w <= m;
        sent := sent + data[..w];
        room := room - w;
      }
    }
  }

  /** memcpy into buf at an offset. */
  method CopyInto(buf: array<byte>, off: nat, src: Bytes)
    requires off + |src| <= buf.Length
    modifies buf
    ensures buf[..off] == old(buf[..off])
    ensures buf[off..off + |src|] == src
    ensures buf[off + |src|..] == old(buf[off + |src|..])
  {
    forall k | 0 <= k < |src| {
      buf[off + k] := src[k];
    }
  }

  lemma TakeMore(s: Bytes, got: nat, r: nat)
    requires got + r <= |s|
    ensures s[..got + r] == s[..got] + s[got..][..r]
    ensures s[got + r..] == s[got..][r..]
  {
  }

  /** read_exact: fills the first n bytes of buf, or fails with the stream used up. */
  method ReadExact(fd: Socket, buf: array<byte>, n: nat) returns (rc: int)
    requires n <= buf.Length
    modifies fd`incoming, fd`received, buf
    ensures rc == 0 || rc == -1
    ensures rc == 0 <==> n <= |old(fd.incoming)|
    ensures rc == 0 ==>
      && fd.incoming == old(fd.incoming)[n..]
      && fd.received == old(fd.received) + old(fd.incoming)[..n]
      && buf[..n] == old(fd.incoming)[..n]
    ensures rc != 0 ==> fd.incoming == [] && fd.received == old(fd.received) + old(fd.incoming)
    ensures buf[n..] == old(buf[n..])
  {
    var got := 0;
    ghost var input, before, tail := fd.incoming, fd.received, buf[n..];
    while got < n
      invariant got <= n && got <= |input|
      invariant fd.incoming == input[got..]
      invariant fd.received == before + input[..got]
      invariant buf[..got] == input[..got] && buf[n..] == tail
    {
      var r := fd.Read(buf, got, n - got);
      if r <= 0 {
        assert input[..got] == input;
        return -1;
      }
      TakeMore(input, got, r);
      assert buf[..got + r] == buf[..got] + buf[got..got + r];
      got := got + r;
    }
    return 0;
  }

  /**
   * What a sequence of writes leaves behind: `sent` has grown by a prefix of data, by all of it
   * iff rc is 0; a failure means that the stream accepts no more.
   */
  ghost predicate Wrote(before: Bytes, after: Bytes, data: Bytes, rc: int, room: nat) {
    && (rc == 0 || rc == -1)
    && (rc == 0 ==> after == before + data)
    && (rc != 0 ==> room == 0)
    && (rc != 0 ==> |before| <= |after| < |before| + |data| && after == before + data[..|after| - |before|])
  }

  lemma WroteThenWrote(s0: Bytes, s1: Bytes, s2: Bytes, a: Bytes, b: Bytes, rc: int, room0: nat, room: nat)
    requires Wrote(s0, s1, a, 0, room0) && Wrote(s1, s2, b, rc, room)
    ensures Wrote(s0, s2, a + b, rc, room)
  {
    if rc != 0 {
      assert (a + b)[..|s2| - |s0|] == a + b[..|s2| - |s1|];
    }
  }

  lemma WroteAndStopped(s0: Bytes, s1: Bytes, a: Bytes, b: Bytes, rc: int, room: nat)
    requires Wrote(s0, s1, a, rc, room) && rc != 0
    ensures Wrote(s0, s1, a + b, rc, room)
  {
    assert (a + b)[..|s1| - |s0|] == a[..|s1| - |s0|];
  }

  /** write_exact: hands all of data to the stream, or fails with the stream accepting no more. */
  method WriteExact(fd: Socket, data: Bytes) returns (rc: int)
    modifies fd`room, fd`sent
    ensures Wrote(old(fd.sent), fd.sent, data, rc, fd.room)
    ensures rc == 0 <==> |data| <= old(fd.room)
    ensures rc == 0 ==> fd.room == old(fd.room) - |data|
  {
    var sent := 0;
    while sent < |data|
      invariant sent <= |data| && sent <= old(fd.room)
      invariant fd.room == old(fd.room) - sent
      invariant fd.sent == old(fd.sent) + data[..sent]
    {
      var w := fd.Write(data[sent..]);
      if w <= 0 {
        return -1;
      }
      assert data[..sent + w] == data[..sent] + data[sent..][..w];
      sent := sent + w;
    }
    assert data[..sent] == data;
    return 0;
  }
}
