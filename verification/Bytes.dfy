/** Bytes, byte strings and the network byte order of a 32-bit length. */
module Bytes {
  type byte = b: int | 0 <= b < 256
  type uint32 = n: int | 0 <= n < 0x1_0000_0000
  type Bytes = seq<byte>

  datatype Option<+T> = None | Some(value: T)

  function Min(a: nat, b: nat): nat { if a <= b then a else b }

  /** What `htonl` leaves in memory: the four bytes of n, most significant first. */
  function BigEndian(n: uint32): (r: Bytes)
    ensures |r| == 4
  {
    [n / 0x100_0000, n / 0x1_0000 % 0x100, n / 0x100 % 0x100, n % 0x100]
  }

  /** What `ntohl` reads back. */
  function FromBigEndian(s: Bytes): uint32
    requires |s| == 4
  {
    var a: int, b: int, c: int, d: int := s[0], s[1], s[2], s[3];
    a * 0x100_0000 + b * 0x1_0000 + c * 0x100 + d
  }

  lemma BigEndianDecodes(n: uint32)
    ensures FromBigEndian(BigEndian(n)) == n
  {
    var q := n / 0x1_0000;
    assert n / 0x100_0000 == q / 0x100;
    assert n / 0x100 == q * 0x100 + n % 0x1_0000 / 0x100;
  }

  lemma BigEndianIsOnto(s: Bytes)
    requires |s| == 4
    ensures BigEndian(FromBigEndian(s)) == s
  {
    var n := FromBigEndian(s);
    var a: int, b: int, c: int, d: int := s[0], s[1], s[2], s[3];
    assert n == a * 0x100_0000 + b * 0x1_0000 + c * 0x100 + d;
    assert n / 0x100 == a * 0x1_0000 + b * 0x100 + c;
    assert n / 0x1_0000 == a * 0x100 + b;
    assert n / 0x100_0000 == a;
  }

  /** The most significant byte comes first: lengths are ordered as their four bytes are, read from the left. */
  lemma BigEndianOrder(m: uint32, n: uint32)
    ensures var a, b := BigEndian(m), BigEndian(n);
      m < n <==>
        || a[0] < b[0]
        || (a[0] == b[0] && a[1] < b[1])
        || (a[0] == b[0] && a[1] == b[1] && a[2] < b[2])
        || (a[0] == b[0] && a[1] == b[1] && a[2] == b[2] && a[3] < b[3])
  {
    BigEndianDecodes(m);
    BigEndianDecodes(n);
  }

  /** A 32-bit length in network order, then the bytes: the form of a signature block and of a frame. */
  function Prefixed(m: Bytes): (r: Bytes)
    ensures |r| == 4 + |m|
  {
    BigEndian(|m| % 0x1_0000_0000) + m
  }

  lemma PrefixedIs(m: Bytes)
    requires |m| < 0x1_0000_0000
    ensures Prefixed(m) == BigEndian(|m|) + m
  {
  }
}
