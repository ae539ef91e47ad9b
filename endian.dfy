/** The endianness engine: byte reversal, big-endian encoding of unsigned integers, the host's
    in-memory layout of an integer, host detection and the in-place byte-order conversions. */
module Endian {
  import opened Bytes

  /** `s` in reverse order. */
  function Reversed(s: seq<Byte>): (r: seq<Byte>)
    ensures |r| == |s|
  {
    if s == [] then [] else [s[|s| - 1]] + Reversed(s[..|s| - 1])
  }

  /** Byte i of the reversal is byte |s| - 1 - i of the original. */
  lemma {:induction false} ReversedAt(s: seq<Byte>)
    ensures forall i :: 0 <= i < |s| ==> Reversed(s)[i] == s[|s| - 1 - i]
  {
    if s != [] {
      ReversedAt(s[..|s| - 1]);
    }
  }

  lemma ReversedTwice(s: seq<Byte>)
    ensures Reversed(Reversed(s)) == s
  {
    ReversedAt(s);
    ReversedAt(Reversed(s));
    var r := Reversed(Reversed(s));
    assert forall i :: 0 <= i < |s| ==> r[i] == s[i];
  }

  /** What both `network_byte_order` and `host_byte_order` do to a byte range: nothing on a
      big-endian host, a reversal on a little-endian one. */
  function FlipIfLittle(hostBig: bool, s: seq<Byte>): (r: seq<Byte>)
    ensures |r| == |s|
  {
    if hostBig then s else Reversed(s)
  }

  /** Converting to network order and back to host order (or the reverse) restores the bytes. */
  lemma {:induction false} FlipIfLittleTwice(hostBig: bool, s: seq<Byte>)
    ensures FlipIfLittle(hostBig, FlipIfLittle(hostBig, s)) == s
  {
    if !hostBig {
      ReversedTwice(s);
    }
  }

  function Pow256(n: nat): (p: nat)
    ensures p > 0
  {
    if n == 0 then 1 else 256 * Pow256(n - 1)
  }

  /** The n-byte network-order (most significant byte first) encoding of `v` modulo 256^n. */
  function BigEndianBytes(v: nat, n: nat): (r: seq<Byte>)
    ensures |r| == n
  {
    if n == 0 then [] else BigEndianBytes(v / 256, n - 1) + [v % 256]
  }

  /** The unsigned integer whose network-order encoding is `s`. */
  function BigEndianValue(s: seq<Byte>): (v: nat)
    ensures v < Pow256(|s|)
  {
    if s == [] then 0
    else
      var w := BigEndianValue(s[..|s| - 1]);
      assert w * 256 + s[|s| - 1] < Pow256(|s| - 1) * 256 by {
        assert w * 256 <= (Pow256(|s| - 1) - 1) * 256;
      }
      w * 256 + s[|s| - 1]
  }

  lemma {:induction false} BigEndianRoundTrip(v: nat, n: nat)
    requires v < Pow256(n)
    ensures BigEndianValue(BigEndianBytes(v, n)) == v
  {
    if n > 0 {
      var r := BigEndianBytes(v, n);
      assert r[..n - 1] == BigEndianBytes(v / 256, n - 1);
      assert v / 256 < Pow256(n - 1);
      BigEndianRoundTrip(v / 256, n - 1);
    }
  }

  lemma {:induction false} BigEndianBytesOfValue(s: seq<Byte>)
    ensures BigEndianBytes(BigEndianValue(s), |s|) == s
  {
    if s != [] {
      var n := |s|;
      var w := BigEndianValue(s[..n - 1]);
      var v := BigEndianValue(s);
      assert v == w * 256 + s[n - 1];
      assert v / 256 == w && v % 256 == s[n - 1];
      BigEndianBytesOfValue(s[..n - 1]);
      assert s == s[..n - 1] + [s[n - 1]];
    }
  }

  /** The n-byte little-endian (least significant byte first) encoding of `v` modulo 256^n. */
  function LittleEndianBytes(v: nat, n: nat): (r: seq<Byte>)
    ensures |r| == n
  {
    if n == 0 then [] else [v % 256] + LittleEndianBytes(v / 256, n - 1)
  }

  /** Byte i of the little-endian encoding is digit i of `v` in base 256. */
  lemma {:induction false} LittleEndianBytesAt(v: nat, n: nat, i: nat)
    requires i < n
    ensures LittleEndianBytes(v, n)[i] == v / Pow256(i) % 256
  {
    if i > 0 {
      LittleEndianBytesAt(v / 256, n - 1, i - 1);
      DivDiv(v, Pow256(i - 1));
    }
  }

  /** Dividing by 256 and then by b is dividing by 256 * b. */
  lemma DivDiv(v: nat, b: nat)
    requires b > 0
    ensures v / 256 / b == v / (256 * b)
  {
    var w := v / 256;
    var q := w / b;
    var r := w % b * 256 + v % 256;
    assert v == w * 256 + v % 256;
    assert w == q * b + w % b;
    assert w * 256 == q * (256 * b) + w % b * 256 by {
      assert w * 256 == (q * b + w % b) * 256;
    }
    assert v == q * (256 * b) + r;
    assert r < 256 * b by {
      assert w % b * 256 <= (b - 1) * 256;
    }
    DivUnique(v, 256 * b, q, r);
  }

  /** The quotient is the unique q with v == q * d + r and 0 <= r < d. */
  lemma DivUnique(v: nat, d: nat, q: nat, r: nat)
    requires d > 0 && r < d && v == q * d + r
    ensures v / d == q
  {
    var k: int := v / d - q;
    assert v == v / d * d + v % d;
    assert k * d == v / d * d - q * d;
    assert k * d == r - v % d;
    if k >= 1 {
      MulAtLeast(k, d);
    } else if k <= -1 {
      MulAtLeast(-k, d);
    }
  }

  /** A positive multiple of d is at least d. */
  lemma MulAtLeast(k: int, d: nat)
    requires k >= 1 && d > 0
    ensures k * d >= d
  {
    assert k * d == d + (k - 1) * d;
  }

  /** The little-endian encoding is the big-endian one read backwards. */
  lemma {:induction false} LittleIsReversedBig(v: nat, n: nat)
    ensures LittleEndianBytes(v, n) == Reversed(BigEndianBytes(v, n))
  {
    if n > 0 {
      var b := BigEndianBytes(v, n);
      assert b[|b| - 1] == v % 256;
      assert b[..|b| - 1] == BigEndianBytes(v / 256, n - 1);
      LittleIsReversedBig(v / 256, n - 1);
    }
  }

  /** The first c bytes of the little-endian encoding are the c-byte encoding: the low bytes
      of `v`. */
  lemma {:induction false} LittleEndianPrefix(v: nat, n: nat, c: nat)
    requires c <= n
    ensures LittleEndianBytes(v, n)[..c] == LittleEndianBytes(v, c)
  {
    if c > 0 {
      LittleEndianPrefix(v / 256, n - 1, c - 1);
      assert LittleEndianBytes(v, n)[..c] == [v % 256] + LittleEndianBytes(v / 256, n - 1)[..c - 1];
    }
  }

  /** How the host lays out the n-byte unsigned integer `v` in memory: most significant byte
      first on a big-endian host, least significant first on a little-endian one. */
  function HostBytes(hostBig: bool, v: nat, n: nat): (r: seq<Byte>)
    ensures |r| == n
  {
    if hostBig then BigEndianBytes(v, n) else LittleEndianBytes(v, n)
  }

  /** The host layout is the big-endian encoding, reversed on a little-endian host. */
  lemma HostBytesFlipped(hostBig: bool, v: nat, n: nat)
    ensures HostBytes(hostBig, v, n) == FlipIfLittle(hostBig, BigEndianBytes(v, n))
  {
    if !hostBig {
      LittleIsReversedBig(v, n);
    }
  }

  /** Reading the bytes `s` of memory as an unsigned integer of |s| bytes (`*(T*)buffer`). */
  function HostValue(hostBig: bool, s: seq<Byte>): (v: nat)
    ensures v < Pow256(|s|)
    ensures HostBytes(hostBig, v, |s|) == s
  {
    var v := BigEndianValue(FlipIfLittle(hostBig, s));
    BigEndianBytesOfValue(FlipIfLittle(hostBig, s));
    FlipIfLittleTwice(hostBig, s);
    HostBytesFlipped(hostBig, v, |s|);
    v
  }

  /** On either host, converting an integer's memory bytes to network order yields its
      big-endian encoding. */
  lemma NetworkBytesAreBigEndian(hostBig: bool, v: nat, n: nat)
    ensures FlipIfLittle(hostBig, HostBytes(hostBig, v, n)) == BigEndianBytes(v, n)
  {
    HostBytesFlipped(hostBig, v, n);
    FlipIfLittleTwice(hostBig, BigEndianBytes(v, n));
  }

  /** Host-order decoding of a network-order range is the big-endian value of the range. */
  lemma HostValueOfNetworkBytes(hostBig: bool, s: seq<Byte>)
    ensures HostValue(hostBig, FlipIfLittle(hostBig, s)) == BigEndianValue(s)
  {
    FlipIfLittleTwice(hostBig, s);
  }

  /** `is_big_endian`: stores the 16-bit pattern 0x1234 and inspects the byte at its address. */
  function IsBigEndian(hostBig: bool): (r: bool)
    ensures r == hostBig
  {
    var mem := HostBytes(hostBig, 0x1234, 2);
    assert BigEndianBytes(0x1234, 2) == [0x12, 0x34] by {
      assert BigEndianBytes(0x12, 1) == [0x12] by {
        assert BigEndianBytes(0, 0) == [];
      }
    }
    mem[0] == 0x12
  }

  /** `reverse_raw_buffer<len>`: swaps `buffer[i]` with `buffer[len - 1 - i]` for i < len / 2. */
  method ReverseRawBuffer(buffer: array<Byte>, len: nat)
    requires len <= buffer.Length
    modifies buffer
    ensures buffer[..] == Reversed(old(buffer[..len])) + old(buffer[len..])
  {
    var i := 0;
    while i < len / 2
      invariant 0 <= i <= len / 2
      invariant forall k :: 0 <= k < i ==>
        buffer[k] == old(buffer[len - 1 - k]) && buffer[len - 1 - k] == old(buffer[k])
      invariant forall k :: i <= k < len - i ==> buffer[k] == old(buffer[k])
      invariant forall k :: len <= k < buffer.Length ==> buffer[k] == old(buffer[k])
    {
      buffer[i], buffer[len - 1 - i] := buffer[len - 1 - i], buffer[i];
      i := i + 1;
    }
    ghost var before := old(buffer[..]);
    ghost var want := Reversed(before[..len]) + before[len..];
    ReversedAt(before[..len]);
    forall k | 0 <= k < buffer.Length
      ensures buffer[k] == want[k]
    {
      if k < len {
        assert want[k] == before[len - 1 - k];
      }
    }
    assert buffer[..] == want;
  }

  /** `detail::flip_byte_order_if_little_endian<len>`. */
  method FlipByteOrderIfLittleEndian(hostBig: bool, buffer: array<Byte>, len: nat)
    requires len <= buffer.Length
    modifies buffer
    ensures buffer[..] == FlipIfLittle(hostBig, old(buffer[..len])) + old(buffer[len..])
  {
    if !IsBigEndian(hostBig) {
      ReverseRawBuffer(buffer, len);
    } else {
      assert buffer[..] == buffer[..len] + buffer[len..];
    }
  }

  /** `network_byte_order<len>`: host order to network order, in place. */
  method NetworkByteOrder(hostBig: bool, buffer: array<Byte>, len: nat)
    requires len <= buffer.Length
    modifies buffer
    ensures buffer[..] == FlipIfLittle(hostBig, old(buffer[..len])) + old(buffer[len..])
  {
    FlipByteOrderIfLittleEndian(hostBig, buffer, len);
  }

  /** `host_byte_order<len>` on a raw pointer: network order to host order, in place. */
  method HostByteOrder(hostBig: bool, buffer: array<Byte>, len: nat)
    requires len <= buffer.Length
    modifies buffer
    ensures buffer[..] == FlipIfLittle(hostBig, old(buffer[..len])) + old(buffer[len..])
  {
    FlipByteOrderIfLittleEndian(hostBig, buffer, len);
  }
}
