/** The scalar codec: `detail::pack` and the public `pack` overloads, which convert the first len
    bytes of the caller's object to network order in place and copy a clipped prefix of it into the buffer. */
module ScalarCodec {
  import opened Bytes
  import opened Endian
  import opened Field

  /** `detail::pack`: zero-fills `count` bytes at `start`, then copies the first `count` bytes
      of `data` there. `count` is never zero: an empty comma fold does not compile. */
  method DetailPack(buffer: array<Byte>, start: nat, data: seq<Byte>, count: nat) returns (written: nat)
    requires 0 < count <= |data|
    requires start + count <= buffer.Length
    modifies buffer
    ensures written == count
    ensures buffer[..] == Overwrite(old(buffer[..]), start, data[..count])
  {
    // Zero-fill the count bytes at start.
    var i := start;
    while i < start + count
      invariant start <= i <= start + count
      invariant forall k :: 0 <= k < buffer.Length ==>
        buffer[k] == if start <= k < i then 0 else old(buffer[k])
    {
      buffer[i] := 0;
      i := i + 1;
    }
    // Copy the first count data bytes there.
    var j := 0;
    while j < count
      invariant 0 <= j <= count
      invariant forall k :: 0 <= k < buffer.Length ==>
        buffer[k] == if start <= k < start + j then data[k - start]
                     else if start + j <= k < start + count then 0
                     else old(buffer[k])
    {
      buffer[start + j] := data[j];
      j := j + 1;
    }
    written := count;
    ghost var want := Overwrite(old(buffer[..]), start, data[..count]);
    OverwriteAt(old(buffer[..]), start, data[..count]);
    assert forall k :: 0 <= k < buffer.Length ==> buffer[..][k] == want[k];
  }

  /** `pack<start, len>` for a reference or a pointer to `len` bytes: converts the caller's
      bytes to network order in place, then writes `min(len, size - start)` of them. */
  method Pack(hostBig: bool, buffer: array<Byte>, start: nat, data: array<Byte>, len: nat)
    returns (written: nat)
    requires buffer != data
    requires start < buffer.Length
    requires 0 < len <= data.Length
    modifies buffer, data
    ensures written == Min(len, buffer.Length - start)
    ensures data[..] == FlipIfLittle(hostBig, old(data[..len])) + old(data[len..])
    ensures buffer[..] == Overwrite(old(buffer[..]), start, FlipIfLittle(hostBig, old(data[..len]))[..written])
  {
    var seqCount := Min(len, buffer.Length - start);
    NetworkByteOrder(hostBig, data, len);
    ghost var network := data[..];
    written := DetailPack(buffer, start, data[..], seqCount);
    assert network[..seqCount] == FlipIfLittle(hostBig, old(data[..len]))[..seqCount];
  }

  /** `pack<start>`: as `Pack` with `len = sizeof(T)`, the whole object. */
  method PackValue(hostBig: bool, buffer: array<Byte>, start: nat, data: array<Byte>)
    returns (written: nat)
    requires buffer != data
    requires start < buffer.Length
    requires 0 < data.Length
    modifies buffer, data
    ensures written == Min(data.Length, buffer.Length - start)
    ensures data[..] == FlipIfLittle(hostBig, old(data[..]))
    ensures buffer[..] == Overwrite(old(buffer[..]), start, FlipIfLittle(hostBig, old(data[..]))[..written])
  {
    assert data[..] == data[..data.Length];
    written := Pack(hostBig, buffer, start, data, data.Length);
  }

  /** The buffer after packing the n-byte integer `v` at `start`, as `Pack` leaves it. */
  function PackedScalar(hostBig: bool, buffer: seq<Byte>, start: nat, v: nat, n: nat): (r: seq<Byte>)
    requires start < |buffer|
    ensures |r| == |buffer|
  {
    Overwrite(buffer, start, FlipIfLittle(hostBig, HostBytes(hostBig, v, n))[..Min(n, |buffer| - start)])
  }

  /** What a scalar pack writes: the first `min(n, size - start)` bytes of the big-endian
      encoding, so clipping keeps the most significant bytes; nothing else changes. */
  lemma PackedScalarBytes(hostBig: bool, buffer: seq<Byte>, start: nat, v: nat, n: nat)
    requires start < |buffer|
    ensures forall i :: 0 <= i < |buffer| ==>
      PackedScalar(hostBig, buffer, start, v, n)[i] ==
        if start <= i < start + Min(n, |buffer| - start) then BigEndianBytes(v, n)[i - start]
        else buffer[i]
  {
    NetworkBytesAreBigEndian(hostBig, v, n);
    OverwriteAt(buffer, start, FlipIfLittle(hostBig, HostBytes(hostBig, v, n))[..Min(n, |buffer| - start)]);
  }

  /** One byte of room keeps the high byte: `pack<start>` of the two-byte 0x0102 into a
      one-byte buffer writes 0x01 on either host. */
  lemma ScalarKeepsHighByte(hostBig: bool)
    ensures PackedScalar(hostBig, [0], 0, 0x0102, 2) == [0x01]
  {
    assert BigEndianBytes(0x0102, 2) == [0x01, 0x02] by {
      assert BigEndianBytes(0x01, 1) == [0x01] by {
        assert BigEndianBytes(0, 0) == [];
      }
    }
    PackedScalarBytes(hostBig, [0], 0, 0x0102, 2);
    assert PackedScalar(hostBig, [0], 0, 0x0102, 2)[0] == 0x01;
  }

  /** `pack<start, len>` with len below the object's size converts only the object's first len
      memory bytes. For an n-byte integer v, those network-order bytes are the len most
      significant bytes of v on a big-endian host but the len-byte encoding of its low bytes
      (v modulo 256^len) on a little-endian host. */
  lemma ShortPackBytes(hostBig: bool, v: nat, n: nat, len: nat)
    requires len <= n
    ensures FlipIfLittle(hostBig, HostBytes(hostBig, v, n)[..len])
         == if hostBig then BigEndianBytes(v, n)[..len] else BigEndianBytes(v, len)
  {
    if !hostBig {
      LittleEndianPrefix(v, n, len);
      LittleIsReversedBig(v, len);
      ReversedTwice(BigEndianBytes(v, len));
    }
  }

  /** The two-byte 0x0102 packed with `pack<start, 1>`: its one network-order byte is 0x01 on a
      big-endian host and 0x02 on a little-endian one. */
  lemma ShortPackHostsDiffer()
    ensures FlipIfLittle(true, HostBytes(true, 0x0102, 2)[..1]) == [0x01]
    ensures FlipIfLittle(false, HostBytes(false, 0x0102, 2)[..1]) == [0x02]
  {
    assert BigEndianBytes(0x0102, 2) == [0x01, 0x02] by {
      assert BigEndianBytes(0x01, 1) == [0x01] by {
        assert BigEndianBytes(0, 0) == [];
      }
    }
    ShortPackBytes(true, 0x0102, 2, 1);
    ShortPackBytes(false, 0x0102, 2, 1);
    assert BigEndianBytes(0x0102, 1) == [0x02] by {
      assert BigEndianBytes(0x0102 / 256, 0) == [];
    }
  }

  /** When the whole integer fits, its field holds exactly its big-endian encoding. */
  lemma PackedScalarField(hostBig: bool, buffer: seq<Byte>, start: nat, v: nat, n: nat)
    requires start + n <= |buffer| && start < |buffer|
    ensures PackedScalar(hostBig, buffer, start, v, n)[start..start + n] == BigEndianBytes(v, n)
  {
    NetworkBytesAreBigEndian(hostBig, v, n);
    assert FlipIfLittle(hostBig, HostBytes(hostBig, v, n))[..Min(n, |buffer| - start)] == BigEndianBytes(v, n);
    OverwriteSlice(buffer, start, BigEndianBytes(v, n));
  }

  /** Scalar round trip: unpacking a fully packed integer and reading it back as an integer
      gives the value it had before packing, on either host. */
  lemma ScalarRoundTrip(hostBig: bool, buffer: seq<Byte>, start: nat, v: nat, n: nat)
    requires start + n <= |buffer| && start < |buffer|
    requires v < Pow256(n)
    ensures Unpack(hostBig, PackedScalar(hostBig, buffer, start, v, n), start, n).ToScalar(hostBig, n) == v
  {
    PackedScalarField(hostBig, buffer, start, v, n);
    UnpackedScalarIsBigEndian(hostBig, PackedScalar(hostBig, buffer, start, v, n), start, n);
    BigEndianRoundTrip(v, n);
  }

  /** A caller's `pack<start>(buffer, v)` followed by `unpack<start, sizeof(T)>(buffer).to<T>()`. */
  method PackThenUnpack(hostBig: bool, buffer: array<Byte>, start: nat, v: nat, n: nat)
    returns (written: nat, back: nat)
    requires 0 < n && start + n <= buffer.Length
    requires v < Pow256(n)
    modifies buffer
    ensures written == n
    ensures back == v
    ensures buffer[..] == PackedScalar(hostBig, old(buffer[..]), start, v, n)
  {
    ghost var before := buffer[..];
    var mem := HostBytes(hostBig, v, n);
    var data := new Byte[n](i requires 0 <= i < n => mem[i]);
    assert data[..] == mem;
    written := PackValue(hostBig, buffer, start, data);
    assert buffer[..] == PackedScalar(hostBig, before, start, v, n);
    ScalarRoundTrip(hostBig, before, start, v, n);
    back := Unpack(hostBig, buffer[..], start, n).ToScalar(hostBig, n);
  }
}
