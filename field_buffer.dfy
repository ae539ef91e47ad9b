/** `array_buffer`: the null-terminated holder an unpack returns, its typed views, the
    `host_byte_order` overload that skips the terminator, and the scalar `unpack`. */
module Field {
  import opened Bytes
  import opened Endian

  /** `array_buffer<sz>`: `sz` bytes whose last one is the reserved terminator. */
  datatype ArrayBuffer = ArrayBuffer(bytes: seq<Byte>)
  {
    /** `to<T>()` for an unsigned integer type T of `width` bytes: reads the first `width`
        bytes as the host lays such an integer out in memory. */
    function ToScalar(hostBig: bool, width: nat): (v: nat)
      requires width <= |bytes|
      ensures v < Pow256(width)
      ensures HostBytes(hostBig, v, width) == bytes[..width]
    {
      HostValue(hostBig, bytes[..width])
    }

    /** `to<std::string>()`: the bytes before the first zero. The holder must contain a zero,
        or `std::string(char*)` would read past it. */
    function ToString(): (s: seq<Byte>)
      requires 0 in bytes
      ensures |s| < |bytes| && s == bytes[..|s|]
      ensures 0 !in s
      ensures bytes[|s|] == 0
    {
      bytes[..StrLen(bytes)]
    }
  }

  /** `host_byte_order` for an `array_buffer<len>`: converts the `len - 1` data bytes and
      never moves the terminator. */
  function HostByteOrderBuffer(hostBig: bool, b: ArrayBuffer): (r: ArrayBuffer)
    requires |b.bytes| >= 1
    ensures |r.bytes| == |b.bytes|
    ensures r.bytes[|b.bytes| - 1] == b.bytes[|b.bytes| - 1]
    ensures r.bytes[..|b.bytes| - 1] == FlipIfLittle(hostBig, b.bytes[..|b.bytes| - 1])
  {
    var n := |b.bytes| - 1;
    ArrayBuffer(FlipIfLittle(hostBig, b.bytes[..n]) + b.bytes[n..])
  }

  /** Converting an `array_buffer` twice restores it. */
  lemma HostByteOrderBufferTwice(hostBig: bool, b: ArrayBuffer)
    requires |b.bytes| >= 1
    ensures HostByteOrderBuffer(hostBig, HostByteOrderBuffer(hostBig, b)) == b
  {
    var n := |b.bytes| - 1;
    var r := HostByteOrderBuffer(hostBig, HostByteOrderBuffer(hostBig, b));
    FlipIfLittleTwice(hostBig, b.bytes[..n]);
    assert r.bytes == b.bytes[..n] + b.bytes[n..];
    assert b.bytes == b.bytes[..n] + b.bytes[n..];
  }

  /** `detail::unpack`: a new holder of the `count` bytes at `start`, then a zero. */
  function DetailUnpack(buffer: seq<Byte>, start: nat, count: nat): (r: ArrayBuffer)
    requires start + count <= |buffer|
    ensures |r.bytes| == count + 1
    ensures r.bytes[..count] == buffer[start..start + count]
    ensures r.bytes[count] == 0
  {
    ArrayBuffer(buffer[start..start + count] + [0])
  }

  /** `unpack<start, len>`: the `len` bytes at `start` in host order, then the terminator. */
  function Unpack(hostBig: bool, buffer: seq<Byte>, start: nat, len: nat): (r: ArrayBuffer)
    requires start + len <= |buffer|
    ensures |r.bytes| == len + 1
    ensures r.bytes[len] == 0
    ensures r.bytes[..len] == FlipIfLittle(hostBig, buffer[start..start + len])
    ensures FlipIfLittle(hostBig, r.bytes[..len]) == buffer[start..start + len]
  {
    FlipIfLittleTwice(hostBig, buffer[start..start + len]);
    HostByteOrderBuffer(hostBig, DetailUnpack(buffer, start, Min(len, |buffer| - start)))
  }

  /** Whatever the buffer holds, the string view of an unpacked field has at most `len` bytes
      and never contains a zero, so the terminator never becomes part of it. */
  lemma UnpackedStringBounded(hostBig: bool, buffer: seq<Byte>, start: nat, len: nat)
    requires start + len <= |buffer|
    ensures |Unpack(hostBig, buffer, start, len).ToString()| <= len
    ensures 0 !in Unpack(hostBig, buffer, start, len).ToString()
  {
    var b := Unpack(hostBig, buffer, start, len);
    assert b.bytes[len] == 0;
  }

  /** Reading an unpacked field as an integer decodes the buffer's bytes as big-endian, on
      either host. */
  lemma UnpackedScalarIsBigEndian(hostBig: bool, buffer: seq<Byte>, start: nat, len: nat)
    requires start + len <= |buffer|
    ensures Unpack(hostBig, buffer, start, len).ToScalar(hostBig, len)
         == BigEndianValue(buffer[start..start + len])
  {
    HostValueOfNetworkBytes(hostBig, buffer[start..start + len]);
  }
}
