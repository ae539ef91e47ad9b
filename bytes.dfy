/** Bytes, the `min` macro, C-string length and the overwrite that every codec write performs. */
module Bytes {

  /** An unsigned 8-bit value (`std::uint8_t`). */
  type Byte = b: int | 0 <= b < 256

  /** The header's `min(a,b)` macro on sizes. */
  function Min(a: nat, b: nat): (m: nat)
    ensures m <= a && m <= b && (m == a || m == b)
  {
    if a < b then a else b
  }

  /** Number of bytes before the first zero byte (what `strlen` and the `std::string(char*)`
      constructor scan); the whole sequence when it holds no zero. */
  function StrLen(s: seq<Byte>): (n: nat)
    ensures n <= |s|
    ensures forall i :: 0 <= i < n ==> s[i] != 0
    ensures n < |s| ==> s[n] == 0
    ensures (0 in s) <==> n < |s|
  {
    if s == [] || s[0] == 0 then 0 else 1 + StrLen(s[1..])
  }

  /** `buf` with `bytes` stored at indices `at .. at + |bytes|`, one byte after another; the
      length never changes, so nothing is ever written past the end. */
  function Overwrite(buf: seq<Byte>, at: nat, bytes: seq<Byte>): (r: seq<Byte>)
    requires at + |bytes| <= |buf|
    ensures |r| == |buf|
    decreases |bytes|
  {
    if bytes == [] then buf else Overwrite(buf[at := bytes[0]], at + 1, bytes[1..])
  }

  /** Byte i of the result is the written byte inside the range and the old byte outside. */
  lemma {:induction false} OverwriteAt(buf: seq<Byte>, at: nat, bytes: seq<Byte>)
    requires at + |bytes| <= |buf|
    ensures forall i :: 0 <= i < |buf| ==>
      Overwrite(buf, at, bytes)[i] == if at <= i < at + |bytes| then bytes[i - at] else buf[i]
    decreases |bytes|
  {
    if bytes != [] {
      OverwriteAt(buf[at := bytes[0]], at + 1, bytes[1..]);
    }
  }

  /** Reading back the written range gives exactly the written bytes. */
  lemma OverwriteSlice(buf: seq<Byte>, at: nat, bytes: seq<Byte>)
    requires at + |bytes| <= |buf|
    ensures Overwrite(buf, at, bytes)[at..at + |bytes|] == bytes
  {
    var r := Overwrite(buf, at, bytes);
    OverwriteAt(buf, at, bytes);
    forall i | 0 <= i < |bytes|
      ensures r[at..at + |bytes|][i] == bytes[i]
    {
      assert r[at + i] == bytes[i];
    }
  }

  /** A range that lies wholly before the written one is left as it was. */
  lemma OverwriteBefore(buf: seq<Byte>, at: nat, bytes: seq<Byte>, lo: nat, hi: nat)
    requires at + |bytes| <= |buf|
    requires lo <= hi <= at
    ensures Overwrite(buf, at, bytes)[lo..hi] == buf[lo..hi]
  {
    var r := Overwrite(buf, at, bytes);
    OverwriteAt(buf, at, bytes);
    forall q | lo <= q < hi
      ensures r[q] == buf[q]
    {
    }
  }
}
