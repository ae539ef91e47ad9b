/** `fill_raw_buffer` for a `char` string: a verbatim copy of the bytes before the first zero
    into the buffer at `offset`, with no byte-order conversion and no capacity check of its own. */
module RawCopy {
  import opened Bytes
  import opened Endian
  import opened Field

  /** How many bytes `fill_raw_buffer` stores: the string's length on a big-endian host; on a
      little-endian host the copy runs from index `strlen` down to 0, so it also stores the
      terminating zero. */
  function CopyLength(hostBig: bool, data: seq<Byte>): (n: nat)
  {
    if hostBig then StrLen(data) else StrLen(data) + 1
  }

  /** The buffer after `fill_raw_buffer(buffer, data, offset)`. */
  function RawCopy(hostBig: bool, buf: seq<Byte>, data: seq<Byte>, offset: nat): (r: seq<Byte>)
    requires 0 in data
    requires offset + CopyLength(hostBig, data) <= |buf|
    ensures |r| == |buf|
  {
    Overwrite(buf, offset, data[..CopyLength(hostBig, data)])
  }

  /** The big-endian branch of `fill_raw_buffer`: copies forward while the current byte of
      the string is not zero. */
  method CopyForward(buffer: array<Byte>, data: seq<Byte>, offset: nat)
    requires 0 in data
    requires offset + StrLen(data) <= buffer.Length
    modifies buffer
    ensures forall k :: 0 <= k < buffer.Length ==>
      buffer[k] == if offset <= k < offset + StrLen(data) then data[k - offset] else old(buffer[k])
  {
    var n := StrLen(data);
    var i := 0;
    while data[i] != 0
      invariant 0 <= i <= n
      invariant forall k :: 0 <= k < buffer.Length ==>
        buffer[k] == if offset <= k < offset + i then data[k - offset] else old(buffer[k])
      decreases n - i
    {
      buffer[i + offset] := data[i];
      i := i + 1;
    }
  }

  /** The little-endian branch of `fill_raw_buffer`: counts the bytes before the first zero,
      then copies from that index down to 0. The source's `size_t` counter stops by wrapping
      from 0 to `SIZE_MAX`, where `count + 1 == 0`; here the counter is an `int` that stops
      at -1. */
  method CopyBackward(buffer: array<Byte>, data: seq<Byte>, offset: nat)
    requires 0 in data
    requires offset + StrLen(data) + 1 <= buffer.Length
    modifies buffer
    ensures forall k :: 0 <= k < buffer.Length ==>
      buffer[k] == if offset <= k <= offset + StrLen(data) then data[k - offset] else old(buffer[k])
  {
    var n := StrLen(data);
    var count := 0;
    while data[count] != 0
      invariant 0 <= count <= n
      decreases n - count
    {
      count := count + 1;
    }
    var c: int := count;
    while c + 1 != 0
      invariant -1 <= c <= count
      invariant forall k :: 0 <= k < buffer.Length ==>
        buffer[k] == if offset + c < k <= offset + count then data[k - offset] else old(buffer[k])
      decreases c + 1
    {
      buffer[c + offset] := data[c];
      c := c - 1;
    }
  }

  /** `fill_raw_buffer`: the forward copy on a big-endian host, the backward one otherwise. */
  method FillRawBuffer(hostBig: bool, buffer: array<Byte>, data: seq<Byte>, offset: nat)
    requires 0 in data
    requires offset + CopyLength(hostBig, data) <= buffer.Length
    modifies buffer
    ensures buffer[..] == RawCopy(hostBig, old(buffer[..]), data, offset)
  {
    if IsBigEndian(hostBig) {
      CopyForward(buffer, data, offset);
    } else {
      CopyBackward(buffer, data, offset);
    }
    ghost var want := RawCopy(hostBig, old(buffer[..]), data, offset);
    OverwriteAt(old(buffer[..]), offset, data[..CopyLength(hostBig, data)]);
    assert forall k :: 0 <= k < buffer.Length ==> buffer[..][k] == want[k];
  }

  /** What the copy stores: byte i of the string at `offset + i` for every i before its first
      zero and, on a little-endian host only, a zero right after them; no other byte changes. */
  lemma RawCopyBytes(hostBig: bool, buf: seq<Byte>, data: seq<Byte>, offset: nat)
    requires 0 in data
    requires offset + CopyLength(hostBig, data) <= |buf|
    ensures forall i :: 0 <= i < StrLen(data) ==> RawCopy(hostBig, buf, data, offset)[offset + i] == data[i]
    ensures !hostBig ==> RawCopy(hostBig, buf, data, offset)[offset + StrLen(data)] == 0
    ensures forall p :: 0 <= p < |buf| && (p < offset || p >= offset + CopyLength(hostBig, data)) ==>
      RawCopy(hostBig, buf, data, offset)[p] == buf[p]
  {
    OverwriteAt(buf, offset, data[..CopyLength(hostBig, data)]);
  }

  /** The two branches are not equivalent: where both fit, the little-endian copy is the
      big-endian copy with the terminating zero also stored at `offset + strlen`. */
  lemma RawCopyHostsDiffer(buf: seq<Byte>, data: seq<Byte>, offset: nat)
    requires 0 in data
    requires offset + StrLen(data) + 1 <= |buf|
    ensures RawCopy(false, buf, data, offset) == RawCopy(true, buf, data, offset)[offset + StrLen(data) := 0]
  {
    var little := RawCopy(false, buf, data, offset);
    var big := RawCopy(true, buf, data, offset)[offset + StrLen(data) := 0];
    OverwriteAt(buf, offset, data[..CopyLength(false, data)]);
    OverwriteAt(buf, offset, data[..CopyLength(true, data)]);
    assert forall p :: 0 <= p < |buf| ==> little[p] == big[p];
  }

  /** A zero-free string followed by its terminator has the string's length. */
  lemma StrLenOfTerminated(s: seq<Byte>)
    requires 0 !in s
    ensures StrLen(s + [0]) == |s|
  {
  }

  /** The strings "BOB", "hello", "DANIEL" and "world" as bytes. */
  const Bob: seq<Byte> := [66, 79, 66]
  const Hello: seq<Byte> := [104, 101, 108, 108, 111]
  const Daniel: seq<Byte> := [68, 65, 78, 73, 69, 76]
  const World: seq<Byte> := [119, 111, 114, 108, 100]

  /** A 66-byte zeroed buffer after copying the four terminated strings to offsets 0, 3, 8
      and 14, in that order. */
  function FourCopies(hostBig: bool): (r: seq<Byte>)
    ensures |r| == 66
  {
    var b0: seq<Byte> := seq(66, _ => 0);
    var b1 := RawCopy(hostBig, b0, Bob + [0], 0);
    var b2 := RawCopy(hostBig, b1, Hello + [0], 3);
    var b3 := RawCopy(hostBig, b2, Daniel + [0], 8);
    RawCopy(hostBig, b3, World + [0], 14)
  }

  /** No later copy reaches the bytes of "hello" at 3. */
  lemma HelloSurvives(hostBig: bool)
    ensures FourCopies(hostBig)[3..8] == Hello
  {
    var b0: seq<Byte> := seq(66, _ => 0);
    var b1 := RawCopy(hostBig, b0, Bob + [0], 0);
    var b2 := RawCopy(hostBig, b1, Hello + [0], 3);
    var b3 := RawCopy(hostBig, b2, Daniel + [0], 8);
    var b4 := RawCopy(hostBig, b3, World + [0], 14);
    StrLenOfTerminated(Hello);
    RawCopyBytes(hostBig, b1, Hello + [0], 3);
    RawCopyBytes(hostBig, b2, Daniel + [0], 8);
    RawCopyBytes(hostBig, b3, World + [0], 14);
    forall i | 0 <= i < 5
      ensures b4[3 + i] == Hello[i]
    {
      assert (Hello + [0])[i] == Hello[i];
    }
    assert b4[3..8] == Hello;
  }

  /** The last copy leaves "world" at 14. */
  lemma WorldWritten(hostBig: bool)
    ensures FourCopies(hostBig)[14..19] == World
  {
    var b0: seq<Byte> := seq(66, _ => 0);
    var b1 := RawCopy(hostBig, b0, Bob + [0], 0);
    var b2 := RawCopy(hostBig, b1, Hello + [0], 3);
    var b3 := RawCopy(hostBig, b2, Daniel + [0], 8);
    var b4 := RawCopy(hostBig, b3, World + [0], 14);
    StrLenOfTerminated(World);
    RawCopyBytes(hostBig, b3, World + [0], 14);
    forall i | 0 <= i < 5
      ensures b4[14 + i] == World[i]
    {
      assert (World + [0])[i] == World[i];
    }
    assert b4[14..19] == World;
  }

  /** Unpacking a five-byte field that holds a zero-free string and reading it as a string
      gives the field's bytes in host order. */
  lemma UnpackedWord(hostBig: bool, buffer: seq<Byte>, start: nat, word: seq<Byte>)
    requires start + 5 <= |buffer| && |word| == 5 && 0 !in word
    requires buffer[start..start + 5] == word
    ensures Unpack(hostBig, buffer, start, 5).ToString() == FlipIfLittle(hostBig, word)
  {
    var b := Unpack(hostBig, buffer, start, 5);
    var f := FlipIfLittle(hostBig, word);
    if !hostBig {
      ReversedAt(word);
    }
    assert 0 !in f by {
      forall i | 0 <= i < 5
        ensures f[i] != 0
      {
        if !hostBig {
          assert f[i] == word[4 - i];
        }
      }
    }
    assert b.bytes == f + [0];
    StrLenOfTerminated(f);
  }

  /** "hello" and "world" reversed are "olleh" and "dlrow". */
  lemma ReversedWords()
    ensures Reversed(Hello) == [111, 108, 108, 101, 104]
    ensures Reversed(World) == [100, 108, 114, 111, 119]
  {
    ReversedAt(Hello);
    ReversedAt(World);
  }

  /** After the four copies, the five-byte field at 3 unpacks to "hello" in host order. */
  lemma HelloInHostOrder(hostBig: bool)
    ensures Unpack(hostBig, FourCopies(hostBig), 3, 5).ToString() == FlipIfLittle(hostBig, Hello)
  {
    var b := FourCopies(hostBig);
    HelloSurvives(hostBig);
    UnpackedWord(hostBig, b, 3, Hello);
  }

  /** After the four copies, the five-byte field at 14 unpacks to "world" in host order. */
  lemma WorldInHostOrder(hostBig: bool)
    ensures Unpack(hostBig, FourCopies(hostBig), 14, 5).ToString() == FlipIfLittle(hostBig, World)
  {
    var b := FourCopies(hostBig);
    WorldWritten(hostBig);
    UnpackedWord(hostBig, b, 14, World);
  }

  /** The scenario of copying "BOB", "hello", "DANIEL" and "world" and unpacking the five-byte
      fields at 3 and 14: on a big-endian host they read "hello" and "world"; on a
      little-endian host the unpack reverses the verbatim copies, so they read "olleh" and
      "dlrow". */
  lemma HelloWorld(hostBig: bool)
    ensures Unpack(hostBig, FourCopies(hostBig), 3, 5).ToString()
         == if hostBig then Hello else [111, 108, 108, 101, 104]
    ensures Unpack(hostBig, FourCopies(hostBig), 14, 5).ToString()
         == if hostBig then World else [100, 108, 114, 111, 119]
  {
    HelloInHostOrder(hostBig);
    WorldInHostOrder(hostBig);
    ReversedWords();
  }
}
