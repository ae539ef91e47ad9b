/** The sequence codec: `pack_each`/`detail::pack_container` and
    `unpack_each`/`detail::unpack_container`. Element i of a container occupies the slot that
    starts at `start + i * len`, where the stride `len` is the element size; a slot that starts
    inside the buffer is clipped to `min(len, size - slot start)` bytes, and a slot that starts
    at or past the end stops the recursion. */
module SequenceCodec {
  import opened Bytes
  import opened Endian
  import opened Field
  import opened ScalarCodec

  /** Every element has the element size `len` (the elements' memory representations). */
  predicate WellFormed(items: seq<seq<Byte>>, len: nat)
  {
    forall i :: 0 <= i < |items| ==> |items[i]| == len
  }

  /** The caller's `std::list<T>`, as the sequence of its elements' bytes in list order;
      `width` is `sizeof(T)`. */
  class ElementList {
    const width: nat
    var items: seq<seq<Byte>>

    ghost predicate Valid()
      reads this
    {
      WellFormed(items, width)
    }

    constructor (width: nat, items: seq<seq<Byte>>)
      requires WellFormed(items, width)
      ensures this.width == width && this.items == items && Valid()
    {
      this.width := width;
      this.items := items;
    }
  }

  /** `new_start` of slot i, `start + i * len`, counted up one stride at a time. */
  function SlotStart(start: nat, len: nat, i: nat): (s: nat)
  {
    if i == 0 then start else SlotStart(start, len, i - 1) + len
  }

  lemma {:induction false} SlotStartIsProduct(start: nat, len: nat, i: nat)
    ensures SlotStart(start, len, i) == start + i * len
  {
    if i > 0 {
      SlotStartIsProduct(start, len, i - 1);
      assert (i - 1) * len + len == i * len;
    }
  }

  /** Slots follow one another: a later slot starts at least a stride after an earlier one. */
  lemma {:induction false} SlotStartMonotone(start: nat, len: nat, i: nat, j: nat)
    requires i <= j
    ensures SlotStart(start, len, i) <= SlotStart(start, len, j)
    ensures i < j ==> SlotStart(start, len, i) + len <= SlotStart(start, len, j)
  {
    if i < j {
      SlotStartMonotone(start, len, i, j - 1);
    }
  }

  /** `seq_count` of a slot that starts at `s < size`. */
  function Clip(len: nat, size: nat, s: nat): (c: nat)
    requires s < size
    ensures c <= len && s + c <= size
    ensures c == len || s + c == size
  {
    Min(len, size - s)
  }

  /** The index, counting from i, at which the recursion over `Idx` stops: the container is
      exhausted or the slot starts at or past the end of the buffer. */
  function CountFrom(start: nat, len: nat, size: nat, n: nat, i: nat): (k: nat)
    requires i <= n
    ensures i <= k <= n
    decreases n - i
  {
    if i < n && SlotStart(start, len, i) < size then CountFrom(start, len, size, n, i + 1) else i
  }

  /** How many of n elements are packed (or unpacked) into a buffer of `size` bytes. */
  function SlotCount(start: nat, len: nat, size: nat, n: nat): (k: nat)
    ensures k <= n
  {
    CountFrom(start, len, size, n, 0)
  }

  lemma {:induction false} CountFromBounds(start: nat, len: nat, size: nat, n: nat, i: nat)
    requires i <= n
    ensures forall j :: i <= j < CountFrom(start, len, size, n, i) ==> SlotStart(start, len, j) < size
    ensures CountFrom(start, len, size, n, i) < n ==> SlotStart(start, len, CountFrom(start, len, size, n, i)) >= size
    decreases n - i
  {
    if i < n && SlotStart(start, len, i) < size {
      CountFromBounds(start, len, size, n, i + 1);
    }
  }

  /** The recursion stops exactly at the first slot that starts outside the buffer: slot j of
      the first n is visited if and only if it starts inside. */
  lemma SlotCountExact(start: nat, len: nat, size: nat, n: nat)
    ensures forall j :: 0 <= j < n ==>
      (j < SlotCount(start, len, size, n) <==> SlotStart(start, len, j) < size)
  {
    var k := SlotCount(start, len, size, n);
    CountFromBounds(start, len, size, n, 0);
    forall j | k <= j < n
      ensures SlotStart(start, len, j) >= size
    {
      SlotStartMonotone(start, len, k, j);
    }
  }

  /** Element `item` after `network_byte_order<c>` has reversed its first c bytes in place
      (on a little-endian host). */
  function PackedElement(hostBig: bool, item: seq<Byte>, c: nat): (r: seq<Byte>)
    requires c <= |item|
    ensures |r| == |item|
  {
    FlipIfLittle(hostBig, item[..c]) + item[c..]
  }

  /** The buffer after slots 0 .. k - 1 of `items` have been visited: each slot that starts
      inside receives the first `seq_count` bytes of its element in network order. */
  function PackImage(hostBig: bool, buf: seq<Byte>, start: nat, len: nat, items: seq<seq<Byte>>, k: nat)
    : (r: seq<Byte>)
    requires k <= |items| && WellFormed(items, len)
    ensures |r| == |buf|
  {
    if k == 0 then buf
    else
      var prev := PackImage(hostBig, buf, start, len, items, k - 1);
      var s := SlotStart(start, len, k - 1);
      if s < |buf| then Overwrite(prev, s, FlipIfLittle(hostBig, items[k - 1][..Clip(len, |buf|, s)]))
      else prev
  }

  /** The container after slots 0 .. k - 1 have been visited: an element whose slot starts
      inside has had its first `seq_count` bytes converted to network order. */
  function PackedItems(hostBig: bool, items: seq<seq<Byte>>, start: nat, len: nat, size: nat, k: nat)
    : (r: seq<seq<Byte>>)
    requires k <= |items| && WellFormed(items, len)
    ensures |r| == |items|
  {
    if k == 0 then items
    else
      var prev := PackedItems(hostBig, items, start, len, size, k - 1);
      var s := SlotStart(start, len, k - 1);
      if s < size then prev[k - 1 := PackedElement(hostBig, items[k - 1], Clip(len, size, s))] else prev
  }

  /** Element j after k visits: converted when its slot was visited and starts inside,
      otherwise as it was. */
  lemma {:induction false} PackedItemsAt(hostBig: bool, items: seq<seq<Byte>>, start: nat, len: nat, size: nat, k: nat, j: nat)
    requires k <= |items| && WellFormed(items, len) && j < |items|
    ensures PackedItems(hostBig, items, start, len, size, k)[j] ==
      if j < k && SlotStart(start, len, j) < size
      then PackedElement(hostBig, items[j], Clip(len, size, SlotStart(start, len, j)))
      else items[j]
  {
    if k > 0 {
      PackedItemsAt(hostBig, items, start, len, size, k - 1, j);
    }
  }

  /** Packing keeps every element at the element size. */
  lemma PackedItemsWellFormed(hostBig: bool, items: seq<seq<Byte>>, start: nat, len: nat, size: nat, k: nat)
    requires k <= |items| && WellFormed(items, len)
    ensures WellFormed(PackedItems(hostBig, items, start, len, size, k), len)
  {
    var r := PackedItems(hostBig, items, start, len, size, k);
    forall j | 0 <= j < |r|
      ensures |r[j]| == len
    {
      PackedItemsAt(hostBig, items, start, len, size, k, j);
    }
  }

  /** Visiting slots that start outside the buffer changes no element. */
  lemma {:induction false} PackedItemsBeyond(hostBig: bool, items: seq<seq<Byte>>, start: nat, len: nat, size: nat, i: nat, k: nat)
    requires WellFormed(items, len) && i <= k <= |items|
    requires i < k ==> SlotStart(start, len, i) >= size
    ensures PackedItems(hostBig, items, start, len, size, k) == PackedItems(hostBig, items, start, len, size, i)
  {
    if i < k {
      SlotStartMonotone(start, len, i, k - 1);
      PackedItemsBeyond(hostBig, items, start, len, size, i, k - 1);
    }
  }

  /** Visiting slots that start outside the buffer writes nothing. */
  lemma {:induction false} PackImageBeyond(hostBig: bool, buf: seq<Byte>, start: nat, len: nat, items: seq<seq<Byte>>, i: nat, k: nat)
    requires WellFormed(items, len) && i <= k <= |items|
    requires i < k ==> SlotStart(start, len, i) >= |buf|
    ensures PackImage(hostBig, buf, start, len, items, k) == PackImage(hostBig, buf, start, len, items, i)
  {
    if i < k {
      SlotStartMonotone(start, len, i, k - 1);
      assert PackImage(hostBig, buf, start, len, items, k) == PackImage(hostBig, buf, start, len, items, k - 1);
      PackImageBeyond(hostBig, buf, start, len, items, i, k - 1);
    }
  }

  /** While every visited slot so far started inside, `total` is the bytes written up to the
      current slot; at exit this is `min(n * len, size - start)`, or 0 when `start` is outside. */
  lemma PackTotalAtExit(start: nat, len: nat, size: nat, n: nat, i: nat, total: nat)
    requires i <= n
    requires i == n || SlotStart(start, len, i) >= size
    requires start < size ==> total + start == Min(SlotStart(start, len, i), size)
    requires start >= size ==> total == 0
    ensures total == if start < size then Min(n * len, size - start) else 0
  {
    SlotStartIsProduct(start, len, n);
    SlotStartMonotone(start, len, i, n);
  }

  /** One step of `detail::pack_container`: `network_byte_order<seq_count>` on the element's
      own storage, then `detail::pack` of its first `seq_count` bytes into the slot at `s`. */
  method PackSlot(hostBig: bool, buffer: array<Byte>, s: nat, element: seq<Byte>)
    returns (packed: seq<Byte>, written: nat)
    requires s < buffer.Length && 0 < |element|
    modifies buffer
    ensures written == Clip(|element|, buffer.Length, s)
    ensures packed == PackedElement(hostBig, element, written)
    ensures buffer[..] == Overwrite(old(buffer[..]), s, FlipIfLittle(hostBig, element[..written]))
  {
    var c := Min(|element|, buffer.Length - s);
    var raw := new Byte[|element|](j requires 0 <= j < |element| => element[j]);
    assert raw[..] == element;
    NetworkByteOrder(hostBig, raw, c);
    packed := raw[..];
    written := DetailPack(buffer, s, packed, c);
    assert packed[..c] == FlipIfLittle(hostBig, element[..c]);
  }

  /** The loop invariant of `PackEach` after slots 0 .. i - 1. */
  ghost predicate PackedSoFar(hostBig: bool, before: seq<Byte>, image: seq<Byte>, start: nat, len: nat,
                              items: seq<seq<Byte>>, elems: seq<seq<Byte>>, i: nat, total: nat)
  {
    i <= |items| && WellFormed(items, len) && |image| == |before| &&
    image == PackImage(hostBig, before, start, len, items, i) &&
    elems == PackedItems(hostBig, items, start, len, |before|, i) &&
    (start < |before| ==> total + start == Min(SlotStart(start, len, i), |before|)) &&
    (start >= |before| ==> i == 0 && total == 0)
  }

  /** When the recursion stops, the invariant describes every one of the n slots. */
  lemma PackedAtExit(hostBig: bool, before: seq<Byte>, image: seq<Byte>, start: nat, len: nat,
                     items: seq<seq<Byte>>, elems: seq<seq<Byte>>, i: nat, total: nat)
    requires PackedSoFar(hostBig, before, image, start, len, items, elems, i, total)
    requires i == |items| || SlotStart(start, len, i) >= |before|
    ensures total == if start < |before| then Min(|items| * len, |before| - start) else 0
    ensures image == PackImage(hostBig, before, start, len, items, |items|)
    ensures elems == PackedItems(hostBig, items, start, len, |before|, |items|)
    ensures WellFormed(elems, len)
  {
    PackTotalAtExit(start, len, |before|, |items|, i, total);
    PackImageBeyond(hostBig, before, start, len, items, i, |items|);
    PackedItemsBeyond(hostBig, items, start, len, |before|, i, |items|);
    PackedItemsWellFormed(hostBig, items, start, len, |before|, |items|);
  }

  /** One visit of `detail::pack_container` for a slot that starts inside the buffer. */
  method PackStep(hostBig: bool, buffer: array<Byte>, start: nat, len: nat, ghost before: seq<Byte>,
                  ghost items: seq<seq<Byte>>, elems: seq<seq<Byte>>, i: nat, total: nat)
    returns (elems': seq<seq<Byte>>, total': nat)
    requires len > 0 && i < |items| && SlotStart(start, len, i) < buffer.Length
    requires PackedSoFar(hostBig, before, buffer[..], start, len, items, elems, i, total)
    modifies buffer
    ensures PackedSoFar(hostBig, before, buffer[..], start, len, items, elems', i + 1, total')
  {
    var s := SlotStart(start, len, i);
    PackedItemsAt(hostBig, items, start, len, |before|, i, i);
    var packed, w := PackSlot(hostBig, buffer, s, elems[i]);
    elems' := elems[i := packed];
    total' := total + w;
  }

  /** `pack_each<start>` (stride `sizeof(T)`), the loop of `detail::pack_container`: returns
      the bytes written, fills every slot that starts inside, and leaves the first c_i bytes of
      each visited element converted to network order in place. */
  method PackEach(hostBig: bool, buffer: array<Byte>, start: nat, list: ElementList) returns (total: nat)
    requires list.Valid() && list.width > 0
    modifies buffer, list
    ensures list.Valid()
    ensures total == if start < buffer.Length then Min(|old(list.items)| * list.width, buffer.Length - start) else 0
    ensures buffer[..] == PackImage(hostBig, old(buffer[..]), start, list.width, old(list.items), |old(list.items)|)
    ensures list.items == PackedItems(hostBig, old(list.items), start, list.width, buffer.Length, |old(list.items)|)
  {
    var len := list.width;
    var elems := list.items;
    var n := |elems|;
    ghost var items := elems;
    ghost var before := buffer[..];
    var i := 0;
    total := 0;
    while i < n && SlotStart(start, len, i) < buffer.Length
      invariant PackedSoFar(hostBig, before, buffer[..], start, len, items, elems, i, total)
      invariant |items| == n
    {
      elems, total := PackStep(hostBig, buffer, start, len, before, items, elems, i, total);
      i := i + 1;
    }
    PackedAtExit(hostBig, before, buffer[..], start, len, items, elems, i, total);
    list.items := elems;
  }

  /** The slot visited last, when it starts inside, holds its element's first c bytes in
      network order. */
  lemma PackImageLastSlot(hostBig: bool, buf: seq<Byte>, start: nat, len: nat, items: seq<seq<Byte>>, k: nat)
    requires 0 < k <= |items| && WellFormed(items, len)
    requires SlotStart(start, len, k - 1) < |buf|
    ensures var s := SlotStart(start, len, k - 1); var c := Clip(len, |buf|, s);
      PackImage(hostBig, buf, start, len, items, k)[s..s + c] == FlipIfLittle(hostBig, items[k - 1][..c])
  {
    var s := SlotStart(start, len, k - 1);
    var data := FlipIfLittle(hostBig, items[k - 1][..Clip(len, |buf|, s)]);
    OverwriteSlice(PackImage(hostBig, buf, start, len, items, k - 1), s, data);
  }

  /** Visiting slot k - 1 leaves the bytes of an earlier slot as they were. */
  lemma PackImageKeepsSlot(hostBig: bool, buf: seq<Byte>, start: nat, len: nat, items: seq<seq<Byte>>, k: nat, i: nat)
    requires 0 < k <= |items| && WellFormed(items, len)
    requires i < k - 1 && SlotStart(start, len, i) < |buf|
    ensures var s := SlotStart(start, len, i); var c := Clip(len, |buf|, s);
      PackImage(hostBig, buf, start, len, items, k)[s..s + c] ==
      PackImage(hostBig, buf, start, len, items, k - 1)[s..s + c]
  {
    var last := SlotStart(start, len, k - 1);
    if last < |buf| {
      var s := SlotStart(start, len, i);
      SlotStartMonotone(start, len, i, k - 1);
      var data := FlipIfLittle(hostBig, items[k - 1][..Clip(len, |buf|, last)]);
      OverwriteBefore(PackImage(hostBig, buf, start, len, items, k - 1), last, data, s, s + Clip(len, |buf|, s));
    }
  }

  /** Slot i, when it starts inside, holds the first c_i bytes of element i in network order
      once slot i and any later slots have been visited, c_i = min(len, size - s_i). */
  lemma {:induction false} PackImageSlot(hostBig: bool, buf: seq<Byte>, start: nat, len: nat, items: seq<seq<Byte>>, k: nat, i: nat)
    requires k <= |items| && WellFormed(items, len)
    requires i < k && SlotStart(start, len, i) < |buf|
    ensures var s := SlotStart(start, len, i); var c := Clip(len, |buf|, s);
      PackImage(hostBig, buf, start, len, items, k)[s..s + c] == FlipIfLittle(hostBig, items[i][..c])
  {
    if i == k - 1 {
      PackImageLastSlot(hostBig, buf, start, len, items, k);
    } else {
      PackImageSlot(hostBig, buf, start, len, items, k - 1, i);
      PackImageKeepsSlot(hostBig, buf, start, len, items, k, i);
    }
  }

  /** Packing k slots changes no byte before `start` or at or after the k-th slot start. */
  lemma {:induction false} PackImageUnchanged(hostBig: bool, buf: seq<Byte>, start: nat, len: nat, items: seq<seq<Byte>>, k: nat, p: nat)
    requires k <= |items| && WellFormed(items, len)
    requires p < |buf| && (p < start || p >= SlotStart(start, len, k))
    ensures PackImage(hostBig, buf, start, len, items, k)[p] == buf[p]
  {
    if k > 0 {
      var prev := PackImage(hostBig, buf, start, len, items, k - 1);
      var s := SlotStart(start, len, k - 1);
      SlotStartMonotone(start, len, 0, k - 1);
      if s < |buf| {
        OverwriteAt(prev, s, FlipIfLittle(hostBig, items[k - 1][..Clip(len, |buf|, s)]));
      }
      PackImageUnchanged(hostBig, buf, start, len, items, k - 1, p);
    }
  }

  /** A slot holding the len-byte integer v, clipped to c bytes, receives the c most
      significant bytes of v on a big-endian host but the c-byte encoding of its low bytes
      (v modulo 256^c) on a little-endian host, because `network_byte_order<seq_count>`
      reverses only the first c bytes of the element's memory. A scalar `pack<start>` of the
      whole integer keeps the most significant bytes on either host. */
  lemma IntegerSlotByHost(hostBig: bool, buf: seq<Byte>, start: nat, len: nat, items: seq<seq<Byte>>, i: nat, v: nat)
    requires WellFormed(items, len) && i < |items|
    requires SlotStart(start, len, i) < |buf|
    requires items[i] == HostBytes(hostBig, v, len)
    ensures var s := SlotStart(start, len, i); var c := Clip(len, |buf|, s);
      PackImage(hostBig, buf, start, len, items, |items|)[s..s + c]
        == if hostBig then BigEndianBytes(v, len)[..c] else BigEndianBytes(v, c)
  {
    var c := Clip(len, |buf|, SlotStart(start, len, i));
    PackImageSlot(hostBig, buf, start, len, items, |items|, i);
    if !hostBig {
      LittleEndianPrefix(v, len, c);
      LittleIsReversedBig(v, c);
      ReversedTwice(BigEndianBytes(v, c));
    }
  }

  /** The two-byte integer 0x0102 packed as a one-element container into a one-byte buffer:
      the slot holds 0x01 on a big-endian host and 0x02 on a little-endian one, while a scalar
      `pack<start>` of the same integer writes 0x01 on both. */
  lemma ClippedSlotHostsDiffer()
    ensures PackImage(true, [0], 0, 2, [HostBytes(true, 0x0102, 2)], 1) == [0x01]
    ensures PackImage(false, [0], 0, 2, [HostBytes(false, 0x0102, 2)], 1) == [0x02]
    ensures PackedScalar(true, [0], 0, 0x0102, 2) == [0x01]
    ensures PackedScalar(false, [0], 0, 0x0102, 2) == [0x01]
  {
    assert BigEndianBytes(0x0102, 2) == [0x01, 0x02] by {
      assert BigEndianBytes(0x01, 1) == [0x01] by {
        assert BigEndianBytes(0, 0) == [];
      }
    }
    assert SlotStart(0, 2, 0) == 0;
    assert Clip(2, 1, 0) == 1;
    IntegerSlotByHost(true, [0], 0, 2, [HostBytes(true, 0x0102, 2)], 0, 0x0102);
    IntegerSlotByHost(false, [0], 0, 2, [HostBytes(false, 0x0102, 2)], 0, 0x0102);
    ScalarKeepsHighByte(true);
    ScalarKeepsHighByte(false);
  }

  /** On a big-endian host packing leaves the caller's elements as they were; on a
      little-endian host an element whose slot is full ends up reversed. */
  lemma PackedItemsByHost(hostBig: bool, items: seq<seq<Byte>>, start: nat, len: nat, size: nat, j: nat)
    requires WellFormed(items, len) && j < |items|
    ensures hostBig ==> PackedItems(hostBig, items, start, len, size, |items|)[j] == items[j]
    ensures !hostBig && SlotStart(start, len, j) + len <= size && 0 < len ==>
      PackedItems(hostBig, items, start, len, size, |items|)[j] == Reversed(items[j])
  {
    PackedItemsAt(hostBig, items, start, len, size, |items|, j);
    var s := SlotStart(start, len, j);
    if s < size {
      var c := Clip(len, size, s);
      assert items[j][..c] + items[j][c..] == items[j];
      if s + len <= size {
        assert items[j][..len] == items[j] && items[j][len..] == [];
      }
    }
  }

  /** Every slot of the first `elements` that starts inside the buffer has room for at least
      `len - 1` data bytes, so the `seq_count + 1` temporary it is read into holds `len`
      bytes and `host_byte_order<len>` stays inside it. */
  predicate SlotsReadable(start: nat, len: nat, size: nat, elements: nat)
  {
    elements == 0 ||
    (SlotsReadable(start, len, size, elements - 1) &&
     (SlotStart(start, len, elements - 1) < size ==> SlotStart(start, len, elements - 1) + len <= size + 1))
  }

  /** What `SlotsReadable` says about one slot. */
  lemma {:induction false} SlotsReadableAt(start: nat, len: nat, size: nat, elements: nat, j: nat)
    requires SlotsReadable(start, len, size, elements) && j < elements
    ensures SlotStart(start, len, j) < size ==> SlotStart(start, len, j) + len <= size + 1
  {
    if j < elements - 1 {
      SlotsReadableAt(start, len, size, elements - 1, j);
    }
  }

  lemma {:induction false} SlotsReadablePrefix(start: nat, len: nat, size: nat, k: nat, m: nat)
    requires k <= m && SlotsReadable(start, len, size, m)
    ensures SlotsReadable(start, len, size, k)
  {
    if k < m {
      SlotsReadablePrefix(start, len, size, k, m - 1);
    }
  }

  /** Slots that all fit whole are readable. */
  lemma {:induction false} FullSlotsReadable(start: nat, len: nat, size: nat, n: nat)
    requires start + n * len <= size
    ensures SlotsReadable(start, len, size, n)
  {
    if n > 0 {
      assert start + (n - 1) * len <= size by {
        assert (n - 1) * len <= n * len;
      }
      FullSlotsReadable(start, len, size, n - 1);
      SlotStartIsProduct(start, len, n - 1);
    }
  }

  /** One element read back from the slot at `s`: the clipped slot followed by the zero that
      `unpack` appends, its first `len` bytes converted to host order. */
  function ReadSlot(hostBig: bool, buffer: seq<Byte>, s: nat, len: nat): (r: seq<Byte>)
    requires s < |buffer| && s + len <= |buffer| + 1
    ensures |r| == len
  {
    FlipIfLittle(hostBig, (buffer[s..s + Clip(len, |buffer|, s)] + [0])[..len])
  }

  /** A full slot reads back as its bytes in host order. */
  lemma ReadSlotFull(hostBig: bool, buffer: seq<Byte>, s: nat, len: nat)
    requires s < |buffer| && s + len <= |buffer|
    ensures ReadSlot(hostBig, buffer, s, len) == FlipIfLittle(hostBig, buffer[s..s + len])
  {
    assert Clip(len, |buffer|, s) == len;
    var slot := buffer[s..s + len];
    assert (slot + [0])[..len] == slot;
  }

  /** The integer value of an element read from a full slot is the slot's big-endian value. */
  lemma ReadSlotValue(hostBig: bool, buffer: seq<Byte>, s: nat, len: nat)
    requires s < |buffer| && s + len <= |buffer|
    ensures HostValue(hostBig, ReadSlot(hostBig, buffer, s, len)) == BigEndianValue(buffer[s..s + len])
  {
    ReadSlotFull(hostBig, buffer, s, len);
    HostValueOfNetworkBytes(hostBig, buffer[s..s + len]);
  }

  /** A last slot one byte short reads the terminator as its final network-order byte. */
  lemma ReadSlotShort(hostBig: bool, buffer: seq<Byte>, s: nat, len: nat)
    requires s < |buffer| && s + len == |buffer| + 1
    ensures ReadSlot(hostBig, buffer, s, len) == FlipIfLittle(hostBig, buffer[s..] + [0])
  {
    var c := Clip(len, |buffer|, s);
    assert buffer[s..s + c] == buffer[s..];
    assert (buffer[s..] + [0])[..len] == buffer[s..] + [0];
  }

  /** One step of `detail::unpack_container`: `unpack` of the clipped slot into a new
      `seq_count + 1` holder, `host_byte_order<len>` on its storage, then `*(T*)` of it. */
  method ReadElement(hostBig: bool, contents: seq<Byte>, s: nat, len: nat) returns (element: seq<Byte>)
    requires s < |contents| && s + len <= |contents| + 1
    ensures element == ReadSlot(hostBig, contents, s, len)
  {
    var c := Min(len, |contents| - s);
    var bytes := DetailUnpack(contents, s, c);
    var raw := new Byte[c + 1](j requires 0 <= j < c + 1 => bytes.bytes[j]);
    ghost var held := raw[..];
    assert held == contents[s..s + c] + [0];
    HostByteOrder(hostBig, raw, len);
    ghost var flipped := FlipIfLittle(hostBig, held[..len]);
    assert raw[..] == flipped + held[len..];
    element := raw[..len];
    assert element == flipped;
  }

  /** The elements read from slots 0 .. k - 1, in slot order; a slot that starts outside the
      buffer contributes nothing. */
  function UnpackedSlots(hostBig: bool, buffer: seq<Byte>, start: nat, len: nat, k: nat): (r: seq<seq<Byte>>)
    requires SlotsReadable(start, len, |buffer|, k)
    ensures |r| <= k
  {
    if k == 0 then []
    else
      var prev := UnpackedSlots(hostBig, buffer, start, len, k - 1);
      var s := SlotStart(start, len, k - 1);
      if s < |buffer| then prev + [ReadSlot(hostBig, buffer, s, len)] else prev
  }

  /** When slot k - 1 starts inside, so do all earlier ones, and each gives one element. */
  lemma {:induction false} UnpackedSlotsLength(hostBig: bool, buffer: seq<Byte>, start: nat, len: nat, k: nat)
    requires SlotsReadable(start, len, |buffer|, k)
    requires k > 0 ==> SlotStart(start, len, k - 1) < |buffer|
    ensures |UnpackedSlots(hostBig, buffer, start, len, k)| == k
  {
    if k > 1 {
      SlotStartMonotone(start, len, k - 2, k - 1);
      UnpackedSlotsLength(hostBig, buffer, start, len, k - 1);
    }
  }

  /** When slot k - 1 starts inside, element j of what is read is the element read from slot j. */
  lemma {:induction false} UnpackedSlotsAt(hostBig: bool, buffer: seq<Byte>, start: nat, len: nat, k: nat, j: nat)
    requires SlotsReadable(start, len, |buffer|, k)
    requires j < k && SlotStart(start, len, k - 1) < |buffer|
    ensures |UnpackedSlots(hostBig, buffer, start, len, k)| == k
    ensures SlotStart(start, len, j) < |buffer| && SlotStart(start, len, j) + len <= |buffer| + 1 &&
      UnpackedSlots(hostBig, buffer, start, len, k)[j] == ReadSlot(hostBig, buffer, SlotStart(start, len, j), len)
  {
    UnpackedSlotsLength(hostBig, buffer, start, len, k);
    SlotStartMonotone(start, len, j, k - 1);
    SlotsReadableAt(start, len, |buffer|, k, j);
    if j < k - 1 {
      UnpackedSlotsAt(hostBig, buffer, start, len, k - 1, j);
    }
  }

  /** Slots that start outside the buffer add no element. */
  lemma {:induction false} UnpackedSlotsBeyond(hostBig: bool, buffer: seq<Byte>, start: nat, len: nat, i: nat, k: nat)
    requires i <= k && SlotsReadable(start, len, |buffer|, k)
    requires i < k ==> SlotStart(start, len, i) >= |buffer|
    ensures SlotsReadable(start, len, |buffer|, i) &&
      UnpackedSlots(hostBig, buffer, start, len, k) == UnpackedSlots(hostBig, buffer, start, len, i)
  {
    SlotsReadablePrefix(start, len, |buffer|, i, k);
    if i < k {
      SlotStartMonotone(start, len, i, k - 1);
      assert SlotsReadable(start, len, |buffer|, k - 1);
      assert UnpackedSlots(hostBig, buffer, start, len, k) == UnpackedSlots(hostBig, buffer, start, len, k - 1);
      UnpackedSlotsBeyond(hostBig, buffer, start, len, i, k - 1);
    }
  }

  /** One element is read per slot that starts inside, and it has the element size. */
  lemma UnpackedSlotsCount(hostBig: bool, buffer: seq<Byte>, start: nat, len: nat, n: nat)
    requires SlotsReadable(start, len, |buffer|, n)
    ensures |UnpackedSlots(hostBig, buffer, start, len, n)| == SlotCount(start, len, |buffer|, n)
    ensures WellFormed(UnpackedSlots(hostBig, buffer, start, len, n), len)
  {
    var k := SlotCount(start, len, |buffer|, n);
    CountFromBounds(start, len, |buffer|, n, 0);
    UnpackedSlotsBeyond(hostBig, buffer, start, len, k, n);
    UnpackedSlotsLength(hostBig, buffer, start, len, k);
    var r := UnpackedSlots(hostBig, buffer, start, len, k);
    forall j | 0 <= j < k
      ensures |r[j]| == len
    {
      UnpackedSlotsAt(hostBig, buffer, start, len, k, j);
    }
  }

  /** One visit of `detail::unpack_container` for a slot that starts inside the buffer:
      appends the element read from it. */
  method ReadStep(hostBig: bool, contents: seq<Byte>, start: nat, len: nat, elements: nat,
                  read: seq<seq<Byte>>, i: nat)
    returns (read': seq<seq<Byte>>)
    requires i < elements && SlotStart(start, len, i) < |contents|
    requires SlotsReadable(start, len, |contents|, elements)
    requires SlotsReadable(start, len, |contents|, i) && read == UnpackedSlots(hostBig, contents, start, len, i)
    ensures SlotsReadable(start, len, |contents|, i + 1)
    ensures read' == UnpackedSlots(hostBig, contents, start, len, i + 1)
  {
    SlotsReadablePrefix(start, len, |contents|, i + 1, elements);
    var element := ReadElement(hostBig, contents, SlotStart(start, len, i), len);
    read' := read + [element];
  }

  /** The loop of `detail::unpack_container`: reads one element per slot while the slot index
      is below `elements` and the slot starts inside the buffer. */
  method ReadSlots(hostBig: bool, contents: seq<Byte>, start: nat, len: nat, elements: nat)
    returns (read: seq<seq<Byte>>)
    requires SlotsReadable(start, len, |contents|, elements)
    ensures read == UnpackedSlots(hostBig, contents, start, len, elements)
  {
    var i := 0;
    read := [];
    while i < elements && SlotStart(start, len, i) < |contents|
      invariant i <= elements
      invariant SlotsReadable(start, len, |contents|, i)
      invariant read == UnpackedSlots(hostBig, contents, start, len, i)
    {
      read := ReadStep(hostBig, contents, start, len, elements, read, i);
      i := i + 1;
    }
    UnpackedSlotsBeyond(hostBig, contents, start, len, i, elements);
  }

  /** `unpack_each<start>` (stride `sizeof(T)`): appends one element per slot read, in slot
      order, and keeps what the container already held. */
  method UnpackEach(hostBig: bool, buffer: array<Byte>, start: nat, elements: nat, list: ElementList)
    requires list.Valid()
    requires SlotsReadable(start, list.width, buffer.Length, elements)
    modifies list
    ensures list.Valid()
    ensures list.items == old(list.items) + UnpackedSlots(hostBig, buffer[..], start, list.width, elements)
    ensures |list.items| == |old(list.items)| + SlotCount(start, list.width, buffer.Length, elements)
  {
    var read := ReadSlots(hostBig, buffer[..], start, list.width, elements);
    UnpackedSlotsCount(hostBig, buffer[..], start, list.width, elements);
    list.items := list.items + read;
  }

  /** All n slots are full exactly when the last one ends inside the buffer. */
  lemma FullSlots(start: nat, len: nat, size: nat, n: nat)
    requires start + n * len <= size
    ensures forall j :: 0 <= j < n ==> SlotStart(start, len, j) + len <= size
  {
    SlotStartIsProduct(start, len, n);
    forall j | 0 <= j < n
      ensures SlotStart(start, len, j) + len <= size
    {
      SlotStartMonotone(start, len, j, n);
    }
  }

  /** A full slot of the packed buffer reads back as the element that was packed into it. */
  lemma RoundTripSlot(hostBig: bool, buf: seq<Byte>, start: nat, len: nat, items: seq<seq<Byte>>, j: nat)
    requires len > 0 && WellFormed(items, len) && j < |items|
    requires SlotStart(start, len, j) + len <= |buf|
    ensures ReadSlot(hostBig, PackImage(hostBig, buf, start, len, items, |items|), SlotStart(start, len, j), len) == items[j]
  {
    var packed := PackImage(hostBig, buf, start, len, items, |items|);
    var s := SlotStart(start, len, j);
    assert Clip(len, |buf|, s) == len;
    assert items[j][..len] == items[j];
    PackImageSlot(hostBig, buf, start, len, items, |items|, j);
    assert packed[s..s + len] == FlipIfLittle(hostBig, items[j]);
    ReadSlotFull(hostBig, packed, s, len);
    FlipIfLittleTwice(hostBig, items[j]);
  }

  /** Sequence round trip: when all n slots fit, unpacking n elements from the slots
      `pack_each` filled returns the elements as they were before packing, in order, on
      either host. */
  lemma SequenceRoundTrip(hostBig: bool, buf: seq<Byte>, start: nat, len: nat, items: seq<seq<Byte>>)
    requires len > 0 && WellFormed(items, len)
    requires start + |items| * len <= |buf|
    ensures SlotsReadable(start, len, |buf|, |items|)
    ensures UnpackedSlots(hostBig, PackImage(hostBig, buf, start, len, items, |items|), start, len, |items|) == items
  {
    var n := |items|;
    var packed := PackImage(hostBig, buf, start, len, items, n);
    FullSlots(start, len, |buf|, n);
    FullSlotsReadable(start, len, |buf|, n);
    UnpackedSlotsLength(hostBig, packed, start, len, n);
    var r := UnpackedSlots(hostBig, packed, start, len, n);
    forall j | 0 <= j < n
      ensures r[j] == items[j]
    {
      UnpackedSlotsAt(hostBig, packed, start, len, n, j);
      RoundTripSlot(hostBig, buf, start, len, items, j);
    }
  }
}
