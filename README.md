# bytepacker in Dafny

A model of `bytepacker`, a header-only C++ library that packs integers, byte strings and
containers of integers into a fixed-size byte buffer in network (big-endian) byte order, and
unpacks them again into host order. The whole library is the header `include/bytepacker.h`.

The model is split into one module per layer of the header:

- `Bytes` (`bytes.dfy`): the byte type, the header's `min` macro, C-string length, and
  `Overwrite`, the store of a run of bytes at an offset that every write reduces to.
- `Endian` (`endian.dfy`): host detection, in-place byte reversal, the `network_byte_order` /
  `host_byte_order` conversions, and the big-endian encoding of unsigned integers. The host's
  byte order is the parameter `hostBig` of every operation that depends on it; an integer in
  memory is the sequence of its bytes as that host lays them out (`HostBytes`): its big-endian
  encoding on a big-endian host, its little-endian encoding (byte i is digit i in base 256)
  on a little-endian one.
- `Field` (`field_buffer.dfy`): `array_buffer`, the zero-terminated holder an unpack returns,
  its `to<T>()` views as an integer or a string, the `host_byte_order` overload that skips the
  terminator, and the scalar `unpack<start, len>`.
- `ScalarCodec` (`scalar_codec.dfy`): `detail::pack` and the public `pack` overloads. A pack
  converts the first len bytes of the caller's own object to network order in place, so the
  caller's bytes are an `array` that the method modifies.
- `SequenceCodec` (`sequence_codec.dfy`): `pack_each` / `detail::pack_container` and
  `unpack_each` / `detail::unpack_container`. The compile-time recursion over the slot index
  is a `while` loop. The caller's `std::list` is the class `ElementList`, whose `items` field
  the methods reassign. Slot i starts at `start + i * len` and is clipped to
  `min(len, size - start_i)` bytes. The recursion stops at the first slot that lies past the
  container's end or starts at or past the buffer's end. `PackImage`, `PackedItems` and
  `UnpackedSlots` describe the buffer and container after k slots; the methods are proved
  against them.
- `RawCopy` (`raw_copy.dfy`): `fill_raw_buffer` for a `char` string, and the demo program's
  scenario of four copies followed by two unpacks.

What is proved, in short:

- Byte-order conversion is the identity on a big-endian host and a reversal on a
  little-endian one. Converting twice restores the bytes. On either host the network-order
  bytes of an integer are its big-endian encoding.
- A scalar pack writes the first `min(len, size - start)` network-order bytes and returns
  that count; it changes no other byte. `pack<start>` (len = `sizeof(T)`) leaves the caller's
  whole object in network order; `pack<start, len>` converts only the object's first len
  bytes.
  Unpacking and reading back a packed integer gives its value on either host.
- `pack_each` returns `min(n * len, size - start)`, puts the network-order form of each
  element's first c_i bytes in its slot (c_i is the slot's clipped size) and leaves every
  other byte alone. `unpack_each` appends one host-order element per slot among the first
  `elements` that starts inside the buffer, in slot order. When all slots fit, unpacking what
  was packed returns the original elements.
- `fill_raw_buffer` copies the bytes before the first zero verbatim. Its two branches differ:
  the little-endian branch also stores the terminating zero.

Behaviour of the code worth knowing, which the model follows:

- The two branches of `fill_raw_buffer` are not equivalent (`RawCopy.RawCopyHostsDiffer`).
- A scalar unpack never zero-fills. A field that is clipped by the buffer's end does not
  compile, and one that starts past the end reads out of bounds, so `Field.Unpack` requires
  the field to fit.
- `pack_container` converts only the first `seq_count` bytes of a clipped element, with
  `network_byte_order<seq_count>` (include/bytepacker.h:120). It converts them in place, in
  the caller's `const` container.
- So a clipped last slot holds different bytes on the two hosts: the element's most
  significant bytes on a big-endian host, its least significant bytes on a little-endian one,
  while a scalar `pack<start>` of the whole object keeps the most significant bytes on both. The buffer's contents then
  depend on the host (`SequenceCodec.IntegerSlotByHost`, `SequenceCodec.ClippedSlotHostsDiffer`).
- `pack<start, len>` with len below the object's size converts only the object's first len
  memory bytes, with `network_byte_order<len>` (include/bytepacker.h:165). On a little-endian
  host those are the integer's low bytes, so, like a clipped container slot, it writes the
  least significant bytes there and the most significant ones on a big-endian host
  (`ScalarCodec.ShortPackBytes`, `ScalarCodec.ShortPackHostsDiffer`).
- The demo's `hello world` (test/main.cpp:32) holds only on a big-endian host. On a
  little-endian host `fill_raw_buffer` stores the text verbatim and `unpack` then reverses
  it, giving `olleh dlrow` (`RawCopy.HelloWorld`).

## Model

| member | source | states |
|---|---|---|
| Endian.IsBigEndian | include/bytepacker.h:12-16 | The 0x1234 probe reads 0x12 at its address exactly when the host stores the most significant byte first. |
| Endian.ReversedAt | include/bytepacker.h:36-40 | The i-th swap produces reversal order: byte i of the result is byte len - 1 - i of the original, for every i < len. |
| Endian.ReversedTwice | include/bytepacker.h:55-58 | Reversing a byte range twice restores it. |
| Endian.ReverseRawBuffer | include/bytepacker.h:55-58 | `reverse_raw_buffer<len>` swaps cells i and len - 1 - i for i < len / 2. The first len bytes end up reversed and the bytes at len and above are unchanged. |
| Endian.FlipByteOrderIfLittleEndian | include/bytepacker.h:42-49 | The first len bytes are reversed on a little-endian host and left as they are on a big-endian one; the rest of the buffer is unchanged. |
| Endian.NetworkByteOrder | include/bytepacker.h:84-85 | Host to network order in place: the same conversion of the first len bytes. |
| Endian.HostByteOrder | include/bytepacker.h:87-90 | Network to host order in place: the same conversion of the first len bytes. |
| Endian.FlipIfLittleTwice | include/bytepacker.h:84-90 | Converting to network order and back to host order (or the reverse) restores the bytes on either host. |
| Endian.LittleEndianBytesAt | include/bytepacker.h:22-25 | In the little-endian layout that `*(T*)` reads on a little-endian host, byte i of the n-byte integer v is v / 256^i mod 256. |
| Endian.LittleIsReversedBig | include/bytepacker.h:42-49 | The little-endian encoding is the big-endian one reversed, so reversing a little-endian host's bytes yields network order. |
| Endian.HostBytesFlipped | include/bytepacker.h:84-90 | An integer's host layout is its big-endian encoding, reversed exactly on a little-endian host. |
| Endian.NetworkBytesAreBigEndian | include/bytepacker.h:84-90 | On either host, the network-order form of an integer's memory bytes is its big-endian encoding. |
| Endian.HostValue | include/bytepacker.h:22-25 | Reading n bytes s of memory as an unsigned integer gives the value below 256^n whose in-memory layout on this host is exactly s. |
| Endian.HostValueOfNetworkBytes | include/bytepacker.h:22-25 | Reading a network-order range converted to host order as an integer gives the range's big-endian value. |
| Field.ArrayBuffer.ToScalar | include/bytepacker.h:216-219 | `to<T>()` for an unsigned integer of width bytes: the value below 256^width whose host layout is the holder's first width bytes. |
| Field.ArrayBuffer.ToString | include/bytepacker.h:32-34 | `to<std::string>()` on a holder that contains a zero gives the holder's bytes before its first zero: a proper prefix with no zero in it, followed by a zero. |
| Field.HostByteOrderBuffer | include/bytepacker.h:92-98 | The `array_buffer` overload converts the first len - 1 bytes and never moves the terminator. |
| Field.HostByteOrderBufferTwice | include/bytepacker.h:92-98 | Converting an `array_buffer` twice restores it. |
| Field.DetailUnpack | include/bytepacker.h:101-104 | The new holder has count + 1 bytes. Its first count bytes are the buffer's bytes at start .. start + count, in order, and its last byte is the zero terminator. |
| Field.Unpack | include/bytepacker.h:145-149 | `unpack<start, len>` returns len + 1 bytes. The first len are the field in host order, and converting them back gives the buffer's bytes. Byte len is zero. |
| Field.UnpackedStringBounded | include/bytepacker.h:145-149 | The string view of any unpacked field has at most len bytes and never contains a zero. |
| Field.UnpackedScalarIsBigEndian | include/bytepacker.h:145-149 | Reading an unpacked field as an integer gives the field's big-endian value on either host. |
| ScalarCodec.DetailPack | include/bytepacker.h:106-111 | Zero-fills and then copies: the count bytes at start become the first count bytes of the data, no other byte changes, and count is returned. |
| ScalarCodec.Pack | include/bytepacker.h:162-183 | `pack<start, len>`, for a reference or for the `T*` overload, returns min(len, size - start). The caller's first len bytes are left in network order in place. The buffer receives that many of them at start and nothing else changes. |
| ScalarCodec.PackValue | include/bytepacker.h:153-159 | `pack<start>` is the same with len = sizeof(T): the whole object is converted in place and its clipped network-order prefix is written. |
| ScalarCodec.ShortPackBytes | include/bytepacker.h:162-167 | For `pack<start, len>` of an n-byte integer v with len <= n, the network-order bytes are the len most significant bytes of v on a big-endian host and the len-byte encoding of v mod 256^len on a little-endian host. |
| ScalarCodec.ShortPackHostsDiffer | include/bytepacker.h:162-167 | `pack<start, 1>` of the two-byte 0x0102 yields the network-order byte 0x01 on a big-endian host and 0x02 on a little-endian one. |
| ScalarCodec.PackedScalarBytes | include/bytepacker.h:153-159 | Packing the n-byte integer v writes big-endian bytes, so clipping keeps the most significant ones. Every byte outside the written range is unchanged. |
| ScalarCodec.ScalarKeepsHighByte | include/bytepacker.h:153-159 | A scalar `pack<start>` of 0x0102 into one byte of room writes 0x01 on either host. |
| ScalarCodec.PackedScalarField | include/bytepacker.h:153-159 | When the integer fits, its field holds exactly its n-byte big-endian encoding. |
| ScalarCodec.ScalarRoundTrip | include/bytepacker.h:145-159 | Unpacking a fully packed integer and reading it back gives the value it had before packing, on either host. |
| ScalarCodec.PackThenUnpack | include/bytepacker.h:145-159 | `pack<start>(buffer, v)` followed by `unpack<start, n>(buffer).to<T>()` returns n bytes written and the value v. |
| SequenceCodec.SlotStartIsProduct | include/bytepacker.h:116 | Slot i starts at start + i * len. |
| SequenceCodec.SlotCountExact | include/bytepacker.h:116-118 | Slot j (j < n) is visited exactly when it starts inside the buffer, and the recursion stops at the first slot that does not. |
| SequenceCodec.PackSlot | include/bytepacker.h:119-121 | One slot: min(len, size - s) bytes are written. The element's first bytes are converted in place, and the buffer receives them at s. |
| SequenceCodec.PackEach | include/bytepacker.h:114-127 | `pack_each<start>` (lines 192-196, stride sizeof(T)) returns min(n * len, size - start), or 0 when start is past the end. The buffer becomes the packed image of all n slots, and the container's elements are converted as their slots were packed. |
| SequenceCodec.PackImageSlot | include/bytepacker.h:119-122 | After packing, every slot that starts inside holds the first c_i bytes of element i in network order, in container order. |
| SequenceCodec.IntegerSlotByHost | include/bytepacker.h:119-121 | A slot clipped to c bytes holds the c most significant bytes of its len-byte integer on a big-endian host and the encoding of its c low bytes (v mod 256^c) on a little-endian one. |
| SequenceCodec.ClippedSlotHostsDiffer | include/bytepacker.h:119-121 | Packing the two-byte 0x0102 into a one-byte buffer as a container element gives 0x01 on a big-endian host and 0x02 on a little-endian one. A scalar pack gives 0x01 on both. |
| SequenceCodec.PackImageUnchanged | include/bytepacker.h:114-127 | Packing k slots changes no byte before start and none at or after the k-th slot's start. |
| SequenceCodec.PackImageBeyond | include/bytepacker.h:116-126 | Slots past the first one that starts outside the buffer write nothing. |
| SequenceCodec.PackedItemsAt | include/bytepacker.h:119-120 | Element j is converted in its first c_j bytes exactly when its slot starts inside the buffer, and is untouched otherwise. |
| SequenceCodec.PackedItemsByHost | include/bytepacker.h:120 | On a big-endian host the caller's elements are unchanged. On a little-endian host an element whose slot is full is left reversed. |
| SequenceCodec.ReadElement | include/bytepacker.h:135-137 | Reading one slot: the clipped slot, then the terminator, converted to host order over len bytes. |
| SequenceCodec.ReadSlotFull | include/bytepacker.h:135-137 | A full slot reads back as its bytes in host order. |
| SequenceCodec.ReadSlotValue | include/bytepacker.h:137 | The integer read from a full slot is the slot's big-endian value. |
| SequenceCodec.ReadSlotShort | include/bytepacker.h:135-137 | A last slot one byte short reads the terminator as its final network-order byte. |
| SequenceCodec.FullSlotsReadable | include/bytepacker.h:135-137 | When all n slots fit, every slot is readable. |
| SequenceCodec.ReadSlots | include/bytepacker.h:130-141 | The loop reads exactly `UnpackedSlots`: one host-order element per slot, in slot order, while the slot index is below `elements` and the slot starts inside the buffer. |
| SequenceCodec.UnpackedSlotsAt | include/bytepacker.h:130-141 | Element j of what is read, when slot j starts inside, is the host-order decode of slot j. |
| SequenceCodec.UnpackedSlotsCount | include/bytepacker.h:132-134 | One element is read per visited slot, `SlotCount` of them, which `SlotCountExact` characterises as the slots below `elements` that start inside. Each has the element size. |
| SequenceCodec.UnpackEach | include/bytepacker.h:204-209 | `unpack_each<start>` keeps the container's previous elements as a prefix and appends the slots' elements in order. It adds exactly the slot count and leaves the buffer unchanged. |
| SequenceCodec.RoundTripSlot | include/bytepacker.h:135-137 | A full slot of a packed buffer reads back as the element packed into it. |
| SequenceCodec.SequenceRoundTrip | include/bytepacker.h:192-209 | When start + n * len fits, unpacking n elements from what `pack_each` wrote returns the elements as they were before packing, in order, on either host. |
| RawCopy.CopyForward | include/bytepacker.h:64-69 | The big-endian branch stores byte i of the string at offset + i for every i before its first zero, and nothing else. |
| RawCopy.CopyBackward | include/bytepacker.h:70-81 | The little-endian branch stores bytes strlen down to 0 at offset + i, terminator included, and nothing else. |
| RawCopy.FillRawBuffer | include/bytepacker.h:60-82 | The buffer becomes the verbatim copy of the string at offset: strlen bytes on a big-endian host, strlen + 1 on a little-endian one. |
| RawCopy.RawCopyBytes | include/bytepacker.h:60-82 | Byte i of the string lands at offset + i for every i before its first zero, with no byte-order conversion. A zero follows only on a little-endian host, and no other byte changes. |
| RawCopy.RawCopyHostsDiffer | include/bytepacker.h:64-81 | The little-endian copy is the big-endian copy with a zero also stored at offset + strlen. |
| RawCopy.HelloWorld | test/main.cpp:20-32 | After copying "BOB", "hello", "DANIEL" and "world" to offsets 0, 3, 8 and 14, `unpack<3, 5>` and `unpack<14, 5>` read "hello" and "world" on a big-endian host, and "olleh" and "dlrow" on a little-endian one. |

## Left out

- Host detection by reading an integer through a byte pointer is a parameter, `hostBig`. `Endian.IsBigEndian` models the probe over that parameter.
- The `buffer_cast` overload for pointer types (include/bytepacker.h:27-30) returns a pointer into the holder. Pointer identity is not modelled.
- The template machinery becomes loops and arithmetic on run-time values: `index_sequence` folds, `if constexpr` recursion and the `min` macro. Compile-time rejection of a program is modelled as a precondition.
- The commented-out array overload of `pack` (include/bytepacker.h:169-175) is not part of the compiled header.
- The explicit-stride `pack_each` (include/bytepacker.h:186-189) is not modelled. It takes a `char` buffer but forwards it to a `std::uint8_t` buffer parameter (include/bytepacker.h:188), so it cannot be called as written.
- The explicit-stride `unpack_each` (include/bytepacker.h:199-202) is modelled only with the stride equal to the element size, which is `SequenceCodec.UnpackEach`. Other strides are not modelled; a stride below `sizeof(T) - 1` reads past the temporary holder.
- The `written` field of `array_buffer` (include/bytepacker.h:214) is never updated, so it is not modelled.
- ScalarCodec.Pack: requires `start < size`. A start past the end makes `size - start` wrap around and the write go out of bounds; a start at the end is an empty fold that does not compile. It also requires that the caller's object does not lie inside the buffer, so aliasing between the two is not modelled.
- Field.Unpack: requires the field to fit in the buffer. A field clipped by the buffer's end (`start <= size < start + len`) gets a holder whose type differs from the declared result, so the call does not compile. A field that starts past the end makes `size - start` wrap around, so the types match and the copy reads out of bounds, which is undefined behaviour.
- SequenceCodec.UnpackEach: requires every slot it reads to hold at least len - 1 bytes. A slot clipped by more converts len bytes of a shorter temporary holder, which is undefined behaviour.
- Field.ArrayBuffer.ToString: requires a zero in the holder. On a holder without one, `std::string(char*)` reads past its end; every holder an unpack returns ends in a zero.
- RawCopy.FillRawBuffer: requires a zero in the string and room for the bytes it stores; the source checks neither. It is modelled for `char` strings only. For a wider `T` the source compares elements but copies bytes at the same index, which is not modelled.
- Element and scalar types are unsigned integers held as their bytes. Signed reinterpretation, floating point and `std::list` iterators are not modelled.
- SequenceCodec.PackEach: the container is written back once, after the loop. The source converts each element during its visit, and the final state is the same.
- SequenceCodec.UnpackEach: appends all the elements it read once, at the end, rather than one `emplace_back` per slot. The final container is the same.
- Slot starts and the little-endian copy counter are unbounded integers. The counter's wrap-around from 0 to `SIZE_MAX` is modelled as reaching -1, and wrap-around of `start + i * len` is not modelled.
- The demo program test/main.cpp is not modelled, apart from the four-copy scenario in `RawCopy.HelloWorld`. What is left out includes its printing, its final assertion, its stride-8 expectation (test/main.cpp:48, where the stride is `sizeof(int)`) and its unqualified calls.
