# Buffers, byte orders and other inline code of the MariaDB headers

A Dafny model of the code that the bundled MariaDB 10.8 headers carry in their own text
(inline functions, macros and small classes), with proofs about it.

- **Buffered files.** `IoCache` is `IO_CACHE`: a buffer over a file, with a fast path inside
  the buffer and a slow path through the file. Every sequence of calls, with every buffer size
  and every pattern of file errors, is shown to behave like plain reads from, or appends to, a
  byte sequence (`ReadRuns`, `WriteRuns`). `CacheSteps` says how the buffer fills and how often the
  file is called, and bounds the calls by the bytes.
- **Byte orders.** The low-byte-first format is written four ways: by shifts, by i386 words, by
  x86_64 words, and for floating-point values by host-dependent byte shuffling. All of them are
  shown to read and write the same bytes (`CodecGeneric`, `CodecX86`, `Hosts`, `Codec`), the
  byte-swapping readers to read high byte first like the portable ones (`HighByteFirst`), and
  stores into one record to commute when they do not overlap (`Record`).
- **Both together.** `RoundTrip` stores numbers on one host, writes them through a cache,
  flushes, reads them through another cache and loads them on another host; the same is shown for
  any mix of write calls followed by any mix of read calls.
- **Two stacks in one memory.** `Lifo` and `LifoRuns` model the forward and backward buffers of
  `sql_lifo_buffer.h`, which sit side by side and lend each other space.
- **Smaller code.** Printing a UUID (`Uuid`), aligning by masks (`Align`), splitting and comparing
  times (`Timespecs`).

## How the source is represented

- C integers are mathematical integers; every conversion, wrap-around and shift that matters is
  written out with the operators of `Bits`, which are defined bit by bit and not as bit-vectors.
  Right shifts of negative operands are arithmetic. A store's operand is any integer, standing for
  the value of an expression of a type at least as wide as the store.
- A load's argument is the memory from the pointer on. A store works in place on an array, and its
  contract gives the whole array afterwards, so a byte outside the field cannot change.
- Pointers into a cache buffer or into the shared memory of two stacks are offsets.
- A word access is a load or store in the host's byte order; `bswapq` reverses eight bytes.
- A floating-point value is its bit pattern.
- The file under a cache is a byte sequence read and written at a position. A function from call
  numbers to faults decides which calls fail, and a failing write may leave any prefix of its bytes
  in the file. Results hold for all such functions.
- `_my_b_read`, `_my_b_write`, `_my_b_get` and `my_b_flush_io_cache` are prototypes in the
  repository. Their bodies here follow the comments of `my_sys.h` in what a successful call does:
  what is left in the buffer, then whole buffers straight to or from the file, then the buffer again;
  `error` is 0, -1, or the number of bytes of a partial read. No comment says what a failed call
  leaves behind. That a failed read moves nothing, that a failed write accepts nothing, and that a
  failed flush can be repeated are properties of the bodies chosen here, and so are the parts of the
  run theorems that speak of failed calls ("a failed call loses nothing", the count of failures).
  How many file calls a slow path makes is a property of these bodies too; that the fast paths make
  none, and when they are taken, is the header's.
  The comment on `error` also allows the number of bytes of a partial write; the bodies here never
  set it to that.
- The alignment macros are modelled on unsigned operands. `~(L - 1)` is computed in the type of `L`,
  so `Align` gives the mask a width of its own: the theorems with one width are about operands of
  the same width, those named `Narrow...` about an `L` of a narrower unsigned type.

## What the proofs turned up

- `byte_order_generic_x86_64.h` announces its eight-byte swapping reader under a misspelt guard
  name, so `myisampack.h` defines the portable one over it. `CodecX86.MiUint8korr` shows that the
  two agree on every input, so the slip is harmless.
- `MY_ALIGN` rounds up if and only if the sum does not overflow; when it overflows the result is 0
  (`Align.UpIsLeast`). With an alignment of a narrower unsigned type the mask also clears the high
  bits of the number: rounding down is then right if and only if the number fits the narrower type
  (`Align.NarrowDown`), rounding up if and only if the sum does (`Align.NarrowUp`).
- `set_timespec_time_nsec` is exact if and only if the seconds fit the host's `time_t`. The order of
  all counts below a bound is kept if and only if the bound is at most 2^(bits of `time_t` - 1)
  seconds (`Timespecs.OrderIffFits`); with a 32-bit `time_t` the first count beyond compares before
  zero (`Timespecs.Overflow2038`).
- `Forward_lifo_buffer::have_space_for` compares strictly, so the last byte of its space is never
  used; the backward buffer uses all of its space (`LifoRuns.ForwardHolds`, `LifoRuns.BackwardHolds`).
  This costs the forward buffer one element exactly when its space is a whole number of elements
  (`LifoRuns.StrictComparisonCost`).
- `Backward_lifo_buffer::write` tests the second pointer where `read` tests the second size. On whole
  elements a write puts its element on top if and only if the second size is zero or the pointer is
  set; otherwise only the first half is written (`Lifo.Backward.Write`).
- `my_b_fill` skips whatever is unread. The deliveries of a run have no gap if and only if no fill
  skipped anything, which is what its note asks for (`ReadRuns.GapIffSkipped`).

## Model

| member | source | states |
|---|---|---|
| Bits.OrBit | mariadb-fp/include/mysql/server/byte_order_generic.h:36-64 | each bit of the modelled `\|` is the or of the operands' bits |
| Bits.AndBit | mariadb-fp/include/mysql/server/my_global.h:832-833 | each bit of the modelled `&` is the and of the operands' bits |
| Bits.ClearLowBits | mariadb-fp/include/mysql/server/my_global.h:833 | masking with `~(2^k - 1)` subtracts the remainder modulo 2^k, for every word width |
| Endian.OrConcat | mariadb-fp/include/mysql/server/byte_order_generic.h:36-64 | or-ing a low part with a shifted high part gives the number of the concatenated bytes, for byte strings of any length in any word wide enough |
| Endian.LeLoadStore | mariadb-fp/include/mysql/server/byte_order_generic.h:36-96 | the number of the stored bytes is the operand modulo 256^n, for every n and every signed operand |
| Endian.LeStoreLoad | mariadb-fp/include/mysql/server/byte_order_generic.h:36-96 | storing the number of a byte string gives the byte string back |
| Endian.LeBytesSplit | mariadb-fp/include/mysql/server/byte_order_generic_x86_64.h:67-75 | a store of m + n bytes is a store of m bytes followed by one of n bytes of the shifted operand |
| Endian.SwapReads | mariadb-fp/include/mysql/server/byte_order_generic_x86_64.h:88-123 | loading n bytes low byte first into an m-byte word, moving them to its top and swapping its bytes reads them high byte first, for all n up to m |
| Endian.SignedUnique | mariadb-fp/include/mysql/server/byte_order_generic.h:21-35 | the two's complement reading is the one number of the signed range congruent to the pattern |
| CodecGeneric.Uint2korr | mariadb-fp/include/mysql/server/byte_order_generic.h:36-37 | the shift form is the low-byte-first number of exactly two bytes |
| CodecGeneric.Uint3korr | mariadb-fp/include/mysql/server/byte_order_generic.h:38-40 | the same for three bytes |
| CodecGeneric.Uint4korr | mariadb-fp/include/mysql/server/byte_order_generic.h:41-44 | the same for four bytes |
| CodecGeneric.OrFour | mariadb-fp/include/mysql/server/byte_order_generic.h:45-48 | the four-byte shift-and-or expression inside the wider loads is the low-byte-first number of its four bytes |
| CodecGeneric.Uint5korr | mariadb-fp/include/mysql/server/byte_order_generic.h:45-49 | the same for five bytes |
| CodecGeneric.Uint6korr | mariadb-fp/include/mysql/server/byte_order_generic.h:50-55 | the same for six bytes |
| CodecGeneric.Uint8korr | mariadb-fp/include/mysql/server/byte_order_generic.h:56-64 | the same for eight bytes |
| CodecGeneric.Sint2korr | mariadb-fp/include/mysql/server/byte_order_generic.h:21-22 | the signed number of two bytes |
| CodecGeneric.Sint3korr | mariadb-fp/include/mysql/server/byte_order_generic.h:23-30 | testing the sign bit and or-ing in eight ones gives the signed number of three bytes |
| CodecGeneric.Sint4korr | mariadb-fp/include/mysql/server/byte_order_generic.h:31-34 | the signed number of four bytes |
| CodecGeneric.Sint8korr | mariadb-fp/include/mysql/server/byte_order_generic.h:35 | the signed number of eight bytes |
| CodecGeneric.Int2store | mariadb-fp/include/mysql/server/byte_order_generic.h:65-68 | the buffer afterwards is the old one with exactly the operand's two low bytes, low byte first, at the offset |
| CodecGeneric.Int3store | mariadb-fp/include/mysql/server/byte_order_generic.h:69-73 | the same for three bytes |
| CodecGeneric.Int4store | mariadb-fp/include/mysql/server/byte_order_generic.h:74-78 | the same for four bytes |
| CodecGeneric.Int5store | mariadb-fp/include/mysql/server/byte_order_generic.h:79-84 | the same for five bytes |
| CodecGeneric.Int6store | mariadb-fp/include/mysql/server/byte_order_generic.h:85-91 | the same for six bytes |
| CodecGeneric.Int8store | mariadb-fp/include/mysql/server/byte_order_generic.h:92-96 | two four-byte stores of the operand's halves are one eight-byte store |
| CodecX86.Uint5korr | mariadb-fp/include/mysql/server/byte_order_generic_x86_64.h:38-43 | the 4+1 word access equals the shift form |
| CodecX86.Uint6korr | mariadb-fp/include/mysql/server/byte_order_generic_x86_64.h:44-49 | the 4+2 word access equals the shift form |
| CodecX86.Int3store | mariadb-fp/include/mysql/server/byte_order_generic_x86_64.h:58-61 | the variant with a 32-bit conversion in the middle writes the same three bytes and no others |
| CodecX86.Int5store | mariadb-fp/include/mysql/server/byte_order_generic_x86_64.h:67-70 | the 4+1 word store writes the same five bytes and no others |
| CodecX86.Int6store | mariadb-fp/include/mysql/server/byte_order_generic_x86_64.h:72-75 | the 4+2 word store writes the same six bytes and no others |
| CodecX86.WordStore | mariadb-fp/include/mysql/server/byte_order_generic_x86.h:50-69 | a converted word store writes the operand's low n bytes, low byte first, and no others |
| CodecX86.MiUint5korr | mariadb-fp/include/mysql/server/byte_order_generic_x86_64.h:90-97 | the byte-swapping reader gives the high-byte-first number of five bytes and equals the portable reader |
| CodecX86.MiUint6korr | mariadb-fp/include/mysql/server/byte_order_generic_x86_64.h:99-106 | the same for six bytes |
| CodecX86.MiUint7korr | mariadb-fp/include/mysql/server/byte_order_generic_x86_64.h:108-116 | the same for seven bytes, assembled from 4+2+1 |
| CodecX86.MiUint8korr | mariadb-fp/include/mysql/server/byte_order_generic_x86_64.h:118-123 | the same for eight bytes |
| HighByteFirst.MiUint5korr | mariadb-fp/include/mysql/server/private/myisampack.h:58-62 | the portable shift form gives the high-byte-first number of five bytes |
| HighByteFirst.MiUint6korr | mariadb-fp/include/mysql/server/private/myisampack.h:66-72 | the same for six bytes |
| HighByteFirst.MiUint7korr | mariadb-fp/include/mysql/server/private/myisampack.h:76-83 | the same for seven bytes |
| HighByteFirst.MiUint8korr | mariadb-fp/include/mysql/server/private/myisampack.h:87-95 | the same for eight bytes |
| HighByteFirst.Int4net | mariadb-fp/include/mysql/server/my_byteorder.h:24-27 | the signed number of four bytes in network order (Appendix B of RFC 791) |
| Hosts.BigFloat8Store | mariadb-fp/include/mysql/server/big_endian.h:31-38 | reversing a big-endian object writes the bit pattern low byte first |
| Hosts.SwappedDoubleStore | mariadb-fp/include/mysql/server/little_endian.h:28-36 | exchanging the words of a high-word-first double writes the bit pattern low byte first |
| Hosts.I386DoubleStore | mariadb-fp/include/mysql/server/byte_order_generic_x86.h:79-82 | two word stores through the union write the bit pattern low byte first |
| Hosts.Float8Store | mariadb-fp/include/mysql/server/little_endian.h:23-51 | on every host `float8store` writes the same eight bytes for the same bit pattern |
| Hosts.BigFloat8Get | mariadb-fp/include/mysql/server/big_endian.h:40-49 | filling a big-endian object last byte first reads the bit pattern kept low byte first |
| Hosts.SwappedDoubleGet | mariadb-fp/include/mysql/server/little_endian.h:37-46 | exchanging the words reads the bit pattern into a high-word-first double |
| Hosts.I386DoubleGet | mariadb-fp/include/mysql/server/byte_order_generic_x86.h:70-78 | two word loads through the union read the bit pattern |
| Hosts.Float8Get | mariadb-fp/include/mysql/server/little_endian.h:23-51 | on every host `float8get` reads the bit pattern of eight bytes kept low byte first |
| Hosts.Float4Store | mariadb-fp/include/mysql/server/big_endian.h:19-22 | on every host `float4store` writes the same four bytes for the same bit pattern |
| Hosts.Float4Get | mariadb-fp/include/mysql/server/big_endian.h:24-29 | on every host `float4get` reads the bit pattern of four bytes kept low byte first |
| Hosts.DoubleLayout | mariadb-fp/include/mysql/server/little_endian.h:23-51 | the eight bytes stored for a double variable, byte for byte, in each of the three layouts |
| Hosts.FloatLayout | mariadb-fp/include/mysql/server/big_endian.h:19-29 | the four bytes stored for a float variable, byte for byte |
| Hosts.DoubleObjectBits | mariadb-fp/include/mysql/server/little_endian.h:23-51 | a double variable holds the bit pattern assigned to it, in all three layouts |
| Hosts.DoubleBitsObject | mariadb-fp/include/mysql/server/little_endian.h:23-51 | a double's bytes and its bit pattern determine each other on every host (with `DoubleObjectBits`, the other way round) |
| Hosts.TransferDouble | mariadb-fp/include/mysql/server/my_byteorder.h:34-52 | a double variable stored on any host and fetched into one on any other keeps its 64-bit pattern; the stored bytes are the variable's last first on a big-endian host, its halves exchanged where the high word comes first, and the same elsewhere, and the fetched bytes relate to the stored ones in the same way |
| Hosts.TransferFloat | mariadb-fp/include/mysql/server/my_byteorder.h:34-52 | a float variable keeps its 32-bit pattern; its bytes are reversed exactly when one of the two hosts is big-endian, and stored last first exactly when the storing one is |
| Hosts.ShortStore | mariadb-fp/include/mysql/server/big_endian.h:67-69 | writes the big-endian host's own two-byte representation and nothing else |
| Hosts.LongStore | mariadb-fp/include/mysql/server/big_endian.h:70-73 | writes the big-endian host's own four-byte representation and nothing else |
| Hosts.UshortGet | mariadb-fp/include/mysql/server/big_endian.h:51-52 | adding the shifted high byte gives the big-endian host's word |
| Hosts.ShortGet | mariadb-fp/include/mysql/server/big_endian.h:53-54 | the same, signed |
| Memory.WordLoadStore | mariadb-fp/include/mysql/server/big_endian.h:55-73 | a machine-format word read back is the word stored, in either byte order |
| Codec.LoadUnsigned | mariadb-fp/include/mysql/server/my_byteorder.h:34-41 | whichever file the host selects, `uintNkorr` reads the same number from exactly N bytes |
| Codec.LoadSigned | mariadb-fp/include/mysql/server/my_byteorder.h:34-41 | whichever file the host selects, `sintNkorr` reads the same signed number |
| Codec.Store | mariadb-fp/include/mysql/server/my_byteorder.h:34-41 | whichever file the host selects, `intNstore` writes the same N bytes and no others |
| Codec.UnsignedPortable | mariadb-fp/include/mysql/server/byte_order_generic.h:36-96 | load after store is the operand modulo 256^N, across hosts |
| Codec.SignedPortable | mariadb-fp/include/mysql/server/byte_order_generic.h:21-35 | a number is the signed load after a store if and only if it is in the signed range and congruent to the operand |
| Codec.Signed24 | mariadb-fp/include/mysql/server/my_global.h:788-790 | for three bytes the range is INT_MIN24 to INT_MAX24 |
| Codec.StoreAfterLoad | mariadb-fp/include/mysql/server/byte_order_generic.h:21-96 | storing what a signed or unsigned load gave restores the bytes |
| Record.Pack | mariadb-fp/include/mysql/server/byte_order_generic.h:65-96 | stores at any offsets, one after another, give the record the specification builds |
| Record.PackedInside | mariadb-fp/include/mysql/server/byte_order_generic.h:65-96 | with disjoint fields, every byte of a field is that field's own |
| Record.PackedOutside | mariadb-fp/include/mysql/server/byte_order_generic.h:65-96 | a byte of no field is unchanged |
| Record.PackedDecodes | mariadb-fp/include/mysql/server/byte_order_generic.h:36-96 | every field of a record of disjoint fields decodes on any host to its value modulo 256^width |
| Record.OrderIrrelevant | mariadb-fp/include/mysql/server/byte_order_generic.h:65-96 | every permutation of the stores gives the same record |
| IoCaches.IoCache.Reader | mariadb-fp/include/mysql/server/my_sys.h:392-422 | a read cache starts valid and empty at the given position |
| IoCaches.IoCache.Writer | mariadb-fp/include/mysql/server/my_sys.h:392-422 | a write cache starts valid, with the file as its stream |
| IoCaches.IoCache.Read | mariadb-fp/include/mysql/server/my_sys.h:514-523 | delivers all bytes asked for, or those left before the end of the file with their number in `error`, or nothing after a hard error; no byte of the destination beyond them changes; it fails hard exactly when one of its file calls failed, calls the file only when the buffer holds too little, and leaves `error` alone when it does not |
| IoCaches.IoCache.SlowRead | mariadb-fp/include/mysql/server/my_sys.h:438-446 | the same answer when the buffer does not hold enough, for every buffer size |
| IoCaches.IoCache.Get | mariadb-fp/include/mysql/server/my_sys.h:540-548 | the next byte of the file, or `my_b_EOF` (INT_MIN) at its end or on an error; no file call and no change of `error` while the buffer holds a byte |
| IoCaches.IoCache.SlowGet | mariadb-fp/include/mysql/server/my_sys.h:505 | the same when the buffer is used up |
| IoCaches.IoCache.Fill | mariadb-fp/include/mysql/server/my_sys.h:560-574 | moves past what is unread with one file call, and returns how many bytes are then available, as many as the buffer takes of the file, 0 at its end or on an error |
| IoCaches.IoCache.Write | mariadb-fp/include/mysql/server/my_sys.h:525-538 | the stream grows by exactly the bytes on success and by nothing on failure; no file call and no change of `error` when the bytes fit |
| IoCaches.IoCache.SlowWrite | mariadb-fp/include/mysql/server/my_sys.h:447-451 | the same when the bytes do not fit, for every buffer size |
| IoCaches.IoCache.Flush | mariadb-fp/include/mysql/server/my_sys.h:470-477 | the stream stays the same; on success it is all in the file and the buffer empty, on failure all of it can be flushed again; one file call, and none when nothing is buffered |
| IoCaches.IoCache.WriteByte | mariadb-fp/include/mysql/server/my_sys.h:550-558 | the stream grows by the byte, or not at all when the flush fails; the byte written right after a flush, with no second look for room, stays inside the buffer |
| IoCaches.IoCache.Tell | mariadb-fp/include/mysql/server/my_sys.h:576-583 | the reading position, or the length of the stream up to the distance of the start pointers |
| IoCaches.IoCache.WriteTell | mariadb-fp/include/mysql/server/my_sys.h:585-588 | the length of the stream |
| IoCaches.IoCache.BytesInCache | mariadb-fp/include/mysql/server/my_sys.h:595-611 | `my_b_tell` plus the bytes in the cache is the position in the file plus the bytes in the buffer |
| IoCaches.IoCache.TellsAgree | mariadb-fp/include/mysql/server/my_sys.h:576-588 | the two positions of a write cache agree if and only if its two start pointers do |
| CacheSteps.ReadStepMeaning | mariadb-fp/include/mysql/server/my_sys.h:514-523 | a read moves on by what a plain read delivers; it calls the file exactly when the buffer holds too little, and at most twice |
| CacheSteps.WriteStepMeaning | mariadb-fp/include/mysql/server/my_sys.h:525-538 | a write calls the file exactly when the bytes do not fit the buffer, and at most twice |
| ReadRuns.RunReads | mariadb-fp/include/mysql/server/my_sys.h:514-574 | every sequence of reads, gets and fills keeps the cache valid, answers each call as a plain file would at the position reached, and leaves `my_b_tell` where the replies say; exactly as many calls fail as file calls failed during the run; every fill skips exactly what is unread and reports what the buffer took; without failures the unread bytes and the number of file calls are those the steps determine |
| ReadRuns.DeliversRange | mariadb-fp/include/mysql/server/my_sys.h:514-574 | together the answered calls deliver exactly what one plain read of their total would, with no gap or repeat, however calls fail in between (with the chosen slow path a failed call moves nothing) |
| ReadRuns.GapIffSkipped | mariadb-fp/include/mysql/server/my_sys.h:560-574 | the position moves by the delivered plus the skipped bytes, so the deliveries are gapless if and only if every fill came after everything was used |
| ReadRuns.SameReplies | mariadb-fp/include/mysql/server/my_sys.h:514-548 | replies do not depend on buffer size or refill points |
| ReadRuns.SameWithFills | mariadb-fp/include/mysql/server/my_sys.h:514-574 | with fills the replies depend on the capacity of the buffer and nothing else |
| ReadRuns.SplitIrrelevant | mariadb-fp/include/mysql/server/my_sys.h:514-548 | nor does what is delivered depend on how the reads are split |
| ReadRuns.EndsShort | mariadb-fp/include/mysql/server/my_sys.h:470-477 | without errors some call is cut short if and only if the file cannot meet the whole demand |
| WriteRuns.RunWrites | mariadb-fp/include/mysql/server/my_sys.h:525-558 | after every sequence of writes, byte writes and flushes, the file up to its position followed by the buffer is the old stream followed by the bytes of the successful calls; the position moves by as many; exactly as many calls fail as file calls failed; everything accepted before the last successful flush is in the file; without failures the file holds exactly all accepted bytes but the last ones, which are in the buffer, and their number and that of the file calls are those the steps determine |
| WriteRuns.RunAndFlush | mariadb-fp/include/mysql/server/my_sys.h:525-558 | after a successful last flush every accepted byte is in the file in order, whatever failed before; everything succeeds if and only if no file call failed; the number of file calls is then determined by the sizes of the calls |
| WriteRuns.AllAccepted | mariadb-fp/include/mysql/server/my_sys.h:525-558 | when all calls succeed, what is accepted is what they carried, however it was cut into calls |
| WriteRuns.FewCalls | mariadb-fp/include/mysql/server/my_sys.h:525-558 | over every run, apart from the flushes asked for, the file is called at most twice for every bufferful of bytes, however they are cut into calls |
| WriteRuns.ByteWiseCalls | mariadb-fp/include/mysql/server/my_sys.h:550-558 | writing n bytes one by one into an empty buffer of capacity c makes exactly (n - 1) / c file calls and leaves (n - 1) mod c + 1 bytes buffered |
| RoundTrip.DecodeEncode | mariadb-fp/include/mysql/server/byte_order_generic.h:36-96 | decoding a concatenation of stored numbers gives each one modulo 256^width, in order |
| RoundTrip.WriteItems | mariadb-fp/include/mysql/server/my_sys.h:525-538 | storing and writing a list of numbers appends their encoding to the stream, and stops with a failure exactly when a file call failed |
| RoundTrip.ReadNumbers | mariadb-fp/include/mysql/server/my_sys.h:514-523 | reading and loading by widths gives the numbers the file holds and no file call failed, or the file is too short or a file call failed |
| RoundTrip.StoreFlushReadLoad | mariadb-fp/include/mysql/server/my_sys.h:514-538 | any list of numbers stored, written, flushed, read and loaded comes back modulo 256^width and in order, and lies in the file right behind its earlier contents, for any two hosts and any two buffer sizes, if and only if none of the first `FileCalls` file calls fails, a number fixed by the widths, the sizes and the length of the file; otherwise a failure is reported and the earlier contents are still there |
| RoundTrip.AtLeastTwoCalls | mariadb-fp/include/mysql/server/my_sys.h:514-538 | a round trip of at least one number reaches the file at least twice |
| RoundTrip.WriteThenRead | mariadb-fp/include/mysql/server/my_sys.h:514-574 | any mix of writes, byte writes and flushes through one cache followed by any mix of reads, gets and fills through another delivers the beginning of what the successful writes carried; when all succeed, exactly a plain read of all payloads, which the file then ends with; the replies are a run of the file, and on each side exactly as many calls fail as file calls failed |
| Lifo.StackedTop | mariadb-fp/include/mysql/server/private/sql_lifo_buffer.h:192-211 | the bytes right below the end of a stack that grows upwards are its newest element |
| Lifo.HangingTop | mariadb-fp/include/mysql/server/private/sql_lifo_buffer.h:288-307 | the bytes right at the start of a stack that grows downwards are its newest element |
| Lifo.StackedCount | mariadb-fp/include/mysql/server/private/sql_lifo_buffer.h:192-211 | memory filled upwards holds as many elements as their size goes into it |
| Lifo.HangingCount | mariadb-fp/include/mysql/server/private/sql_lifo_buffer.h:288-307 | memory filled downwards holds as many elements as their size goes into it |
| Lifo.WholeIffMultiple | mariadb-fp/include/mysql/server/private/sql_lifo_buffer.h:192-211 | used memory is whole elements and nothing else exactly when its length is a multiple of their size |
| Lifo.Forward.Write | mariadb-fp/include/mysql/server/private/sql_lifo_buffer.h:180-191 | the element is on top and no byte outside its space changes |
| Lifo.Forward.ReadAt | mariadb-fp/include/mysql/server/private/sql_lifo_buffer.h:192-211 | finds the element below a position, or none exactly when too few bytes are left |
| Lifo.Forward.Read | mariadb-fp/include/mysql/server/private/sql_lifo_buffer.h:202-211 | takes off and points at the newest element, or reports that there is none |
| Lifo.Forward.Grow | mariadb-fp/include/mysql/server/private/sql_lifo_buffer.h:216-229 | adding adjacent space keeps the elements |
| Lifo.Backward.Write | mariadb-fp/include/mysql/server/private/sql_lifo_buffer.h:272-283 | writes the second part if its pointer is set and the first part below it, and no other byte; on whole elements the element is then on top if and only if the second size is zero or the pointer is set |
| Lifo.Backward.ReadAt | mariadb-fp/include/mysql/server/private/sql_lifo_buffer.h:288-307 | finds the element above a position, or none exactly when too few bytes are left |
| Lifo.Backward.Read | mariadb-fp/include/mysql/server/private/sql_lifo_buffer.h:284-307 | takes off and points at the newest element, or reports that there is none |
| Lifo.Backward.RemoveUnusedSpace | mariadb-fp/include/mysql/server/private/sql_lifo_buffer.h:308-318 | gives away exactly the unused space and keeps the elements |
| LifoRuns.Call | mariadb-fp/include/mysql/server/private/sql_lifo_buffer.h:175-178 | one call on two adjacent buffers gives the one reply the stacks and the space determine: a forward push is refused exactly when it would reach the boundary, a backward push exactly when it would pass it |
| LifoRuns.RunPair | mariadb-fp/include/mysql/server/private/sql_lifo_buffer.h:26-42 | the replies and the elements after every sequence of pushes, pops and loans are exactly those of two separate last-in-first-out stacks sharing a space; nothing is left to choice |
| LifoRuns.PopUndoesPush | mariadb-fp/include/mysql/server/private/sql_lifo_buffer.h:180-211 | on either stack a push that is not refused is undone by the next pop, which returns the element |
| LifoRuns.StaysFitting | mariadb-fp/include/mysql/server/private/sql_lifo_buffer.h:26-42 | no run takes a stack over the boundary |
| LifoRuns.ForwardHolds | mariadb-fp/include/mysql/server/private/sql_lifo_buffer.h:175-178 | of any elements pushed onto the empty forward stack exactly the first (space - 1) / size are kept |
| LifoRuns.BackwardHolds | mariadb-fp/include/mysql/server/private/sql_lifo_buffer.h:268-271 | of any elements pushed onto the empty backward stack exactly the first space / size are kept |
| LifoRuns.StrictComparisonCost | mariadb-fp/include/mysql/server/private/sql_lifo_buffer.h:175-178 | the strict comparison costs the forward buffer one element exactly when its space is a whole number of elements |
| LifoRuns.LoanGivesAll | mariadb-fp/include/mysql/server/private/sql_lifo_buffer.h:216-229 | after a loan the boundary lies right below the backward elements, no element has moved, and an empty forward stack takes (total - backward bytes - 1) / size elements |
| LifoRuns.Conservation | mariadb-fp/include/mysql/server/private/sql_lifo_buffer.h:26-42 | over every run no element is lost or invented |
| LifoRuns.WalkForward | mariadb-fp/include/mysql/server/private/sql_lifo_buffer.h:330-357 | the iterator sees all elements newest first and changes nothing |
| LifoRuns.WalkBackward | mariadb-fp/include/mysql/server/private/sql_lifo_buffer.h:330-357 | the same on a backward buffer |
| Uuid.Uuid2Str | mariadb-fp/include/mysql/server/my_sys.h:1033-1044 | writes exactly the canonical text of 36 characters, or the 32 digits, and nothing else |
| Uuid.MaskBit | mariadb-fp/include/mysql/server/my_sys.h:1036-1041 | the low bit of the mask shifted i times is set exactly after bytes 3, 5, 7 and 9, and never without separators |
| Uuid.TextPositions | mariadb-fp/include/mysql/server/my_sys.h:1033-1044 | byte i is printed as its two lowercase hexadecimal digits, high half first, at 2i of the plain form and past the dashes at 8, 13, 18 and 23 of the separated form |
| Uuid.StripCanonical | mariadb-fp/include/mysql/server/my_sys.h:1033-1044 | deleting the dashes of the separated form gives the plain form |
| Uuid.ParseRoundTrip | mariadb-fp/include/mysql/server/my_sys.h:1033-1044 | both forms can be read back |
| Uuid.TextInjective | mariadb-fp/include/mysql/server/my_sys.h:1033-1044 | different identifiers have different texts, in either form |
| Uuid.ShapeIsImage | mariadb-fp/include/mysql/server/my_sys.h:1024-1044 | the separated texts are exactly the strings of 36 characters with dashes at 8, 13, 18 and 23 and lowercase digits elsewhere (section 3 of RFC 4122) |
| Align.DownIsGreatest | mariadb-fp/include/mysql/server/my_global.h:833 | the mask form gives the greatest multiple at or below, for every power of two and word width |
| Align.UpIsLeast | mariadb-fp/include/mysql/server/my_global.h:832 | the mask form gives the least multiple at or above if and only if the sum does not overflow, and 0 otherwise |
| Align.UpIsDownOfSum | mariadb-fp/include/mysql/server/my_global.h:832-833 | rounding up is rounding the sum down |
| Align.Idempotent | mariadb-fp/include/mysql/server/my_global.h:832-833 | aligning twice is aligning once, also after an overflow |
| Align.Monotone | mariadb-fp/include/mysql/server/my_global.h:832-833 | both roundings keep the order |
| Align.NarrowMask | mariadb-fp/include/mysql/server/my_global.h:833 | a `w`-bit mask rounds the low `w` bits and drops the rest |
| Align.NarrowDown | mariadb-fp/include/mysql/server/my_global.h:833 | with a `w`-bit alignment and a wider number, rounding down is right if and only if the number fits `w` bits |
| Align.NarrowUp | mariadb-fp/include/mysql/server/my_global.h:832 | with a `w`-bit alignment and a wider number, rounding up is right if and only if the sum fits `w` bits |
| Align.AlignSizeToEight | mariadb-fp/include/mysql/server/my_global.h:834 | sizes are rounded to the next multiple of eight |
| Timespecs.Timespec.SetTimeNsec | mariadb-fp/include/mysql/server/my_pthread.h:353-358 | nanoseconds are the count modulo 1000000000, seconds the one number of the host's `time_t` congruent to the quotient; exact if and only if the quotient fits |
| Timespecs.SplitOfCount | mariadb-fp/include/mysql/server/my_pthread.h:353-358 | the count of s seconds and n nanoseconds is split into s and n again, for every s that fits `time_t` |
| Timespecs.CmpIsNumeric | mariadb-fp/include/mysql/server/my_pthread.h:345-351 | on normalised times the comparison is -1, 0 or 1 as sec * 1000000000 + nsec of the one is below, equal to or above that of the other |
| Timespecs.OrderIffFits | mariadb-fp/include/mysql/server/my_pthread.h:345-358 | for every width of `time_t`, comparing split times is comparing the counts, for all counts below a bound, if and only if the bound is at most 2^(width - 1) seconds |
| Timespecs.AtLimit | mariadb-fp/include/mysql/server/my_pthread.h:345-358 | for every width of `time_t`, the first count whose seconds do not fit compares before zero |
| Timespecs.SplitKeepsOrder | mariadb-fp/include/mysql/server/my_pthread.h:345-358 | with a 64-bit `time_t`, comparing the split times is `CMP_NUM` of the counts for all 64-bit counts, and splitting loses nothing |
| Timespecs.TotalOrder | mariadb-fp/include/mysql/server/my_pthread.h:336-351 | the comparison is antisymmetric, transitive, and 0 only on equal times |
| Timespecs.Overflow2038 | mariadb-fp/include/mysql/server/my_pthread.h:353-358 | a 32-bit `time_t` orders all counts below a bound if and only if the bound is at most 2^31 seconds; the count for 2^31 seconds compares before zero |

## Left out

- IoCaches.IoCache.SlowRead: the repository holds only the prototype of `_my_b_read`; the body is written from the comments, so the number of file calls it makes, and that a hard error moves nothing, are properties of this body.
- IoCaches.IoCache.SlowWrite: the repository holds only the prototype of `_my_b_write`; rounding of direct writes to IO_SIZE and the file size limit are not captured, a partial write's byte count never appears in `error`, and that a failed write accepts nothing is a property of this body.
- `IO_CACHE` fields no shown code reads (`end_of_file`, `disk_writes`, `seek_not_done`, flags, names), and its shared, encrypted, asynchronous and SEQ_READ_APPEND modes.
- Overflow of 64-bit file positions in a cache.
- `longget`, `ulongget`, `floatget`, `floatstore`, `longlongget` and `longlongstore`: each copies a machine word or a float's bytes unchanged, which is what `Memory.WordLoadStore` and `Memory.CopyBytes` state for any word.
- The stores and the remaining readers of `myisampack.h`, and the row and size pointers built on them.
- Reading signed `char` buffers through the load macros; buffers are bytes 0 to 255.
- Digits of `_dig_vec_lower` beyond the sixteen the UUID printer can reach.
- `my_qsort2` on a stack buffer: only its prototype is in the repository.
- Elements of size zero in the stack buffers, and signed or mixed-sign operands of the alignment macros.
- Everything the headers only declare: JSON, decimals, dynamic columns, key cache, allocators, replication, prepared statements, locks, character sets, error tables.
- The Spring application, the SQL scripts and the data files of the repository.
