/**
  IO_CACHE of my_sys.h: a buffer over a file, with a fast path inside the buffer and a slow
  path through the file. Pointers into the buffer are offsets from its start. The slow paths
  (`_my_b_read`, `_my_b_write`, `_my_b_get`, `my_b_flush_io_cache`) are prototypes in the
  header; the bodies here are written from their documented contract.
 */
module IoCaches {
  import opened Bits
  import opened Endian
  import opened Memory
  import opened Disk
  import opened CacheSteps

  datatype CacheType = ReadCache | WriteCache

  /** `my_b_EOF` (INT_MIN) */
  const MY_B_EOF: int := -0x8000_0000

  /**
    What a read of `count` bytes from `pos` may answer: all of them, what is left before
    the end of the file, or a hard error that delivers and moves nothing.
   */
  ghost predicate ReadAnswer(contents: seq<byte>, pos: nat, count: nat, r: int, error: int, got: seq<byte>, pos': nat)
  {
    var want := Range(contents, pos, count);
    || (r == 0 && got == want && |want| == count && pos' == pos + count)
    || (r == 1 && got == want && error == |want| < count && pos' == pos + error)
    || (r == 1 && got == [] && error == -1 && pos' == pos)
  }

  class IoCache {
    const file: File
    const cacheType: CacheType
    const buffer: array<byte>
    const requestPos: nat
    const writeBuffer: nat
    var posInFile: nat
    var readPos: nat
    var readEnd: nat
    var writePos: nat
    var writeEnd: nat
    var error: int

    /**
      The pointers are ordered inside the buffer, there is room for a byte, and the bytes a
      read cache holds are those of the file at `posInFile`.
     */
    ghost predicate Valid()
      reads this, buffer, file
    {
      match cacheType
      case ReadCache =>
        && requestPos < buffer.Length
        && requestPos <= readPos <= readEnd <= buffer.Length
        && buffer[requestPos..readEnd] == Range(file.contents, posInFile, readEnd - requestPos)
      case WriteCache =>
        && writeBuffer < writeEnd <= buffer.Length
        && writeBuffer <= writePos <= writeEnd
        && posInFile <= |file.contents|
    }

    /** The position in the file of the next byte a read cache delivers */
    ghost function Cursor(): nat
      requires Valid() && cacheType.ReadCache?
      reads this, buffer, file
    {
      posInFile + (readPos - requestPos)
    }

    /** What a write cache has accepted so far: the file up to `posInFile`, then the buffer */
    ghost function Stream(): seq<byte>
      requires Valid() && cacheType.WriteCache?
      reads this, buffer, file
    {
      file.contents[..posInFile] + buffer[writeBuffer..writePos]
    }

    /** How many bytes the buffer takes */
    ghost function Capacity(): (cap: nat)
      requires Valid()
      reads this, buffer, file
      ensures cap > 0
    {
      match cacheType
      case ReadCache => buffer.Length - requestPos
      case WriteCache => writeEnd - writeBuffer
    }

    ghost function ReadState(): Reading
      requires Valid() && cacheType.ReadCache?
      reads this, buffer, file
    {
      Reading(Cursor(), readEnd - readPos, file.calls)
    }

    ghost function WriteState(): Writing
      requires Valid() && cacheType.WriteCache?
      reads this, buffer, file
    {
      Writing(writePos - writeBuffer, file.calls)
    }

    /** The cache has come to `next`, or has failed on the way there and holds nothing unread. */
    ghost predicate ReadTo(next: Reading, failed: bool)
      requires Valid() && cacheType.ReadCache?
      reads this, buffer, file
    {
      if failed then readPos == readEnd && file.calls <= next.calls else ReadState() == next
    }

    /** The same for a write cache */
    ghost predicate WrittenTo(next: Writing, failed: bool)
      requires Valid() && cacheType.WriteCache?
      reads this, buffer, file
    {
      if failed then file.calls <= next.calls else WriteState() == next
    }

    /** Nothing beyond the accepted bytes was left on the medium by a failed write. */
    ghost predicate Clean()
      reads this, file
    {
      |file.contents| == posInFile
    }

    /** A read cache starting at `offset` */
    constructor Reader(file: File, size: nat, offset: nat)
      requires size > 0
      ensures Valid() && fresh(buffer) && this.file == file && cacheType.ReadCache? && buffer.Length == size
      ensures requestPos == 0 && Cursor() == offset && Tell() == offset
      ensures Capacity() == size && ReadState() == Reading(offset, 0, file.calls)
    {
      this.file, cacheType, buffer := file, ReadCache, new byte[size];
      requestPos, writeBuffer, posInFile, error := 0, 0, offset, 0;
      readPos, readEnd, writePos, writeEnd := 0, 0, 0, 0;
    }

    /** A write cache appending to the file */
    constructor Writer(file: File, size: nat)
      requires size > 0
      ensures Valid() && fresh(buffer) && this.file == file && cacheType.WriteCache? && buffer.Length == size
      ensures requestPos == writeBuffer && Stream() == file.contents && Clean()
      ensures Capacity() == size && WriteState() == Writing(0, file.calls)
    {
      this.file, cacheType, buffer := file, WriteCache, new byte[size];
      requestPos, writeBuffer, posInFile, error := 0, 0, |file.contents|, 0;
      readPos, readEnd, writePos, writeEnd := 0, 0, 0, size;
    }

    // ---- positions ----

    /** `my_b_tell` */
    function Tell(): (r: int)
      requires Valid()
      reads this, buffer, file
      ensures cacheType.ReadCache? ==> r == Cursor()
      ensures cacheType.WriteCache? ==> r == |Stream()| + (writeBuffer - requestPos)
    {
      if cacheType.WriteCache? then posInFile + (writePos - requestPos)
      else posInFile + (readPos - requestPos)
    }

    /** `my_b_write_tell` */
    function WriteTell(): (r: int)
      requires Valid()
      reads this, buffer, file
      ensures cacheType.WriteCache? ==> r == |Stream()|
    {
      posInFile + (writePos - writeBuffer)
    }

    /** `my_b_get_bytes_in_buffer` */
    function BytesInBuffer(): int
      reads this
    {
      readEnd - requestPos
    }

    /** `my_b_get_pos_in_file` */
    function PosInFile(): nat
      reads this
    {
      posInFile
    }

    /** `my_b_bytes_in_cache` */
    function BytesInCache(): (r: nat)
      requires Valid()
      reads this, buffer, file
      ensures cacheType.ReadCache? ==> Tell() + r == PosInFile() + BytesInBuffer()
      ensures cacheType.WriteCache? ==> WriteTell() + r == PosInFile() + (writeEnd - writeBuffer)
    {
      if cacheType.WriteCache? then writeEnd - writePos else readEnd - readPos
    }

    /** The two positions of a write cache agree exactly when its two start pointers do. */
    lemma TellsAgree()
      requires Valid() && cacheType.WriteCache?
      ensures Tell() == WriteTell() <==> requestPos == writeBuffer
    {
    }

    // ---- reading ----

    /**
      `my_b_read`; `got` is what was put at the front of the destination.
     */
    method Read(dst: array<byte>, at: nat, count: nat) returns (r: int, ghost got: seq<byte>)
      requires Valid() && cacheType.ReadCache? && dst != buffer && at + count <= dst.Length
      modifies this, buffer, dst, file`calls
      ensures Valid() && file.calls >= old(file.calls)
      ensures ReadAnswer(file.contents, old(Cursor()), count, r, error, got, Cursor())
      ensures |got| <= count && dst[..] == Splice(old(dst[..]), at, got)
      ensures Faults(file.faults, old(file.calls), file.calls) == if r == 1 && error == -1 then 1 else 0
      ensures ReadTo(ReadStep(|file.contents|, Capacity(), old(ReadState()), count), r == 1 && error == -1)
      ensures r == 0 ==> error == if count <= old(BytesInCache()) then old(error) else 0
    {
      if readPos + count <= readEnd {
        got := CopyOut(dst, at, count);
        return 0, got;
      }
      var data;
      r, data := SlowRead(count);
      CopyBytes(dst, at, data);
      got := data;
    }

    /** `memcpy` out of the buffer, and the read pointer moved on */
    method CopyOut(dst: array<byte>, at: nat, n: nat) returns (ghost got: seq<byte>)
      requires Valid() && cacheType.ReadCache? && dst != buffer && at + n <= dst.Length && readPos + n <= readEnd
      modifies this`readPos, dst
      ensures Valid() && readPos == old(readPos) + n
      ensures |got| == n && got == Range(file.contents, old(Cursor()), n)
      ensures dst[..] == Splice(old(dst[..]), at, got)
    {
      MirrorSlice(readPos, n);
      got := buffer[readPos..readPos + n];
      MemCpy(dst, at, buffer, readPos, n);
      readPos := readPos + n;
    }

    /** Bytes in a read buffer are bytes of the file. */
    lemma MirrorSlice(p: nat, n: nat)
      requires Valid() && cacheType.ReadCache? && requestPos <= p && p + n <= readEnd
      ensures buffer[p..p + n] == Range(file.contents, posInFile + (p - requestPos), n)
    {
      var held := buffer[requestPos..readEnd];
      RangeSlice(file.contents, posInFile, held, p - requestPos, n);
      SliceOfSlice(buffer[..], requestPos, readEnd, p - requestPos, n);
      assert held == buffer[..][requestPos..readEnd];
    }

    /** `my_b_get` */
    method Get() returns (r: int)
      requires Valid() && cacheType.ReadCache?
      modifies this, buffer, file`calls
      ensures Valid() && file.calls >= old(file.calls)
      ensures r != MY_B_EOF ==> 0 <= r < 256 && ReadAnswer(file.contents, old(Cursor()), 1, 0, error, [r], Cursor())
      ensures r == MY_B_EOF ==> ReadAnswer(file.contents, old(Cursor()), 1, 1, error, [], Cursor())
      ensures Faults(file.faults, old(file.calls), file.calls) == if r == MY_B_EOF && error == -1 then 1 else 0
      ensures ReadTo(ReadStep(|file.contents|, Capacity(), old(ReadState()), 1), r == MY_B_EOF && error == -1)
      ensures 0 <= r < 256 || r == -0x8000_0000
      ensures r >= 0 ==> error == if old(BytesInCache()) > 0 then old(error) else 0
    {
      if readPos != readEnd {
        MirrorSlice(readPos, 1);
        assert buffer[readPos..readPos + 1] == [buffer[readPos]];
        readPos := readPos + 1;
        return buffer[readPos - 1];
      }
      r := SlowGet();
    }

    /** `my_b_fill`: whatever is unread in the buffer is skipped. */
    method Fill() returns (n: nat)
      requires Valid() && cacheType.ReadCache?
      modifies this, buffer, file`calls
      ensures Valid() && file.calls >= old(file.calls)
      ensures Cursor() == old(Cursor()) + old(BytesInCache())
      ensures if error == -1 then n == 0 else n == BytesInCache()
      ensures error != -1 ==> n == Avail(|file.contents|, Cursor(), Capacity())
      ensures Faults(file.faults, old(file.calls), file.calls) == if error == -1 then 1 else 0
      ensures ReadTo(FillStep(|file.contents|, Capacity(), old(ReadState())), error == -1)
      ensures error == 0 || error == -1
    {
      ghost var st := ReadState();
      readPos := readEnd;
      assert ReadState() == Reading(st.pos + st.unread, 0, st.calls);
      FillIsSlowRead(|file.contents|, Capacity(), st);
      var r, _ := SlowRead(0);
      n := if r != 0 then 0 else readEnd - readPos;
    }

    /** The buffer filled from `pos` on, or a failure that changes nothing */
    method Refill(pos: nat) returns (ok: bool)
      requires Valid() && cacheType.ReadCache?
      modifies this`posInFile, this`readPos, this`readEnd, buffer, file`calls
      ensures Valid() && file.calls == old(file.calls) + 1
      ensures ok <==> file.faults(old(file.calls)).NoFault?
      ensures ok ==> Filled(pos)
      ensures !ok ==> Cursor() == old(Cursor()) && readPos == old(readPos) && readEnd == old(readEnd)
    {
      var capacity, data := buffer.Length - requestPos, [];
      ok, data := file.PRead(pos, capacity);
      if ok {
        CopyBytes(buffer, requestPos, data);
        posInFile, readPos, readEnd := pos, requestPos, requestPos + |data|;
        assert buffer[requestPos..readEnd] == data;
        RangeSlice(file.contents, pos, data, 0, |data|);
      }
    }

    /** The buffer holds all it can take of the file from `pos` on, and none of it is read yet. */
    ghost predicate Filled(pos: nat)
      reads this, file
    {
      && posInFile == pos && readPos == requestPos <= buffer.Length
      && readEnd - readPos == |Range(file.contents, pos, buffer.Length - requestPos)|
    }

    /** `_my_b_read` */
    method SlowRead(count: nat) returns (r: int, got: seq<byte>)
      requires Valid() && cacheType.ReadCache? && readEnd - readPos <= count
      modifies this, buffer, file`calls
      ensures Valid() && file.calls >= old(file.calls)
      ensures ReadAnswer(file.contents, old(Cursor()), count, r, error, got, Cursor())
      ensures Faults(file.faults, old(file.calls), file.calls) == if r == 1 && error == -1 then 1 else 0
      ensures ReadTo(SlowReadStep(|file.contents|, Capacity(), old(ReadState()), count), r == 1 && error == -1)
      ensures r == 0 ==> error == 0
    {
      var ok;
      ok, got := Fetch(count);
      error := if !ok then -1 else if |got| < count then |got| else 0;
      r := if ok && |got| == count then 0 else 1;
    }

    /**
      What is left in the buffer, then whole buffers straight from the file, then a refill
      of the buffer and the rest from there.
     */
    method Fetch(count: nat) returns (ok: bool, got: seq<byte>)
      requires Valid() && cacheType.ReadCache? && readEnd - readPos <= count
      modifies this`posInFile, this`readPos, this`readEnd, buffer, file`calls
      ensures Valid() && file.calls >= old(file.calls)
      ensures ok ==> got == Range(file.contents, old(Cursor()), count) && Cursor() == old(Cursor()) + |got|
      ensures !ok ==> got == [] && Cursor() == old(Cursor())
      ensures Faults(file.faults, old(file.calls), file.calls) == if ok then 0 else 1
      ensures ReadTo(SlowReadStep(|file.contents|, Capacity(), old(ReadState()), count), !ok)
    {
      ghost var s, st := file.contents, ReadState();
      ghost var next := SlowReadStep(|s|, Capacity(), st, count);
      SlowReadPos(|s|, Capacity(), st, count);
      var start := posInFile + (readPos - requestPos);
      var head := Take(readEnd - readPos);
      Drop(start);
      var direct := WholeBuffers(count - |head|, buffer.Length - requestPos);
      var pos, rest := start + |head|, count - |head| - direct;
      SlowReadIs(|s|, Capacity(), st, count, pos, direct, rest);
      ok, got := FetchAfter(head, pos, direct, rest, count, next);
    }

    /** What a slow read does after the bytes it found in the buffer */
    method FetchAfter(head: seq<byte>, pos: nat, direct: nat, rest: nat, ghost count: nat, ghost next: Reading)
      returns (ok: bool, got: seq<byte>)
      requires Valid() && cacheType.ReadCache? && readPos == readEnd && rest < Capacity()
      requires head == Range(file.contents, Cursor(), |head|) && pos == Cursor() + |head|
      requires count == |head| + direct + rest
      requires next == FetchStep(|file.contents|, Capacity(), pos, direct, rest, file.calls)
      modifies this`posInFile, this`readPos, this`readEnd, buffer, file`calls
      ensures Valid() && file.calls > old(file.calls) && ReadTo(next, !ok)
      ensures if ok then got == Range(file.contents, old(Cursor()), count) else got == [] && Cursor() == old(Cursor())
      ensures Faults(file.faults, old(file.calls), file.calls) == if ok then 0 else 1
    {
      ghost var want := Range(file.contents, Cursor(), count);
      FetchPlan(file.contents, Capacity(), Cursor(), head, pos, direct, rest, file.calls);
      if direct == 0 {
        ok, got := FetchRest(head, pos, rest, want, next);
      } else {
        ok, got := FetchPast(head, pos, direct, rest, want, next);
      }
    }

    /** `head`, then `direct` bytes at `pos` that bypass the buffer, then `rest` bytes through it */
    method FetchPast(head: seq<byte>, pos: nat, direct: nat, rest: nat, ghost want: seq<byte>, ghost next: Reading)
      returns (ok: bool, got: seq<byte>)
      requires Valid() && cacheType.ReadCache? && readPos == readEnd
      requires MissingMore(file.contents, Capacity(), head, pos, direct, rest, file.calls, want, next)
      modifies this`posInFile, this`readPos, this`readEnd, buffer, file`calls
      ensures Valid() && file.calls > old(file.calls) && ReadTo(next, !ok)
      ensures if ok then got == want else got == [] && Cursor() == old(Cursor())
      ensures Faults(file.faults, old(file.calls), file.calls) == if ok then 0 else 1
    {
      ghost var from := file.calls;
      var data;
      ok, data := file.PRead(pos, direct);
      if !ok {
        return false, [];
      }
      if |data| < direct {
        Drop(pos + |data|);
        return true, head + data;
      }
      ghost var mid := file.calls;
      ok, got := FetchRest(head + data, pos + direct, rest, want, next);
      FaultsSplit(file.faults, from, mid, file.calls);
    }

    /** The buffer emptied, the next byte to come from `pos` of the file */
    method Drop(pos: nat)
      requires cacheType.ReadCache? && requestPos < buffer.Length
      modifies this`posInFile, this`readPos, this`readEnd
      ensures Valid() && Cursor() == pos && readPos == readEnd == requestPos
    {
      posInFile, readPos, readEnd := pos, requestPos, requestPos;
    }

    /** The end of a slow read: `head`, then less than a buffer of bytes at `pos` out of a refilled buffer */
    method FetchRest(head: seq<byte>, pos: nat, rest: nat, ghost want: seq<byte>, ghost next: Reading)
      returns (ok: bool, got: seq<byte>)
      requires Valid() && cacheType.ReadCache? && readPos == readEnd
      requires Missing(file.contents, Capacity(), head, pos, rest, file.calls, want, next)
      modifies this`posInFile, this`readPos, this`readEnd, buffer, file`calls
      ensures Valid() && file.calls == old(file.calls) + 1 && ReadTo(next, !ok)
      ensures if ok then got == want else got == [] && Cursor() == old(Cursor())
      ensures Faults(file.faults, old(file.calls), file.calls) == if ok then 0 else 1
    {
      ghost var from := file.calls;
      ok := Refill(pos);
      got := [];
      if ok {
        got := ServeFilled(head, pos, rest, want, next, from);
      }
    }

    /** `head`, then what a buffer just filled at `pos` serves of the rest */
    method ServeFilled(head: seq<byte>, pos: nat, rest: nat, ghost want: seq<byte>, ghost next: Reading, ghost from: nat)
      returns (got: seq<byte>)
      requires Valid() && cacheType.ReadCache? && Filled(pos) && file.calls == from + 1
      requires Missing(file.contents, Capacity(), head, pos, rest, from, want, next)
      modifies this`readPos
      ensures Valid() && ReadState() == next && got == want
    {
      var n := Min(readEnd - readPos, rest);
      ServeRest(file.contents, Capacity(), head, pos, rest, from, want, next, readEnd - readPos, n);
      var data := Take(n);
      got := head + data;
    }

    /** The next `n` bytes of the buffer */
    method Take(n: nat) returns (data: seq<byte>)
      requires Valid() && cacheType.ReadCache? && readPos + n <= readEnd
      modifies this`readPos
      ensures Valid() && readPos == old(readPos) + n
      ensures |data| == n && data == Range(file.contents, old(Cursor()), n)
    {
      MirrorSlice(readPos, n);
      data := buffer[readPos..readPos + n];
      readPos := readPos + n;
    }

    /** `_my_b_get` */
    method SlowGet() returns (r: int)
      requires Valid() && cacheType.ReadCache? && readPos == readEnd
      modifies this, buffer, file`calls
      ensures Valid() && file.calls >= old(file.calls)
      ensures r != MY_B_EOF ==> 0 <= r < 256 && ReadAnswer(file.contents, old(Cursor()), 1, 0, error, [r], Cursor())
      ensures r == MY_B_EOF ==> ReadAnswer(file.contents, old(Cursor()), 1, 1, error, [], Cursor())
      ensures Faults(file.faults, old(file.calls), file.calls) == if r == MY_B_EOF && error == -1 then 1 else 0
      ensures ReadTo(SlowReadStep(|file.contents|, Capacity(), old(ReadState()), 1), r == MY_B_EOF && error == -1)
      ensures r != MY_B_EOF ==> error == 0
    {
      var res, got := SlowRead(1);
      if res != 0 {
        return MY_B_EOF;
      }
      assert got == [got[0]];
      return got[0];
    }

    // ---- writing ----

    /** `my_b_write`: all of the bytes are accepted, or none. */
    method Write(src: array<byte>, at: nat, count: nat) returns (r: int)
      requires Valid() && cacheType.WriteCache? && src != buffer && at + count <= src.Length
      modifies this, buffer, file
      ensures Valid() && writeEnd == old(writeEnd) && file.calls >= old(file.calls)
      ensures Stream() == if r == 0 then old(Stream()) + src[at..at + count] else old(Stream())
      ensures r == 0 || (r == 1 && error == -1)
      ensures Faults(file.faults, old(file.calls), file.calls) == if r == 0 then 0 else 1
      ensures r == 0 && old(Clean()) ==> Clean()
      ensures posInFile >= old(posInFile)
      ensures WrittenTo(WriteStep(Capacity(), old(WriteState()), count), r != 0)
      ensures r == 0 ==> error == if count <= old(BytesInCache()) then old(error) else 0
    {
      if writePos + count <= writeEnd {
        if count != 0 {
          Append(src, at, count);
        }
        assert count == 0 ==> src[at..at + count] == [];
        return 0;
      }
      r := SlowWrite(src, at, count);
    }

    /** `memcpy` into the buffer, and the write pointer moved on */
    method Append(src: array<byte>, at: nat, n: nat)
      requires Valid() && cacheType.WriteCache? && src != buffer && at + n <= src.Length && writePos + n <= writeEnd
      modifies this`writePos, buffer
      ensures Valid() && Stream() == old(Stream()) + src[at..at + n]
    {
      ghost var was := buffer[writeBuffer..writePos];
      MemCpy(buffer, writePos, src, at, n);
      writePos := writePos + n;
      assert buffer[writeBuffer..writePos] == was + src[at..at + n];
    }

    /** `_my_b_write`: a flush, whole buffers straight to the file, the rest into the buffer */
    method SlowWrite(src: array<byte>, at: nat, count: nat) returns (r: int)
      requires Valid() && cacheType.WriteCache? && src != buffer && at + count <= src.Length
      modifies this, buffer, file
      ensures Valid() && writeEnd == old(writeEnd) && file.calls >= old(file.calls)
      ensures Stream() == if r == 0 then old(Stream()) + src[at..at + count] else old(Stream())
      ensures r == 0 || (r == 1 && error == -1)
      ensures Faults(file.faults, old(file.calls), file.calls) == if r == 0 then 0 else 1
      ensures r == 0 && old(Clean()) ==> Clean()
      ensures posInFile >= old(posInFile)
      ensures WrittenTo(WriteEmptyStep(Capacity(), FlushStep(old(WriteState())).calls, count), r != 0)
      ensures r == 0 ==> error == 0
    {
      var res := Flush();
      if res != 0 {
        return 1;
      }
      ghost var mid := file.calls;
      r := WriteEmpty(src, at, count);
      FaultsSplit(file.faults, old(file.calls), mid, file.calls);
    }

    /** With an empty buffer: whole buffers straight to the file, the rest into the buffer */
    method WriteEmpty(src: array<byte>, at: nat, count: nat) returns (r: int)
      requires Valid() && cacheType.WriteCache? && src != buffer && at + count <= src.Length
      requires writePos == writeBuffer
      modifies this, buffer, file
      ensures Valid() && writeEnd == old(writeEnd) && file.calls >= old(file.calls)
      ensures Stream() == if r == 0 then old(Stream()) + src[at..at + count] else old(Stream())
      ensures r == 0 || (r == 1 && error == -1)
      ensures Faults(file.faults, old(file.calls), file.calls) == if r == 0 then 0 else 1
      ensures r == 0 && old(Clean()) ==> Clean()
      ensures posInFile >= old(posInFile)
      ensures WrittenTo(WriteEmptyStep(Capacity(), old(file.calls), count), r != 0)
      ensures r == 0 ==> error == 0 || error == old(error)
    {
      ghost var before := Stream();
      var direct := WholeBuffers(count, writeEnd - writeBuffer);
      if direct == 0 {
        Append(src, at, count);
        return 0;
      }
      var ok := WriteThrough(src, at, direct);
      if !ok {
        return 1;
      }
      JoinSlices(before, src[..], at, direct, count);
      Append(src, at + direct, count - direct);
      return 0;
    }

    /** With an empty buffer: bytes that bypass it */
    method WriteThrough(src: array<byte>, at: nat, n: nat) returns (ok: bool)
      requires Valid() && cacheType.WriteCache? && src != buffer && at + n <= src.Length
      requires writePos == writeBuffer
      modifies this`posInFile, this`error, file
      ensures Valid() && file.calls == old(file.calls) + 1
      ensures Stream() == if ok then old(Stream()) + src[at..at + n] else old(Stream())
      ensures posInFile >= old(posInFile) && error == if ok then 0 else -1
      ensures Faults(file.faults, old(file.calls), file.calls) == if ok then 0 else 1
      ensures ok && old(Clean()) ==> Clean()
    {
      ok := file.PWrite(posInFile, src, at, n);
      if ok {
        posInFile, error := posInFile + n, 0;
      } else {
        error := -1;
      }
    }

    /**
      `my_b_flush_io_cache`: the buffered bytes go to the file, the accepted bytes stay the
      same; after a failure they are all still buffered, so the flush can be tried again.
     */
    method Flush() returns (r: int)
      requires Valid() && cacheType.WriteCache?
      modifies this`posInFile, this`writePos, this`error, file
      ensures Valid() && file.calls >= old(file.calls) && Stream() == old(Stream())
      ensures r == 0 ==> error == 0 && writePos == writeBuffer && posInFile == |Stream()|
      ensures r == 0 || (r == -1 == error && posInFile == old(posInFile) && writePos == old(writePos))
      ensures Faults(file.faults, old(file.calls), file.calls) == if r == 0 then 0 else 1
      ensures r == 0 && old(Clean()) ==> Clean()
      ensures posInFile >= old(posInFile) && file.calls == FlushStep(old(WriteState())).calls
    {
      var n := writePos - writeBuffer;
      if n > 0 {
        var ok := file.PWrite(posInFile, buffer, writeBuffer, n);
        if !ok {
          error := -1;
          return -1;
        }
        posInFile, writePos := posInFile + n, writeBuffer;
      }
      error := 0;
      return 0;
    }

    /** `my_b_write_byte`: it does not test again for room after the flush. */
    method WriteByte(chr: byte) returns (r: int)
      requires Valid() && cacheType.WriteCache?
      modifies this, buffer, file
      ensures Valid() && writeEnd == old(writeEnd) && file.calls >= old(file.calls)
      ensures Stream() == if r == 0 then old(Stream()) + [chr] else old(Stream())
      ensures r == 0 || (r == 1 && error == -1)
      ensures Faults(file.faults, old(file.calls), file.calls) == if r == 0 then 0 else 1
      ensures r == 0 && old(Clean()) ==> Clean()
      ensures posInFile >= old(posInFile)
      ensures WrittenTo(WriteByteStep(Capacity(), old(WriteState())), r != 0)
      ensures r == 0 ==> error == if old(BytesInCache()) > 0 then old(error) else 0
    {
      if writePos >= writeEnd {
        var res := Flush();
        if res != 0 {
          return 1;
        }
      }
      ghost var was := buffer[writeBuffer..writePos];
      buffer[writePos] := chr;
      writePos := writePos + 1;
      assert buffer[writeBuffer..writePos] == was + [chr];
      return 0;
    }
  }

  lemma JoinSlices(before: seq<byte>, s: seq<byte>, at: nat, m: nat, n: nat)
    requires m <= n && at + n <= |s|
    ensures before + s[at..at + m] + s[at + m..at + n] == before + s[at..at + n]
  {
  }
}
