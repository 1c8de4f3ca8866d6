/**
 * The reading side of an archive: `input_container` walks a cursor over the
 * received bytes and, when the bytes came with a list of serialization
 * chunks, keeps track of which chunk is being read and how much of it has
 * been consumed.
 *
 * Only the cursor and chunk bookkeeping are modelled; the bytes themselves,
 * the copying, and what a binary filter (decompression) does are not.
 */
module InputContainer {
  import opened Wrappers

  const TwoTo64: int := 0x1_0000_0000_0000_0000

  /** std::size_t. */
  type SizeT = x: int | 0 <= x < TwoTo64

  /** static_cast<std::size_t>(-1). */
  const SizeMax: SizeT := TwoTo64 - 1

  datatype ChunkType = ChunkTypeIndex | ChunkTypePointer

  /** serialization_chunk: its type and its size (its data is not modelled). */
  datatype Chunk = Chunk(kind: ChunkType, size: SizeT)

  /** A std::vector of chunks: its size fits in std::size_t. */
  type ChunkList = cs: seq<Chunk> | |cs| < TwoTo64

  datatype Error = SerializationError(where: string, message: string)

  const TooShort: Error := SerializationError("input_container::load_binary", "archive data bstream is too short")
  const FilterTooShort: Error := SerializationError("input_container::set_filter", "archive data bstream is too short")
  const StructureMismatch: Error := SerializationError("input_container::load_binary", "archive data bstream structure mismatch")
  const ChunkSizeMismatch: Error := SerializationError("input_container::load_binary_chunk", "archive data bstream data chunk size mismatch")

  /** The fields load_binary and load_binary_chunk step: current_, current_chunk_, current_chunk_size_. */
  datatype Cursor = Cursor(current: SizeT, currentChunk: SizeT, currentChunkSize: SizeT)

  /** The bounds check load_binary means: reading `count` more bytes would run past the container. */
  predicate ReadsPastEnd(current: SizeT, count: SizeT, size: SizeT) {
    current + count > size
  }

  /** The bounds check as written: `current_ + count` is computed in std::size_t and may wrap. */
  predicate ReadsPastEndAsWritten(current: SizeT, count: SizeT, size: SizeT) {
    (current + count) % TwoTo64 > size
  }

  /** The wrapping check lets through a read that runs past the end of the container. */
  lemma WrappedCheckAdmitsOverrun()
    ensures !ReadsPastEndAsWritten(4, TwoTo64 - 2, 8) && ReadsPastEnd(4, TwoTo64 - 2, 8)
  {
  }

  /** The two checks agree whenever the sum does not wrap, in particular for every in-range read. */
  lemma ChecksAgreeWithoutWrap(current: SizeT, count: SizeT, size: SizeT)
    requires current + count < TwoTo64
    ensures ReadsPastEndAsWritten(current, count, size) <==> ReadsPastEnd(current, count, size)
  {
  }

  /**
   * load_binary without a filter, on cursor `c` over `size` bytes and the
   * optional chunk list.  The "structure mismatch" error is raised after
   * the cursor and the chunk accumulator have been advanced.
   */
  function Load(c: Cursor, size: SizeT, chunks: Option<ChunkList>, count: SizeT): (r: (Cursor, Outcome<Error>))
    requires !ReadsPastEnd(c.current, count, size) && chunks.Some? ==> c.currentChunk < |chunks.value|
  {
    if ReadsPastEnd(c.current, count, size) then (c, Fail(TooShort))
    else
      var current := c.current + count;
      match chunks
      case None => (c.(current := current), Pass)
      case Some(cs) =>
        var accumulated := (c.currentChunkSize + count) % TwoTo64;
        var chunkSize := cs[c.currentChunk].size;
        if chunkSize != 0 && accumulated >= chunkSize then
          if accumulated > chunkSize then (Cursor(current, c.currentChunk, accumulated), Fail(StructureMismatch))
          else (Cursor(current, c.currentChunk + 1, 0), Pass)
        else (Cursor(current, c.currentChunk, accumulated), Pass)
  }

  /** A read running past the end fails with "too short" and leaves the cursor as it was; any other read advances it by exactly `count`. */
  lemma LoadMovesCursorByCount(c: Cursor, size: SizeT, chunks: Option<ChunkList>, count: SizeT)
    requires !ReadsPastEnd(c.current, count, size) && chunks.Some? ==> c.currentChunk < |chunks.value|
    ensures ReadsPastEnd(c.current, count, size) <==> Load(c, size, chunks, count) == (c, Fail(TooShort))
    ensures !ReadsPastEnd(c.current, count, size) ==>
      Load(c, size, chunks, count).0.current == c.current + count <= size
    ensures chunks.None? ==> Load(c, size, chunks, count).0.currentChunk == c.currentChunk
  {
  }

  /**
   * Chunk bookkeeping: the accumulator grows by `count`; reaching a non-zero
   * chunk size exactly moves to the next chunk and resets the accumulator;
   * overshooting it is a structure mismatch; a chunk of size 0 never switches.
   */
  lemma LoadChunkBookkeeping(c: Cursor, size: SizeT, cs: ChunkList, count: SizeT)
    requires !ReadsPastEnd(c.current, count, size) && c.currentChunk < |cs|
    requires c.currentChunkSize + count < TwoTo64
    ensures var (n, o) := Load(c, size, Some(cs), count);
      var chunkSize := cs[c.currentChunk].size;
      var acc := c.currentChunkSize + count;
      (o == Fail(StructureMismatch) <==> chunkSize != 0 && acc > chunkSize) &&
      (n.currentChunk == c.currentChunk + 1 <==> chunkSize != 0 && acc == chunkSize) &&
      (n.currentChunk == c.currentChunk + 1 ==> n.currentChunkSize == 0) &&
      (n.currentChunk == c.currentChunk ==> n.currentChunkSize == acc) &&
      (chunkSize == 0 ==> n.currentChunk == c.currentChunk && o == Pass)
  {
  }

  /** The cursor is within the chunk list and strictly inside the current chunk. */
  predicate WithinChunks(c: Cursor, cs: ChunkList) {
    c.currentChunk <= |cs| &&
    (c.currentChunk < |cs| && cs[c.currentChunk].size != 0 ==> c.currentChunkSize < cs[c.currentChunk].size) &&
    (c.currentChunk == |cs| ==> c.currentChunkSize == 0)
  }

  /** A successful load_binary keeps the cursor strictly inside the chunk it is reading. */
  lemma LoadKeepsWithinChunks(c: Cursor, size: SizeT, cs: ChunkList, count: SizeT)
    requires WithinChunks(c, cs) && c.currentChunk < |cs|
    requires Load(c, size, Some(cs), count).1 == Pass
    ensures WithinChunks(Load(c, size, Some(cs), count).0, cs)
  {
  }

  /** load_binary_chunk on a zero-copy chunk: its size must be `count`; the chunk index moves on, the byte cursor does not. */
  function LoadChunk(c: Cursor, cs: ChunkList, count: SizeT): (r: (Cursor, Outcome<Error>))
    requires c.currentChunk < |cs|
    ensures r.1 == Pass <==> cs[c.currentChunk].size == count
    ensures r.1 == Pass ==> r.0 == c.(currentChunk := c.currentChunk + 1)
    ensures r.1 != Pass ==> r == (c, Fail(ChunkSizeMismatch))
  {
    if cs[c.currentChunk].size != count then (c, Fail(ChunkSizeMismatch))
    else (c.(currentChunk := c.currentChunk + 1), Pass)
  }

  /** input_container over a container of `contSize` bytes. */
  class InputContainer {
    const contSize: SizeT
    /** HPX_ZERO_COPY_SERIALIZATION_THRESHOLD, a build-time setting. */
    const defaultThreshold: SizeT
    /** The chunk list; None stands for a null chunks_ pointer. */
    const chunks: Option<ChunkList>
    var current: SizeT
    var hasFilter: bool
    var decompressedSize: SizeT
    var threshold: SizeT
    var currentChunk: SizeT
    var currentChunkSize: SizeT

    function Position(): Cursor
      reads this
    {
      Cursor(current, currentChunk, currentChunkSize)
    }

    /** The constructor without chunks. */
    constructor (contSize': SizeT, inboundDataSize: SizeT, defaultThreshold': SizeT)
      ensures contSize == contSize' && defaultThreshold == defaultThreshold'
      ensures decompressedSize == inboundDataSize && threshold == defaultThreshold && !hasFilter
      ensures chunks == None && Position() == Cursor(0, SizeMax, 0)
    {
      contSize := contSize';
      defaultThreshold := defaultThreshold';
      chunks := None;
      current := 0;
      hasFilter := false;
      decompressedSize := inboundDataSize;
      threshold := defaultThreshold';
      currentChunk := SizeMax;
      currentChunkSize := 0;
    }

    /** The constructor with a chunk list (None: a null pointer); an empty list is treated like a null one. */
    constructor WithChunks(contSize': SizeT, chunkList: Option<ChunkList>, inboundDataSize: SizeT, defaultThreshold': SizeT)
      ensures contSize == contSize' && defaultThreshold == defaultThreshold'
      ensures decompressedSize == inboundDataSize && threshold == defaultThreshold && !hasFilter
      ensures current == 0 && currentChunkSize == 0
      ensures chunkList.Some? && |chunkList.value| != 0 ==> chunks == chunkList && currentChunk == 0
      ensures chunkList.None? || |chunkList.value| == 0 ==> chunks == None && currentChunk == SizeMax
    {
      contSize := contSize';
      defaultThreshold := defaultThreshold';
      current := 0;
      hasFilter := false;
      decompressedSize := inboundDataSize;
      threshold := defaultThreshold';
      currentChunkSize := 0;
      if chunkList.Some? && |chunkList.value| != 0 {
        chunks := chunkList;
        currentChunk := 0;
      } else {
        chunks := None;
        currentChunk := SizeMax;
      }
    }

    /**
     * set_filter: `filter` is None for a null filter, or Some(c) for a filter
     * whose init_data yields the new cursor position c.
     */
    method SetFilter(filter: Option<SizeT>) returns (o: Outcome<Error>)
      modifies this
      ensures hasFilter == filter.Some?
      ensures current == if filter.Some? then filter.value else old(current)
      ensures o == if filter.Some? && decompressedSize < filter.value then Fail(FilterTooShort) else Pass
      ensures currentChunk == old(currentChunk) && currentChunkSize == old(currentChunkSize)
      ensures threshold == old(threshold) && decompressedSize == old(decompressedSize)
    {
      hasFilter := filter.Some?;
      o := Pass;
      if filter.Some? {
        current := filter.value;
        if decompressedSize < current {
          o := Fail(FilterTooShort);
        }
      }
    }

    /** set_zero_copy_serialization_threshold: 0 restores the default. */
    method SetZeroCopyThreshold(t: SizeT)
      modifies this
      ensures threshold == if t == 0 then defaultThreshold else t
      ensures Position() == old(Position()) && hasFilter == old(hasFilter)
      ensures decompressedSize == old(decompressedSize)
    {
      threshold := t;
      if threshold == 0 {
        threshold := defaultThreshold;
      }
    }

    /** load_binary, with the bounds check computed without wrap-around; a filter does the reading itself. */
    method LoadBinary(count: SizeT) returns (o: Outcome<Error>)
      requires hasFilter || (!ReadsPastEnd(current, count, contSize) && chunks.Some? ==> currentChunk < |chunks.value|)
      modifies this
      ensures hasFilter == old(hasFilter) && threshold == old(threshold) && decompressedSize == old(decompressedSize)
      ensures hasFilter ==> Position() == old(Position()) && o == Pass
      ensures !hasFilter ==> (Position(), o) == Load(old(Position()), contSize, chunks, count)
    {
      if hasFilter {
        return Pass;
      }
      if ReadsPastEnd(current, count, contSize) {
        return Fail(TooShort);
      }
      current := current + count;
      o := Pass;
      if chunks.Some? {
        currentChunkSize := (currentChunkSize + count) % TwoTo64;
        var chunkSize := chunks.value[currentChunk].size;
        if chunkSize != 0 && currentChunkSize >= chunkSize {
          if currentChunkSize > chunkSize {
            return Fail(StructureMismatch);
          }
          currentChunk := currentChunk + 1;
          currentChunkSize := 0;
        }
      }
    }

    /** Whether load_binary_chunk takes the chunk-less path. */
    predicate FallsBack(count: SizeT)
      reads this
    {
      chunks.None? || count < threshold || hasFilter
    }

    /**
     * load_binary_chunk: falls back to load_binary without chunks, below the
     * zero-copy threshold or with a filter; otherwise the current chunk must be
     * a pointer chunk of exactly `count` bytes.
     */
    method LoadBinaryChunk(count: SizeT) returns (o: Outcome<Error>)
      requires FallsBack(count) ==>
        hasFilter || (!ReadsPastEnd(current, count, contSize) && chunks.Some? ==> currentChunk < |chunks.value|)
      requires !FallsBack(count) ==>
        currentChunk < |chunks.value| && chunks.value[currentChunk].kind == ChunkTypePointer
      modifies this
      ensures hasFilter == old(hasFilter) && threshold == old(threshold) && decompressedSize == old(decompressedSize)
      ensures FallsBack(count) && hasFilter ==> Position() == old(Position()) && o == Pass
      ensures FallsBack(count) && !hasFilter ==> (Position(), o) == Load(old(Position()), contSize, chunks, count)
      ensures !FallsBack(count) ==> (Position(), o) == LoadChunk(old(Position()), chunks.value, count)
    {
      if chunks.None? || count < threshold || hasFilter {
        o := LoadBinary(count);
      } else {
        if chunks.value[currentChunk].size != count {
          return Fail(ChunkSizeMismatch);
        }
        currentChunk := currentChunk + 1;
        o := Pass;
      }
    }
  }
}
