/**
 * The chunk iterator that `extract.c` and `inspect.c` drive
 * (`chunk_iterator_has_next`, `chunk_iterator_next`,
 * `chunk_iterator_read_data`, `chunk_iterator_get_chunk_type`,
 * `chunk_iterator_is_critical`, `chunk_iterator_is_ancillary`). Its
 * implementation is not part of this model, so it is an abstract cursor over
 * the list of chunks it reports: the chunks it parses cleanly, followed by
 * the way the walk ends.
 */
module ChunkCursor {
  import opened Common

  /** One chunk as the iterator reports it: type, data and its critical/ancillary classification. */
  datatype ChunkRec = ChunkRec(ctype: Bytes, data: Bytes, critical: bool, ancillary: bool)

  /**
   * How the walk ends after the listed chunks: cleanly (`has_next` is 0),
   * with `has_next` reporting an error, or with `has_next` announcing a
   * chunk that `next` then fails to read.
   */
  datatype Tail = Clean | HasNextFails | NextFails

  /** What an input file looks like through the iterator: the status `init_ctx` returns, the chunks, the tail. */
  datatype Stream = Stream(initStatus: int, chunks: seq<ChunkRec>, tail: Tail)

  class Cursor {
    const stream: Stream
    /** Chunks consumed by `next`; the current chunk is the last of them. */
    var pos: nat
    /** Bytes of the current chunk's data already handed out by `read_data`. */
    var dataPos: nat

    ghost predicate Valid()
      reads this
    {
      pos <= |stream.chunks| && (pos == 0 ==> dataPos == 0) && (pos > 0 ==> dataPos <= |stream.chunks[pos - 1].data|)
    }

    /** The chunk `next` last moved to. */
    function Current(): (c: ChunkRec)
      reads this
      requires Valid() && pos > 0
      ensures c in stream.chunks
    {
      stream.chunks[pos - 1]
    }

    /** An open file descriptor whose contents look like `s` through the iterator. */
    constructor Open(s: Stream)
      ensures stream == s && pos == 0 && dataPos == 0 && Valid()
    {
      stream, pos, dataPos := s, 0, 0;
    }

    /** `chunk_iterator_init_ctx`: back to the first chunk, with the status the signature check gives. */
    method Init() returns (status: int)
      modifies this
      ensures pos == 0 && dataPos == 0 && Valid()
      ensures status == stream.initStatus
    {
      pos, dataPos := 0, 0;
      status := stream.initStatus;
    }

    /** `chunk_iterator_has_next`: 1 while listed chunks remain, then what the tail says. */
    method HasNext() returns (r: int)
      requires Valid()
      ensures pos < |stream.chunks| ==> r == 1
      ensures pos == |stream.chunks| ==> (r == 0 <==> stream.tail == Clean) && (r < 0 <==> stream.tail == HasNextFails)
      ensures r in {-1, 0, 1}
    {
      if pos < |stream.chunks| {
        return 1;
      }
      match stream.tail
      case Clean => r := 0;
      case HasNextFails => r := -1;
      case NextFails => r := 1;
    }

    /** `chunk_iterator_next`: moves to the next listed chunk, or fails with nothing changed. */
    method Next() returns (r: int)
      requires Valid()
      modifies this
      ensures Valid()
      ensures old(pos) < |stream.chunks| ==> r == 0 && pos == old(pos) + 1 && dataPos == 0
      ensures old(pos) == |stream.chunks| ==> r == -1 && pos == old(pos) && dataPos == old(dataPos)
    {
      if pos < |stream.chunks| {
        pos, dataPos := pos + 1, 0;
        return 0;
      }
      return -1;
    }

    /** `chunk_iterator_read_data`: the next at most `n` bytes of the current chunk's data; none once it is exhausted. */
    method ReadData(n: nat) returns (got: Bytes)
      requires Valid() && pos > 0 && n > 0
      modifies this
      ensures Valid() && pos == old(pos)
      ensures dataPos == Min(old(dataPos) + n, |Current().data|)
      ensures got == Current().data[old(dataPos)..dataPos]
      ensures got == [] <==> old(dataPos) == |Current().data|
    {
      var data := stream.chunks[pos - 1].data;
      var end := Min(dataPos + n, |data|);
      got := data[dataPos..end];
      dataPos := end;
    }
  }
}
