/**
 * Embedding: the input PNG is copied chunk by chunk to the output, and a new
 * `stEG` chunk is written immediately before the `IEND` chunk. The payload is
 * either a message, made into a whole chunk up front, or the bytes of a
 * file, streamed into a chunk at the moment `IEND` is reached.
 */
module Embed {
  import opened Common
  import opened Files
  import opened StringBuffer
  import opened PngChunk

  /** Size of the blocks in which the embedded file is read. */
  const BUFF_LEN: nat := 1024

  const ReadFailed := "failed to read from input file"
  const NotPng := "input file is not a PNG (does not conform to RFC 2083)"
  const CorruptChunk := "failed to read corrupted chunk in input file"
  const UnexpectedType := "unexpected chunk type in input file"
  const IendTwice := "non-compliant input file: IEND chunk found twice in input file"
  const MissingIend := "input file missing IEND chunk"
  const SizeMismatch := "stat file size mismatch"

  /** Every way the copying loop itself can stop a run. */
  const CopyDeaths := [Die(CorruptChunk), Die(MissingIend), Die(UnexpectedType), Die(IendTwice)]

  /** What a run writes to the output before it stops, and why it stopped early, if it did. */
  datatype Copy = Copy(written: Bytes, failure: Option<Failure>)

  function Prepend(b: Bytes, c: Copy): Copy {
    Copy(b + c.written, c.failure)
  }

  /**
   * The first `IEND` chunk `iend`, with `next` the run after it: the
   * injected part is written first and, unless writing it failed, the chunk
   * and the rest follow.
   */
  function AtIend(inject: Copy, iend: Bytes, next: Copy): Copy {
    if inject.failure.Some? then inject else Prepend(inject.written + iend, next)
  }

  // ---------------------------------------------------------------------
  // The copying loop as a function of the unread stream
  // ---------------------------------------------------------------------

  /**
   * The do/while loop of `embed_message_chunk` and `embed_file` on the
   * chunks left in `stream`, each read into an emptied buffer. A corrupt
   * chunk or a type that is not ASCII stops the run; the first `IEND` chunk
   * has `inject` written before it (and a failure while writing `inject`
   * stops the run there); a second `IEND` stops the run, and so does reaching
   * the end without one.
   */
  function CopyChunks(stream: Bytes, inject: Copy, iendFound: bool, crc32: Bytes -> u32): (r: Copy)
    ensures r.failure.Some? ==> r.failure == inject.failure || r.failure.value in CopyDeaths
    decreases |stream|
  {
    var o := NextChunkSpec([], stream, crc32);
    if o.status < 0 then Copy([], Some(Die(CorruptChunk)))
    else if o.status == 0 then
      if iendFound then Copy([], None) else Copy([], Some(Die(MissingIend)))
    else
      match ChunkType(o.contents)
      case None => Copy([], Some(Die(UnexpectedType)))
      case Some(t) =>
        if t == IendType then
          if iendFound then Copy([], Some(Die(IendTwice)))
          else AtIend(inject, o.contents, CopyChunks(stream[o.consumed..], inject, true, crc32))
        else Prepend(o.contents, CopyChunks(stream[o.consumed..], inject, iendFound, crc32))
  }

  /**
   * A whole run on the input file: the signature check of the iterator, the
   * signature written to the output, then the chunk loop.
   */
  function EmbedOutput(input: Bytes, inject: Copy, crc32: Bytes -> u32): (r: Copy)
    ensures r.written == [] || PngSignature <= r.written
  {
    if |input| < SIGNATURE_LENGTH then Copy([], Some(Die(ReadFailed)))
    else if input[..SIGNATURE_LENGTH] != PngSignature then Copy([], Some(Die(NotPng)))
    else Prepend(PngSignature, CopyChunks(input[SIGNATURE_LENGTH..], inject, false, crc32))
  }

  // ---------------------------------------------------------------------
  // A reference reading of a chunk stream
  // ---------------------------------------------------------------------

  /** The chunks read one after another, and whether the reading ended at the clean end of the stream. */
  datatype Walked = Walked(chunks: seq<Bytes>, clean: bool)

  /** Every chunk the iterator reads from `stream` until it reports the end or an error. */
  function Walk(stream: Bytes, crc32: Bytes -> u32): (r: Walked)
    ensures 12 * |r.chunks| <= |stream|
    decreases |stream|
  {
    var o := NextChunkSpec([], stream, crc32);
    if o.status != 1 then Walked([], o.status == 0)
    else
      var rest := Walk(stream[o.consumed..], crc32);
      Walked([o.contents] + rest.chunks, rest.clean)
  }

  function Concat(cs: seq<Bytes>): Bytes {
    if |cs| == 0 then [] else cs[0] + Concat(cs[1..])
  }

  predicate IsIend(c: Bytes) {
    ChunkType(c) == Some(IendType)
  }

  predicate AllTyped(cs: seq<Bytes>) {
    forall i :: 0 <= i < |cs| ==> ChunkType(cs[i]).Some?
  }

  function IendCount(cs: seq<Bytes>): nat {
    if |cs| == 0 then 0 else (if IsIend(cs[0]) then 1 else 0) + IendCount(cs[1..])
  }

  /** The index of the first `IEND` chunk, or the number of chunks when there is none. */
  function FirstIend(cs: seq<Bytes>): (k: nat)
    ensures k <= |cs|
    ensures forall i :: 0 <= i < k ==> !IsIend(cs[i])
    ensures k < |cs| ==> IsIend(cs[k])
  {
    if |cs| == 0 then 0 else if IsIend(cs[0]) then 0 else 1 + FirstIend(cs[1..])
  }

  lemma {:induction false} ConcatSplit(cs: seq<Bytes>, k: nat)
    requires k <= |cs|
    ensures Concat(cs[..k]) + Concat(cs[k..]) == Concat(cs)
  {
    if k > 0 {
      ConcatSplit(cs[1..], k - 1);
      assert cs[..k][1..] == cs[1..][..k - 1];
      assert cs[k..] == cs[1..][k - 1..];
    }
  }

  lemma ConcatCons(c: Bytes, rs: seq<Bytes>)
    ensures Concat([c] + rs) == c + Concat(rs)
  {
    assert ([c] + rs)[1..] == rs;
  }

  /** A chunk in front of a list moves the first `IEND` one place along, and keeps the pieces before and after it. */
  lemma ConsNotIend(c: Bytes, rs: seq<Bytes>)
    requires !IsIend(c)
    ensures var cs := [c] + rs; var k := FirstIend(rs);
      FirstIend(cs) == k + 1 && IendCount(cs) == IendCount(rs) && Concat(cs) == c + Concat(rs) &&
      Concat(cs[..k + 1]) == c + Concat(rs[..k]) && Concat(cs[k + 1..]) == Concat(rs[k..])
  {
    var cs := [c] + rs;
    var k := FirstIend(rs);
    assert cs[1..] == rs;
    assert cs[..k + 1][1..] == rs[..k];
    assert cs[k + 1..] == rs[k..];
  }

  lemma ConsIend(c: Bytes, rs: seq<Bytes>)
    requires IsIend(c)
    ensures var cs := [c] + rs;
      FirstIend(cs) == 0 && IendCount(cs) == IendCount(rs) + 1 && Concat(cs) == c + Concat(rs)
  {
    assert ([c] + rs)[1..] == rs;
  }

  lemma ConsTyped(c: Bytes, rs: seq<Bytes>)
    ensures AllTyped([c] + rs) <==> ChunkType(c).Some? && AllTyped(rs)
  {
    var cs := [c] + rs;
    if AllTyped(cs) {
      assert cs[0] == c;
      forall i | 0 <= i < |rs| ensures ChunkType(rs[i]).Some? {
        assert rs[i] == cs[i + 1];
      }
    }
    if ChunkType(c).Some? && AllTyped(rs) {
      forall i | 0 <= i < |cs| ensures ChunkType(cs[i]).Some? {
        if i > 0 { assert cs[i] == rs[i - 1]; }
      }
    }
  }

  /** Fewer than four bytes left: the loop ends, successfully exactly when `IEND` was seen. */
  lemma CopyAtEnd(stream: Bytes, inject: Copy, iendFound: bool, crc32: Bytes -> u32)
    requires |stream| < 4
    ensures CopyChunks(stream, inject, iendFound, crc32) == Copy([], if iendFound then None else Some(Die(MissingIend)))
  {
  }

  /** One good chunk at the front: the reading continues after it. */
  lemma WalkStep(stream: Bytes, crc32: Bytes -> u32)
    requires NextChunkSpec([], stream, crc32).status == 1
    ensures var o := NextChunkSpec([], stream, crc32); var w := Walk(stream[o.consumed..], crc32);
      Walk(stream, crc32) == Walked([o.contents] + w.chunks, w.clean)
  {
  }

  /** A good chunk at the front that is not `IEND`: it is written and the loop goes on after it. */
  lemma CopyStepOther(stream: Bytes, inject: Copy, iendFound: bool, crc32: Bytes -> u32)
    requires NextChunkSpec([], stream, crc32).status == 1
    requires ChunkType(NextChunkSpec([], stream, crc32).contents).Some?
    requires !IsIend(NextChunkSpec([], stream, crc32).contents)
    ensures var o := NextChunkSpec([], stream, crc32);
      CopyChunks(stream, inject, iendFound, crc32) ==
        Prepend(o.contents, CopyChunks(stream[o.consumed..], inject, iendFound, crc32))
  {
  }

  /**
   * The first `IEND` chunk at the front: a failed injection ends the loop,
   * otherwise the injected bytes and the chunk are written and the loop goes
   * on after it.
   */
  lemma CopyStepIend(stream: Bytes, inject: Copy, crc32: Bytes -> u32)
    requires NextChunkSpec([], stream, crc32).status == 1
    requires IsIend(NextChunkSpec([], stream, crc32).contents)
    ensures var o := NextChunkSpec([], stream, crc32);
      CopyChunks(stream, inject, false, crc32) == AtIend(inject, o.contents, CopyChunks(stream[o.consumed..], inject, true, crc32))
  {
  }

  /**
   * The copying loop succeeds exactly when the stream reads cleanly to its
   * end, every chunk has an ASCII type, `IEND` occurs once in all (counting
   * one already seen) and the injected part was written whole.
   */
  lemma {:induction false} CopyChunksSucceeds(stream: Bytes, inject: Copy, iendFound: bool, crc32: Bytes -> u32)
    decreases |stream|
    ensures var w := Walk(stream, crc32);
      CopyChunks(stream, inject, iendFound, crc32).failure.None? <==>
        w.clean && AllTyped(w.chunks) && IendCount(w.chunks) + (if iendFound then 1 else 0) == 1 &&
        (iendFound || inject.failure.None?)
  {
    var o := NextChunkSpec([], stream, crc32);
    var r := CopyChunks(stream, inject, iendFound, crc32);
    if o.status != 1 {
      assert Walk(stream, crc32) == Walked([], o.status == 0);
      assert AllTyped([]) && IendCount([]) == 0;
      if o.status == 0 {
        NextChunkEnd([], stream, crc32);
        CopyAtEnd(stream, inject, iendFound, crc32);
      } else {
        assert r.failure.Some? && !Walk(stream, crc32).clean;
      }
    } else {
      var c, rest := o.contents, stream[o.consumed..];
      var wr := Walk(rest, crc32);
      WalkStep(stream, crc32);
      assert Walk(stream, crc32) == Walked([c] + wr.chunks, wr.clean);
      ConsTyped(c, wr.chunks);
      if ChunkType(c).None? {
        assert r.failure.Some? && !AllTyped([c] + wr.chunks);
      } else if IsIend(c) {
        ConsIend(c, wr.chunks);
        if iendFound {
          assert r.failure.Some? && IendCount([c] + wr.chunks) + 1 != 1;
        } else {
          CopyStepIend(stream, inject, crc32);
          var next := CopyChunks(rest, inject, true, crc32);
          CopyChunksSucceeds(rest, inject, true, crc32);
          assert r.failure.None? <==> inject.failure.None? && next.failure.None?;
        }
      } else {
        CopyStepOther(stream, inject, iendFound, crc32);
        ConsNotIend(c, wr.chunks);
        CopyChunksSucceeds(rest, inject, iendFound, crc32);
        assert r.failure == CopyChunks(rest, inject, iendFound, crc32).failure;
      }
    }
  }

  /** Regrouping used when the injected bytes go before the first chunk. */
  lemma SpliceAtFront(front: Bytes, x: Bytes, c: Bytes, tail: Bytes)
    requires front == []
    ensures front + x + (c + tail) == x + c + tail
  {
  }

  /** Regrouping used when a chunk is written before an earlier splice. */
  lemma PrependToSplice(c: Bytes, before: Bytes, mid: Bytes, after: Bytes)
    ensures c + (before + mid + after) == (c + before) + mid + after
  {
  }

  /**
   * A successful copying loop writes every chunk in order, with the injected
   * bytes immediately before the first `IEND` chunk and nowhere else (or
   * none at all when `IEND` was already seen).
   */
  lemma {:induction false} CopyChunksWritten(stream: Bytes, inject: Copy, iendFound: bool, crc32: Bytes -> u32)
    decreases |stream|
    requires CopyChunks(stream, inject, iendFound, crc32).failure.None?
    ensures var w := Walk(stream, crc32); var k := FirstIend(w.chunks);
      CopyChunks(stream, inject, iendFound, crc32).written ==
        if iendFound then Concat(w.chunks) else Concat(w.chunks[..k]) + inject.written + Concat(w.chunks[k..])
  {
    var o := NextChunkSpec([], stream, crc32);
    if o.status == 1 {
      var c, rest := o.contents, stream[o.consumed..];
      var rs := Walk(rest, crc32).chunks;
      WalkStep(stream, crc32);
      var cs := [c] + rs;
      if IsIend(c) {
        CopyStepIend(stream, inject, crc32);
        ConsIend(c, rs);
        CopyChunksWritten(rest, inject, true, crc32);
        var tail := CopyChunks(rest, inject, true, crc32).written;
        assert tail == Concat(rs);
        if !iendFound {
          assert inject.failure.None?;
          assert CopyChunks(stream, inject, false, crc32).written == inject.written + c + tail;
          assert cs[..0] == [] && cs[0..] == cs;
          assert Concat(cs[..0]) == [] && Concat(cs[0..]) == c + tail;
          SpliceAtFront([], inject.written, c, tail);
        }
      } else {
        CopyStepOther(stream, inject, iendFound, crc32);
        ConsNotIend(c, rs);
        CopyChunksWritten(rest, inject, iendFound, crc32);
        var tail := CopyChunks(rest, inject, iendFound, crc32).written;
        assert CopyChunks(stream, inject, iendFound, crc32).written == c + tail;
        if !iendFound {
          var k := FirstIend(rs);
          PrependToSplice(c, Concat(rs[..k]), inject.written, Concat(rs[k..]));
        }
      }
    }
  }

  /**
   * A stream that reads cleanly is its chunks back to back, followed by
   * fewer than four bytes that are never copied.
   */
  lemma {:induction false} WalkCovers(stream: Bytes, crc32: Bytes -> u32)
    decreases |stream|
    requires Walk(stream, crc32).clean
    ensures var all := Concat(Walk(stream, crc32).chunks);
      |all| <= |stream| && stream[..|all|] == all && |stream| - |all| < 4
  {
    var o := NextChunkSpec([], stream, crc32);
    if o.status == 1 {
      var rest := stream[o.consumed..];
      var rs := Walk(rest, crc32).chunks;
      WalkStep(stream, crc32);
      ConcatCons(o.contents, rs);
      WalkCovers(rest, crc32);
      var tail := Concat(rs);
      assert Concat(Walk(stream, crc32).chunks) == o.contents + tail;
      SeqLeftUnit([], stream[..o.consumed]);
      PrefixThenPrefix(stream, o.consumed, tail);
    } else {
      assert Walk(stream, crc32).chunks == [] && stream[..0] == [];
    }
  }

  /** A prefix of what follows the first `n` bytes extends the first `n` bytes. */
  lemma PrefixThenPrefix(s: Bytes, n: nat, tail: Bytes)
    requires n <= |s| && |tail| <= |s| - n && s[n..][..|tail|] == tail
    ensures s[..n + |tail|] == s[..n] + tail
  {
    assert s[..n + |tail|] == s[..n] + s[n..][..|tail|];
  }

  /**
   * A run succeeds exactly when the input opens with the PNG signature, the
   * rest reads cleanly into chunks with ASCII types, exactly one of which is
   * `IEND`, and the injected part was written whole.
   */
  lemma EmbedOutputSucceeds(input: Bytes, inject: Copy, crc32: Bytes -> u32)
    ensures EmbedOutput(input, inject, crc32).failure.None? <==>
      |input| >= SIGNATURE_LENGTH && input[..SIGNATURE_LENGTH] == PngSignature &&
      var w := Walk(input[SIGNATURE_LENGTH..], crc32);
      w.clean && AllTyped(w.chunks) && IendCount(w.chunks) == 1 && inject.failure.None?
  {
    if |input| >= SIGNATURE_LENGTH && input[..SIGNATURE_LENGTH] == PngSignature {
      CopyChunksSucceeds(input[SIGNATURE_LENGTH..], inject, false, crc32);
    }
  }

  /**
   * A successful run writes the signature and then the input after its
   * signature unchanged, except that the injected bytes come right before
   * the `IEND` chunk and fewer than four trailing bytes are dropped.
   */
  lemma EmbedOutputWritten(input: Bytes, inject: Copy, crc32: Bytes -> u32)
    requires EmbedOutput(input, inject, crc32).failure.None?
    ensures var w := Walk(input[SIGNATURE_LENGTH..], crc32);
      var at := SIGNATURE_LENGTH + |Concat(w.chunks[..FirstIend(w.chunks)])|;
      var end := SIGNATURE_LENGTH + |Concat(w.chunks)|;
      at <= end <= |input| && |input| - end < 4 &&
      EmbedOutput(input, inject, crc32).written == input[..at] + inject.written + input[at..end]
  {
    var r := EmbedOutput(input, inject, crc32);
    assert |input| >= SIGNATURE_LENGTH && input[..SIGNATURE_LENGTH] == PngSignature;
    var stream := input[SIGNATURE_LENGTH..];
    var rest := CopyChunks(stream, inject, false, crc32);
    assert r == Prepend(PngSignature, rest);
    CopyWrittenSpliced(stream, inject, crc32);
    var w := Walk(stream, crc32);
    var k := FirstIend(w.chunks);
    var before, after := Concat(w.chunks[..k]), Concat(w.chunks[k..]);
    var at := SIGNATURE_LENGTH + |before|;
    var end := SIGNATURE_LENGTH + |Concat(w.chunks)|;
    SpliceOfPrefix(input, PngSignature, before, inject.written, after, at, end);
  }

  /** A successful copying loop over `stream` writes a prefix of it split at the first `IEND` chunk, with the injected bytes between. */
  lemma CopyWrittenSpliced(stream: Bytes, inject: Copy, crc32: Bytes -> u32)
    requires CopyChunks(stream, inject, false, crc32).failure.None?
    ensures var w := Walk(stream, crc32); var k := FirstIend(w.chunks);
      var before, after := Concat(w.chunks[..k]), Concat(w.chunks[k..]);
      CopyChunks(stream, inject, false, crc32).written == before + inject.written + after &&
      |before| + |after| == |Concat(w.chunks)| &&
      |before + after| <= |stream| && stream[..|before + after|] == before + after && |stream| - |before + after| < 4
  {
    CopyChunksSucceeds(stream, inject, false, crc32);
    CopyChunksWritten(stream, inject, false, crc32);
    var w := Walk(stream, crc32);
    WalkCovers(stream, crc32);
    ConcatSplit(w.chunks, FirstIend(w.chunks));
  }

  /** Bytes `mid` put between two consecutive pieces that follow a prefix of `input`. */
  lemma SpliceOfPrefix(input: Bytes, sig: Bytes, before: Bytes, mid: Bytes, after: Bytes, at: nat, end: nat)
    requires |sig| <= |input| && input[..|sig|] == sig
    requires |before + after| <= |input| - |sig| && input[|sig|..][..|before + after|] == before + after
    requires at == |sig| + |before| && end == at + |after|
    ensures end <= |input| && sig + (before + mid + after) == input[..at] + mid + input[at..end]
  {
    var stream := input[|sig|..];
    assert input[..at] == sig + before by {
      assert input[..at] == input[..|sig|] + stream[..|before|];
      assert stream[..|before|] == (before + after)[..|before|];
    }
    assert input[at..end] == after by {
      assert input[at..end] == stream[|before|..|before + after|];
    }
  }

  // ---------------------------------------------------------------------
  // The chunk built from a message
  // ---------------------------------------------------------------------

  /**
   * What `compute_chunk_data` appends for a message `m`: its length in
   * network order, the type `stEG`, the message, and the network-order CRC
   * of type and message.
   */
  function MessageChunk(m: Bytes, crc32: Bytes -> u32): (r: Bytes)
    ensures |r| == 12 + |m|
  {
    BigEndian(Wrap32(|m|)) + StegType + m + BigEndian(crc32(StegType + m))
  }

  /**
   * The message chunk is the encoding of a `stEG` chunk holding the message
   * with the CRC that matches it, so it decodes to those fields and the
   * iterator reads it back as a good chunk.
   */
  lemma MessageChunkIsChunk(m: Bytes, rest: Bytes, crc32: Bytes -> u32)
    requires |m| + 8 < 0x1_0000_0000
    ensures var c := Chunk(StegType, m, crc32(StegType + m));
      WellFormed(c) && MessageChunk(m, crc32) == Encode(c) && Decode(MessageChunk(m, crc32)) == Some(c) &&
      NextChunkSpec([], MessageChunk(m, crc32) + rest, crc32) == NextOutcome(1, Encode(c), 12 + |m|, 12 + |m|)
  {
    var c := Chunk(StegType, m, crc32(StegType + m));
    DecodeEncode(c);
    NextChunkReadsEncoded(c, rest, crc32);
  }

  /** Bytes without a NUL are their own C string. */
  lemma {:induction false} CStrOfNulFree(s: Bytes)
    requires 0 !in s
    ensures CStr(s) == s
  {
    if s != [] {
      assert s[1..] == s[|s| - |s[1..]|..];
      CStrOfNulFree(s[1..]);
    }
  }

  /**
   * `compute_chunk_data`: builds type and message in a scratch buffer,
   * then appends the length, that buffer and the CRC to `buffer`. The
   * message is taken as a C string.
   */
  method ComputeChunkData(buffer: Strbuf, message: Bytes, crc32: Bytes -> u32)
    requires buffer.Valid()
    modifies buffer
    ensures buffer.Valid()
    ensures buffer.Contents() == old(buffer.Contents()) + MessageChunk(CStr(message), crc32)
  {
    var chunkData := new Strbuf.Init();
    chunkData.AttachStr(StegType);
    var msgLen := CStrLen(message);
    chunkData.Attach(message, msgLen);
    CStrOfNulFree(StegType);
    CStrOfNulFree(CStr(message));
    var m := CStr(message);
    assert chunkData.Contents() == StegType + m;
    var crc := crc32(chunkData.Contents());
    ghost var before := buffer.Contents();
    var lenBytes, data, crcBytes := BigEndian(Wrap32(msgLen)), chunkData.Contents(), BigEndian(crc);
    assert lenBytes[..4] == lenBytes && data[..chunkData.len] == data && crcBytes[..4] == crcBytes;
    buffer.AttachBytes(lenBytes, 4);
    buffer.AttachBytes(data, chunkData.len);
    buffer.AttachBytes(crcBytes, 4);
    AppendChunkParts(before, lenBytes, StegType, m, crcBytes);
    chunkData.Release();
  }

  lemma AppendChunkParts(b: Bytes, l: Bytes, t: Bytes, m: Bytes, c: Bytes)
    ensures b + l + (t + m) + c == b + (l + t + m + c)
  {
  }

  // ---------------------------------------------------------------------
  // The chunk built from a file
  // ---------------------------------------------------------------------

  /** `crc32_update` folded over `data` in the blocks a read of BUFF_LEN bytes at a time yields. */
  function CrcBlocks(crc: u32, data: Bytes, crcUpdate: (u32, Bytes) -> u32): u32
    decreases |data|
  {
    if |data| == 0 then crc
    else
      var n := Min(BUFF_LEN, |data|);
      CrcBlocks(crcUpdate(crc, data[..n]), data[n..], crcUpdate)
  }

  /**
   * Folding over whole blocks and then over the rest is folding over
   * everything: the CRC of a file does not depend on where the reading
   * loop stands, as long as it stands at a block boundary.
   */
  lemma {:induction false} CrcBlocksSplit(crc: u32, a: Bytes, b: Bytes, crcUpdate: (u32, Bytes) -> u32)
    requires |a| % BUFF_LEN == 0
    ensures CrcBlocks(crc, a + b, crcUpdate) == CrcBlocks(CrcBlocks(crc, a, crcUpdate), b, crcUpdate)
    decreases |a|
  {
    if a == [] {
      assert a + b == b;
    } else {
      var n := BUFF_LEN;
      assert (a + b)[..n] == a[..n];
      assert (a + b)[n..] == a[n..] + b;
      CrcBlocksSplit(crcUpdate(crc, a[..n]), a[n..], b, crcUpdate);
    }
  }

  /**
   * One block read off the front of the unread bytes `rest` keeps the
   * bytes and the CRC read so far in step with `contents`.
   */
  lemma BlockStep(contents: Bytes, done: Bytes, rest: Bytes, block: Bytes, crc: u32, crcUpdate: (u32, Bytes) -> u32)
    requires contents == done + rest
    requires CrcBlocks(crc, rest, crcUpdate) == CrcBlocks(0, contents, crcUpdate)
    requires |block| == Min(BUFF_LEN, |rest|) && |block| > 0 && block == rest[..|block|]
    ensures contents == done + block + rest[|block|..]
    ensures CrcBlocks(crcUpdate(crc, block), rest[|block|..], crcUpdate) == CrcBlocks(0, contents, crcUpdate)
  {
    assert rest == block + rest[|block|..];
    SeqAssoc(done, block, rest[|block|..]);
    CrcBlocksStep(crc, rest, block, crcUpdate);
  }

  /** The 32-bit count of bytes read so far, advanced by one more block. */
  lemma CountStep(total: u32, done: Bytes, block: Bytes)
    requires total == Wrap32(|done|)
    ensures Wrap32(total as int + |block|) == Wrap32(|done + block|)
  {
    Wrap32Add(|done|, |block|);
  }

  /** The first block of `data` advances the CRC by that block. */
  lemma CrcBlocksStep(crc: u32, data: Bytes, block: Bytes, crcUpdate: (u32, Bytes) -> u32)
    requires |block| == Min(BUFF_LEN, |data|) && |block| > 0 && block == data[..|block|]
    ensures CrcBlocks(crc, data, crcUpdate) == CrcBlocks(crcUpdate(crc, block), data[|block|..], crcUpdate)
  {
  }

  /**
   * What `embed_file` writes at the `IEND` chunk for a file whose bytes are
   * `contents` and whose size as reported by `lstat` is `statSize`: the
   * size truncated to 32 bits in network order, the type `stEG`, the bytes,
   * then, if the 32-bit count of bytes read equals that size, the
   * network-order CRC folded over the bytes alone from seed 0; otherwise
   * the run stops before the CRC.
   */
  function FileChunk(contents: Bytes, statSize: nat, crcUpdate: (u32, Bytes) -> u32): (r: Copy)
    ensures r.failure.None? <==> |contents| % 0x1_0000_0000 == statSize % 0x1_0000_0000
    ensures r.failure.Some? ==> r.failure == Some(Fatal(SizeMismatch))
    ensures |r.written| == 8 + |contents| + (if r.failure.None? then 4 else 0)
  {
    var header := BigEndian(Wrap32(statSize)) + StegType + contents;
    if Wrap32(|contents|) != Wrap32(statSize) then Copy(header, Some(Fatal(SizeMismatch)))
    else Copy(header + BigEndian(CrcBlocks(0, contents, crcUpdate)), None)
  }

  /**
   * When the size agrees with the bytes, the file chunk is a well-formed
   * `stEG` chunk carrying the file's bytes; since its CRC leaves out the
   * type, the iterator accepts it exactly when `crc32` of type and bytes
   * happens to equal that CRC. When the size disagrees modulo 2^32, the run
   * fails after the bytes.
   */
  lemma FileChunkMeaning(contents: Bytes, statSize: nat, rest: Bytes, crc32: Bytes -> u32, crcUpdate: (u32, Bytes) -> u32)
    requires |contents| + 8 < 0x1_0000_0000
    ensures var r := FileChunk(contents, statSize, crcUpdate);
      r.failure.None? <==> statSize % 0x1_0000_0000 == |contents|
    ensures var r := FileChunk(contents, statSize, crcUpdate);
      var c := Chunk(StegType, contents, CrcBlocks(0, contents, crcUpdate));
      r.failure.None? ==>
        WellFormed(c) && r.written == Encode(c) &&
        (NextChunkSpec([], r.written + rest, crc32).status == 1 <==> crc32(StegType + contents) == c.crc)
  {
    var r := FileChunk(contents, statSize, crcUpdate);
    if r.failure.None? {
      var c := Chunk(StegType, contents, CrcBlocks(0, contents, crcUpdate));
      if c.crc == crc32(c.ctype + c.data) {
        NextChunkReadsEncoded(c, rest, crc32);
      } else {
        NextChunkRejectsBadCrc(c, rest, crc32);
      }
    }
  }

  lemma Wrap32Add(a: int, b: int)
    ensures Wrap32(Wrap32(a) as int + b) == Wrap32(a + b)
  {
    var m := 0x1_0000_0000;
    assert Wrap32(a) as int == a % m;
    assert (a % m + b) % m == (a + b) % m by {
      var q := a / m;
      assert a == q * m + a % m;
      assert a + b == (a % m + b) + q * m;
    }
  }

  /**
   * The block loop of `embed_file`: reads the file BUFF_LEN bytes at a time
   * to its end, writing each block to the output, counting the bytes in 32
   * bits and folding the CRC over the blocks.
   */
  method CopyFileBlocks(file: InputFile, output: OutputFile, crcUpdate: (u32, Bytes) -> u32)
      returns (total: u32, crc: u32)
    requires file.Valid()
    modifies file, output
    ensures file.Valid() && file.Remaining() == []
    ensures output.data == old(output.data) + old(file.Remaining())
    ensures total == Wrap32(|old(file.Remaining())|) && crc == CrcBlocks(0, old(file.Remaining()), crcUpdate)
  {
    ghost var contents := file.Remaining();
    ghost var done: Bytes := [];
    total, crc := 0, 0;
    while true
      invariant file.Valid() && contents == done + file.Remaining()
      invariant output.data == old(output.data) + done
      invariant total == Wrap32(|done|)
      invariant CrcBlocks(crc, file.Remaining(), crcUpdate) == CrcBlocks(0, contents, crcUpdate)
      decreases |file.Remaining()|
    {
      ghost var rest := file.Remaining();
      var block := file.Read(BUFF_LEN);
      if |block| == 0 {
        SeqRightUnit(done, rest);
        break;
      }
      BlockStep(contents, done, rest, block, crc, crcUpdate);
      CountStep(total, done, block);
      SeqAssoc(old(output.data), done, block);
      total := Wrap32(total as int + |block|);
      crc := crcUpdate(crc, block);
      output.Write(block);
      done := done + block;
    }
  }

  /**
   * The `IEND` branch of `embed_file`: writes the size and type, copies the
   * file's blocks, checks the count against the size, and writes the CRC.
   */
  method WriteFileChunk(file: InputFile, statSize: nat, output: OutputFile, crcUpdate: (u32, Bytes) -> u32,
                        ghost contents: Bytes, ghost inject: Copy)
      returns (failure: Option<Failure>)
    requires file.Valid() && file.Remaining() == contents && inject == FileChunk(contents, statSize, crcUpdate)
    modifies file, output
    ensures file.Valid() && file.Remaining() == []
    ensures output.data == old(output.data) + inject.written && failure == inject.failure
  {
    var size := Wrap32(statSize);
    ghost var header := BigEndian(size) + StegType + contents;
    output.Write(BigEndian(size));
    output.Write(StegType);
    var total, crc := CopyFileBlocks(file, output, crcUpdate);
    assert output.data == old(output.data) + header;
    if total != size {
      assert inject == Copy(header, Some(Fatal(SizeMismatch)));
      return Some(Fatal(SizeMismatch));
    }
    assert inject == Copy(header + BigEndian(crc), None);
    output.Write(BigEndian(crc));
    return None;
  }

  // ---------------------------------------------------------------------
  // The two copying loops
  // ---------------------------------------------------------------------

  /**
   * What a turn of the copying loop does once the chunk is read: the loop
   * ends, the run fails, or the chunk is written (after the injected bytes
   * when it is the first `IEND` chunk).
   */
  datatype Turn = End | Fail(failure: Failure) | Write(isIend: bool)

  /**
   * The part of a turn shared by both loops: reads the next chunk into the
   * emptied buffer and checks its type. Its outcome is the first step of
   * `CopyChunks` on the unread stream.
   */
  method ReadTurn(it: ChunkIterator, input: InputFile, chunk: Strbuf, iendFound: bool, ghost inject: Copy,
                  crc32: Bytes -> u32)
      returns (turn: Turn)
    requires input.Valid() && it.file == input && chunk.Valid() && chunk.Contents() == []
    modifies it, input, chunk
    ensures input.Valid() && it.file == input && chunk.Valid()
    ensures var c := CopyChunks(old(input.Remaining()), inject, iendFound, crc32);
      match turn
      case End => c == Copy([], if iendFound then None else Some(Die(MissingIend)))
      case Fail(f) => c == Copy([], Some(f))
      case Write(isIend) =>
        var next := CopyChunks(input.Remaining(), inject, iendFound || isIend, crc32);
        |input.Remaining()| < |old(input.Remaining())| && (isIend ==> !iendFound) &&
        c == if isIend then AtIend(inject, chunk.Contents(), next) else Prepend(chunk.Contents(), next)
  {
    ghost var stream := input.Remaining();
    var hasNext := it.NextChunk(chunk, crc32);
    ghost var o := NextChunkSpec([], stream, crc32);
    assert hasNext == o.status && chunk.Contents() == o.contents && input.Remaining() == stream[o.consumed..];
    if hasNext < 0 {
      return Fail(Die(CorruptChunk));
    }
    if hasNext == 0 {
      return End;
    }
    var t := ParseType(chunk.Contents());
    if t.None? {
      return Fail(Die(UnexpectedType));
    }
    if t.value == IendType {
      if iendFound {
        return Fail(Die(IendTwice));
      }
      CopyStepIend(stream, inject, crc32);
      return Write(true);
    }
    CopyStepOther(stream, inject, iendFound, crc32);
    return Write(false);
  }

  /** Writing the first part of what remains leaves the rest to write. */
  lemma WrittenStep(out: Bytes, out': Bytes, c: Bytes, rest: Bytes, goal: Bytes)
    requires out' == out + c
    requires out + (c + rest) == goal
    ensures out' + rest == goal
  {
  }

  /** The same with the part written in two pieces. */
  lemma OutputStep(out: Bytes, out': Bytes, x: Bytes, c: Bytes, rest: Bytes, goal: Bytes)
    requires out' == out + x + c
    requires out + (x + c + rest) == goal
    ensures out' + rest == goal
  {
  }

  /**
   * The chunk loop of `embed_message_chunk` on an iterator just past the
   * signature: every chunk is copied, with `newChunk` written right before
   * the first `IEND` chunk.
   */
  method CopyMessageChunks(it: ChunkIterator, input: InputFile, output: OutputFile, newChunk: Bytes,
                           crc32: Bytes -> u32)
      returns (failure: Option<Failure>)
    requires input.Valid() && it.file == input
    modifies it, input, output
    ensures input.Valid()
    ensures var r := CopyChunks(old(input.Remaining()), Copy(newChunk, None), false, crc32);
      output.data == old(output.data) + r.written && failure == r.failure
  {
    ghost var inject := Copy(newChunk, None);
    ghost var total := CopyChunks(input.Remaining(), inject, false, crc32);
    var chunk := new Strbuf.Init();
    var iendFound := false;
    while true
      invariant input.Valid() && it.file == input && chunk.Valid() && chunk.Contents() == []
      invariant output.data + CopyChunks(input.Remaining(), inject, iendFound, crc32).written ==
                old(output.data) + total.written
      invariant CopyChunks(input.Remaining(), inject, iendFound, crc32).failure == total.failure
      decreases |input.Remaining()|
    {
      ghost var out, c := output.data, CopyChunks(input.Remaining(), inject, iendFound, crc32);
      var turn := ReadTurn(it, input, chunk, iendFound, inject, crc32);
      if turn.Fail? {
        return Some(turn.failure);
      }
      if turn.End? {
        break;
      }
      ghost var next := CopyChunks(input.Remaining(), inject, iendFound || turn.isIend, crc32);
      ghost var contents := chunk.Contents();
      if turn.isIend {
        iendFound := true;
        output.Write(newChunk);
      }
      output.Write(chunk.Contents());
      ghost var goal := old(output.data) + total.written;
      if turn.isIend {
        assert c == Prepend(newChunk + contents, next);
        OutputStep(out, output.data, newChunk, contents, next.written, goal);
      } else {
        assert c == Prepend(contents, next);
        WrittenStep(out, output.data, contents, next.written, goal);
      }
      chunk.Clear();
    }
    if !iendFound {
      return Some(Die(MissingIend));
    }
    chunk.Release();
    return None;
  }

  /**
   * `embed_message_chunk`: checks the signature, writes it, then copies
   * every chunk, writing `newChunk` right before `IEND`.
   */
  method EmbedMessageChunk(input: InputFile, output: OutputFile, newChunk: Bytes, crc32: Bytes -> u32)
      returns (failure: Option<Failure>)
    requires input.Valid()
    modifies input, output
    ensures input.Valid()
    ensures var r := EmbedOutput(old(input.Remaining()), Copy(newChunk, None), crc32);
      output.data == old(output.data) + r.written && failure == r.failure
  {
    ghost var stream := input.Remaining();
    var it := new ChunkIterator();
    var status := it.Init(input);
    if status < 0 {
      return Some(Die(ReadFailed));
    } else if status > 0 {
      return Some(Die(NotPng));
    }
    assert input.Remaining() == stream[SIGNATURE_LENGTH..];
    output.Write(PngSignature);
    failure := CopyMessageChunks(it, input, output, newChunk, crc32);
    ghost var rest := CopyChunks(stream[SIGNATURE_LENGTH..], Copy(newChunk, None), false, crc32);
    SeqAssoc(old(output.data), PngSignature, rest.written);
    it.Destroy();
  }

  /**
   * The chunk loop of `embed_file` on an iterator just past the signature:
   * as `CopyMessageChunks`, but at `IEND` the file chunk is streamed from
   * `file`, which is read only then.
   */
  method CopyFileChunks(it: ChunkIterator, input: InputFile, output: OutputFile, file: InputFile, statSize: nat,
                        crc32: Bytes -> u32, crcUpdate: (u32, Bytes) -> u32, ghost inject: Copy)
      returns (failure: Option<Failure>)
    requires input.Valid() && it.file == input && file.Valid() && input != file
    requires inject == FileChunk(file.Remaining(), statSize, crcUpdate)
    modifies it, input, output, file
    ensures input.Valid() && file.Valid()
    ensures file.Remaining() == [] || file.Remaining() == old(file.Remaining())
    ensures var r := CopyChunks(old(input.Remaining()), inject, false, crc32);
      output.data == old(output.data) + r.written && failure == r.failure
  {
    ghost var total := CopyChunks(input.Remaining(), inject, false, crc32);
    ghost var fileBytes := file.Remaining();
    var chunk := new Strbuf.Init();
    var iendFound := false;
    while true
      invariant input.Valid() && it.file == input && chunk.Valid() && chunk.Contents() == []
      invariant file.Valid() && (if iendFound then file.Remaining() == [] else file.Remaining() == fileBytes)
      invariant output.data + CopyChunks(input.Remaining(), inject, iendFound, crc32).written ==
                old(output.data) + total.written
      invariant CopyChunks(input.Remaining(), inject, iendFound, crc32).failure == total.failure
      decreases |input.Remaining()|
    {
      ghost var out, c := output.data, CopyChunks(input.Remaining(), inject, iendFound, crc32);
      var turn := ReadTurn(it, input, chunk, iendFound, inject, crc32);
      if turn.Fail? {
        return Some(turn.failure);
      }
      if turn.End? {
        break;
      }
      ghost var next := CopyChunks(input.Remaining(), inject, iendFound || turn.isIend, crc32);
      ghost var contents := chunk.Contents();
      if turn.isIend {
        iendFound := true;
        var written := WriteFileChunk(file, statSize, output, crcUpdate, fileBytes, inject);
        if written.Some? {
          assert c == inject;
          return written;
        }
      }
      output.Write(chunk.Contents());
      ghost var goal := old(output.data) + total.written;
      if turn.isIend {
        assert c == Prepend(inject.written + contents, next);
        OutputStep(out, output.data, inject.written, contents, next.written, goal);
      } else {
        assert c == Prepend(contents, next);
        WrittenStep(out, output.data, contents, next.written, goal);
      }
      chunk.Clear();
    }
    if !iendFound {
      return Some(Die(MissingIend));
    }
    chunk.Release();
    return None;
  }

  /**
   * `embed_file` from the iterator set-up to the end of the chunk loop: the
   * file chunk is written right before `IEND`.
   */
  method EmbedFile(input: InputFile, output: OutputFile, file: InputFile, statSize: nat,
                   crc32: Bytes -> u32, crcUpdate: (u32, Bytes) -> u32)
      returns (failure: Option<Failure>)
    requires input.Valid() && file.Valid() && input != file
    modifies input, output, file
    ensures input.Valid() && file.Valid()
    ensures file.Remaining() == [] || file.Remaining() == old(file.Remaining())
    ensures var r := EmbedOutput(old(input.Remaining()), FileChunk(old(file.Remaining()), statSize, crcUpdate), crc32);
      output.data == old(output.data) + r.written && failure == r.failure
  {
    ghost var stream := input.Remaining();
    var it := new ChunkIterator();
    var status := it.Init(input);
    if status < 0 {
      return Some(Die(ReadFailed));
    } else if status > 0 {
      return Some(Die(NotPng));
    }
    assert input.Remaining() == stream[SIGNATURE_LENGTH..];
    output.Write(PngSignature);
    ghost var inject := FileChunk(file.Remaining(), statSize, crcUpdate);
    failure := CopyFileChunks(it, input, output, file, statSize, crc32, crcUpdate, inject);
    ghost var rest := CopyChunks(stream[SIGNATURE_LENGTH..], inject, false, crc32);
    SeqAssoc(old(output.data), PngSignature, rest.written);
    it.Destroy();
  }

  // ---------------------------------------------------------------------
  // The message path of `embed_message`
  // ---------------------------------------------------------------------

  /**
   * `embed_message` with the chunk it computes handed to the copying loop:
   * the `stEG` chunk of the message (taken as a C string) goes right before
   * `IEND`. `messageBuf` is the contents of the message buffer.
   */
  method EmbedMessage(input: InputFile, output: OutputFile, messageBuf: Bytes, crc32: Bytes -> u32)
      returns (failure: Option<Failure>)
    requires input.Valid()
    modifies input, output
    ensures input.Valid()
    ensures var r := EmbedOutput(old(input.Remaining()), Copy(MessageChunk(CStr(messageBuf), crc32), None), crc32);
      output.data == old(output.data) + r.written && failure == r.failure
  {
    var chunkData := new Strbuf.Init();
    ghost var empty := chunkData.Contents();
    ComputeChunkData(chunkData, messageBuf, crc32);
    SeqLeftUnit(empty, MessageChunk(CStr(messageBuf), crc32));
    failure := EmbedMessageChunk(input, output, chunkData.Contents(), crc32);
    chunkData.Release();
  }

  /**
   * `embed_message` as written: the chunk is computed, but the raw message
   * bytes are what the copying loop writes before `IEND`.
   */
  method EmbedMessageAsWritten(input: InputFile, output: OutputFile, messageBuf: Bytes, crc32: Bytes -> u32)
      returns (failure: Option<Failure>)
    requires input.Valid()
    modifies input, output
    ensures input.Valid()
    ensures var r := EmbedOutput(old(input.Remaining()), Copy(messageBuf, None), crc32);
      output.data == old(output.data) + r.written && failure == r.failure
  {
    var chunkData := new Strbuf.Init();
    ComputeChunkData(chunkData, messageBuf, crc32);
    failure := EmbedMessageChunk(input, output, messageBuf, crc32);
    chunkData.Release();
  }

  /** The `IEND` chunk with no data and the CRC that matches it. */
  function IendChunk(crc32: Bytes -> u32): (r: Bytes)
    ensures |r| == 12
  {
    Encode(Chunk(IendType, [], crc32(IendType)))
  }

  /** The smallest PNG the loop accepts: the signature and the empty `IEND` chunk. */
  function MinimalPng(crc32: Bytes -> u32): Bytes {
    PngSignature + IendChunk(crc32)
  }

  /** The empty `IEND` chunk opens with a zero length, has type `IEND` and reads back whole. */
  lemma IendChunkReads(rest: Bytes, crc32: Bytes -> u32)
    ensures var iend := IendChunk(crc32);
      iend[..4] == [0, 0, 0, 0] && IsIend(iend) &&
      NextChunkSpec([], iend + rest, crc32) == NextOutcome(1, iend, 12, 12)
  {
    var c := Chunk(IendType, [], crc32(IendType));
    assert c.ctype + c.data == IendType;
    NextChunkReadsEncoded(c, rest, crc32);
    var iend := Encode(c);
    assert iend[..4] == BigEndian(0);
    assert iend[4..8] == IendType;
  }

  /** A stream that is just the `IEND` chunk: the injected bytes and the chunk are written, and the run succeeds. */
  lemma CopyOverIend(inject: Copy, crc32: Bytes -> u32)
    requires inject.failure.None?
    ensures CopyChunks(IendChunk(crc32), inject, false, crc32) == Copy(inject.written + IendChunk(crc32), None)
  {
    var iend := IendChunk(crc32);
    IendChunkReads([], crc32);
    SeqRightUnit(iend, []);
    CopyStepIend(iend, inject, crc32);
    assert iend[12..] == [];
    CopyAtEnd([], inject, true, crc32);
    SeqRightUnit(inject.written + iend, []);
  }

  /** Embedding into the minimal PNG writes the signature, the injected bytes and the `IEND` chunk. */
  lemma EmbedIntoMinimal(inject: Copy, crc32: Bytes -> u32)
    requires inject.failure.None?
    ensures EmbedOutput(MinimalPng(crc32), inject, crc32) == Copy(PngSignature + (inject.written + IendChunk(crc32)), None)
  {
    var png := MinimalPng(crc32);
    assert png[..SIGNATURE_LENGTH] == PngSignature && png[SIGNATURE_LENGTH..] == IendChunk(crc32);
    CopyOverIend(inject, crc32);
  }

  /**
   * Embedding the message "hi" as written into the minimal PNG produces a
   * file the program's own iterator rejects: the two message bytes and the
   * first two bytes of the `IEND` length read as a length of 0x68690000,
   * far more than the ten bytes that follow.
   */
  lemma RawMessageBreaksOutput(crc32: Bytes -> u32)
    ensures var hi: Bytes := [0x68, 0x69];
      EmbedOutput(MinimalPng(crc32), Copy(hi, None), crc32) == Copy(PngSignature + (hi + IendChunk(crc32)), None) &&
      Walk(hi + IendChunk(crc32), crc32) == Walked([], false)
  {
    EmbedIntoMinimal(Copy([0x68, 0x69], None), crc32);
    MisreadLength(crc32);
  }

  /** "hi" followed by the `IEND` chunk opens with the length 0x68690000, and the iterator rejects it. */
  lemma MisreadLength(crc32: Bytes -> u32)
    ensures Walk([0x68, 0x69] + IendChunk(crc32), crc32) == Walked([], false)
  {
    var hi: Bytes := [0x68, 0x69];
    var iend := IendChunk(crc32);
    assert iend[..4] == BigEndian(0);
    var bad := hi + iend;
    assert bad[0] == 0x68 && bad[1] == 0x69 && bad[2] == 0 && bad[3] == 0;
    assert ReadBigEndian(bad[..4]) == 0x6869_0000;
    assert NextChunkSpec([], bad, crc32).status == -1;
  }

  lemma TwoChunks(m: Bytes, iend: Bytes, none: seq<Bytes>)
    requires none == []
    ensures [m] + ([iend] + none) == [m, iend]
  {
  }

  /**
   * The corrected run on the same input writes the message chunk before
   * `IEND`, and the output reads back as exactly those two chunks.
   */
  lemma MessageChunkReadsBack(crc32: Bytes -> u32)
    ensures var m := MessageChunk([0x68, 0x69], crc32);
      EmbedOutput(MinimalPng(crc32), Copy(m, None), crc32) == Copy(PngSignature + (m + IendChunk(crc32)), None) &&
      Walk(m + IendChunk(crc32), crc32) == Walked([m, IendChunk(crc32)], true)
  {
    var hi: Bytes := [0x68, 0x69];
    var m := MessageChunk(hi, crc32);
    var iend := IendChunk(crc32);
    EmbedIntoMinimal(Copy(m, None), crc32);
    MessageChunkIsChunk(hi, iend, crc32);
    WalkStep(m + iend, crc32);
    assert (m + iend)[14..] == iend;
    IendChunkReads([], crc32);
    SeqRightUnit(iend, []);
    WalkStep(iend, crc32);
    assert iend[12..] == [];
    var none := Walk([], crc32).chunks;
    assert none == [] && Walk([], crc32).clean;
    TwoChunks(m, iend, none);
  }
}
