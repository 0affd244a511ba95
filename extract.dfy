/**
 * `extract.c`: walk the chunks of a PNG file, feed the data of every `stEG`
 * chunk, block by block, to one zlib inflate stream, and keep what it
 * produces. The walk insists on exactly one `IEND` chunk, the last one; an
 * empty result means the file carries nothing.
 *
 * zlib is the parameter `inflate`: given all compressed bytes fed to the
 * stream so far and the next block, it yields the bytes the stream produces
 * while consuming the block (all of them, as the `do … while (avail_out == 0)`
 * loop drains it), or None when `inflate` reports a stream, dictionary, data
 * or memory error.
 */
module Extract {
  import opened Common
  import opened Files
  import opened ChunkCursor
  import PngChunk

  /** `DEFLATE_STREAM_BUFFER_SIZE`: the most data bytes read from a chunk at a time. */
  const BLOCK: nat := 16384

  const ReadFailed := "failed to read from file descriptor"
  const NotPng := "input file is not a PNG (does not conform to RFC 2083)"
  const ParseFailed := "unexpected error while parsing input file"
  const IendTwice := "non-compliant input file with IEND chunk defined twice (does not conform to RFC 2083)"
  const InflateFailed := "zlib INFLATE failed with unexpected error"
  const NoIend := "non-compliant input file with no IEND chunk defined (does not conform to RFC 2083)"
  const CleanInput := "input file is clean; embedded data could not be found."

  type Inflater = (Bytes, Bytes) -> Option<Bytes>

  /** What a successful extraction produced and where it goes. */
  datatype Extracted = Extracted(recovered: Bytes, hexdump: bool, destination: Option<string>)

  /** Bytes produced so far, followed by the outcome of the rest of the walk. */
  function Then(out: Bytes, r: Result<Bytes>): (t: Result<Bytes>)
    ensures t.Ok? <==> r.Ok?
    ensures t.Ok? ==> t.value == out + r.value
    ensures t.Err? ==> t == r
  {
    if r.Ok? then Ok(out + r.value) else r
  }

  /** Every way the chunk walk of `extract` can fail. */
  const WalkFailures := [Die(NoIend), Fatal(ParseFailed), Die(IendTwice), Fatal(InflateFailed)]

  /** Where the walk stands once the listed chunks are used up. */
  function EndOfWalk(tail: Tail, iendFound: bool): (r: Result<Bytes>)
    ensures r.Ok? <==> tail == Clean && iendFound
    ensures r.Ok? ==> r.value == []
  {
    match tail
    case Clean => if iendFound then Ok([]) else Err(Die(NoIend))
    case _ => Err(Fatal(ParseFailed))
  }

  /**
   * The outcome of the chunk walk from chunk `k` on, `iendFound` telling
   * whether an `IEND` chunk has been read and `fed` what the inflate stream
   * has consumed: the inflated output, or the failure that stops it.
   */
  function Recover(chunks: seq<ChunkRec>, tail: Tail, k: nat, iendFound: bool, fed: Bytes, inflate: Inflater): (r: Result<Bytes>)
    requires k <= |chunks|
    ensures r.Err? ==> r.failure in WalkFailures
    decreases |chunks| - k, 1, 0
  {
    if k == |chunks| then EndOfWalk(tail, iendFound)
    else if iendFound then Err(Die(IendTwice))
    else if chunks[k].ctype == PngChunk.StegType then Drain(chunks, tail, k, 0, fed, inflate)
    else Recover(chunks, tail, k + 1, chunks[k].ctype == PngChunk.IendType, fed, inflate)
  }

  /** The walk from the `stEG` chunk `k`, whose data before offset `off` has been fed already. */
  function Drain(chunks: seq<ChunkRec>, tail: Tail, k: nat, off: nat, fed: Bytes, inflate: Inflater): (r: Result<Bytes>)
    requires k < |chunks| && off <= |chunks[k].data|
    ensures r.Err? ==> r.failure in WalkFailures
    decreases |chunks| - k, 0, |chunks[k].data| - off
  {
    var data := chunks[k].data;
    if off == |data| then Recover(chunks, tail, k + 1, false, fed, inflate)
    else
      var block := data[off..Min(off + BLOCK, |data|)];
      match inflate(fed, block)
      case None => Err(Fatal(InflateFailed))
      case Some(out) => Then(out, Drain(chunks, tail, k, off + |block|, fed + block, inflate))
  }

  /**
   * What `extract` does with a file that looks like `s` through the chunk
   * iterator: the signature check, the walk, the check that something was
   * recovered, and the output decision: the recovered bytes go to a file
   * unless only a hexdump was asked for, to the `-o` path or else
   * `<input>.out`.
   */
  function ExtractSpec(input: string, output: Option<string>, showHexdump: bool, s: Stream, inflate: Inflater): (r: Result<Extracted>)
    ensures r.Ok? ==> s.initStatus == 0 && r.value.recovered != [] && r.value.hexdump == showHexdump
    ensures r.Ok? ==> (r.value.destination.Some? <==> !showHexdump || output.Some?)
    ensures r.Ok? && r.value.destination.Some? ==> r.value.destination.value == OutputPath(input, output, ".out")
    ensures r.Ok? ==> Recover(s.chunks, s.tail, 0, false, [], inflate) == Ok(r.value.recovered)
  {
    if s.initStatus < 0 then Err(Fatal(ReadFailed))
    else if s.initStatus > 0 then Err(Die(NotPng))
    else
      var rec := Recover(s.chunks, s.tail, 0, false, [], inflate);
      if rec.Err? then Err(rec.failure)
      else if rec.value == [] then Err(Die(CleanInput))
      else Ok(Extracted(rec.value, showHexdump, if !showHexdump || output.Some? then Some(OutputPath(input, output, ".out")) else None))
  }

  lemma ThenThen(a: Bytes, b: Bytes, r: Result<Bytes>)
    ensures Then(a, Then(b, r)) == Then(a + b, r)
  {
    if r.Ok? {
      assert a + (b + r.value) == a + b + r.value;
    }
  }

  /**
   * The inner loop of `extract` for one `stEG` chunk: read its data block by
   * block, inflate each block and append the output to the temporary file.
   * On success the walk goes on at the next chunk with everything fed.
   */
  method InflateChunk(file: Cursor, tmp: OutputFile, fed: Bytes, inflate: Inflater, ghost goal: Result<Bytes>)
      returns (fedAfter: Bytes, ok: bool)
    requires file.Valid() && file.pos > 0 && file.dataPos == 0
    requires goal == Then(tmp.data, Drain(file.stream.chunks, file.stream.tail, file.pos - 1, 0, fed, inflate))
    modifies file, tmp
    ensures file.Valid() && file.pos == old(file.pos)
    ensures ok ==> goal == Then(tmp.data, Recover(file.stream.chunks, file.stream.tail, file.pos, false, fedAfter, inflate))
    ensures !ok ==> goal == Err(Fatal(InflateFailed))
  {
    ghost var chunks, tail, k := file.stream.chunks, file.stream.tail, file.pos - 1;
    ghost var data := chunks[k].data;
    ghost var off: nat := 0;
    fedAfter := fed;
    var got := file.ReadData(BLOCK);
    while |got| > 0
      invariant file.Valid() && file.pos == k + 1 && file.Current().data == data
      invariant off <= |data| && file.dataPos == Min(off + BLOCK, |data|)
      invariant got == data[off..file.dataPos]
      invariant goal == Then(tmp.data, Drain(chunks, tail, k, off, fedAfter, inflate))
      decreases |data| - off
    {
      DrainBlock(chunks, tail, k, off, fedAfter, inflate);
      var out := inflate(fedAfter, got);
      if out.None? {
        return fedAfter, false;
      }
      ThenThen(tmp.data, out.value, Drain(chunks, tail, k, file.dataPos, fedAfter + got, inflate));
      tmp.Write(out.value);
      fedAfter := fedAfter + got;
      off := file.dataPos;
      got := file.ReadData(BLOCK);
    }
    DrainBlock(chunks, tail, k, off, fedAfter, inflate);
    ok := true;
  }

  /** One turn of `Drain`: the walk goes on past the chunk at its end, and otherwise feeds the next block. */
  lemma DrainBlock(chunks: seq<ChunkRec>, tail: Tail, k: nat, off: nat, fed: Bytes, inflate: Inflater)
    requires k < |chunks| && off <= |chunks[k].data|
    ensures off == |chunks[k].data| ==> Drain(chunks, tail, k, off, fed, inflate) == Recover(chunks, tail, k + 1, false, fed, inflate)
    ensures off < |chunks[k].data| ==>
      var block := chunks[k].data[off..Min(off + BLOCK, |chunks[k].data|)];
      Drain(chunks, tail, k, off, fed, inflate)
      == (if inflate(fed, block).None? then Err(Fatal(InflateFailed))
          else Then(inflate(fed, block).value, Drain(chunks, tail, k, off + |block|, fed + block, inflate)))
  {
  }

  /**
   * The chunk walk of `extract` after a successful `init_ctx`, with its
   * `IEND_found` flag: what the temporary file holds once the iterator is
   * exhausted, or the failure that ends the walk.
   */
  method WalkChunks(file: Cursor, inflate: Inflater) returns (r: Result<Bytes>)
    requires file.Valid() && file.pos == 0
    modifies file
    ensures r == Recover(file.stream.chunks, file.stream.tail, 0, false, [], inflate)
  {
    ghost var chunks, tail := file.stream.chunks, file.stream.tail;
    ghost var goal := Recover(chunks, tail, 0, false, [], inflate);
    var tmp := new OutputFile.Create();
    var fed: Bytes := [];
    var iendFound := false;
    var hasNext := file.HasNext();
    assert goal.Ok? ==> tmp.data + goal.value == goal.value;
    while hasNext != 0
      invariant file.Valid() && fresh(tmp)
      invariant file.pos < |chunks| ==> hasNext == 1
      invariant file.pos == |chunks| ==> (hasNext == 0 <==> tail == Clean) && (hasNext < 0 <==> tail == HasNextFails)
      invariant goal == Then(tmp.data, Recover(chunks, tail, file.pos, iendFound, fed, inflate))
      decreases |chunks| - file.pos
    {
      if hasNext < 0 {
        return Err(Fatal(ParseFailed));
      }
      var next := file.Next();
      if next != 0 {
        return Err(Fatal(ParseFailed));
      }
      if iendFound {
        return Err(Die(IendTwice));
      }
      var ctype := file.Current().ctype;
      if ctype == PngChunk.StegType {
        var ok;
        fed, ok := InflateChunk(file, tmp, fed, inflate, goal);
        if !ok {
          return Err(Fatal(InflateFailed));
        }
      }
      if ctype == PngChunk.IendType {
        iendFound := true;
      }
      hasNext := file.HasNext();
    }
    if !iendFound {
      return Err(Die(NoIend));
    }
    assert tmp.data + [] == tmp.data;
    return Ok(tmp.data);
  }

  /**
   * `extract`: the signature check, the chunk walk, the check that something
   * was recovered, and the output decision.
   */
  method ExtractFile(input: string, output: Option<string>, showHexdump: bool, file: Cursor, inflate: Inflater)
      returns (r: Result<Extracted>)
    modifies file
    ensures r == ExtractSpec(input, output, showHexdump, file.stream, inflate)
  {
    var path := OutputPath(input, output, ".out");
    var status := file.Init();
    if status < 0 {
      return Err(Fatal(ReadFailed));
    }
    if status > 0 {
      return Err(Die(NotPng));
    }
    var recovered := WalkChunks(file, inflate);
    if recovered.Err? {
      return Err(recovered.failure);
    }
    if |recovered.value| == 0 {
      return Err(Die(CleanInput));
    }
    var destination := if !showHexdump || output.Some? then Some(path) else None;
    return Ok(Extracted(recovered.value, showHexdump, destination));
  }

  // ---------------------------------------------------------------------------
  // Only stEG data reaches the decoder
  // ---------------------------------------------------------------------------

  /** Two chunk lists with the same types, and the same data wherever the type is `stEG`. */
  predicate AgreeOnSteg(a: seq<ChunkRec>, b: seq<ChunkRec>) {
    |a| == |b| &&
    forall j :: 0 <= j < |a| ==> a[j].ctype == b[j].ctype && (a[j].ctype == PngChunk.StegType ==> a[j].data == b[j].data)
  }

  /** The walk reads the data of `stEG` chunks only: the data of every other chunk cannot change its outcome. */
  lemma {:induction false} RecoverReadsOnlySteg(a: seq<ChunkRec>, b: seq<ChunkRec>, tail: Tail, k: nat, iendFound: bool,
                                               fed: Bytes, inflate: Inflater)
    requires AgreeOnSteg(a, b) && k <= |a|
    ensures Recover(a, tail, k, iendFound, fed, inflate) == Recover(b, tail, k, iendFound, fed, inflate)
    decreases |a| - k, 1, 0
  {
    if k < |a| && !iendFound {
      if a[k].ctype == PngChunk.StegType {
        DrainReadsOnlySteg(a, b, tail, k, 0, fed, inflate);
      } else {
        RecoverReadsOnlySteg(a, b, tail, k + 1, a[k].ctype == PngChunk.IendType, fed, inflate);
      }
    }
  }

  lemma {:induction false} DrainReadsOnlySteg(a: seq<ChunkRec>, b: seq<ChunkRec>, tail: Tail, k: nat, off: nat,
                                             fed: Bytes, inflate: Inflater)
    requires AgreeOnSteg(a, b) && k < |a| && a[k].ctype == PngChunk.StegType && off <= |a[k].data|
    ensures Drain(a, tail, k, off, fed, inflate) == Drain(b, tail, k, off, fed, inflate)
    decreases |a| - k, 0, |a[k].data| - off
  {
    var data := a[k].data;
    if off == |data| {
      RecoverReadsOnlySteg(a, b, tail, k + 1, false, fed, inflate);
    } else {
      var block := data[off..Min(off + BLOCK, |data|)];
      DrainReadsOnlySteg(a, b, tail, k, off + |block|, fed + block, inflate);
    }
  }

  // ---------------------------------------------------------------------------
  // The IEND rules
  // ---------------------------------------------------------------------------

  /** From chunk `k` on there is at least one chunk, the last is `IEND` and no other is. */
  predicate IendOnlyLast(chunks: seq<ChunkRec>, k: nat) {
    k < |chunks| && chunks[|chunks| - 1].ctype == PngChunk.IendType &&
    forall j :: k <= j < |chunks| - 1 ==> chunks[j].ctype != PngChunk.IendType
  }

  /** A walk that succeeds ended cleanly, and met exactly one `IEND` chunk, as the last chunk. */
  lemma {:induction false} RecoverOkShape(chunks: seq<ChunkRec>, tail: Tail, k: nat, iendFound: bool, fed: Bytes, inflate: Inflater)
    requires k <= |chunks| && Recover(chunks, tail, k, iendFound, fed, inflate).Ok?
    ensures tail == Clean
    ensures iendFound ==> k == |chunks|
    ensures !iendFound ==> IendOnlyLast(chunks, k)
    decreases |chunks| - k, 1, 0
  {
    if k < |chunks| {
      if chunks[k].ctype == PngChunk.StegType {
        DrainOkShape(chunks, tail, k, 0, fed, inflate);
      } else {
        RecoverOkShape(chunks, tail, k + 1, chunks[k].ctype == PngChunk.IendType, fed, inflate);
      }
    }
  }

  lemma {:induction false} DrainOkShape(chunks: seq<ChunkRec>, tail: Tail, k: nat, off: nat, fed: Bytes, inflate: Inflater)
    requires k < |chunks| && chunks[k].ctype == PngChunk.StegType && off <= |chunks[k].data|
    requires Drain(chunks, tail, k, off, fed, inflate).Ok?
    ensures tail == Clean && IendOnlyLast(chunks, k)
    decreases |chunks| - k, 0, |chunks[k].data| - off
  {
    var data := chunks[k].data;
    if off == |data| {
      RecoverOkShape(chunks, tail, k + 1, false, fed, inflate);
    } else {
      var block := data[off..Min(off + BLOCK, |data|)];
      DrainOkShape(chunks, tail, k, off + |block|, fed + block, inflate);
    }
  }

  /** The decoder accepts every block. */
  ghost predicate Total(inflate: Inflater) {
    forall fed, block :: inflate(fed, block).Some?
  }

  /** A chunk after an `IEND` chunk ends the walk with the "defined twice" error, unless the decoder failed first. */
  lemma {:induction false} IendTwiceFrom(chunks: seq<ChunkRec>, tail: Tail, k: nat, fed: Bytes, inflate: Inflater, j: nat)
    requires Total(inflate) && k <= j && j + 1 < |chunks| && chunks[j].ctype == PngChunk.IendType
    ensures Recover(chunks, tail, k, false, fed, inflate) == Err(Die(IendTwice))
    decreases |chunks| - k, 1, 0
  {
    if chunks[k].ctype == PngChunk.StegType {
      IendTwiceDrain(chunks, tail, k, 0, fed, inflate, j);
    } else if chunks[k].ctype != PngChunk.IendType {
      IendTwiceFrom(chunks, tail, k + 1, fed, inflate, j);
    }
  }

  lemma {:induction false} IendTwiceDrain(chunks: seq<ChunkRec>, tail: Tail, k: nat, off: nat, fed: Bytes, inflate: Inflater, j: nat)
    requires Total(inflate) && k < j && j + 1 < |chunks| && chunks[j].ctype == PngChunk.IendType
    requires chunks[k].ctype == PngChunk.StegType && off <= |chunks[k].data|
    ensures Drain(chunks, tail, k, off, fed, inflate) == Err(Die(IendTwice))
    decreases |chunks| - k, 0, |chunks[k].data| - off
  {
    var data := chunks[k].data;
    if off == |data| {
      IendTwiceFrom(chunks, tail, k + 1, fed, inflate, j);
    } else {
      var block := data[off..Min(off + BLOCK, |data|)];
      assert inflate(fed, block).Some?;
      IendTwiceDrain(chunks, tail, k, off + |block|, fed + block, inflate, j);
    }
  }

  /** A clean walk that meets no `IEND` chunk ends with the "no IEND" error, unless the decoder failed first. */
  lemma {:induction false} NoIendFrom(chunks: seq<ChunkRec>, k: nat, fed: Bytes, inflate: Inflater)
    requires Total(inflate) && k <= |chunks|
    requires forall j :: k <= j < |chunks| ==> chunks[j].ctype != PngChunk.IendType
    ensures Recover(chunks, Clean, k, false, fed, inflate) == Err(Die(NoIend))
    decreases |chunks| - k, 1, 0
  {
    if k < |chunks| {
      if chunks[k].ctype == PngChunk.StegType {
        NoIendDrain(chunks, k, 0, fed, inflate);
      } else {
        NoIendFrom(chunks, k + 1, fed, inflate);
      }
    }
  }

  lemma {:induction false} NoIendDrain(chunks: seq<ChunkRec>, k: nat, off: nat, fed: Bytes, inflate: Inflater)
    requires Total(inflate) && k < |chunks| && chunks[k].ctype == PngChunk.StegType && off <= |chunks[k].data|
    requires forall j :: k < j < |chunks| ==> chunks[j].ctype != PngChunk.IendType
    ensures Drain(chunks, Clean, k, off, fed, inflate) == Err(Die(NoIend))
    decreases |chunks| - k, 0, |chunks[k].data| - off
  {
    var data := chunks[k].data;
    if off == |data| {
      NoIendFrom(chunks, k + 1, fed, inflate);
    } else {
      var block := data[off..Min(off + BLOCK, |data|)];
      assert inflate(fed, block).Some?;
      NoIendDrain(chunks, k, off + |block|, fed + block, inflate);
    }
  }

  // ---------------------------------------------------------------------------
  // What is recovered: the stEG payloads, inflated in file order
  // ---------------------------------------------------------------------------

  /** The output of feeding `data` to the stream in blocks of at most BLOCK bytes, after `fed`. */
  function InflateBlocks(fed: Bytes, data: Bytes, inflate: Inflater): Option<Bytes>
    decreases |data|
  {
    if data == [] then Some([])
    else
      var block := data[..Min(BLOCK, |data|)];
      match inflate(fed, block)
      case None => None
      case Some(out) =>
        match InflateBlocks(fed + block, data[|block|..], inflate)
        case None => None
        case Some(rest) => Some(out + rest)
  }

  /** The data of the `stEG` chunks, in file order. */
  function StegPayloads(chunks: seq<ChunkRec>): (r: seq<Bytes>)
    ensures |r| <= |chunks|
  {
    if chunks == [] then []
    else (if chunks[0].ctype == PngChunk.StegType then [chunks[0].data] else []) + StegPayloads(chunks[1..])
  }

  /** The output of inflating each payload in turn on one stream, or None if the decoder fails. */
  function DecodeAll(fed: Bytes, payloads: seq<Bytes>, inflate: Inflater): Option<Bytes>
    decreases |payloads|
  {
    if payloads == [] then Some([])
    else
      match InflateBlocks(fed, payloads[0], inflate)
      case None => None
      case Some(out) =>
        match DecodeAll(fed + payloads[0], payloads[1..], inflate)
        case None => None
        case Some(rest) => Some(out + rest)
  }

  /** A decoder output as the walk reports it: a decoder failure is the zlib FATAL. */
  function Inflated(o: Option<Bytes>, next: Result<Bytes>): Result<Bytes> {
    match o
    case None => Err(Fatal(InflateFailed))
    case Some(out) => Then(out, next)
  }

  lemma InflatedThen(out: Bytes, o: Option<Bytes>, next: Result<Bytes>)
    ensures Then(out, Inflated(o, next)) == Inflated(if o.Some? then Some(out + o.value) else None, next)
  {
    if o.Some? {
      ThenThen(out, o.value, next);
    }
  }

  /** Draining a `stEG` chunk from `off` inflates the rest of its data in blocks, then walks on with all of it fed. */
  lemma {:induction false} DrainInflates(chunks: seq<ChunkRec>, tail: Tail, k: nat, off: nat, fed: Bytes, inflate: Inflater)
    requires k < |chunks| && off <= |chunks[k].data|
    ensures Drain(chunks, tail, k, off, fed, inflate)
         == Inflated(InflateBlocks(fed, chunks[k].data[off..], inflate),
                     Recover(chunks, tail, k + 1, false, fed + chunks[k].data[off..], inflate))
    decreases |chunks[k].data| - off
  {
    var data := chunks[k].data;
    var next := Recover(chunks, tail, k + 1, false, fed + data[off..], inflate);
    if off == |data| {
      assert fed + data[off..] == fed;
      if next.Ok? {
        assert [] + next.value == next.value;
      }
    } else {
      var block := data[off..Min(off + BLOCK, |data|)];
      assert data[off..][..Min(BLOCK, |data[off..]|)] == block;
      assert data[off..][|block|..] == data[off + |block|..];
      assert fed + block + data[off + |block|..] == fed + data[off..] by {
        assert data[off..] == block + data[off + |block|..];
      }
      if inflate(fed, block).Some? {
        DrainInflates(chunks, tail, k, off + |block|, fed + block, inflate);
        InflatedThen(inflate(fed, block).value, InflateBlocks(fed + block, data[off + |block|..], inflate), next);
      }
    }
  }

  lemma StegPayloadsCons(chunks: seq<ChunkRec>, k: nat)
    requires k < |chunks|
    ensures StegPayloads(chunks[k..])
         == (if chunks[k].ctype == PngChunk.StegType then [chunks[k].data] else []) + StegPayloads(chunks[k + 1..])
  {
    assert chunks[k..][1..] == chunks[k + 1..];
  }

  /** Decoding one more payload in front. */
  lemma DecodeAllCons(fed: Bytes, p: Bytes, ps: seq<Bytes>, inflate: Inflater)
    ensures AsResult(DecodeAll(fed, [p] + ps, inflate)) == Inflated(InflateBlocks(fed, p, inflate), AsResult(DecodeAll(fed + p, ps, inflate)))
  {
    assert ([p] + ps)[1..] == ps;
  }

  /** A decoder output as a walk outcome. */
  function AsResult(o: Option<Bytes>): Result<Bytes> {
    match o
    case None => Err(Fatal(InflateFailed))
    case Some(out) => Ok(out)
  }

  /**
   * On a walk that ends cleanly after exactly one `IEND` chunk, the last, the
   * outcome is the inflated `stEG` payloads in file order, or the zlib
   * FATAL when the decoder fails on one of them.
   */
  lemma {:induction false} RecoverDecodes(chunks: seq<ChunkRec>, k: nat, fed: Bytes, inflate: Inflater)
    requires IendOnlyLast(chunks, k)
    ensures Recover(chunks, Clean, k, false, fed, inflate) == AsResult(DecodeAll(fed, StegPayloads(chunks[k..]), inflate))
    decreases |chunks| - k
  {
    StegPayloadsCons(chunks, k);
    var rest := StegPayloads(chunks[k + 1..]);
    if k == |chunks| - 1 {
      assert chunks[k + 1..] == [];
    } else if chunks[k].ctype == PngChunk.StegType {
      var data := chunks[k].data;
      RecoverDecodes(chunks, k + 1, fed + data, inflate);
      DrainInflates(chunks, Clean, k, 0, fed, inflate);
      assert data[0..] == data;
      DecodeAllCons(fed, data, rest, inflate);
    } else {
      RecoverDecodes(chunks, k + 1, fed, inflate);
      assert [] + rest == rest;
    }
  }

  /**
   * `extract` on a PNG whose walk ends cleanly with a single final `IEND`:
   * the zlib FATAL if the decoder fails, "clean" if the `stEG` payloads
   * inflate to nothing, and otherwise exactly their inflated bytes.
   */
  lemma ExtractWellFormed(input: string, output: Option<string>, showHexdump: bool, chunks: seq<ChunkRec>, inflate: Inflater)
    requires IendOnlyLast(chunks, 0)
    ensures var d := DecodeAll([], StegPayloads(chunks), inflate);
            var r := ExtractSpec(input, output, showHexdump, Stream(0, chunks, Clean), inflate);
            (d.None? ==> r == Err(Fatal(InflateFailed))) &&
            (d == Some([]) ==> r == Err(Die(CleanInput))) &&
            (d.Some? && d.value != [] ==> r.Ok? && r.value.recovered == d.value)
  {
    RecoverDecodes(chunks, 0, [], inflate);
    assert chunks[0..] == chunks;
  }

  /** A well-formed PNG without a `stEG` chunk is reported clean. */
  lemma NoStegIsClean(input: string, output: Option<string>, showHexdump: bool, chunks: seq<ChunkRec>, inflate: Inflater)
    requires IendOnlyLast(chunks, 0)
    requires forall j :: 0 <= j < |chunks| ==> chunks[j].ctype != PngChunk.StegType
    ensures ExtractSpec(input, output, showHexdump, Stream(0, chunks, Clean), inflate) == Err(Die(CleanInput))
  {
    NoStegPayloads(chunks);
    ExtractWellFormed(input, output, showHexdump, chunks, inflate);
  }

  lemma {:induction false} NoStegPayloads(chunks: seq<ChunkRec>)
    requires forall j :: 0 <= j < |chunks| ==> chunks[j].ctype != PngChunk.StegType
    ensures StegPayloads(chunks) == []
  {
    if chunks != [] {
      NoStegPayloads(chunks[1..]);
    }
  }
}
