/**
 * The PNG chunk codec and the chunk iterator. A PNG file is the 8-byte
 * signature of section 3.1 of RFC 2083 followed by chunks laid out as in
 * section 3.2: a 4-byte big-endian data length, a 4-byte type, the data and
 * a 4-byte CRC over type and data. The CRC function of section 3.4 is a
 * parameter `crc32` here, kept uninterpreted.
 */
module PngChunk {
  import opened Common
  import opened Files
  import opened StringBuffer

  const SIGNATURE_LENGTH: nat := 8
  const CHUNK_TYPE_LENGTH: nat := 4

  const PngSignature: Bytes := [0x89, 0x50, 0x4E, 0x47, 0x0D, 0x0A, 0x1A, 0x0A]

  /** "IEND", the type of the chunk that ends the image. */
  const IendType: Bytes := [0x49, 0x45, 0x4E, 0x44]

  /** "stEG", the type of the chunk that carries embedded data. */
  const StegType: Bytes := [0x73, 0x74, 0x45, 0x47]

  /** A chunk as its fields. */
  datatype Chunk = Chunk(ctype: Bytes, data: Bytes, crc: u32)

  /** A type field of four bytes and data whose length fits the 32-bit length field. */
  predicate WellFormed(c: Chunk) {
    |c.ctype| == CHUNK_TYPE_LENGTH && |c.data| < 0x1_0000_0000
  }

  /** The bytes of a chunk in file order: length, type, data, CRC. */
  function Encode(c: Chunk): (r: Bytes)
    requires WellFormed(c)
    ensures |r| == 12 + |c.data|
  {
    BigEndian(|c.data| as u32) + c.ctype + c.data + BigEndian(c.crc)
  }

  // ---------------------------------------------------------------------
  // Field parsers over a buffer holding one whole chunk
  // ---------------------------------------------------------------------

  /**
   * `png_parse_chunk_data_length`: fails when the buffer holds four bytes or
   * fewer, otherwise the word whose network-order bytes open the buffer.
   */
  function ParseDataLength(chunk: Bytes): (r: Option<u32>)
    ensures r.None? <==> |chunk| <= 4
  {
    if |chunk| <= 4 then None else Some(ReadBigEndian(chunk[..4]))
  }

  /** A parsed length is the word whose network-order bytes open the buffer. */
  lemma ParseDataLengthMeaning(chunk: Bytes)
    requires |chunk| > 4
    ensures BigEndian(ParseDataLength(chunk).value) == chunk[..4]
  {
    ReadBigEndianRoundTrip(chunk[..4]);
  }

  /** The four bytes of the type field, at offsets 4 to 7, are ASCII. */
  predicate AsciiType(chunk: Bytes)
    requires |chunk| >= 8
  {
    IsAscii(chunk[4]) && IsAscii(chunk[5]) && IsAscii(chunk[6]) && IsAscii(chunk[7])
  }

  /** The type field of a whole chunk, when all four of its bytes are ASCII. */
  function ChunkType(chunk: Bytes): Option<Bytes> {
    if |chunk| >= 8 && AsciiType(chunk) then Some(chunk[4..8]) else None
  }

  /**
   * `png_parse_chunk_type`: copies the four type bytes, failing at the first
   * byte that is past the contents or is not ASCII.
   */
  method ParseType(chunk: Bytes) returns (r: Option<Bytes>)
    ensures r == ChunkType(chunk)
    ensures r.Some? <==> |chunk| >= 8 && forall i :: 4 <= i < 8 ==> IsAscii(chunk[i])
    ensures r.Some? ==> r.value == chunk[4..8]
  {
    var t: Bytes := [];
    var i := 0;
    while i < CHUNK_TYPE_LENGTH
      invariant 0 <= i <= CHUNK_TYPE_LENGTH && |t| == i
      invariant 4 + i <= |chunk| || i == 0
      invariant forall j :: 0 <= j < i ==> t[j] == chunk[4 + j] && IsAscii(chunk[4 + j])
    {
      if 4 + i >= |chunk| {
        return None;
      }
      if !IsAscii(chunk[4 + i]) {
        return None;
      }
      t := t + [chunk[4 + i]];
      i := i + 1;
    }
    assert forall k :: 4 <= k < 8 ==> IsAscii(chunk[k]) by {
      forall k | 4 <= k < 8 ensures IsAscii(chunk[k]) {
        assert t[k - 4] == chunk[k];
      }
    }
    assert t == chunk[4..8];
    r := Some(t);
  }

  /**
   * The type parse with the bound `png_parse_chunk_type` tests: the index within the
   * type field, not the byte offset, is compared with the length, so a
   * buffer of four to seven bytes is read past its contents. `mem` is the
   * whole allocation behind a buffer of `len` bytes.
   */
  function ParseTypeAsWritten(mem: Bytes, len: nat): (r: Option<Bytes>)
    requires len <= |mem| && |mem| >= 8
    ensures r.Some? <==> len >= 4 && forall i :: 4 <= i < 8 ==> IsAscii(mem[i])
    ensures r.Some? ==> r.value == mem[4..8]
  {
    if len >= 4 && forall i :: 4 <= i < 8 ==> IsAscii(mem[i]) then Some(mem[4..8]) else None
  }

  /**
   * A buffer holding only five bytes passes the type parse as written: the
   * last three type bytes come from memory after the contents, where the
   * corrected parse rejects the buffer.
   */
  lemma ParseTypeReadsPastContents()
    ensures var mem: Bytes := [0, 0, 0, 0, 0x49, 0x45, 0x4E, 0x44];
      ParseTypeAsWritten(mem, 5) == Some(IendType) && ChunkType(mem[..5]) == None
  {
    var mem: Bytes := [0, 0, 0, 0, 0x49, 0x45, 0x4E, 0x44];
    assert mem[4..8] == IendType;
  }

  /**
   * `png_parse_chunk_crc`: succeeds only when the buffer is exactly length,
   * type, data and CRC for the data length its first four bytes give, and
   * yields the word whose network-order bytes end the buffer.
   */
  function ParseCrc(chunk: Bytes): (r: Option<u32>)
    ensures r.Some? <==> ParseDataLength(chunk).Some? && |chunk| == 12 + ParseDataLength(chunk).value as int
    ensures r.Some? ==> |chunk| >= 12
  {
    match ParseDataLength(chunk)
    case None => None
    case Some(n) =>
      if |chunk| != 4 + 4 + n as int + 4 then None
      else Some(ReadBigEndian(chunk[|chunk| - 4..]))
  }

  /** A parsed CRC is the word whose network-order bytes end the buffer. */
  lemma ParseCrcMeaning(chunk: Bytes)
    requires ParseCrc(chunk).Some?
    ensures BigEndian(ParseCrc(chunk).value) == chunk[|chunk| - 4..]
  {
    ReadBigEndianRoundTrip(chunk[|chunk| - 4..]);
  }

  /** The fields of a buffer that holds exactly one chunk. */
  function Decode(raw: Bytes): (r: Option<Chunk>)
    ensures r.Some? ==> |r.value.ctype| == 4 && |raw| == 12 + |r.value.data|
    ensures r.Some? ==> ReadBigEndian(raw[..4]) as int == |r.value.data|
  {
    match ParseCrc(raw)
    case None => None
    case Some(crc) => Some(Chunk(raw[4..8], raw[8..|raw| - 4], crc))
  }

  /** Decoding an encoded chunk gives back its fields. */
  lemma DecodeEncode(c: Chunk)
    requires WellFormed(c)
    ensures Decode(Encode(c)) == Some(c)
  {
    var raw := Encode(c);
    BigEndianRoundTrip(|c.data| as u32);
    BigEndianRoundTrip(c.crc);
    assert raw[..4] == BigEndian(|c.data| as u32);
    assert raw[|raw| - 4..] == BigEndian(c.crc);
    assert raw[4..8] == c.ctype;
    assert raw[8..|raw| - 4] == c.data;
  }

  /** A buffer that decodes is the encoding of what it decodes to. */
  lemma EncodeDecode(raw: Bytes)
    requires Decode(raw).Some?
    ensures WellFormed(Decode(raw).value) && Encode(Decode(raw).value) == raw
  {
    var c := Decode(raw).value;
    var n := ParseDataLength(raw).value;
    assert |c.data| == n as int;
    ParseDataLengthMeaning(raw);
    ParseCrcMeaning(raw);
    assert BigEndian(|c.data| as u32) == raw[..4];
    assert BigEndian(c.crc) == raw[|raw| - 4..];
    assert raw == raw[..4] + raw[4..8] + raw[8..|raw| - 4] + raw[|raw| - 4..];
  }

  // ---------------------------------------------------------------------
  // The iterator
  // ---------------------------------------------------------------------

  /**
   * What one `chunk_iterator_next_chunk` call does: the status it returns,
   * the buffer contents it leaves, the bytes it takes from the file and how
   * far it moves the byte position.
   */
  datatype NextOutcome = NextOutcome(status: int, contents: Bytes, consumed: nat, advance: nat)

  /**
   * The number of bytes to read after the length field: four type bytes,
   * the data and four CRC bytes, computed in 32-bit arithmetic so that it
   * wraps for the largest lengths.
   */
  function BodyLength(header: Bytes): (r: nat)
    requires |header| == 4
    ensures ReadBigEndian(header) as int + 8 < 0x1_0000_0000 ==> r == ReadBigEndian(header) as int + 8
  {
    Wrap32(4 + ReadBigEndian(header) as int + 4) as nat
  }

  /** 1 when `contents` is exactly one chunk whose stored CRC is `crc32` of its type and data, else -1. */
  function CrcStatus(contents: Bytes, crc32: Bytes -> u32): int {
    match ParseCrc(contents)
    case None => -1
    case Some(crc) => if crc == crc32(contents[4..|contents| - 4]) then 1 else -1
  }

  /**
   * The call on a buffer holding `prefix`, with `stream` left unread.
   * Fewer than four length bytes is the end of the stream; otherwise the
   * header and then `BodyLength` bytes are appended to the buffer, which
   * must then pass the CRC test.
   */
  function NextChunkSpec(prefix: Bytes, stream: Bytes, crc32: Bytes -> u32): (r: NextOutcome)
    ensures r.consumed <= |stream|
    ensures r.status == 1 ==> 4 <= r.consumed == r.advance && r.contents == prefix + stream[..r.consumed]
    ensures r.status == 1 && prefix == [] ==> 12 <= r.consumed
  {
    if |stream| < 4 then NextOutcome(0, prefix, |stream|, 0)
    else
      var len := BodyLength(stream[..4]);
      if |stream| - 4 < len then NextOutcome(-1, prefix + stream[..4], |stream|, 4)
      else
        var contents := prefix + stream[..4 + len];
        NextOutcome(CrcStatus(contents, crc32), contents, 4 + len, 4 + len)
  }

  /** Bytes stored right after the first `n` bytes of a buffer follow them. */
  lemma StoreAfter(mem: Bytes, n: nat, b: Bytes)
    requires n + |b| <= |mem|
    ensures |mem[..n] + b + mem[n + |b|..]| == |mem|
    ensures (mem[..n] + b + mem[n + |b|..])[..n + |b|] == mem[..n] + b
  {
  }

  /**
   * The body read of `chunk_iterator_next_chunk`: grows `result` to take
   * `len` more bytes and reads them straight into the memory after its
   * contents; only a whole read extends the contents.
   */
  method ReadInto(f: InputFile, result: Strbuf, len: nat) returns (body: Bytes)
    requires f.Valid() && result.Valid() && result.len >= 4
    modifies f, result
    ensures f.Valid() && result.Valid()
    ensures |body| == Min(len, |old(f.Remaining())|)
    ensures body == old(f.Remaining())[..|body|] && f.Remaining() == old(f.Remaining())[|body|..]
    ensures |body| == len ==> result.Contents() == old(result.Contents()) + body
    ensures |body| != len ==> result.Contents() == old(result.Contents())
  {
    result.Grow(result.len + len);
    body := f.Read(len);
    var n, mem := result.len, result.buff;
    StoreAfter(mem, n, body);
    result.buff := mem[..n] + body + mem[n + |body|..];
    if |body| == len {
      result.len := n + len;
    }
  }

  /**
   * `NextChunkSpec` once the header and a read of `BodyLength` bytes have
   * been taken from the front of `stream`.
   */
  lemma NextChunkCases(prefix: Bytes, stream: Bytes, body: Bytes, crc32: Bytes -> u32)
    requires |stream| >= 4
    requires |body| == Min(BodyLength(stream[..4]), |stream| - 4) && body == stream[4..][..|body|]
    ensures var len := BodyLength(stream[..4]);
      if |body| != len then
        NextChunkSpec(prefix, stream, crc32) == NextOutcome(-1, prefix + stream[..4], |stream|, 4) &&
        stream[4..][|body|..] == stream[|stream|..]
      else
        var contents := prefix + stream[..4] + body;
        NextChunkSpec(prefix, stream, crc32) == NextOutcome(CrcStatus(contents, crc32), contents, 4 + len, 4 + len) &&
        stream[4..][|body|..] == stream[4 + len..]
  {
    var len := BodyLength(stream[..4]);
    if |body| == len {
      assert stream[..4 + len] == stream[..4] + body;
      assert prefix + stream[..4 + len] == prefix + stream[..4] + body;
    }
  }

  /** The iterator state: the file being read (the descriptor; null for -1) and the byte position. */
  class ChunkIterator {
    var file: InputFile?
    var pos: nat

    /** A context declared but not yet initialised: no file, position 0. */
    constructor ()
      ensures file == null && pos == 0
    {
      file, pos := null, 0;
    }

    /**
     * `chunk_iterator_init_ctx`: -1 when the eight signature bytes cannot be
     * read, 1 when they are not the PNG signature, otherwise 0 with the file
     * attached and the position just past the signature.
     */
    method Init(f: InputFile) returns (status: int)
      requires f.Valid()
      modifies this, f
      ensures f.Valid()
      ensures f.Remaining() == old(f.Remaining())[Min(SIGNATURE_LENGTH, |old(f.Remaining())|)..]
      ensures -1 <= status <= 1
      ensures status == -1 <==> |old(f.Remaining())| < SIGNATURE_LENGTH
      ensures status == 1 <==> |old(f.Remaining())| >= SIGNATURE_LENGTH && old(f.Remaining())[..SIGNATURE_LENGTH] != PngSignature
      ensures status == 0 ==> file == f && pos == SIGNATURE_LENGTH
      ensures status != 0 ==> file == old(file) && pos == old(pos)
    {
      var sig := f.Read(SIGNATURE_LENGTH);
      if |sig| != SIGNATURE_LENGTH {
        return -1;
      }
      if sig != PngSignature {
        return 1;
      }
      file, pos := f, SIGNATURE_LENGTH;
      return 0;
    }

    /**
     * `chunk_iterator_next_chunk`: reads the next chunk onto the end of
     * `result`. Returns 0 at the end of the stream, -1 for a chunk that is
     * cut short or whose CRC does not match, and 1 for a good chunk.
     */
    method NextChunk(result: Strbuf, crc32: Bytes -> u32) returns (status: int)
      requires file != null && file.Valid() && result.Valid()
      modifies this, file, result
      ensures file == old(file) && file.Valid() && result.Valid()
      ensures var o := NextChunkSpec(old(result.Contents()), old(file.Remaining()), crc32);
        status == o.status && result.Contents() == o.contents && pos == old(pos) + o.advance &&
        file.Remaining() == old(file.Remaining())[o.consumed..]
    {
      var f := file;
      ghost var stream, prefix := f.Remaining(), result.Contents();
      var header := f.Read(4);
      if |header| != 4 {
        return 0;
      }
      pos := pos + 4;
      result.AttachBytes(header, 4);
      assert header[..4] == header;
      var len := BodyLength(header);
      var body := ReadInto(f, result, len);
      NextChunkCases(prefix, stream, body, crc32);
      if |body| != len {
        return -1;
      }
      pos := pos + len;
      status := CrcStatus(result.Contents(), crc32);
    }

    /** `chunk_iterator_destroy_ctx`: detaches the file and resets the position. */
    method Destroy()
      modifies this
      ensures file == null && pos == 0
    {
      file, pos := null, 0;
    }
  }

  // ---------------------------------------------------------------------
  // Properties of one iterator step
  // ---------------------------------------------------------------------

  /** Fewer than four bytes left is the end of the stream, and nothing else is. */
  lemma NextChunkEnd(prefix: Bytes, stream: Bytes, crc32: Bytes -> u32)
    ensures NextChunkSpec(prefix, stream, crc32).status == 0 <==> |stream| < 4
    ensures |stream| < 4 ==> NextChunkSpec(prefix, stream, crc32).contents == prefix
  {
  }

  /** An encoded chunk at the front of a stream is what the iterator's reads pick out. */
  lemma EncodedAtFront(c: Chunk, rest: Bytes)
    requires WellFormed(c) && |c.data| + 8 < 0x1_0000_0000
    ensures var stream := Encode(c) + rest;
      |stream| >= 4 && BodyLength(stream[..4]) == |c.data| + 8 &&
      stream[..12 + |c.data|] == Encode(c) && ParseCrc(Encode(c)) == Some(c.crc) &&
      Encode(c)[4..|Encode(c)| - 4] == c.ctype + c.data
  {
    var raw := Encode(c);
    var stream := raw + rest;
    BigEndianRoundTrip(|c.data| as u32);
    assert stream[..4] == BigEndian(|c.data| as u32);
    assert stream[..12 + |c.data|] == raw;
    DecodeEncode(c);
    assert raw[4..|raw| - 4] == c.ctype + c.data;
  }

  /**
   * Read into an empty buffer, a well-formed chunk whose CRC matches comes
   * back whole: status 1, the buffer holds exactly its bytes, and the
   * position moves past it.
   */
  lemma NextChunkReadsEncoded(c: Chunk, rest: Bytes, crc32: Bytes -> u32)
    requires WellFormed(c) && |c.data| + 8 < 0x1_0000_0000
    requires c.crc == crc32(c.ctype + c.data)
    ensures NextChunkSpec([], Encode(c) + rest, crc32) ==
      NextOutcome(1, Encode(c), 12 + |c.data|, 12 + |c.data|)
  {
    EncodedAtFront(c, rest);
    var stream := Encode(c) + rest;
    var len := BodyLength(stream[..4]);
    assert [] + stream[..4 + len] == Encode(c);
    assert CrcStatus(Encode(c), crc32) == 1;
  }

  /** The same chunk with a CRC that does not match is rejected with -1. */
  lemma NextChunkRejectsBadCrc(c: Chunk, rest: Bytes, crc32: Bytes -> u32)
    requires WellFormed(c) && |c.data| + 8 < 0x1_0000_0000
    requires c.crc != crc32(c.ctype + c.data)
    ensures NextChunkSpec([], Encode(c) + rest, crc32).status == -1
  {
    EncodedAtFront(c, rest);
    var stream := Encode(c) + rest;
    var len := BodyLength(stream[..4]);
    assert [] + stream[..4 + len] == Encode(c);
    assert CrcStatus(Encode(c), crc32) == -1;
  }

  /**
   * Conversely, status 1 from an empty buffer means the stream opens with a
   * well-formed chunk whose stored CRC is `crc32` of its type and data; the
   * buffer then holds exactly that chunk and the position moves by twelve
   * plus its data length.
   */
  lemma NextChunkSuccess(stream: Bytes, crc32: Bytes -> u32)
    requires NextChunkSpec([], stream, crc32).status == 1
    ensures var o := NextChunkSpec([], stream, crc32);
      Decode(o.contents).Some? &&
      var c := Decode(o.contents).value;
      WellFormed(c) && o.contents == Encode(c) && o.contents == stream[..o.consumed] &&
      c.crc == crc32(c.ctype + c.data) && o.advance == 12 + |c.data|
  {
    var o := NextChunkSpec([], stream, crc32);
    var raw := o.contents;
    assert CrcStatus(raw, crc32) == 1;
    var crc := ParseCrc(raw).value;
    EncodeDecode(raw);
    var c := Decode(raw).value;
    assert c.ctype + c.data == raw[4..|raw| - 4];
  }

  /**
   * A length field so large that the 32-bit byte count wraps never yields a
   * chunk: the short count cannot cover the length the CRC parse demands.
   */
  lemma NextChunkWrappedLength(stream: Bytes, crc32: Bytes -> u32)
    requires |stream| >= 4 && ReadBigEndian(stream[..4]) as int + 8 >= 0x1_0000_0000
    ensures NextChunkSpec([], stream, crc32).status == -1
  {
  }
}
