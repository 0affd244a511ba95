/**
 * The older single-file revision of the program (`src/main.c`): `main`
 * walks its arguments by hand with the `usage.c` matchers and chooses
 * between embedding and extracting; `embed_message` reads the whole input
 * into memory, finds the first `IEND` by a byte scan, and writes the bytes
 * before that chunk, the new chunk, and the rest, in three writes.
 */
module LegacyMain {
  import opened Common
  import opened Files
  import opened StringBuffer
  import opened Usage
  import PngChunk
  import Embed

  const BUFF_LEN: nat := 1024
  const MissingIend := "corrupted input file; missing critical IEND chunk"

  // ---------------------------------------------------------------------------
  // The IEND byte scan
  // ---------------------------------------------------------------------------

  /** The four bytes at `i` spell `IEND`. */
  predicate IendAt(b: Bytes, i: nat) {
    i + 3 < |b| && b[i] == 0x49 && b[i + 1] == 0x45 && b[i + 2] == 0x4E && b[i + 3] == 0x44
  }

  /** The four bytes at `i` spell `IEND` exactly when they are the `IEND` chunk type. */
  lemma IendAtIsIendType(b: Bytes, i: nat)
    requires i + 4 <= |b|
    ensures IendAt(b, i) <==> b[i..i + 4] == PngChunk.IendType
  {
    if b[i..i + 4] == PngChunk.IendType {
      assert b[i..i + 4][0] == b[i] && b[i..i + 4][3] == b[i + 3];
      assert b[i..i + 4][1] == b[i + 1] && b[i..i + 4][2] == b[i + 2];
    }
  }

  /** The first index at or after `start` where `IEND` is spelled, if there is one. */
  function IendScan(b: Bytes, start: nat): (r: Option<nat>)
    decreases |b| - start
    ensures r.Some? ==> start <= r.value && IendAt(b, r.value)
    ensures r.Some? ==> forall j :: start <= j < r.value ==> !IendAt(b, j)
    ensures r.None? ==> forall j :: start <= j ==> !IendAt(b, j)
  {
    if start + 3 >= |b| then None
    else if IendAt(b, start) then Some(start)
    else IendScan(b, start + 1)
  }

  /** `memchr` over `b[start..]`: the first index at or after `start` that holds `c`. */
  function MemChr(b: Bytes, start: nat, c: byte): (r: Option<nat>)
    decreases |b| - start
    ensures r.Some? ==> start <= r.value < |b| && b[r.value] == c
    ensures r.Some? ==> forall j :: start <= j < r.value ==> b[j] != c
    ensures r.None? ==> forall j :: start <= j < |b| ==> b[j] != c
  {
    if start >= |b| then None
    else if b[start] == c then Some(start)
    else MemChr(b, start + 1, c)
  }

  /** Positions where no `IEND` starts can be skipped without changing the scan's answer. */
  lemma {:induction false} ScanSkips(b: Bytes, lo: nat, hi: nat)
    requires lo <= hi
    requires forall j :: lo <= j < hi ==> !IendAt(b, j)
    ensures IendScan(b, lo) == IendScan(b, hi)
    decreases hi - lo
  {
    if lo < hi && lo + 3 < |b| {
      ScanSkips(b, lo + 1, hi);
    }
  }

  /**
   * The scan loop of `embed_message`: `memchr` to the next `I`, then a
   * check of the next three bytes that skips one, two or three bytes on
   * the first mismatch. Finds the first `IEND` in the buffer.
   */
  method FindIend(b: Bytes) returns (found: bool, i: nat)
    ensures found <==> IendScan(b, 0).Some?
    ensures found ==> IendScan(b, 0) == Some(i)
  {
    var p := 0;
    found, i := false, 0;
    while true
      invariant p <= |b|
      invariant IendScan(b, p) == IendScan(b, 0)
      decreases |b| - p
    {
      var q := MemChr(b, p, 0x49);
      if q.None? {
        ScanSkips(b, p, |b|);
        return;
      }
      var k := q.value;
      ScanSkips(b, p, k);
      if k + 3 >= |b| {
        return;
      }
      if b[k + 1] != 0x45 {
        ScanSkips(b, k, k + 1);
        p := k + 1;
        continue;
      }
      if b[k + 2] != 0x4E {
        ScanSkips(b, k, k + 2);
        p := k + 2;
        continue;
      }
      if b[k + 3] != 0x44 {
        ScanSkips(b, k, k + 3);
        p := k + 3;
        continue;
      }
      return true, k;
    }
  }

  // ---------------------------------------------------------------------------
  // The splice
  // ---------------------------------------------------------------------------

  /** `b` with `chunk` inserted at offset `at`: what the three writes put in the output. */
  function Splice(b: Bytes, at: nat, chunk: Bytes): (r: Bytes)
    requires at <= |b|
    ensures |r| == |b| + |chunk|
  {
    b[..at] + chunk + b[at..]
  }

  /** Taking the inserted bytes back out of a splice gives the input, and they sit at `at`. */
  lemma SpliceRemoved(b: Bytes, at: nat, chunk: Bytes)
    requires at <= |b|
    ensures var r := Splice(b, at, chunk);
      r[at..at + |chunk|] == chunk && r[..at] + r[at + |chunk|..] == b
  {
    var r := Splice(b, at, chunk);
    assert r[..at] == b[..at];
    assert r[at + |chunk|..] == b[at..];
  }

  /**
   * Where `embed_message` puts the new chunk: four bytes before the first
   * `IEND`, at the start of that chunk's length field, provided the field
   * lies inside the file.
   */
  function InsertPoint(b: Bytes): (r: Option<nat>)
    ensures r.Some? ==> r.value + 8 <= |b| && IendScan(b, 0) == Some(r.value + 4)
    ensures r.None? <==> IendScan(b, 0).None? || IendScan(b, 0).value < 4
  {
    match IendScan(b, 0)
    case None => None
    case Some(i) => if i < 4 then None else Some(i - 4)
  }

  /** The insert point as `main.c` computes it: four bytes before the match, wherever the match is. */
  function InsertPointAsWritten(b: Bytes): (r: Option<int>)
    ensures r.None? <==> IendScan(b, 0).None?
    ensures r.Some? ==> r.value + 4 == IendScan(b, 0).value
  {
    match IendScan(b, 0)
    case None => None
    case Some(i) => Some(i - 4)
  }

  /** A file that opens with `IEND` puts the insert point four bytes before the buffer. */
  lemma IendAtStartInsertsBeforeBuffer(rest: Bytes)
    ensures InsertPointAsWritten(PngChunk.IendType + rest) == Some(-4)
  {
    var b := PngChunk.IendType + rest;
    assert IendAt(b, 0);
  }

  /** Where the insert point lies inside the file, both computations agree. */
  lemma InsertPointsAgree(b: Bytes)
    ensures InsertPoint(b).Some? ==> InsertPointAsWritten(b) == Some(InsertPoint(b).value as int)
    ensures InsertPoint(b).None? && InsertPointAsWritten(b).Some? ==> InsertPointAsWritten(b).value < 0
  {
  }

  /**
   * The new chunk lands right before the `IEND` chunk: in the output it is
   * followed by the four bytes of that chunk's length field and its type.
   */
  lemma ChunkPrecedesIend(b: Bytes, chunk: Bytes)
    requires InsertPoint(b).Some?
    ensures var at := InsertPoint(b).value; var r := Splice(b, at, chunk);
      r[at + |chunk|..] == b[at..] && IendAt(r, at + |chunk| + 4)
  {
    var at := InsertPoint(b).value;
    var r := Splice(b, at, chunk);
    SpliceRemoved(b, at, chunk);
    assert r[at + |chunk|..] == b[at..];
    var k := at + |chunk|;
    assert r[k + 4] == r[k..][4] == b[at..][4] == b[at + 4];
    assert r[k + 5] == r[k..][5] == b[at..][5] == b[at + 5];
    assert r[k + 6] == r[k..][6] == b[at..][6] == b[at + 6];
    assert r[k + 7] == r[k..][7] == b[at..][7] == b[at + 7];
  }

  /** The read loop of `embed_message`: the rest of the file, BUFF_LEN bytes at a time, appended to `contents`. */
  method ReadAll(input: InputFile, contents: Strbuf)
    requires input.Valid() && contents.Valid()
    modifies input, contents
    ensures input.Valid() && input.Remaining() == [] && contents.Valid()
    ensures contents.Contents() == old(contents.Contents()) + old(input.Remaining())
  {
    while true
      invariant input.Valid() && contents.Valid()
      invariant contents.Contents() + input.Remaining() == old(contents.Contents()) + old(input.Remaining())
      decreases |input.Remaining()|
    {
      ghost var before, rest := contents.Contents(), input.Remaining();
      var block := input.Read(BUFF_LEN);
      if |block| == 0 {
        assert contents.Contents() + [] == contents.Contents();
        break;
      }
      assert block[..|block|] == block;
      contents.AttachBytes(block, |block|);
      assert rest == block + input.Remaining();
      assert before + block + input.Remaining() == before + rest;
    }
  }

  /**
   * `embed_message` once both files are open: reads the input, computes the
   * `stEG` chunk of the message in host byte order, finds the first `IEND` and writes the
   * bytes before its length field, the chunk, and the rest. Without an
   * `IEND`, or with one whose length field would begin before the file,
   * it fails before writing anything.
   */
  method EmbedMessageLegacy(input: InputFile, output: OutputFile, message: Bytes, crc32: Bytes -> u32)
      returns (failure: Option<Failure>)
    requires input.Valid()
    modifies input, output
    ensures input.Valid() && input.Remaining() == []
    ensures var b := old(input.Remaining());
      (InsertPoint(b).None? ==> failure == Some(Fatal(MissingIend)) && output.data == old(output.data)) &&
      (InsertPoint(b).Some? ==>
        failure == None &&
        output.data == old(output.data) + Splice(b, InsertPoint(b).value, HostOrderChunk(CStr(message), crc32)))
  {
    var b := ReadInput(input);
    var chunk := ChunkData(message, crc32);
    var found, i := FindIend(b);
    if !found || i < 4 {
      return Some(Fatal(MissingIend));
    }
    WriteSpliced(output, b, i - 4, chunk);
    failure := None;
  }

  /** The input read into a fresh buffer, as `embed_message` holds it. */
  method ReadInput(input: InputFile) returns (b: Bytes)
    requires input.Valid()
    modifies input
    ensures input.Valid() && input.Remaining() == [] && b == old(input.Remaining())
  {
    var contents := new Strbuf.Init();
    ReadAll(input, contents);
    b := contents.Contents();
    contents.Release();
  }

  /** The chunk this file's own `compute_chunk_data` leaves in a fresh buffer: length and CRC in host order. */
  method ChunkData(message: Bytes, crc32: Bytes -> u32) returns (chunk: Bytes)
    ensures chunk == HostOrderChunk(CStr(message), crc32)
  {
    var chunkData := new Strbuf.Init();
    ComputeChunkDataHostOrder(chunkData, message, crc32);
    chunk := chunkData.Contents();
    assert chunk == [] + HostOrderChunk(CStr(message), crc32);
    chunkData.Release();
  }

  /** The three writes: the bytes before `at`, the chunk, the bytes from `at` on. */
  method WriteSpliced(output: OutputFile, b: Bytes, at: nat, chunk: Bytes)
    requires at <= |b|
    modifies output
    ensures output.data == old(output.data) + Splice(b, at, chunk)
  {
    output.Write(b[..at]);
    output.Write(chunk);
    output.Write(b[at..]);
    assert old(output.data) + b[..at] + chunk + b[at..] == old(output.data) + Splice(b, at, chunk);
  }

  /**
   * The output of a successful embed is the input and the new chunk, byte
   * for byte: its length is their sum, whichever byte order the length and
   * CRC fields are stored in.
   */
  lemma EmbedLength(b: Bytes, message: Bytes, crc32: Bytes -> u32)
    requires InsertPoint(b).Some?
    ensures |Splice(b, InsertPoint(b).value, HostOrderChunk(CStr(message), crc32))| == |b| + 12 + |CStr(message)|
    ensures |Splice(b, InsertPoint(b).value, Embed.MessageChunk(CStr(message), crc32))| == |b| + 12 + |CStr(message)|
  {
  }

  // ---------------------------------------------------------------------------
  // compute_chunk_data in host byte order
  // ---------------------------------------------------------------------------

  /**
   * What this revision's `compute_chunk_data` appends for a message `m`: the
   * length and the CRC stored straight from memory, which on a
   * little-endian host is least significant byte first.
   */
  function HostOrderChunk(m: Bytes, crc32: Bytes -> u32): (r: Bytes)
    ensures |r| == 12 + |m|
  {
    LittleEndian(Wrap32(|m|)) + PngChunk.StegType + m + LittleEndian(crc32(PngChunk.StegType + m))
  }

  /** `compute_chunk_data` of `main.c`: type and message in a scratch buffer, then length, that buffer and CRC, each stored as in memory. */
  method ComputeChunkDataHostOrder(buffer: Strbuf, message: Bytes, crc32: Bytes -> u32)
    requires buffer.Valid()
    modifies buffer
    ensures buffer.Valid()
    ensures buffer.Contents() == old(buffer.Contents()) + HostOrderChunk(CStr(message), crc32)
  {
    var chunkData := new Strbuf.Init();
    chunkData.AttachStr(PngChunk.StegType);
    var msgLen := CStrLen(message);
    chunkData.Attach(message, msgLen);
    Embed.CStrOfNulFree(PngChunk.StegType);
    var m := CStr(message);
    assert chunkData.Contents() == PngChunk.StegType + m;
    var crc := crc32(chunkData.Contents());
    ghost var before := buffer.Contents();
    var lenBytes, data, crcBytes := LittleEndian(Wrap32(msgLen)), chunkData.Contents(), LittleEndian(crc);
    assert lenBytes[..4] == lenBytes && data[..chunkData.len] == data && crcBytes[..4] == crcBytes;
    buffer.AttachBytes(lenBytes, 4);
    buffer.AttachBytes(data, chunkData.len);
    buffer.AttachBytes(crcBytes, 4);
    Embed.AppendChunkParts(before, lenBytes, PngChunk.StegType, m, crcBytes);
    chunkData.Release();
  }

  /**
   * The host-order chunk has the layout of the network-order one: the same
   * size, and the same type and message between the length and the CRC.
   */
  lemma HostOrderSameLayout(m: Bytes, crc32: Bytes -> u32)
    ensures var h, n := HostOrderChunk(m, crc32), Embed.MessageChunk(m, crc32);
      |h| == |n| && h[4..8 + |m|] == n[4..8 + |m|] == PngChunk.StegType + m
  {
    var h, n := HostOrderChunk(m, crc32), Embed.MessageChunk(m, crc32);
    assert h[4..8 + |m|] == PngChunk.StegType + m;
    assert n[4..8 + |m|] == PngChunk.StegType + m;
  }

  /**
   * A one-byte message gets a length field that a PNG reader, which reads
   * it in network order, takes for 16777216; the network-order chunk reads
   * back as 1.
   */
  lemma HostOrderLengthMisread(m: Bytes, crc32: Bytes -> u32)
    requires |m| == 1
    ensures ReadBigEndian(HostOrderChunk(m, crc32)[..4]) == 0x100_0000
    ensures ReadBigEndian(Embed.MessageChunk(m, crc32)[..4]) == 1
  {
    assert HostOrderChunk(m, crc32)[..4] == LittleEndian(1);
    assert Embed.MessageChunk(m, crc32)[..4] == BigEndian(1);
    BigEndianRoundTrip(1);
  }

  // ---------------------------------------------------------------------------
  // main's argument loop
  // ---------------------------------------------------------------------------

  /** `--embed`, `-m`/`--message <message>`, `--extract`, `-h`/`--help`, in the order `main` tries them. */
  const MainOptions: seq<Desc> := [
    Desc('\0', Some("embed"), "", BoolT),
    Desc('m', Some("message"), "message", StringT),
    Desc('\0', Some("extract"), "", BoolT),
    Desc('h', Some("help"), "", BoolT)
  ]

  /** `argument_matches_option(arg, main_cmd_options[k])`; none of the four can be a BUG. */
  predicate Matches(arg: string, k: nat)
    requires k < |MainOptions|
  {
    ArgumentMatchesOption(arg, MainOptions[k]) == Ok(true)
  }

  /** The variables the loop sets: the two mode flags, the message and the input path. */
  datatype Flags = Flags(embed: bool, extract: bool, message: Option<string>, file: Option<string>)

  const NoFlags := Flags(false, false, None, None)

  /** How the loop ends: having seen every argument, or returning early with a status. */
  datatype Scan = Scanned(flags: Flags) | Stop(status: int)

  /** What `main` does: return a status after usage, or run the embed or the extract. */
  datatype Action = Exit(status: int) | RunEmbed(file: string, message: string) | RunExtract(file: string)

  /**
   * The loop from argument `idx` on: `--embed` and `--extract` set their
   * flag, `-m` takes the next argument as the message (and ends with status
   * 1 when there is none), `-h` ends with status 0, and anything else
   * becomes the input path.
   */
  function ScanFrom(argv: seq<string>, idx: nat, f: Flags): (r: Scan)
    ensures r.Stop? ==> r.status == 0 || r.status == 1
    ensures r.Scanned? ==> (f.embed ==> r.flags.embed) && (f.extract ==> r.flags.extract)
    ensures r.Scanned? && r.flags.file.Some? ==> r.flags.file == f.file || exists j :: idx <= j < |argv| && argv[j] == r.flags.file.value
    ensures r.Scanned? && r.flags.message.Some? ==> r.flags.message == f.message || exists j :: idx <= j < |argv| && argv[j] == r.flags.message.value
    decreases |argv| - idx
  {
    if idx >= |argv| then Scanned(f)
    else
      var arg := argv[idx];
      if Matches(arg, 0) then ScanFrom(argv, idx + 1, f.(embed := true))
      else if Matches(arg, 1) then
        if idx + 1 >= |argv| then Stop(1) else ScanFrom(argv, idx + 2, f.(message := Some(argv[idx + 1])))
      else if Matches(arg, 2) then ScanFrom(argv, idx + 1, f.(extract := true))
      else if Matches(arg, 3) then Stop(0)
      else ScanFrom(argv, idx + 1, f.(file := Some(arg)))
  }

  /**
   * The checks after the loop: both modes is an error, neither means embed,
   * embedding needs a message, and either mode needs an input path.
   */
  function Decide(s: Scan): (a: Action)
    ensures s.Stop? ==> a == Exit(s.status)
    ensures s.Scanned? && s.flags.embed && s.flags.extract ==> a == Exit(1)
    ensures a.RunEmbed? ==> s.Scanned? && !s.flags.extract && s.flags.message == Some(a.message) && s.flags.file == Some(a.file)
    ensures a.RunExtract? ==> s.Scanned? && s.flags.extract && !s.flags.embed && s.flags.file == Some(a.file)
    ensures s.Scanned? && !s.flags.extract && s.flags.message.Some? && s.flags.file.Some? ==>
      a == RunEmbed(s.flags.file.value, s.flags.message.value)
    ensures s.Scanned? && !s.flags.extract && s.flags.message.None? ==> a == Exit(1)
    ensures s.Scanned? && s.flags.file.None? ==> a == Exit(1)
    ensures s.Scanned? && s.flags.extract && !s.flags.embed && s.flags.file.Some? ==> a == RunExtract(s.flags.file.value)
  {
    match s
    case Stop(status) => Exit(status)
    case Scanned(f) =>
      if f.embed && f.extract then Exit(1)
      else
        var embed := f.embed || !f.extract;
        if embed && f.message.None? then Exit(1)
        else if f.file.None? then Exit(1)
        else if embed then RunEmbed(f.file.value, f.message.value)
        else RunExtract(f.file.value)
  }

  /** `main` as written: with two or more arguments, the loop starts at `argv[0]`, the program's own name. */
  function DispatchAsWritten(argv: seq<string>): (a: Action)
    ensures |argv| < 2 ==> a == Exit(0)
    ensures a.Exit? ==> a.status == 0 || a.status == 1
    ensures a.RunEmbed? ==> a.file in argv && a.message in argv
    ensures a.RunExtract? ==> a.file in argv
  {
    if |argv| < 2 then Exit(0)
    else
      assert argv[0..] == argv;
      Decide(ScanFrom(argv, 0, NoFlags))
  }

  /** `main` with the loop starting at `argv[1]`, past the program's name. */
  function Dispatch(argv: seq<string>): (a: Action)
    ensures |argv| < 2 ==> a == Exit(0)
    ensures a.Exit? ==> a.status == 0 || a.status == 1
    ensures a.RunEmbed? ==> a.file in argv[1..] && a.message in argv[1..]
    ensures a.RunExtract? ==> a.file in argv[1..]
  {
    if |argv| < 2 then Exit(0) else Decide(ScanFrom(argv, 1, NoFlags))
  }

  /** `main`'s loop and checks, with `argv[0]` skipped. */
  method ParseMainArguments(argv: seq<string>) returns (a: Action)
    ensures a == Dispatch(argv)
  {
    if |argv| < 2 {
      return Exit(0);
    }
    var embed, extract := false, false;
    var message: Option<string> := None;
    var file: Option<string> := None;
    var argIndex := 1;
    while argIndex < |argv|
      invariant argIndex <= |argv|
      invariant ScanFrom(argv, argIndex, Flags(embed, extract, message, file)) == ScanFrom(argv, 1, NoFlags)
      decreases |argv| - argIndex
    {
      var arg := argv[argIndex];
      if ArgumentMatchesOption(arg, MainOptions[0]) == Ok(true) {
        embed := true;
        argIndex := argIndex + 1;
        continue;
      }
      if ArgumentMatchesOption(arg, MainOptions[1]) == Ok(true) {
        if argIndex + 1 >= |argv| {
          return Exit(1);
        }
        message := Some(argv[argIndex + 1]);
        argIndex := argIndex + 2;
        continue;
      }
      if ArgumentMatchesOption(arg, MainOptions[2]) == Ok(true) {
        extract := true;
        argIndex := argIndex + 1;
        continue;
      }
      if ArgumentMatchesOption(arg, MainOptions[3]) == Ok(true) {
        return Exit(0);
      }
      file := Some(arg);
      argIndex := argIndex + 1;
    }
    if embed && extract {
      return Exit(1);
    }
    if !embed && !extract {
      embed := true;
    }
    if embed && message.None? {
      return Exit(1);
    }
    if file.None? {
      return Exit(1);
    }
    if embed {
      return RunEmbed(file.value, message.value);
    }
    return RunExtract(file.value);
  }

  /** `extract_message` of this revision: not implemented, always status 1. */
  function ExtractMessage(filePath: string): (status: int)
    ensures status != 0
  {
    1
  }

  /** From the second argument on, the scan never looks at the first. */
  lemma {:induction false} ScanIgnoresFirst(argv: seq<string>, x: string, idx: nat, f: Flags)
    requires 1 <= idx && |argv| > 0
    ensures ScanFrom(argv, idx, f) == ScanFrom(argv[0 := x], idx, f)
    decreases |argv| - idx
  {
    var argv' := argv[0 := x];
    if idx < |argv| {
      assert argv'[idx] == argv[idx];
      if idx + 1 < |argv| {
        assert argv'[idx + 1] == argv[idx + 1];
        ScanIgnoresFirst(argv, x, idx + 2, f.(message := Some(argv[idx + 1])));
      }
      ScanIgnoresFirst(argv, x, idx + 1, f.(embed := true));
      ScanIgnoresFirst(argv, x, idx + 1, f.(extract := true));
      ScanIgnoresFirst(argv, x, idx + 1, f.(file := Some(argv[idx])));
    }
  }

  /** What `main` does does not depend on the program's name. */
  lemma DispatchIgnoresProgramName(argv: seq<string>, x: string)
    requires |argv| > 0
    ensures Dispatch(argv) == Dispatch(argv[0 := x])
  {
    if |argv| >= 2 {
      ScanIgnoresFirst(argv, x, 1, NoFlags);
    }
  }

  /** An argument that names none of the four options: empty, a lone dash, or not starting with `-`. */
  predicate Plain(s: string) {
    |s| <= 1 || s[0] != '-'
  }

  lemma PlainMatchesNothing(s: string)
    requires Plain(s)
    ensures !Matches(s, 0) && !Matches(s, 1) && !Matches(s, 2) && !Matches(s, 3)
  {
    MatchesOnlyDashed(s, MainOptions[0]);
    MatchesOnlyDashed(s, MainOptions[1]);
    MatchesOnlyDashed(s, MainOptions[2]);
    MatchesOnlyDashed(s, MainOptions[3]);
  }

  /** With no arguments after the program name: usage, status 0. */
  lemma NoArgumentsShowsUsage(p: string)
    ensures Dispatch([p]) == Exit(0) && DispatchAsWritten([p]) == Exit(0)
  {
  }

  /** `-m <message> <file>`: neither mode given, so the message is embedded into the file. */
  lemma MessageDefaultsToEmbed(p: string, m: string, f: string)
    requires Plain(f)
    ensures Dispatch([p, "-m", m, f]) == RunEmbed(f, m)
  {
    var argv := [p, "-m", m, f];
    assert Matches("-m", 1);
    PlainMatchesNothing(f);
    assert ScanFrom(argv, 1, NoFlags) == ScanFrom(argv, 3, NoFlags.(message := Some(m)));
    assert ScanFrom(argv, 3, NoFlags.(message := Some(m))) == Scanned(Flags(false, false, Some(m), Some(f)));
  }

  /** `--embed --extract <file>`: mixing the modes is an error, status 1. */
  lemma BothModesFail(p: string, f: string)
    requires Plain(f)
    ensures Dispatch([p, "--embed", "--extract", f]) == Exit(1)
  {
    var argv := [p, "--embed", "--extract", f];
    MatchesLong("embed", MainOptions[0]);
    MatchesLong("extract", MainOptions[0]);
    MatchesLong("extract", MainOptions[1]);
    MatchesLong("extract", MainOptions[2]);
    assert "--" + "embed" == "--embed" && "--" + "extract" == "--extract";
    PlainMatchesNothing(f);
    assert ScanFrom(argv, 1, NoFlags) == ScanFrom(argv, 3, Flags(true, true, None, None));
  }

  /** `--extract <file>`: the extract mode, whose implementation always ends with status 1. */
  lemma ExtractModeFails(p: string, f: string)
    requires Plain(f)
    ensures Dispatch([p, "--extract", f]) == RunExtract(f) && ExtractMessage(f) == 1
  {
    var argv := [p, "--extract", f];
    MatchesLong("extract", MainOptions[0]);
    MatchesLong("extract", MainOptions[1]);
    MatchesLong("extract", MainOptions[2]);
    assert "--" + "extract" == "--extract";
    PlainMatchesNothing(f);
    assert ScanFrom(argv, 1, NoFlags) == ScanFrom(argv, 2, Flags(false, true, None, None));
    assert ScanFrom(argv, 2, Flags(false, true, None, None)) == Scanned(Flags(false, true, None, Some(f)));
  }

  /** `<file> -m`: the message option has no value, status 1. */
  lemma MessageWithoutValueFails(p: string, f: string)
    requires Plain(f)
    ensures Dispatch([p, f, "-m"]) == Exit(1)
  {
    var argv := [p, f, "-m"];
    PlainMatchesNothing(f);
    assert Matches("-m", 1);
    assert ScanFrom(argv, 1, NoFlags) == ScanFrom(argv, 2, NoFlags.(file := Some(f)));
  }

  /** `<file>` alone: embedding is chosen but there is no message, status 1. */
  lemma EmbedWithoutMessageFails(p: string, f: string)
    requires Plain(f)
    ensures Dispatch([p, f]) == Exit(1)
  {
    PlainMatchesNothing(f);
    assert ScanFrom([p, f], 1, NoFlags) == ScanFrom([p, f], 2, NoFlags.(file := Some(f)));
  }

  /** `-h` first: usage, status 0, whatever follows. */
  lemma HelpShowsUsage(p: string, rest: seq<string>)
    ensures Dispatch([p, "-h"] + rest) == Exit(0)
  {
    var argv := [p, "-h"] + rest;
    assert argv[1] == "-h";
    assert !Matches("-h", 0) && !Matches("-h", 1) && !Matches("-h", 2) && Matches("-h", 3);
  }

  /** Of several plain arguments the last one is the input path. */
  lemma LastFileWins(p: string, f: string, g: string, m: string)
    requires Plain(f) && Plain(g)
    ensures Dispatch([p, f, g, "-m", m]) == RunEmbed(g, m)
  {
    var argv := [p, f, g, "-m", m];
    PlainMatchesNothing(f);
    PlainMatchesNothing(g);
    assert Matches("-m", 1);
    assert ScanFrom(argv, 1, NoFlags) == ScanFrom(argv, 2, NoFlags.(file := Some(f)));
    assert ScanFrom(argv, 2, NoFlags.(file := Some(f))) == ScanFrom(argv, 3, NoFlags.(file := Some(g)));
    assert ScanFrom(argv, 3, NoFlags.(file := Some(g))) == Scanned(Flags(false, false, Some(m), Some(g)));
  }

  /**
   * As written, the loop takes the program's own name for the input path:
   * `<prog> -m <message>` embeds into the program file, where skipping the
   * name reports that no input file was given.
   */
  lemma ProgramNameTakenAsFile(p: string, m: string)
    requires Plain(p)
    ensures DispatchAsWritten([p, "-m", m]) == RunEmbed(p, m)
    ensures Dispatch([p, "-m", m]) == Exit(1)
  {
    var argv := [p, "-m", m];
    PlainMatchesNothing(p);
    assert Matches("-m", 1);
    assert ScanFrom(argv, 0, NoFlags) == ScanFrom(argv, 1, NoFlags.(file := Some(p)));
    assert ScanFrom(argv, 1, NoFlags.(file := Some(p))) == ScanFrom(argv, 3, Flags(false, false, Some(m), Some(p)));
    assert ScanFrom(argv, 3, Flags(false, false, Some(m), Some(p))) == Scanned(Flags(false, false, Some(m), Some(p)));
    assert ScanFrom(argv, 1, NoFlags) == ScanFrom(argv, 3, NoFlags.(message := Some(m)));
    assert ScanFrom(argv, 3, NoFlags.(message := Some(m))) == Scanned(NoFlags.(message := Some(m)));
  }
}
