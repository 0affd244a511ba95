/**
 * `inspect.c`: the per-type chunk histogram `get_chunk_types` builds in a
 * string array, and the chunk filter of `print_png_summary`. The file is
 * read twice, once for the histogram and once, after seeking back, for the
 * chunk listing, so each pass has its own cursor. Chunk types are compared
 * as C strings (`strcmp`), so a type is filed under the bytes before its
 * first NUL.
 */
module Inspect {
  import opened Common
  import opened StringArray
  import opened ChunkCursor

  const ReadFailed := "failed to read from file descriptor"
  const NotPng := "input file is not a PNG (does not conform to RFC 2083)"
  const ParseFailed := "unable to parse input file: file does not appear to represent a valid PNG file, or may be corrupted."
  const AdvanceFailed := "unable to advance png chunk iterator: inconsistent state, possibly corrupted file."

  /** How a walk over the stream fails, the same way in both passes, or None when it reaches the end. */
  function WalkFailure(s: Stream): (r: Option<Failure>)
    ensures r.None? <==> s.initStatus == 0 && s.tail == Clean
  {
    if s.initStatus < 0 then Some(Fatal(ReadFailed))
    else if s.initStatus > 0 then Some(Die(NotPng))
    else match s.tail
      case Clean => None
      case HasNextFails => Some(Die(ParseFailed))
      case NextFails => Some(Fatal(AdvanceFailed))
  }

  /** The type of a chunk as the C string `type` the code compares. */
  function TypeKey(c: ChunkRec): Bytes {
    CStr(c.ctype)
  }

  /** The type keys of the chunks, in order. */
  function Keys(chunks: seq<ChunkRec>): (r: seq<Bytes>)
    ensures |r| == |chunks| && forall i :: 0 <= i < |chunks| ==> r[i] == TypeKey(chunks[i])
  {
    seq(|chunks|, i requires 0 <= i < |chunks| => TypeKey(chunks[i]))
  }

  // ---------------------------------------------------------------------------
  // The histogram
  // ---------------------------------------------------------------------------

  /** One histogram entry: a type and how many chunks have it. */
  datatype Tally = Tally(key: Bytes, count: nat)

  /** The first entry for `key` at or after `i`. */
  function FindFrom(h: seq<Tally>, key: Bytes, i: nat): (r: Option<nat>)
    requires i <= |h|
    ensures r.Some? ==> i <= r.value < |h| && h[r.value].key == key && forall m :: i <= m < r.value ==> h[m].key != key
    ensures r.None? ==> forall m :: i <= m < |h| ==> h[m].key != key
    decreases |h| - i
  {
    if i == |h| then None
    else if h[i].key == key then Some(i)
    else FindFrom(h, key, i + 1)
  }

  /** The histogram after counting one more chunk with type `key`: its entry goes up by one, or a new entry 1 is appended. */
  function Counted(h: seq<Tally>, key: Bytes): seq<Tally> {
    match FindFrom(h, key, 0)
    case Some(i) => h[i := Tally(key, h[i].count + 1)]
    case None => h + [Tally(key, 1)]
  }

  /** What `get_chunk_types` builds from the chunk types, counted one by one in file order. */
  function Histogram(keys: seq<Bytes>): seq<Tally>
    decreases |keys|
  {
    if keys == [] then [] else Counted(Histogram(keys[..|keys| - 1]), keys[|keys| - 1])
  }

  /** There are no more entries than chunks counted, and at least one once a chunk is counted. */
  lemma {:induction false} HistogramSize(keys: seq<Bytes>)
    ensures |Histogram(keys)| <= |keys|
    ensures keys != [] ==> Histogram(keys) != []
    decreases |keys|
  {
    if keys != [] {
      HistogramSize(keys[..|keys| - 1]);
    }
  }

  /** The string-array entries a histogram is stored as: the type, with its count as datum. */
  function EntriesOf(h: seq<Tally>): (r: seq<Entry>)
    ensures |r| == |h| && forall i :: 0 <= i < |h| ==> r[i] == Entry(Some(h[i].key), Some(h[i].count))
  {
    seq(|h|, i requires 0 <= i < |h| => Entry(Some(h[i].key), Some(h[i].count)))
  }

  /** The sum of the counts. */
  function Total(h: seq<Tally>): nat {
    if h == [] then 0 else h[0].count + Total(h[1..])
  }

  lemma LastKeyDropped(keys: seq<Bytes>)
    requires keys != []
    ensures keys == keys[..|keys| - 1] + [keys[|keys| - 1]]
  {
  }

  /** Some entry of the histogram is for `key`. */
  predicate HasEntry(h: seq<Tally>, key: Bytes) {
    exists i :: 0 <= i < |h| && h[i].key == key
  }

  /** No two entries are for the same type. */
  predicate DistinctKeys(h: seq<Tally>) {
    forall i, j :: 0 <= i < j < |h| ==> h[i].key != h[j].key
  }

  /** Counting a key keeps every entry's type, adds the key's entry if it is new, and keeps the types distinct. */
  lemma CountedEntries(h: seq<Tally>, key: Bytes)
    ensures DistinctKeys(h) ==> DistinctKeys(Counted(h, key))
    ensures |Counted(h, key)| >= |h|
    ensures forall m :: 0 <= m < |h| ==> Counted(h, key)[m].key == h[m].key
    ensures forall k :: HasEntry(Counted(h, key), k) <==> HasEntry(h, k) || k == key
    ensures FindFrom(h, key, 0).None? ==> Counted(h, key) == h + [Tally(key, 1)]
    ensures FindFrom(h, key, 0).Some? ==> |Counted(h, key)| == |h|
  {
    var h' := Counted(h, key);
    forall k | HasEntry(h', k)
      ensures HasEntry(h, k) || k == key
    {
      var i :| 0 <= i < |h'| && h'[i].key == k;
      if i < |h| && k != key {
        assert h[i].key == k;
      }
    }
    forall k | HasEntry(h, k) || k == key
      ensures HasEntry(h', k)
    {
      if HasEntry(h, k) {
        var i :| 0 <= i < |h| && h[i].key == k;
        assert h'[i].key == k;
      } else {
        assert h'[|h|].key == k;
      }
    }
  }

  /** The histogram has one entry per distinct type that occurs, and no other. */
  lemma {:induction false} HistogramKeys(keys: seq<Bytes>)
    ensures DistinctKeys(Histogram(keys))
    ensures forall key :: key in keys <==> HasEntry(Histogram(keys), key)
    decreases |keys|
  {
    if keys != [] {
      var init, t := keys[..|keys| - 1], keys[|keys| - 1];
      HistogramKeys(init);
      LastKeyDropped(keys);
      var h := Histogram(init);
      CountedEntries(h, t);
      assert forall key :: key in keys <==> key in init || key == t;
    }
  }

  /** Each entry of `h` counts the occurrences of its type in `keys`. */
  predicate CountsOf(h: seq<Tally>, keys: seq<Bytes>) {
    forall i :: 0 <= i < |h| ==> h[i].count == multiset(keys)[h[i].key]
  }

  /** Each entry counts exactly the chunks of its type. */
  lemma {:induction false} HistogramCounts(keys: seq<Bytes>)
    ensures CountsOf(Histogram(keys), keys)
    decreases |keys|
  {
    if keys != [] {
      var init, t := keys[..|keys| - 1], keys[|keys| - 1];
      HistogramCounts(init);
      HistogramKeys(init);
      LastKeyDropped(keys);
      assert multiset(keys) == multiset(init) + multiset{t};
      var h := Histogram(init);
      var h' := Histogram(keys);
      forall i | 0 <= i < |h'|
        ensures h'[i].count == multiset(keys)[h'[i].key]
      {
        match FindFrom(h, t, 0)
        case Some(m) =>
          if i == m {
            assert h'[i] == Tally(t, h[m].count + 1);
            assert h[m].count == multiset(init)[t];
            assert multiset(keys)[t] == multiset(init)[t] + 1;
          } else {
            assert h'[i] == h[i] && h[i].key != t;
            assert h[i].count == multiset(init)[h[i].key];
            assert multiset(keys)[h[i].key] == multiset(init)[h[i].key];
          }
        case None =>
          if i == |h| {
            assert !HasEntry(h, t);
            assert t !in init;
            assert multiset(init)[t] == 0;
            assert h'[i] == Tally(t, 1);
            assert multiset(keys)[t] == multiset(init)[t] + 1;
          } else {
            assert h'[i] == h[i] && h[i].key != t;
            assert h[i].count == multiset(init)[h[i].key];
            assert multiset(keys)[h[i].key] == multiset(init)[h[i].key];
          }
      }
    }
  }

  /** Wherever the type of an entry occurs in `keys`, the types of all earlier entries occur before it. */
  predicate InAppearanceOrder(h: seq<Tally>, keys: seq<Bytes>) {
    forall i, j, p :: 0 <= i < j < |h| && 0 <= p < |keys| && keys[p] == h[j].key ==> h[i].key in keys[..p]
  }

  /**
   * The entries are in order of first appearance: wherever the type of a
   * later entry occurs, the type of every earlier entry has occurred before.
   */
  lemma {:induction false} HistogramOrder(keys: seq<Bytes>)
    ensures InAppearanceOrder(Histogram(keys), keys)
    decreases |keys|
  {
    if keys != [] {
      var init, t := keys[..|keys| - 1], keys[|keys| - 1];
      HistogramOrder(init);
      HistogramKeys(init);
      LastKeyDropped(keys);
      var h := Histogram(init);
      var h' := Histogram(keys);
      CountedEntries(h, t);
      forall i, j, p | 0 <= i < j < |h'| && 0 <= p < |keys| && keys[p] == h'[j].key
        ensures h'[i].key in keys[..p]
      {
        if p < |init| {
          assert keys[..p] == init[..p];
          assert init[p] == keys[p];
          assert HasEntry(h, keys[p]);
          assert h'[j].key == h[j].key && h'[i].key == h[i].key;
        } else {
          assert keys[..p] == init;
          assert HasEntry(h, h[i].key);
        }
      }
    }
  }

  lemma {:induction false} TotalAppend(h: seq<Tally>, x: Tally)
    ensures Total(h + [x]) == Total(h) + x.count
  {
    if h != [] {
      assert (h + [x])[1..] == h[1..] + [x];
      TotalAppend(h[1..], x);
    }
  }

  lemma {:induction false} TotalBump(h: seq<Tally>, i: nat, key: Bytes)
    requires i < |h|
    ensures Total(h[i := Tally(key, h[i].count + 1)]) == Total(h) + 1
  {
    if i > 0 {
      assert h[i := Tally(key, h[i].count + 1)][1..] == h[1..][i - 1 := Tally(key, h[i].count + 1)];
      TotalBump(h[1..], i - 1, key);
    }
  }

  /** The counts add up to the number of chunks. */
  lemma {:induction false} HistogramTotal(keys: seq<Bytes>)
    ensures Total(Histogram(keys)) == |keys|
    decreases |keys|
  {
    if keys != [] {
      var init, t := keys[..|keys| - 1], keys[|keys| - 1];
      HistogramTotal(init);
      var h := Histogram(init);
      match FindFrom(h, t, 0)
      case Some(i) => TotalBump(h, i, t);
      case None => TotalAppend(h, Tally(t, 1));
    }
  }

  /**
   * The loop body of `get_chunk_types`: search the entries for the chunk's
   * type; bump the count of the entry found, or insert the type at the end
   * with count 1.
   */
  method CountType(types: StrArray, key: Bytes, ghost h: seq<Tally>)
    requires types.Valid() && types.entries[..types.len] == EntriesOf(h)
    modifies types
    ensures types.Valid() && types.entries[..types.len] == EntriesOf(Counted(h, key))
  {
    var i := 0;
    while i < types.len && types.entries[i].str != Some(key)
      invariant i <= types.len
      invariant forall m :: 0 <= m < i ==> h[m].key != key
    {
      i := i + 1;
    }
    FindFromSkips(h, key, 0, i);
    if i < types.len {
      var count := types.entries[i].data.value;
      types.entries := types.entries[i := Entry(Some(key), Some(count + 1))];
      assert types.entries[..types.len] == old(types.entries[..types.len])[i := Entry(Some(key), Some(count + 1))];
    } else {
      var at := types.Insert(key, types.len);
      types.entries := types.entries[at := Entry(Some(key), Some(1))];
      assert types.entries[..types.len] == old(types.entries[..types.len]) + [Entry(Some(key), Some(1))];
    }
  }

  /** The search from `lo` passes over entries before `hi` that have another key. */
  lemma {:induction false} FindFromSkips(h: seq<Tally>, key: Bytes, lo: nat, hi: nat)
    requires lo <= hi <= |h|
    requires forall m :: lo <= m < hi ==> h[m].key != key
    ensures FindFrom(h, key, lo) == FindFrom(h, key, hi)
    decreases hi - lo
  {
    if lo < hi {
      FindFromSkips(h, key, lo + 1, hi);
    }
  }

  /**
   * `get_chunk_types`: walk every chunk of the file and count its type in
   * `types`, which starts empty. On success the entries are the histogram
   * of the chunk types.
   */
  method GetChunkTypes(file: Cursor, types: StrArray) returns (failure: Option<Failure>)
    requires types.Valid() && types.len == 0
    modifies file, types
    ensures failure == WalkFailure(file.stream)
    ensures failure.None? ==> types.Valid() && types.entries[..types.len] == EntriesOf(Histogram(Keys(file.stream.chunks)))
  {
    var status := file.Init();
    if status < 0 {
      return Some(Fatal(ReadFailed));
    }
    if status > 0 {
      return Some(Die(NotPng));
    }
    ghost var chunks := file.stream.chunks;
    var hasNext := file.HasNext();
    assert Keys(chunks[..0]) == [];
    while hasNext != 0
      invariant file.Valid() && types.Valid()
      invariant file.pos < |chunks| ==> hasNext == 1
      invariant file.pos == |chunks| ==> (hasNext == 0 <==> file.stream.tail == Clean) && (hasNext < 0 <==> file.stream.tail == HasNextFails)
      invariant types.entries[..types.len] == EntriesOf(Histogram(Keys(chunks[..file.pos])))
      decreases |chunks| - file.pos
    {
      if hasNext < 0 {
        return Some(Die(ParseFailed));
      }
      var next := file.Next();
      if next != 0 {
        return Some(Fatal(AdvanceFailed));
      }
      var key := CStr(file.Current().ctype);
      assert Keys(chunks[..file.pos]) == Keys(chunks[..file.pos - 1]) + [key];
      CountType(types, key, Histogram(Keys(chunks[..file.pos - 1])));
      hasNext := file.HasNext();
    }
    assert chunks[..file.pos] == chunks;
    return None;
  }

  // ---------------------------------------------------------------------------
  // The chunk filter
  // ---------------------------------------------------------------------------

  /** Some `--filter` type names `key` (both compared as C strings). */
  predicate Listed(key: Bytes, filters: seq<Bytes>) {
    exists i :: 0 <= i < |filters| && CStr(filters[i]) == key
  }

  /**
   * The chunks `print_png_summary` lists: with a `--filter` list only the
   * listed types; with `--critical` or `--ancillary` only chunks of a kind
   * that was asked for; with no filter option every chunk.
   */
  predicate Shown(c: ChunkRec, filters: seq<Bytes>, showCritical: bool, showAncillary: bool) {
    (filters == [] || Listed(TypeKey(c), filters)) &&
    (showCritical || showAncillary ==> (showAncillary || !c.ancillary) && (showCritical || !c.critical))
  }

  /**
   * The filter of `print_png_summary`: the `filtered` flag starts set when
   * there is a filter list, is cleared by any listed type that equals the
   * chunk's, and is set again by a kind that was not asked for.
   */
  method IsFiltered(c: ChunkRec, types: StrArray, showCritical: bool, showAncillary: bool) returns (filtered: bool)
    requires types.Valid()
    ensures filtered == !Shown(c, types.Strings(), showCritical, showAncillary)
  {
    var key := CStr(c.ctype);
    filtered := types.len > 0;
    for i := 0 to types.len
      invariant filtered == (types.len > 0 && forall m :: 0 <= m < i ==> CStr(types.Strings()[m]) != key)
    {
      if CStr(types.Get(i).value) == key {
        filtered := false;
      }
    }
    if showAncillary || showCritical {
      if !showAncillary && c.ancillary {
        filtered := true;
      }
      if !showCritical && c.critical {
        filtered := true;
      }
    }
  }

  /** The chunks the listing shows, in file order. */
  function ShownChunks(chunks: seq<ChunkRec>, filters: seq<Bytes>, showCritical: bool, showAncillary: bool): seq<ChunkRec> {
    if chunks == [] then []
    else (if Shown(chunks[0], filters, showCritical, showAncillary) then [chunks[0]] else [])
         + ShownChunks(chunks[1..], filters, showCritical, showAncillary)
  }

  /**
   * The listing keeps exactly the chunks the filter shows: every chunk when
   * no filter option is given, only listed types under `--filter`, no
   * ancillary chunk under `--critical` alone and no critical chunk under
   * `--ancillary` alone.
   */
  lemma {:induction false} ShownChunksFilter(chunks: seq<ChunkRec>, filters: seq<Bytes>, showCritical: bool, showAncillary: bool)
    ensures var r := ShownChunks(chunks, filters, showCritical, showAncillary);
            |r| <= |chunks| &&
            (forall c :: c in r <==> c in chunks && Shown(c, filters, showCritical, showAncillary)) &&
            (filters == [] && !showCritical && !showAncillary ==> r == chunks) &&
            (filters != [] ==> forall c :: c in r ==> Listed(TypeKey(c), filters)) &&
            (showCritical && !showAncillary ==> forall c :: c in r ==> !c.ancillary) &&
            (showAncillary && !showCritical ==> forall c :: c in r ==> !c.critical)
  {
    if chunks != [] {
      ShownChunksFilter(chunks[1..], filters, showCritical, showAncillary);
      assert chunks == [chunks[0]] + chunks[1..];
    }
  }

  /** Listing one more chunk extends the listing by that chunk if it is shown. */
  lemma {:induction false} ShownChunksSnoc(chunks: seq<ChunkRec>, c: ChunkRec, filters: seq<Bytes>, showCritical: bool, showAncillary: bool)
    ensures ShownChunks(chunks + [c], filters, showCritical, showAncillary)
         == ShownChunks(chunks, filters, showCritical, showAncillary)
            + (if Shown(c, filters, showCritical, showAncillary) then [c] else [])
  {
    var tail := if Shown(c, filters, showCritical, showAncillary) then [c] else [];
    if chunks != [] {
      var head := if Shown(chunks[0], filters, showCritical, showAncillary) then [chunks[0]] else [];
      var rest := ShownChunks(chunks[1..], filters, showCritical, showAncillary);
      assert (chunks + [c])[0] == chunks[0];
      assert (chunks + [c])[1..] == chunks[1..] + [c];
      assert ShownChunks(chunks + [c], filters, showCritical, showAncillary)
          == head + ShownChunks(chunks[1..] + [c], filters, showCritical, showAncillary);
      ShownChunksSnoc(chunks[1..], c, filters, showCritical, showAncillary);
      SeqAssoc(head, rest, tail);
    } else {
      assert [c][1..] == [];
      assert ShownChunks([c], filters, showCritical, showAncillary) == tail + ShownChunks([], filters, showCritical, showAncillary);
    }
  }

  /** What the listing pass of `print_png_summary` produces: the shown chunks, or how the walk fails. */
  function ListingSpec(s: Stream, filters: seq<Bytes>, showCritical: bool, showAncillary: bool): (r: Result<seq<ChunkRec>>)
    ensures r.Ok? <==> s.initStatus == 0 && s.tail == Clean
    ensures r.Ok? ==> |r.value| <= |s.chunks|
    ensures r.Ok? ==> forall c :: c in r.value <==> c in s.chunks && Shown(c, filters, showCritical, showAncillary)
  {
    ShownChunksFilter(s.chunks, filters, showCritical, showAncillary);
    match WalkFailure(s)
    case Some(f) => Err(f)
    case None => Ok(ShownChunks(s.chunks, filters, showCritical, showAncillary))
  }

  /** The listing pass: walk every chunk and keep those the filter lets through. */
  method ListChunks(file: Cursor, types: StrArray, showCritical: bool, showAncillary: bool) returns (r: Result<seq<ChunkRec>>)
    requires types.Valid()
    modifies file
    ensures r == ListingSpec(file.stream, types.Strings(), showCritical, showAncillary)
  {
    var status := file.Init();
    if status < 0 {
      return Err(Fatal(ReadFailed));
    }
    if status > 0 {
      return Err(Die(NotPng));
    }
    ghost var chunks, filters := file.stream.chunks, types.Strings();
    var shown: seq<ChunkRec> := [];
    var hasNext := file.HasNext();
    while hasNext != 0
      invariant file.Valid()
      invariant file.pos < |chunks| ==> hasNext == 1
      invariant file.pos == |chunks| ==> (hasNext == 0 <==> file.stream.tail == Clean) && (hasNext < 0 <==> file.stream.tail == HasNextFails)
      invariant shown == ShownChunks(chunks[..file.pos], filters, showCritical, showAncillary)
      decreases |chunks| - file.pos
    {
      if hasNext < 0 {
        return Err(Die(ParseFailed));
      }
      var next := file.Next();
      if next != 0 {
        return Err(Fatal(AdvanceFailed));
      }
      var c := file.Current();
      assert chunks[..file.pos] == chunks[..file.pos - 1] + [c];
      ShownChunksSnoc(chunks[..file.pos - 1], c, filters, showCritical, showAncillary);
      var filtered := IsFiltered(c, types, showCritical, showAncillary);
      if !filtered {
        shown := shown + [c];
      }
      hasNext := file.HasNext();
    }
    assert chunks[..file.pos] == chunks;
    return Ok(shown);
  }

  /** What `print_png_summary` computes: the histogram of the first pass and the chunks listed by the second. */
  datatype Summary = Summary(histogram: seq<Entry>, shown: seq<ChunkRec>)

  function SummarySpec(first: Stream, second: Stream, filters: seq<Bytes>, showCritical: bool, showAncillary: bool): (r: Result<Summary>)
    ensures r.Ok? <==> first.initStatus == 0 && first.tail == Clean && second.initStatus == 0 && second.tail == Clean
    ensures r.Ok? ==> |r.value.histogram| <= |first.chunks| && |r.value.shown| <= |second.chunks|
    ensures r.Ok? ==> (first.chunks != [] <==> r.value.histogram != [])
  {
    HistogramSize(Keys(first.chunks));
    match WalkFailure(first)
    case Some(f) => Err(f)
    case None =>
      match ListingSpec(second, filters, showCritical, showAncillary)
      case Err(f) => Err(f)
      case Ok(shown) => Ok(Summary(EntriesOf(Histogram(Keys(first.chunks))), shown))
  }

  /**
   * `print_png_summary` without its printing: count the chunk types, then
   * seek back and list the chunks the filter shows.
   */
  method PrintPngSummary(types: StrArray, showCritical: bool, showAncillary: bool, first: Cursor, second: Cursor)
      returns (r: Result<Summary>)
    requires types.Valid()
    modifies first, second
    ensures r == SummarySpec(first.stream, second.stream, types.Strings(), showCritical, showAncillary)
  {
    var chunks := new StrArray.Init();
    chunks.freeData := true;
    var failure := GetChunkTypes(first, chunks);
    if failure.Some? {
      return Err(failure.value);
    }
    var shown := ListChunks(second, types, showCritical, showAncillary);
    if shown.Err? {
      return Err(shown.failure);
    }
    return Ok(Summary(chunks.entries[..chunks.len], shown.value));
  }

  /**
   * When the file does not change between the two passes, the summary is the
   * histogram and the shown chunks exactly when a walk reaches the end.
   */
  lemma SummaryOfUnchangedFile(s: Stream, filters: seq<Bytes>, showCritical: bool, showAncillary: bool)
    ensures var r := SummarySpec(s, s, filters, showCritical, showAncillary);
            (r.Ok? <==> s.initStatus == 0 && s.tail == Clean) &&
            (r.Ok? ==> r.value.shown == ShownChunks(s.chunks, filters, showCritical, showAncillary)) &&
            (r.Err? ==> Some(r.failure) == WalkFailure(s))
  {
  }
}
