/**
 * The growable byte buffer (src/strbuf.c). The buffer owns `alloc` bytes of
 * memory, of which the first `len` are its contents; the string operations
 * keep a NUL byte right after the contents.
 */
module StringBuffer {
  import opened Common
  import StringArray

  /** Extra bytes allocated beyond what an append needs. */
  const BUFF_SLOP: nat := 64

  /** `isspace(c) || isblank(c)` in the C locale: space, tab, newline, vertical tab, form feed, carriage return. */
  predicate IsSpace(b: byte)
  {
    b == 32 || 9 <= b <= 13
  }

  /** The index of the first non-whitespace byte at or after `i`, or |s| when there is none. */
  function SkipSpaceFrom(s: Bytes, i: nat): (n: nat)
    requires i <= |s|
    ensures i <= n <= |s|
    ensures forall j :: i <= j < n ==> IsSpace(s[j])
    ensures n < |s| ==> !IsSpace(s[n])
    decreases |s| - i
  {
    if i == |s| || !IsSpace(s[i]) then i else SkipSpaceFrom(s, i + 1)
  }

  /** The index just past the last non-whitespace byte before `j`, or 0 when there is none. */
  function SkipSpaceBack(s: Bytes, j: nat): (n: nat)
    requires j <= |s|
    ensures n <= j
    ensures forall i :: n <= i < j ==> IsSpace(s[i])
    ensures n > 0 ==> !IsSpace(s[n - 1])
  {
    if j == 0 || !IsSpace(s[j - 1]) then j else SkipSpaceBack(s, j - 1)
  }

  /** The number of whitespace bytes at the start of `s`. */
  function LeadingSpace(s: Bytes): (n: nat)
    ensures n <= |s|
    ensures forall i :: 0 <= i < n ==> IsSpace(s[i])
    ensures n < |s| ==> !IsSpace(s[n])
  {
    SkipSpaceFrom(s, 0)
  }

  /** The number of whitespace bytes at the end of `s`. */
  function TrailingSpace(s: Bytes): (n: nat)
    ensures n <= |s|
    ensures forall i :: |s| - n <= i < |s| ==> IsSpace(s[i])
    ensures n < |s| ==> !IsSpace(s[|s| - n - 1])
  {
    |s| - SkipSpaceBack(s, |s|)
  }

  /** `s` without its leading and trailing whitespace. */
  function Trimmed(s: Bytes): Bytes
  {
    var a := LeadingSpace(s);
    if a == |s| then [] else s[a..|s| - TrailingSpace(s)]
  }

  /**
   * What trimming means: the result is a slice of `s` that neither starts
   * nor ends with whitespace, and everything cut away on either side is
   * whitespace. It is empty exactly when `s` is all whitespace.
   */
  lemma TrimmedMeaning(s: Bytes)
    ensures var t := Trimmed(s); var a := LeadingSpace(s);
      a + |t| <= |s| && t == s[a..a + |t|] &&
      (forall i :: 0 <= i < a ==> IsSpace(s[i])) &&
      (forall i :: a + |t| <= i < |s| ==> IsSpace(s[i])) &&
      (t != [] ==> !IsSpace(t[0]) && !IsSpace(t[|t| - 1])) &&
      (t == [] <==> forall i :: 0 <= i < |s| ==> IsSpace(s[i]))
  {
    var a := LeadingSpace(s);
    if a < |s| {
      var z := TrailingSpace(s);
      assert !IsSpace(s[a]);
    }
  }

  /** `d` occurs in `s` starting at index `j`. */
  predicate OccursAt(s: Bytes, d: Bytes, j: int)
  {
    0 <= j && j + |d| <= |s| && s[j..j + |d|] == d
  }

  /**
   * The leftmost index at or after `lo` at which `d` occurs in `s`, as
   * `strstr` finds it when started at `lo`, or None when there is none.
   */
  function FindFrom(s: Bytes, d: Bytes, lo: nat): (r: Option<nat>)
    requires |d| > 0
    ensures r.Some? ==> lo <= r.value && OccursAt(s, d, r.value)
    decreases |s| - lo
  {
    if lo + |d| > |s| then None
    else if s[lo..lo + |d|] == d then Some(lo)
    else FindFrom(s, d, lo + 1)
  }

  /**
   * FindFrom finds the leftmost occurrence: none lies between `lo` and the
   * index found, and when nothing is found there is none at or after `lo`.
   */
  lemma {:induction false} FindFromLeftmost(s: Bytes, d: Bytes, lo: nat)
    requires |d| > 0
    ensures FindFrom(s, d, lo).Some? ==> forall j :: lo <= j < FindFrom(s, d, lo).value ==> !OccursAt(s, d, j)
    ensures FindFrom(s, d, lo).None? ==> forall j :: lo <= j ==> !OccursAt(s, d, j)
    decreases |s| - lo
  {
    if lo + |d| <= |s| && s[lo..lo + |d|] != d {
      FindFromLeftmost(s, d, lo + 1);
    }
  }

  /** The pieces of `s[begin..]` between the successive leftmost occurrences of `d`. */
  function SplitFrom(s: Bytes, d: Bytes, begin: nat): (r: seq<Bytes>)
    requires |d| > 0 && begin <= |s|
    ensures |r| >= 1
    decreases |s| - begin
  {
    match FindFrom(s, d, begin)
    case None => [s[begin..]]
    case Some(k) => [s[begin..k]] + SplitFrom(s, d, k + |d|)
  }

  /** The pieces of `s` between the successive leftmost occurrences of `d`. */
  function SplitOn(s: Bytes, d: Bytes): (r: seq<Bytes>)
    requires |d| > 0
  {
    SplitFrom(s, d, 0)
  }

  /** The number of non-overlapping occurrences of `d` in `s[begin..]` that a left-to-right scan finds. */
  function OccurrencesFrom(s: Bytes, d: Bytes, begin: nat): nat
    requires |d| > 0 && begin <= |s|
    decreases |s| - begin
  {
    match FindFrom(s, d, begin)
    case None => 0
    case Some(k) => 1 + OccurrencesFrom(s, d, k + |d|)
  }

  /** The pieces put back together with `d` between them. */
  function Join(pieces: seq<Bytes>, d: Bytes): Bytes
  {
    if |pieces| == 0 then []
    else if |pieces| == 1 then pieces[0]
    else pieces[0] + d + Join(pieces[1..], d)
  }

  /** Joining a piece in front of at least one more puts the delimiter between them. */
  lemma JoinCons(p: Bytes, rest: seq<Bytes>, d: Bytes)
    requires |rest| >= 1
    ensures Join([p] + rest, d) == p + d + Join(rest, d)
  {
    assert ([p] + rest)[1..] == rest;
  }

  /** Splitting is undone by joining the pieces with the delimiter. */
  lemma {:induction false} JoinSplitFrom(s: Bytes, d: Bytes, begin: nat)
    requires |d| > 0 && begin <= |s|
    ensures Join(SplitFrom(s, d, begin), d) == s[begin..]
    decreases |s| - begin
  {
    match FindFrom(s, d, begin)
    case None =>
    case Some(k) =>
      JoinSplitFrom(s, d, k + |d|);
      JoinPieceInFront(s, d, begin, k, SplitFrom(s, d, k + |d|));
  }

  /** A piece followed by the delimiter, put in front of a joined suffix, gives the longer suffix. */
  lemma JoinPieceInFront(s: Bytes, d: Bytes, begin: nat, k: nat, pieces: seq<Bytes>)
    requires begin <= k && k + |d| <= |s| && s[k..k + |d|] == d
    requires |pieces| >= 1 && Join(pieces, d) == s[k + |d|..]
    ensures Join([s[begin..k]] + pieces, d) == s[begin..]
  {
    JoinCons(s[begin..k], pieces, d);
    DelimiterInSuffix(s, d, begin, k);
  }

  /** A suffix that holds the delimiter at `k` is the part before it, the delimiter, and the part after it. */
  lemma DelimiterInSuffix(s: Bytes, d: Bytes, begin: nat, k: nat)
    requires begin <= k && k + |d| <= |s| && s[k..k + |d|] == d
    ensures s[begin..] == s[begin..k] + d + s[k + |d|..]
  {
    SliceInThree(s, begin, k, k + |d|);
  }

  /** A suffix is the concatenation of its consecutive slices. */
  lemma SliceInThree(s: Bytes, a: nat, b: nat, c: nat)
    requires a <= b <= c <= |s|
    ensures s[a..] == s[a..b] + s[b..c] + s[c..]
  {
  }

  /** There is one piece more than there are occurrences of the delimiter. */
  lemma {:induction false} SplitFromCount(s: Bytes, d: Bytes, begin: nat)
    requires |d| > 0 && begin <= |s|
    ensures |SplitFrom(s, d, begin)| == OccurrencesFrom(s, d, begin) + 1
    decreases |s| - begin
  {
    match FindFrom(s, d, begin)
    case None =>
    case Some(k) =>
      SplitFromCount(s, d, k + |d|);
  }

  /** No piece contains the delimiter. */
  lemma {:induction false} SplitFromPieces(s: Bytes, d: Bytes, begin: nat)
    requires |d| > 0 && begin <= |s|
    ensures forall p, j :: p in SplitFrom(s, d, begin) ==> !OccursAt(p, d, j)
    decreases |s| - begin
  {
    FirstPieceFree(s, d, begin);
    SplitFromStep(s, d, begin);
    match FindFrom(s, d, begin)
    case None =>
      assert s[begin..|s|] == s[begin..];
      PieceAlone(s[begin..], d);
    case Some(k) =>
      SplitFromPieces(s, d, k + |d|);
      PiecesCons(s[begin..k], SplitFrom(s, d, k + |d|), d);
  }

  /** The piece before the first occurrence of `d` (or the whole rest when there is none) is free of `d`. */
  lemma FirstPieceFree(s: Bytes, d: Bytes, begin: nat)
    requires |d| > 0 && begin <= |s|
    ensures var f := FindFrom(s, d, begin); var stop := if f.Some? then f.value else |s|;
      begin <= stop <= |s| && forall j :: !OccursAt(s[begin..stop], d, j)
  {
    FindFromLeftmost(s, d, begin);
    var f := FindFrom(s, d, begin);
    NoOccurrenceIn(s, d, begin, if f.Some? then f.value else |s|);
  }

  /** A single piece free of `d`. */
  lemma PieceAlone(x: Bytes, d: Bytes)
    requires forall j :: !OccursAt(x, d, j)
    ensures forall p, j :: p in [x] ==> !OccursAt(p, d, j)
  {
  }

  /** A piece free of `d` put in front of pieces free of `d`. */
  lemma PiecesCons(x: Bytes, rest: seq<Bytes>, d: Bytes)
    requires forall j :: !OccursAt(x, d, j)
    requires forall p, j :: p in rest ==> !OccursAt(p, d, j)
    ensures forall p, j :: p in [x] + rest ==> !OccursAt(p, d, j)
  {
    forall p, j | p in [x] + rest ensures !OccursAt(p, d, j) {
      if p != x {
        assert p in rest;
      }
    }
  }

  /** A slice of `s` in which no occurrence of `d` starts contains no occurrence of `d`. */
  lemma NoOccurrenceIn(s: Bytes, d: Bytes, begin: nat, stop: nat)
    requires |d| > 0 && begin <= stop <= |s|
    requires forall j :: begin <= j < stop ==> !OccursAt(s, d, j)
    ensures forall j :: !OccursAt(s[begin..stop], d, j)
  {
    var p := s[begin..stop];
    forall j | OccursAt(p, d, j) ensures OccursAt(s, d, begin + j) {
      forall i | 0 <= i < |d| ensures s[begin + j + i] == d[i] {
        assert p[j..j + |d|][i] == p[j + i];
      }
      assert s[begin + j..begin + j + |d|] == d;
    }
  }

  /** One step of SplitFrom: the piece up to the first occurrence, then the rest split. */
  lemma SplitFromStep(s: Bytes, d: Bytes, begin: nat)
    requires |d| > 0 && begin <= |s|
    ensures FindFrom(s, d, begin).None? ==> SplitFrom(s, d, begin) == [s[begin..]]
    ensures FindFrom(s, d, begin).Some? ==>
              var k := FindFrom(s, d, begin).value;
              SplitFrom(s, d, begin) == [s[begin..k]] + SplitFrom(s, d, k + |d|)
  {
  }

  /**
   * The splitting loop's invariant, carried across one piece: the strings
   * pushed so far followed by the pieces still to come are all the pieces.
   * `stop` is the next occurrence of the delimiter.
   */
  lemma SplitPieceStep(s: Bytes, d: Bytes, begin: nat, stop: nat, before: seq<Bytes>, after: seq<Bytes>, all: seq<Bytes>)
    requires |d| > 0 && begin <= |s|
    requires FindFrom(s, d, begin) == Some(stop)
    requires before + SplitFrom(s, d, begin) == all
    requires after == before + [s[begin..stop]]
    ensures stop + |d| <= |s| && after + SplitFrom(s, d, stop + |d|) == all
    ensures |SplitFrom(s, d, begin)| == |SplitFrom(s, d, stop + |d|)| + 1
  {
    SplitFromStep(s, d, begin);
    var rest := SplitFrom(s, d, stop + |d|);
    assert SplitFrom(s, d, begin) == [s[begin..stop]] + rest;
    SeqAssoc(before, [s[begin..stop]], rest);
  }

  /** The splitting loop's last piece: when no occurrence is left, every piece has been pushed. */
  lemma SplitPieceLast(s: Bytes, d: Bytes, begin: nat, before: seq<Bytes>, after: seq<Bytes>, all: seq<Bytes>)
    requires |d| > 0 && begin <= |s|
    requires FindFrom(s, d, begin).None?
    requires before + SplitFrom(s, d, begin) == all
    requires after == before + [s[begin..|s|]]
    ensures after == all && |SplitFrom(s, d, begin)| == 1
  {
    SplitFromStep(s, d, begin);
    assert s[begin..|s|] == s[begin..];
  }

  /**
   * What splitting means: joining the pieces with the delimiter gives back
   * the string, there is one piece more than there are occurrences, and no
   * piece contains the delimiter.
   */
  lemma SplitOnMeaning(s: Bytes, d: Bytes)
    requires |d| > 0
    ensures Join(SplitOn(s, d), d) == s
    ensures |SplitOn(s, d)| == OccurrencesFrom(s, d, 0) + 1
    ensures forall p, j :: p in SplitOn(s, d) ==> !OccursAt(p, d, j)
  {
    JoinSplitFrom(s, d, 0);
    SplitFromCount(s, d, 0);
    SplitFromPieces(s, d, 0);
  }

  /** Any count with the defining properties of LeadingSpace is LeadingSpace. */
  lemma LeadingSpaceUnique(s: Bytes, n: nat)
    requires n <= |s| && (forall i :: 0 <= i < n ==> IsSpace(s[i])) && (n < |s| ==> !IsSpace(s[n]))
    ensures LeadingSpace(s) == n
  {
  }

  /** Any count with the defining properties of TrailingSpace is TrailingSpace. */
  lemma TrailingSpaceUnique(s: Bytes, n: nat)
    requires n <= |s| && (forall i :: |s| - n <= i < |s| ==> IsSpace(s[i]))
    requires n < |s| ==> !IsSpace(s[|s| - n - 1])
    ensures TrailingSpace(s) == n
  {
  }

  /** Dropping a prefix that ends before a non-space byte keeps the trailing whitespace. */
  lemma TrailingSpaceSuffix(s: Bytes, k: nat)
    requires k < |s| && !IsSpace(s[k])
    ensures TrailingSpace(s[k..]) == TrailingSpace(s) < |s| - k
  {
    var t := s[k..];
    var z := TrailingSpace(t);
    assert t[|t| - z - 1] == s[|s| - z - 1];
    forall i | |s| - z <= i < |s| ensures IsSpace(s[i]) {
      assert s[i] == t[i - k];
    }
    TrailingSpaceUnique(s, z);
  }

  /** Trimming keeps the bytes between the leading whitespace and the trailing whitespace of what follows it. */
  lemma TrimmedFromParts(s: Bytes, k: nat, z: nat)
    requires k == LeadingSpace(s) < |s| && z == TrailingSpace(s[k..])
    ensures z < |s| - k && Trimmed(s) == s[k..][..|s| - k - z]
  {
    TrailingSpaceSuffix(s, k);
    assert Trimmed(s) == s[k..|s| - z];
    assert s[k..][..|s| - k - z] == s[k..|s| - z];
  }

  /**
   * What the shifting and clearing steps of `strbuf_trim` leave in front of
   * the buffer is the trimmed string: `shifted` holds `s` without its leading
   * whitespace, and `r` keeps it up to its last non-space byte.
   */
  lemma TrimmedResult(s: Bytes, leading: nat, shifted: Bytes, index: nat, r: Bytes, last: nat, cleared: nat)
    requires leading == LeadingSpace(s) < |s| && index == |s| - leading < |shifted|
    requires shifted[..index] == s[leading..]
    requires cleared == TrailingSpace(shifted[..index]) && last < index && cleared == index - 1 - last
    requires last + 1 <= |r| && r[..last + 1] == shifted[..last + 1]
    ensures r[..last + 1] == Trimmed(s)
  {
    TrimmedFromParts(s, leading, cleared);
    assert r[..last + 1] == shifted[..index][..last + 1];
  }

  /** The first loop of `strbuf_trim`: counts the whitespace before the NUL at `len`. */
  method SkipLeadingSpace(b: Bytes, len: nat) returns (leading: nat)
    requires len < |b| && b[len] == 0
    ensures leading == LeadingSpace(b[..len])
  {
    leading := 0;
    while leading < |b| && IsSpace(b[leading])
      invariant 0 <= leading <= len
      invariant forall i :: 0 <= i < leading ==> IsSpace(b[i])
    {
      leading := leading + 1;
    }
    LeadingSpaceUnique(b[..len], leading);
  }

  /** Zeroes the first `n` bytes. */
  method ZeroPrefix(b: Bytes, n: nat) returns (r: Bytes)
    requires n <= |b|
    ensures |r| == |b| && r[n..] == b[n..]
    ensures forall i :: 0 <= i < n ==> r[i] == 0
  {
    r := b;
    var index := 0;
    while index < n
      invariant 0 <= index <= n && |r| == |b|
      invariant forall i :: 0 <= i < index ==> r[i] == 0
      invariant r[index..] == b[index..]
    {
      r := r[index := 0];
      index := index + 1;
    }
  }

  /**
   * The shifting loop of `strbuf_trim`: copies the C string that starts at
   * `lo` to the front and NUL-terminates it there.
   */
  method ShiftToFront(b: Bytes, lo: nat, len: nat) returns (r: Bytes, index: nat)
    requires lo <= len < |b| && b[len] == 0
    requires forall i :: lo <= i < len ==> b[i] != 0
    ensures |r| == |b| && index == len - lo
    ensures r[..index] == b[lo..len] && r[index] == 0
  {
    r := b;
    index := 0;
    var leading := lo;
    while leading < |r| && r[leading] != 0
      invariant lo <= leading <= len && index == leading - lo && |r| == |b|
      invariant forall i :: 0 <= i < index ==> r[i] == b[lo + i]
      invariant forall i :: leading <= i < |r| ==> r[i] == b[i]
    {
      assert leading < len;
      r := r[index := r[leading]];
      index := index + 1;
      leading := leading + 1;
    }
    assert r[..index] == b[lo..len];
    r := r[index := 0];
  }

  /**
   * The backward loop of `strbuf_trim`: zeroes the whitespace at the end of
   * the string `b[..m]`, whose first byte is not whitespace. Returns the index
   * of the last byte kept and how many bytes were cleared.
   */
  method ClearTrailingSpace(b: Bytes, m: nat) returns (r: Bytes, last: nat, cleared: nat)
    requires 1 <= m < |b| && b[m] == 0 && !IsSpace(b[0])
    ensures |r| == |b| && last < m && cleared == m - 1 - last
    ensures cleared == TrailingSpace(b[..m])
    ensures r[..last + 1] == b[..last + 1] && r[last + 1] == 0
  {
    r := b;
    cleared := 0;
    var index: int := m - 1;
    while IsSpace(r[index])
      decreases index
      invariant 0 <= index < m && |r| == |b| && cleared == m - 1 - index
      invariant r[..index + 1] == b[..index + 1] && r[index + 1] == 0
      invariant forall i :: index < i < m ==> IsSpace(b[i])
      invariant r[0] == b[0]
    {
      assert r[index] == r[..index + 1][index];
      r := r[index := 0];
      cleared := cleared + 1;
      index := index - 1;
    }
    assert r[index] == r[..index + 1][index];
    TrailingSpaceUnique(b[..m], cleared);
    last := index;
  }

  class Strbuf {
    var buff: Bytes
    var len: nat
    var alloc: nat

    /** The memory is `alloc` bytes and the contents fit in it. */
    ghost predicate Valid()
      reads this
    {
      |buff| == alloc && len <= alloc
    }

    /** Valid, with the NUL byte right after the contents that makes `buff` a C string. */
    ghost predicate Terminated()
      reads this
    {
      Valid() && len < alloc && buff[len] == 0
    }

    /** The bytes held. */
    function Contents(): (r: Bytes)
      reads this
      requires Valid()
      ensures |r| == len
    {
      buff[..len]
    }

    /** `strbuf_init`: BUFF_SLOP zeroed bytes, no contents. */
    constructor Init()
      ensures Terminated() && Contents() == [] && alloc == BUFF_SLOP
      ensures buff == seq(BUFF_SLOP, _ => 0)
    {
      alloc := BUFF_SLOP;
      len := 0;
      buff := seq(BUFF_SLOP, _ => 0);
    }

    /** `strbuf_release`: the memory is freed and the buffer holds nothing. */
    method Release()
      modifies this
      ensures Valid() && buff == [] && alloc == 0 && len == 0
    {
      buff, alloc, len := [], 0, 0;
    }

    /**
     * `strbuf_grow`: a no-op when `size` already fits in the allocation,
     * otherwise the allocation becomes exactly `size` bytes. The test is done
     * in unsigned arithmetic, so for size 0 `size - 1` is the largest size_t
     * and the allocation shrinks to nothing. Bytes beyond the old allocation
     * are indeterminate, so nothing is promised about them.
     */
    method Grow(size: nat)
      requires Valid()
      modifies this
      ensures len == old(len)
      ensures 1 <= size <= old(alloc) ==> alloc == old(alloc) && buff == old(buff)
      ensures !(1 <= size <= old(alloc)) ==> alloc == size
      ensures |buff| == alloc && alloc >= size
      ensures size != 0 ==> Valid() && Contents() == old(Contents())
      ensures size != 0 ==> buff[..old(alloc)] == old(buff)
    {
      if 1 <= size <= alloc {
        return;
      }
      alloc := size;
      if size <= |buff| {
        buff := buff[..size];
      } else {
        buff := buff + seq(size - |buff|, _ => 0);
      }
    }

    /**
     * `strbuf_attach`: appends the bytes of `str` up to its first NUL or to
     * `bufferLen`, whichever comes first, and keeps the buffer NUL-terminated.
     */
    method Attach(str: Bytes, bufferLen: nat)
      requires Valid() && bufferLen <= |str|
      modifies this
      ensures Terminated() && alloc >= old(alloc)
      ensures Contents() == old(Contents()) + CStr(str[..bufferLen])
    {
      var strLen := CStrLen(str[..bufferLen]);
      if len + strLen + 1 >= alloc {
        Grow(alloc + bufferLen + BUFF_SLOP);
      }
      buff := buff[..len] + str[..strLen] + [0] + buff[len + strLen + 1..];
      len := len + strLen;
    }

    /** `strbuf_attach_str`: Attach with the length of the C string `str`. */
    method AttachStr(str: Bytes)
      requires Valid()
      modifies this
      ensures Terminated() && alloc >= old(alloc)
      ensures Contents() == old(Contents()) + CStr(str)
    {
      Attach(str, CStrLen(str));
    }

    /**
     * `strbuf_attach_bytes`: appends exactly `bufferLen` bytes, NULs included.
     * The contents stay strictly shorter than the allocation, but no NUL is
     * written after them.
     */
    method AttachBytes(mem: Bytes, bufferLen: nat)
      requires Valid() && bufferLen <= |mem|
      modifies this
      ensures Valid() && len < alloc && alloc >= old(alloc)
      ensures len == old(len) + bufferLen
      ensures Contents() == old(Contents()) + mem[..bufferLen]
    {
      if len + bufferLen >= alloc {
        Grow(alloc + bufferLen + BUFF_SLOP);
      }
      buff := buff[..len] + mem[..bufferLen] + buff[len + bufferLen..];
      len := len + bufferLen;
    }

    /**
     * `strbuf_trim`: strips leading and trailing whitespace from a
     * NUL-terminated string held in the buffer, shifting the rest to the
     * front, and returns how many bytes were removed.
     */
    method Trim() returns (trimmed: int)
      requires Terminated() && 0 !in Contents()
      modifies this
      ensures Terminated() && alloc == old(alloc)
      ensures Contents() == Trimmed(old(Contents()))
      ensures trimmed == old(len) - len
    {
      ghost var s := Contents();
      var leading := SkipLeadingSpace(buff, len);
      trimmed := leading;
      assert leading < len ==> buff[leading] == s[leading];
      if leading >= alloc || buff[leading] == 0 {
        // the string is all whitespace: clear what was skipped
        buff := ZeroPrefix(buff, leading);
        len := len - trimmed;
        return;
      }
      var b := buff;
      var index: nat := 0;
      if leading != index {
        b, index := ShiftToFront(buff, leading, len);
      } else {
        index := len;
      }
      ghost var shifted := b;
      var last, cleared;
      b, last, cleared := ClearTrailingSpace(b, index);
      TrimmedResult(s, leading, shifted, index, b, last, cleared);
      trimmed := trimmed + cleared;
      buff, len := b, len - trimmed;
    }

    /**
     * `strbuf_remove`: a no-op when `pos` is at or past the end or `n` is 0;
     * truncates to `pos` when the range runs past the end; otherwise deletes
     * exactly the bytes [pos, pos + n). A change leaves the buffer
     * NUL-terminated.
     */
    method Remove(pos: nat, n: nat)
      requires Valid()
      modifies this
      ensures Valid() && alloc == old(alloc)
      ensures pos >= old(len) || n == 0 ==> buff == old(buff) && len == old(len)
      ensures pos < old(len) && n > 0 ==> Terminated()
      ensures pos < old(len) && n > 0 && pos + n > old(len) ==> Contents() == old(Contents())[..pos]
      ensures pos < old(len) && n > 0 && pos + n <= old(len) ==>
                len == old(len) - n && Contents() == old(Contents())[..pos] + old(Contents())[pos + n..]
    {
      if pos >= len {
        return;
      }
      if n == 0 {
        return;
      }
      if pos + n > len {
        len := pos;
      } else {
        var partitionLen := len - (pos + n);
        buff := buff[..pos] + buff[pos + n..len] + buff[pos + partitionLen..];
        len := pos + partitionLen;
      }
      buff := buff[len := 0];
    }

    /** `strbuf_clear`: every allocated byte becomes zero and the contents are empty; the allocation is kept. */
    method Clear()
      requires Valid()
      modifies this
      ensures Valid() && len == 0 && alloc == old(alloc)
      ensures buff == seq(alloc, _ => 0)
      ensures alloc > 0 ==> Terminated()
    {
      buff := seq(alloc, _ => 0);
      len := 0;
    }

    /** `strbuf_detach`: hands over the memory and leaves the buffer released. */
    method Detach() returns (detached: Bytes)
      requires Valid()
      modifies this
      ensures detached == old(buff) && detached[..old(len)] == old(Contents())
      ensures Valid() && buff == [] && alloc == 0 && len == 0
    {
      detached := buff;
      Release();
    }

    /**
     * `strbuf_split`: with no delimiter or an empty one, pushes the whole C
     * string as one entry and returns 1. Otherwise appends, in order, the
     * pieces of the C string between successive leftmost occurrences of the
     * delimiter (SplitOn) to `result`, and returns how many it appended.
     */
    method Split(delim: Option<Bytes>, result: StringArray.StrArray) returns (inserted: int)
      requires Terminated() && result.Valid()
      requires delim.Some? ==> 0 !in delim.value
      modifies result
      ensures result.Valid()
      ensures delim.None? || delim.value == [] ==>
                inserted == 1 && result.Strings() == old(result.Strings()) + [CStr(buff)]
      ensures delim.Some? && delim.value != [] ==>
                var pieces := SplitOn(CStr(buff), delim.value);
                inserted == |pieces| && result.Strings() == old(result.Strings()) + pieces
    {
      var s := CStr(buff);
      if delim.None? || |delim.value| == 0 {
        var _ := result.Push([s]);
        return 1;
      }
      var d := delim.value;
      inserted := 0;
      var begin := 0;
      ghost var all := old(result.Strings()) + SplitOn(s, d);
      while true
        invariant 0 <= begin <= |s|
        invariant result.Valid()
        invariant result.Strings() + SplitFrom(s, d, begin) == all
        invariant inserted + |SplitFrom(s, d, begin)| == |SplitOn(s, d)|
        decreases |s| - begin
      {
        var found := FindFrom(s, d, begin);
        var stop := if found.Some? then found.value else |s|;
        var substring := s[begin..stop];
        ghost var before := result.Strings();
        InsertAtEnd(result, substring);
        inserted := inserted + 1;
        if found.None? {
          SplitPieceLast(s, d, begin, before, result.Strings(), all);
          return;
        }
        SplitPieceStep(s, d, begin, stop, before, result.Strings(), all);
        var next := stop + |d|;
        assert result.Strings() + SplitFrom(s, d, next) == all;
        begin := next;
      }
    }
  }

  /** `str_array_insert_nodup` at the end of the array, as the splitting loop calls it. */
  method InsertAtEnd(result: StringArray.StrArray, str: Bytes)
    requires result.Valid()
    modifies result
    ensures result.Valid() && result.Strings() == old(result.Strings()) + [str]
  {
    var _ := result.InsertNodup(str, result.len);
  }

  /** A NUL-terminated buffer without NULs in its contents is the C string it holds. */
  lemma CStrOfBuffer(buff: Bytes, len: nat)
    requires len < |buff| && buff[len] == 0 && 0 !in buff[..len]
    ensures CStr(buff) == buff[..len]
  {
    assert buff == buff[..len] + [0] + buff[len + 1..];
    CStrOfTerminated(buff[..len], buff[len + 1..]);
  }
}
