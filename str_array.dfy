/**
 * The growable array of strings (src/str-array.c). Each entry holds a string
 * and an optional general-purpose datum; the entry after the last string is
 * kept empty (a NULL sentinel) once anything has been stored.
 */
module StringArray {
  import opened Common

  /** Entries are added this many at a time when the array is full. */
  const BUFF_SLOP: nat := 8

  /**
   * One slot of the entries array: the string (NULL when absent) and the
   * datum. The only user of the datum (the chunk-type histogram) stores an
   * integer count in it, so it is modelled as an optional integer.
   */
  datatype Entry = Entry(str: Option<Bytes>, data: Option<int>)

  /** The all-NULL entry written as the sentinel and by clear. */
  const NullEntry := Entry(None, None)

  /** What an element of a detached pointer array points to. */
  datatype Pointer = NullPtr | StrPtr(s: Bytes) | IntPtr(v: int)

  /** `strcmp(a, b) <= 0` for C strings: bytes compared as unsigned, a prefix first. */
  predicate StrLeq(a: Bytes, b: Bytes)
  {
    |a| == 0 || (|b| > 0 && (a[0] < b[0] || (a[0] == b[0] && StrLeq(a[1..], b[1..]))))
  }

  lemma {:induction false} StrLeqTotal(a: Bytes, b: Bytes)
    ensures StrLeq(a, b) || StrLeq(b, a)
  {
    if |a| > 0 && |b| > 0 && a[0] == b[0] {
      StrLeqTotal(a[1..], b[1..]);
    }
  }

  lemma {:induction false} StrLeqTransitive(a: Bytes, b: Bytes, c: Bytes)
    requires StrLeq(a, b) && StrLeq(b, c)
    ensures StrLeq(a, c)
  {
    if |a| > 0 && |b| > 0 && |c| > 0 && a[0] == b[0] && b[0] == c[0] {
      StrLeqTransitive(a[1..], b[1..], c[1..]);
    }
  }

  lemma {:induction false} StrLeqAntisymmetric(a: Bytes, b: Bytes)
    requires StrLeq(a, b) && StrLeq(b, a)
    ensures a == b
  {
    if |a| > 0 && |b| > 0 {
      StrLeqAntisymmetric(a[1..], b[1..]);
      assert a == [a[0]] + a[1..];
      assert b == [b[0]] + b[1..];
    }
  }

  /** Every entry in `s` holds a string. */
  ghost predicate AllStrings(s: seq<Entry>)
  {
    forall i :: 0 <= i < |s| ==> s[i].str.Some?
  }

  /** Entries in non-decreasing `strcmp` order of their strings. */
  ghost predicate SortedEntries(s: seq<Entry>)
    requires AllStrings(s)
  {
    forall i, j :: 0 <= i < j < |s| ==> StrLeq(s[i].str.value, s[j].str.value)
  }

  /** Where `e` goes in the sorted `s`: after every entry whose string is not above it. */
  function InsertionPoint(s: seq<Entry>, e: Entry): (k: nat)
    requires AllStrings(s) && e.str.Some?
    ensures k <= |s|
    ensures forall i :: 0 <= i < k ==> StrLeq(s[i].str.value, e.str.value)
    ensures k < |s| ==> !StrLeq(s[k].str.value, e.str.value)
  {
    if |s| == 0 || !StrLeq(s[0].str.value, e.str.value) then 0
    else 1 + InsertionPoint(s[1..], e)
  }

  /** The entries of `s` in sorted order: the specification of `qsort` with `strcmp`. */
  function SortByString(s: seq<Entry>): (r: seq<Entry>)
    requires AllStrings(s)
    ensures |r| == |s| && AllStrings(r)
    ensures multiset(r) == multiset(s)
    decreases |s|
  {
    if |s| == 0 then []
    else
      var rest := SortByString(s[..|s| - 1]);
      var e := s[|s| - 1];
      var k := InsertionPoint(rest, e);
      SpliceEntry(rest, k, e);
      DropLastEntry(s);
      rest[..k] + [e] + rest[k..]
  }

  /** Splicing an entry with a string into entries with strings adds it to their multiset. */
  lemma SpliceEntry(es: seq<Entry>, k: nat, e: Entry)
    requires k <= |es| && AllStrings(es) && e.str.Some?
    ensures AllStrings(es[..k] + [e] + es[k..])
    ensures multiset(es[..k] + [e] + es[k..]) == multiset(es) + multiset{e}
  {
    assert es == es[..k] + es[k..];
    var r := es[..k] + [e] + es[k..];
    assert forall i :: 0 <= i < |r| ==> r[i] == if i < k then es[i] else if i == k then e else es[i - 1];
  }

  /** The multiset of a sequence is that of all but its last element, plus the last. */
  lemma DropLastEntry(s: seq<Entry>)
    requires |s| > 0
    ensures multiset(s) == multiset(s[..|s| - 1]) + multiset{s[|s| - 1]}
  {
    assert s == s[..|s| - 1] + [s[|s| - 1]];
  }

  /** Placing `e` at its insertion point keeps sorted entries sorted. */
  lemma InsertKeepsSorted(rest: seq<Entry>, e: Entry)
    requires AllStrings(rest) && e.str.Some? && SortedEntries(rest)
    ensures var k := InsertionPoint(rest, e);
            var r := rest[..k] + [e] + rest[k..];
            AllStrings(r) && SortedEntries(r)
  {
    var k := InsertionPoint(rest, e);
    if k < |rest| {
      StrLeqTotal(rest[k].str.value, e.str.value);
    }
    SpliceEntry(rest, k, e);
    SpliceSorted(rest, k, e);
  }

  /** An entry placed between the entries not above it and those not below it keeps sorted entries sorted. */
  lemma SpliceSorted(rest: seq<Entry>, k: nat, e: Entry)
    requires k <= |rest| && AllStrings(rest) && e.str.Some? && SortedEntries(rest)
    requires AllStrings(rest[..k] + [e] + rest[k..])
    requires forall i :: 0 <= i < k ==> StrLeq(rest[i].str.value, e.str.value)
    requires k < |rest| ==> StrLeq(e.str.value, rest[k].str.value)
    ensures SortedEntries(rest[..k] + [e] + rest[k..])
  {
    var r := rest[..k] + [e] + rest[k..];
    assert forall i :: 0 <= i < k ==> r[i] == rest[i];
    assert forall i :: k < i < |r| ==> r[i] == rest[i - 1];
    forall i, j | 0 <= i < j < |r| ensures StrLeq(r[i].str.value, r[j].str.value) {
      if i == k && j - 1 > k {
        StrLeqTransitive(e.str.value, rest[k].str.value, rest[j - 1].str.value);
      }
    }
  }

  /** Sorting yields entries in non-decreasing order of their strings. */
  lemma {:induction false} SortByStringSorted(s: seq<Entry>)
    requires AllStrings(s)
    ensures SortedEntries(SortByString(s))
    decreases |s|
  {
    if |s| > 0 {
      SortByStringSorted(s[..|s| - 1]);
      InsertKeepsSorted(SortByString(s[..|s| - 1]), s[|s| - 1]);
    }
  }

  /**
   * The entries after the shift loop of insert: the first `at` unchanged, the
   * rest moved one place right; writing `e` at `at` gives the insertion.
   */
  lemma ShiftedInsert(es: seq<Entry>, before: seq<Entry>, at: nat, e: Entry)
    requires at <= |before| < |es|
    requires forall j :: 0 <= j < at ==> es[j] == before[j]
    requires forall j :: at < j <= |before| ==> es[j] == before[j - 1]
    ensures es[at := e][..|before| + 1] == before[..at] + [e] + before[at..]
  {
    var want := before[..at] + [e] + before[at..];
    forall j | 0 <= j <= |before| ensures es[at := e][j] == want[j] {
      if j < at {
        assert want[j] == before[j];
      } else if j > at {
        assert want[j] == before[j - 1];
      }
    }
  }

  /**
   * The shift loop of insert: moves the entries at `pos` up to `len` one
   * place right, working down from the end.
   */
  method ShiftRight(es: seq<Entry>, pos: nat, len: nat) returns (r: seq<Entry>)
    requires pos <= len < |es|
    ensures |r| == |es| && r[len + 1..] == es[len + 1..]
    ensures forall j :: 0 <= j < pos ==> r[j] == es[j]
    ensures forall j :: pos < j <= len ==> r[j] == es[j - 1]
  {
    r := es;
    var i := len;
    while i > pos
      invariant pos <= i <= len && |r| == |es|
      invariant r[..i] == es[..i] && r[len + 1..] == es[len + 1..]
      invariant forall j :: i < j <= len ==> r[j] == es[j - 1]
    {
      assert r[i - 1] == r[..i][i - 1];
      r := r[i := r[i - 1]];
      i := i - 1;
    }
    assert forall j :: 0 <= j < pos ==> r[j] == r[..i][j];
  }

  /** The strings of entries that all hold one. */
  function StringsOf(es: seq<Entry>): (r: seq<Bytes>)
    requires AllStrings(es)
    ensures |r| == |es|
    ensures forall i :: 0 <= i < |es| ==> r[i] == es[i].str.value
  {
    seq(|es|, i requires 0 <= i < |es| && AllStrings(es) => es[i].str.value)
  }

  /**
   * Writing the new entry into the gap that shifting opened gives the old
   * entries with the entry spliced in at `at`, and splices its string into
   * the strings.
   */
  lemma InsertedEntries(es: seq<Entry>, before: seq<Entry>, at: nat, str: Bytes)
    requires at <= |before| < |es| && AllStrings(before)
    requires forall j :: 0 <= j < at ==> es[j] == before[j]
    requires forall j :: at < j <= |before| ==> es[j] == before[j - 1]
    ensures var e := Entry(Some(str), None);
            es[at := e][..|before| + 1] == before[..at] + [e] + before[at..]
    ensures AllStrings(es[at := Entry(Some(str), None)][..|before| + 1])
    ensures StringsOf(es[at := Entry(Some(str), None)][..|before| + 1])
              == StringsOf(before)[..at] + [str] + StringsOf(before)[at..]
    ensures at == |before| ==> StringsOf(es[at := Entry(Some(str), None)][..|before| + 1]) == StringsOf(before) + [str]
  {
    var e := Entry(Some(str), None);
    ShiftedInsert(es, before, at, e);
    StringsOfSplice(before, at, e);
    assert StringsOf(before)[at..] == [] <== at == |before|;
  }

  /** Splicing an entry into a sequence splices its string into the strings. */
  lemma StringsOfSplice(es: seq<Entry>, at: nat, e: Entry)
    requires AllStrings(es) && e.str.Some? && at <= |es|
    ensures AllStrings(es[..at] + [e] + es[at..])
    ensures StringsOf(es[..at] + [e] + es[at..]) == StringsOf(es)[..at] + [e.str.value] + StringsOf(es)[at..]
  {
    var spliced := es[..at] + [e] + es[at..];
    assert forall i :: 0 <= i < |spliced| ==> spliced[i] == (if i < at then es[i] else if i == at then e else es[i - 1]);
  }

  /** The entries that pushing `args` appends: each string with no datum. */
  ghost function Fresh(args: seq<Bytes>): (r: seq<Entry>)
    ensures |r| == |args|
  {
    if |args| == 0 then [] else Fresh(args[..|args| - 1]) + [Entry(Some(args[|args| - 1]), None)]
  }

  /** Appending fresh entries appends their strings, and none of them has a datum. */
  lemma {:induction false} FreshEntries(es: seq<Entry>, args: seq<Bytes>)
    requires AllStrings(es)
    ensures AllStrings(es + Fresh(args))
    ensures StringsOf(es + Fresh(args)) == StringsOf(es) + args
    ensures (es + Fresh(args))[..|es|] == es
    ensures forall i :: |es| <= i < |es| + |args| ==> (es + Fresh(args))[i].data.None?
    decreases |args|
  {
    if |args| > 0 {
      var init := args[..|args| - 1];
      FreshEntries(es, init);
      var e := Entry(Some(args[|args| - 1]), None);
      assert es + Fresh(args) == (es + Fresh(init)) + [e];
      assert args == init + [args[|args| - 1]];
    }
  }

  class StrArray {
    var entries: seq<Entry>
    var len: nat
    var alloc: nat
    var freeData: bool

    /** The entries array has `alloc` slots and every used slot holds a string. */
    ghost predicate Allocated()
      reads this
    {
      |entries| == alloc && len <= alloc && AllStrings(entries[..len])
    }

    /** Allocated, and once anything is allocated the slot after the last string is the sentinel. */
    ghost predicate Valid()
      reads this
    {
      Allocated() && (alloc > 0 ==> len < alloc && entries[len] == NullEntry)
    }

    /** The stored strings, in order. */
    function Strings(): (r: seq<Bytes>)
      reads this
      requires Allocated()
      ensures |r| == len
    {
      StringsOf(entries[..len])
    }

    /** `str_array_init`: no entries, nothing allocated. */
    constructor Init()
      ensures Valid() && Strings() == [] && alloc == 0 && !freeData
    {
      entries, len, alloc, freeData := [], 0, 0, false;
    }

    /**
     * `str_array_grow`: a no-op when `size` does not exceed the number of
     * strings, otherwise the allocation becomes exactly `size` slots (which
     * may be fewer than before). The size test is done in unsigned
     * arithmetic, so `size - 1` for size 0 is the largest size_t and an
     * allocation of zero slots results. Slots beyond the old allocation hold
     * indeterminate values, so nothing is promised about them.
     */
    method Grow(size: nat)
      requires Allocated()
      modifies this
      ensures len == old(len) && freeData == old(freeData)
      ensures 1 <= size <= old(len) ==> alloc == old(alloc) && entries == old(entries)
      ensures !(1 <= size <= old(len)) ==> alloc == size
      ensures |entries| == alloc
      ensures size >= 1 || old(len) == 0 ==> Allocated() && entries[..len] == old(entries[..len])
      ensures var keep := if alloc < old(alloc) then alloc else old(alloc);
              entries[..keep] == old(entries)[..keep]
    {
      if 1 <= size <= len {
        return;
      }
      alloc := size;
      if size <= |entries| {
        entries := entries[..size];
      } else {
        entries := entries + seq(size - |entries|, _ => NullEntry);
      }
    }

    /** `str_array_get`: NULL past the end, otherwise the string at `pos`. */
    function Get(pos: nat): (r: Option<Bytes>)
      reads this
      requires Allocated()
      ensures r.None? <==> pos >= len
      ensures pos < len ==> r == Some(Strings()[pos])
    {
      if pos >= len then None else entries[pos].str
    }

    /** `str_array_get_entry`: NULL past the end, otherwise the entry at `pos`. */
    function GetEntry(pos: nat): (r: Option<Entry>)
      reads this
      requires Allocated()
      ensures r.None? <==> pos >= len
      ensures pos < len ==> r.value.str == Some(Strings()[pos])
    {
      if pos >= len then None else Some(entries[pos])
    }

    /**
     * `str_array_set_nodup`: returns 1 and changes nothing when `pos` is past
     * the end; otherwise replaces the entry at `pos` by `str` with no datum.
     */
    method SetNodup(str: Bytes, pos: nat) returns (rc: int)
      requires Valid()
      modifies this
      ensures Valid() && len == old(len) && alloc == old(alloc)
      ensures rc == (if pos >= old(len) then 1 else 0)
      ensures pos >= old(len) ==> entries == old(entries)
      ensures pos < old(len) ==> entries == old(entries)[pos := Entry(Some(str), None)]
    {
      if pos >= len {
        return 1;
      }
      entries := entries[pos := Entry(Some(str), None)];
      assert entries[..len] == old(entries[..len])[pos := Entry(Some(str), None)];
      return 0;
    }

    /** `str_array_set`: as SetNodup, on a copy of `str` (a copy of a value is the value). */
    method Set(str: Bytes, pos: nat) returns (rc: int)
      requires Valid()
      modifies this
      ensures Valid() && len == old(len) && alloc == old(alloc)
      ensures rc == (if pos >= old(len) then 1 else 0)
      ensures pos >= old(len) ==> entries == old(entries)
      ensures pos < old(len) ==> entries == old(entries)[pos := Entry(Some(str), None)]
    {
      if pos >= len {
        return 1;
      }
      rc := SetNodup(str, pos);
    }

    /**
     * `str_array_vpush`: appends each argument in order, growing by
     * BUFF_SLOP slots whenever fewer than two free slots remain, and keeps the
     * NULL sentinel after the last string. Returns the number pushed.
     */
    method VPush(args: seq<Bytes>) returns (count: int)
      requires Valid()
      modifies this
      ensures Valid() && freeData == old(freeData)
      ensures count == |args|
      ensures Strings() == old(Strings()) + args
      ensures entries[..old(len)] == old(entries[..len])
      ensures forall i :: old(len) <= i < len ==> entries[i].data.None?
    {
      ghost var before := entries[..len];
      count := 0;
      var k := 0;
      while k < |args|
        invariant 0 <= k <= |args| && count == k
        invariant Valid() && freeData == old(freeData)
        invariant len == old(len) + k
        invariant entries[..len] == before + Fresh(args[..k])
      {
        PushOne(args[k]);
        assert Fresh(args[..k + 1]) == Fresh(args[..k]) + [Entry(Some(args[k]), None)] by {
          assert args[..k + 1][..k] == args[..k];
        }
        count := count + 1;
        k := k + 1;
      }
      assert args[..k] == args;
      FreshEntries(before, args);
    }

    /** The growth step of push and insert: when fewer than two free slots remain, BUFF_SLOP more are allocated. */
    method Reserve()
      requires Valid()
      modifies this
      ensures Allocated() && len + 2 < alloc
      ensures len == old(len) && freeData == old(freeData) && entries[..len] == old(entries[..len])
    {
      if len + 2 >= alloc {
        Grow(alloc + BUFF_SLOP);
      }
    }

    /**
     * One round of the push loop: reserves room, stores `str` with no
     * datum after the last string and writes the sentinel after it.
     */
    method PushOne(str: Bytes)
      requires Valid()
      modifies this
      ensures Valid() && freeData == old(freeData) && len == old(len) + 1
      ensures entries[..len] == old(entries[..len]) + [Entry(Some(str), None)]
    {
      Reserve();
      ghost var prefix := entries[..len];
      var e := Entry(Some(str), None);
      entries := entries[len := e];
      len := len + 1;
      entries := entries[len := NullEntry];
      assert entries[..len] == prefix + [e];
    }

    /** `str_array_push`: the variadic form of VPush. */
    method Push(args: seq<Bytes>) returns (count: int)
      requires Valid()
      modifies this
      ensures Valid() && freeData == old(freeData)
      ensures count == |args|
      ensures Strings() == old(Strings()) + args
      ensures entries[..old(len)] == old(entries[..len])
    {
      count := VPush(args);
    }

    /**
     * `str_array_insert_nodup`: places `str` (with no datum) at `pos`, shifting
     * the entries from `pos` on one place right; a position at or past the end
     * appends. Returns the index the entry landed at.
     */
    method InsertNodup(str: Bytes, pos: nat) returns (at: nat)
      requires Valid()
      modifies this
      ensures Valid() && freeData == old(freeData)
      ensures at == (if pos < old(len) then pos else old(len))
      ensures len == old(len) + 1
      ensures entries[..len] == old(entries[..len])[..at] + [Entry(Some(str), None)] + old(entries[..len])[at..]
      ensures Strings() == old(Strings())[..at] + [str] + old(Strings())[at..]
      ensures pos >= old(len) ==> Strings() == old(Strings()) + [str]
    {
      Reserve();
      ghost var before := entries[..len];
      var es := entries[len + 1 := NullEntry];
      assert forall j :: 0 <= j < len ==> es[j] == before[j];
      at := pos;
      if pos < len {
        es := ShiftRight(es, pos, len);
      } else {
        at := len;
      }
      InsertedEntries(es, before, at, str);
      var newLen := len + 1;
      es := es[at := Entry(Some(str), None)];
      entries, len := es, newLen;
    }

    /** `str_array_insert`: as InsertNodup, on a copy of `str`. */
    method Insert(str: Bytes, pos: nat) returns (at: nat)
      requires Valid()
      modifies this
      ensures Valid() && freeData == old(freeData)
      ensures at == (if pos < old(len) then pos else old(len))
      ensures len == old(len) + 1
      ensures entries[..len] == old(entries[..len])[..at] + [Entry(Some(str), None)] + old(entries[..len])[at..]
      ensures Strings() == old(Strings())[..at] + [str] + old(Strings())[at..]
      ensures pos >= old(len) ==> Strings() == old(Strings()) + [str]
    {
      at := InsertNodup(str, pos);
    }

    /**
     * `str_array_remove`: NULL when `pos` is past the end; otherwise returns the
     * string at `pos`, shifts the later entries one place left and writes the
     * sentinel after the new last string.
     */
    method Remove(pos: nat) returns (removed: Option<Bytes>)
      requires Valid()
      modifies this
      ensures Valid() && alloc == old(alloc) && freeData == old(freeData)
      ensures pos >= old(len) ==> removed.None? && entries == old(entries) && len == old(len)
      ensures pos < old(len) ==> removed == Some(old(Strings())[pos]) && len == old(len) - 1
      ensures pos < old(len) ==> entries[..len] == old(entries[..len])[..pos] + old(entries[..len])[pos + 1..]
    {
      if pos >= len {
        return None;
      }
      removed := entries[pos].str;
      ghost var before := entries[..len];
      var i := pos;
      while i < len - 1
        invariant len == old(len) && alloc == old(alloc) && freeData == old(freeData)
        invariant pos <= i <= len - 1
        invariant |entries| == alloc
        invariant entries[..pos] == before[..pos]
        invariant forall j :: pos <= j < i ==> entries[j] == before[j + 1]
        invariant entries[i..len] == before[i..]
      {
        entries := entries[i := entries[i + 1]];
        i := i + 1;
      }
      len := len - 1;
      entries := entries[len := NullEntry];
      assert entries[..len] == before[..pos] + before[pos + 1..];
    }

    /**
     * `str_array_clear`: every used entry becomes NULL and the array holds no
     * strings; the allocation is kept.
     */
    method Clear()
      requires Valid()
      modifies this
      ensures Valid() && len == 0 && alloc == old(alloc) && freeData == old(freeData)
      ensures entries[..old(len)] == seq(old(len), _ => NullEntry)
      ensures entries[old(len)..] == old(entries)[old(len)..]
    {
      var i := 0;
      while i < len
        invariant len == old(len) && alloc == old(alloc) && freeData == old(freeData)
        invariant 0 <= i <= len && |entries| == alloc
        invariant entries[..i] == seq(i, _ => NullEntry)
        invariant entries[i..] == old(entries)[i..]
      {
        entries := entries[i := NullEntry];
        i := i + 1;
      }
      len := 0;
    }

    /**
     * `str_array_detach_internal`: hands back a fresh array holding either
     * every string (`data` false) or every datum (`data` true) in order,
     * followed by NULL, together with the count; the str_array itself returns
     * to its initial empty state.
     */
    method DetachInternal(data: bool) returns (arr: seq<Pointer>, count: nat)
      requires Valid()
      modifies this
      ensures Valid() && len == 0 && alloc == 0 && entries == [] && !freeData
      ensures count == old(len) && |arr| == count + 1 && arr[count] == NullPtr
      ensures !data ==> forall i :: 0 <= i < count ==> arr[i] == StrPtr(old(Strings())[i])
      ensures data ==> forall i :: 0 <= i < count ==>
                arr[i] == (if old(entries)[i].data.Some? then IntPtr(old(entries)[i].data.value) else NullPtr)
    {
      arr := [];
      var i := 0;
      while i < len
        invariant 0 <= i <= len && |arr| == i
        invariant len == old(len) && alloc == old(alloc) && freeData == old(freeData)
        invariant |entries| == alloc && forall j :: i <= j < alloc ==> entries[j] == old(entries)[j]
        invariant !data ==> forall j :: 0 <= j < i ==> arr[j] == StrPtr(old(Strings())[j])
        invariant data ==> forall j :: 0 <= j < i ==>
                    arr[j] == (if old(entries)[j].data.Some? then IntPtr(old(entries)[j].data.value) else NullPtr)
      {
        var e := entries[i];
        if data {
          arr := arr + [if e.data.Some? then IntPtr(e.data.value) else NullPtr];
        } else {
          arr := arr + [StrPtr(e.str.value)];
        }
        entries := entries[i := NullEntry];
        i := i + 1;
      }
      count := len;
      arr := arr + [NullPtr];
      entries, len, alloc, freeData := [], 0, 0, false;
    }

    /** `str_array_detach`: DetachInternal for the strings. */
    method Detach() returns (arr: seq<Pointer>, count: nat)
      requires Valid()
      modifies this
      ensures Valid() && len == 0 && alloc == 0 && entries == [] && !freeData
      ensures count == old(len) && |arr| == count + 1 && arr[count] == NullPtr
      ensures forall i :: 0 <= i < count ==> arr[i] == StrPtr(old(Strings())[i])
    {
      arr, count := DetachInternal(false);
    }

    /**
     * `str_array_sort`: the entries (Bytes and datum together) are permuted
     * into non-decreasing `strcmp` order of their strings; nothing else changes.
     */
    method Sort()
      requires Valid()
      modifies this
      ensures Valid() && len == old(len) && alloc == old(alloc) && freeData == old(freeData)
      ensures multiset(entries[..len]) == multiset(old(entries[..len]))
      ensures SortedEntries(entries[..len])
      ensures entries[len..] == old(entries[len..])
    {
      var sorted := SortByString(entries[..len]);
      SortByStringSorted(entries[..len]);
      entries := sorted + entries[len..];
      assert entries[..len] == sorted;
    }
  }
}
