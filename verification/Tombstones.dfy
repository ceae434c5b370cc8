/**
  The two-pointer walk that carries tombstones from one list of row ids to another, and what it
  marks: the leftmost embedding of the longest possible prefix of the entries.

  A slice is a stretch [lo, hi) of a segment's row-id mapping; entries are row ids in the order in
  which they occur there, unless rows have been compacted away.
 */
module Tombstones {

  /** Entries matched after the walk has passed `map[lo..hi)`. */
  function MatchCount(map_: seq<int>, lo: nat, hi: nat, entries: seq<int>): (w: nat)
    requires lo <= hi <= |map_|
    ensures w <= |entries| && w <= hi - lo
    decreases hi
  {
    if hi == lo then 0 else
      var w := MatchCount(map_, lo, hi - 1, entries);
      if w < |entries| && map_[hi - 1] == entries[w] then w + 1 else w
  }

  /** The walk matches an entry at position `p`. */
  predicate Marked(map_: seq<int>, lo: nat, p: nat, entries: seq<int>)
    requires lo <= p < |map_|
  {
    var w := MatchCount(map_, lo, p, entries);
    w < |entries| && map_[p] == entries[w]
  }

  /* ---- What the walk marks ---- */

  /** `f` places the first `n` entries, in order, at rows of the slice that carry their ids. */
  ghost predicate Embeds(map_: seq<int>, lo: nat, hi: nat, entries: seq<int>, n: nat, f: seq<nat>)
    requires lo <= hi <= |map_|
  {
    && n <= |entries| && |f| == n
    && (forall i :: 0 <= i < n ==> lo <= f[i] < hi && map_[f[i]] == entries[i])
    && (forall i, j :: 0 <= i < j < n ==> f[i] < f[j])
  }

  /** The marks are an embedding of as many entries as were matched. */
  lemma {:induction false} MarksEmbed(map_: seq<int>, lo: nat, hi: nat, entries: seq<int>) returns (f: seq<nat>)
    requires lo <= hi <= |map_|
    ensures Embeds(map_, lo, hi, entries, MatchCount(map_, lo, hi, entries), f)
    ensures forall p :: lo <= p < hi ==> (Marked(map_, lo, p, entries) <==> p in f)
    decreases hi
  {
    if hi == lo {
      f := [];
    } else {
      f := MarksEmbed(map_, lo, hi - 1, entries);
      if Marked(map_, lo, hi - 1, entries) {
        f := f + [hi - 1];
      }
    }
  }

  /** The row at which the walk matched entry `q`. */
  lemma {:induction false} MatchedAt(map_: seq<int>, lo: nat, hi: nat, entries: seq<int>, q: nat) returns (p: nat)
    requires lo <= hi <= |map_| && q < MatchCount(map_, lo, hi, entries)
    ensures lo <= p < hi && Marked(map_, lo, p, entries) && MatchCount(map_, lo, p, entries) == q
    decreases hi
  {
    if q < MatchCount(map_, lo, hi - 1, entries) {
      p := MatchedAt(map_, lo, hi - 1, entries, q);
    } else {
      p := hi - 1;
    }
  }

  /** No embedding places an entry earlier than the walk, or places more entries. */
  lemma {:induction false} WalkIsEarliest(map_: seq<int>, lo: nat, hi: nat, entries: seq<int>, n: nat, g: seq<nat>, i: nat)
    requires lo <= hi <= |map_| && Embeds(map_, lo, hi, entries, n, g) && i < n
    ensures i < MatchCount(map_, lo, g[i] + 1, entries)
    decreases i
  {
    var p := g[i];
    if i > 0 {
      WalkIsEarliest(map_, lo, hi, entries, n, g, i - 1);
      CountGrows(map_, lo, g[i - 1] + 1, p, entries);
    }
  }

  lemma {:induction false} CountGrows(map_: seq<int>, lo: nat, a: nat, b: nat, entries: seq<int>)
    requires lo <= a <= b <= |map_|
    ensures MatchCount(map_, lo, a, entries) <= MatchCount(map_, lo, b, entries)
    decreases b
  {
    if a < b {
      CountGrows(map_, lo, a, b - 1, entries);
    }
  }

  /** The walk matches the longest prefix of the entries that embeds in the slice at all. */
  lemma LongestPrefix(map_: seq<int>, lo: nat, hi: nat, entries: seq<int>, n: nat)
    requires lo <= hi <= |map_| && n <= |entries|
    ensures (exists f :: Embeds(map_, lo, hi, entries, n, f)) <==> n <= MatchCount(map_, lo, hi, entries)
  {
    var w := MatchCount(map_, lo, hi, entries);
    if n <= w {
      var f := MarksEmbed(map_, lo, hi, entries);
      assert Embeds(map_, lo, hi, entries, n, f[..n]);
    }
    if n > 0 && exists g :: Embeds(map_, lo, hi, entries, n, g) {
      var g :| Embeds(map_, lo, hi, entries, n, g);
      WalkIsEarliest(map_, lo, hi, entries, n, g, n - 1);
      CountGrows(map_, lo, g[n - 1] + 1, hi, entries);
    }
  }

  /** All entries are marked exactly when the whole list embeds. */
  lemma AllMarkedIffEmbeds(map_: seq<int>, lo: nat, hi: nat, entries: seq<int>)
    requires lo <= hi <= |map_|
    ensures MatchCount(map_, lo, hi, entries) == |entries| <==>
            exists f :: Embeds(map_, lo, hi, entries, |entries|, f)
  {
    LongestPrefix(map_, lo, hi, entries, |entries|);
  }

  ghost predicate DistinctRows(map_: seq<int>, lo: nat, hi: nat)
    requires lo <= hi <= |map_|
  {
    forall i, j :: lo <= i < j < hi ==> map_[i] != map_[j]
  }

  /** With distinct row ids and an embedding list, the marked rows are exactly those listed. */
  lemma MarkedIffListed(map_: seq<int>, lo: nat, hi: nat, entries: seq<int>, f: seq<nat>, p: nat)
    requires lo <= hi <= |map_| && DistinctRows(map_, lo, hi) && lo <= p < hi
    requires Embeds(map_, lo, hi, entries, |entries|, f)
    ensures Marked(map_, lo, p, entries) <==> map_[p] in entries
  {
    LongestPrefix(map_, lo, hi, entries, |entries|);
    if map_[p] in entries {
      var i :| 0 <= i < |entries| && entries[i] == map_[p];
      var p' := MatchedAt(map_, lo, hi, entries, i);
    }
  }

  /* ---- Counting set bits ---- */

  function CountSet(bits: seq<bool>): nat {
    if bits == [] then 0 else CountSet(bits[..|bits| - 1]) + if bits[|bits| - 1] then 1 else 0
  }

  lemma {:induction false} CountAfterSet(bits: seq<bool>, i: nat)
    requires i < |bits| && !bits[i]
    ensures CountSet(bits[i := true]) == CountSet(bits) + 1
  {
    var n := |bits| - 1;
    if i == n {
      assert bits[i := true][..n] == bits[..n];
    } else {
      assert bits[i := true][..n] == bits[..n][i := true];
      CountAfterSet(bits[..n], i);
    }
  }

  /** More bits set means a larger count, and the same count the same bits. */
  lemma {:induction false} MoreSet(a: seq<bool>, b: seq<bool>)
    requires |a| == |b| && forall p :: 0 <= p < |a| ==> (a[p] ==> b[p])
    ensures CountSet(a) <= CountSet(b) && (CountSet(a) == CountSet(b) ==> a == b)
  {
    if a != [] {
      var n := |a| - 1;
      MoreSet(a[..n], b[..n]);
      assert a == a[..n] + [a[n]] && b == b[..n] + [b[n]];
    }
  }

  /** Sets a bit that is not set yet. */
  method SetSlot(bitmap: array<bool>, i: nat)
    requires i < bitmap.Length && !bitmap[i]
    modifies bitmap
    ensures bitmap[..] == old(bitmap[..])[i := true]
    ensures CountSet(bitmap[..]) == CountSet(old(bitmap[..])) + 1
  {
    CountAfterSet(bitmap[..], i);
    bitmap[i] := true;
    assert bitmap[..] == old(bitmap[..])[i := true];
  }

  /* ---- The walks themselves ---- */

  /**
    Walks the slice and sets the bit of every matched row; `applied` counts the bits that were not
    set before.
   */
  method MarkSlice(map_: seq<int>, bitmap: array<bool>, lo: nat, hi: nat, entries: seq<int>) returns (applied: nat)
    requires lo <= hi <= |map_| == bitmap.Length
    modifies bitmap
    ensures forall p :: 0 <= p < bitmap.Length ==>
      bitmap[p] == (old(bitmap[p]) || (lo <= p < hi && Marked(map_, lo, p, entries)))
    ensures CountSet(bitmap[..]) == CountSet(old(bitmap[..])) + applied
  {
    applied := 0;
    var m, w := lo, 0;
    while m < hi && w < |entries|
      invariant lo <= m <= hi && w == MatchCount(map_, lo, m, entries)
      invariant forall p :: 0 <= p < bitmap.Length ==>
        bitmap[p] == (old(bitmap[p]) || (lo <= p < m && Marked(map_, lo, p, entries)))
      invariant CountSet(bitmap[..]) == CountSet(old(bitmap[..])) + applied
    {
      if map_[m] == entries[w] {
        if !bitmap[m] {
          SetSlot(bitmap, m);
          applied := applied + 1;
        }
        w := w + 1;
      }
      m := m + 1;
    }
    forall p | m <= p < hi ensures !Marked(map_, lo, p, entries) {
      CountGrows(map_, lo, m, p, entries);
    }
  }

  /* ---- Offset tables ---- */

  /**
    The slice of one source memtable inside a segment. A table has one entry for every sid of the
    segment's range; where the range has gaps, the entries left over are padding, of sid 0.
   */
  datatype OffsetRange = OffsetRange(sid: nat, lo: nat, hi: nat)

  /** Slices follow one another and cover all rows; no source memtable has two; padding is empty, wherever it is. */
  ghost predicate OffsetsOk(offsets: seq<OffsetRange>, rows: nat) {
    && (forall k :: 0 <= k < |offsets| ==> offsets[k].lo <= offsets[k].hi <= rows && (offsets[k].sid == 0 ==> offsets[k].lo == offsets[k].hi))
    && (forall i, j :: 0 <= i < j < |offsets| && offsets[j].sid > 0 ==> offsets[i].hi <= offsets[j].lo && offsets[i].sid != offsets[j].sid)
    && (forall p :: 0 <= p < rows ==> InSomeSlice(offsets, p))
  }

  ghost predicate InSomeSlice(offsets: seq<OffsetRange>, p: nat) {
    exists k :: 0 <= k < |offsets| && offsets[k].lo <= p < offsets[k].hi
  }

  /** Sids ascend along the slices of the table; a merge that puts the later segment first breaks this. */
  ghost predicate SidsAscend(offsets: seq<OffsetRange>) {
    forall i, j :: 0 <= i < j < |offsets| && offsets[i].sid > 0 && offsets[j].sid > 0 ==> offsets[i].sid < offsets[j].sid
  }

  /** The index at which bisection of `offsets[lo..hi]` finds an id, or -1. */
  function Bisect(offsets: seq<OffsetRange>, lo: int, hi: int, sid: nat): (r: int)
    requires 0 <= lo && hi < |offsets|
    ensures r == -1 || (lo <= r <= hi && offsets[r].sid == sid)
    decreases hi - lo
  {
    if lo > hi then -1 else
      var mid := lo + (hi - lo) / 2;
      if offsets[mid].sid == sid then mid
      else if offsets[mid].sid < sid then Bisect(offsets, mid + 1, hi, sid)
      else Bisect(offsets, lo, mid - 1, sid)
  }

  method OffsetIndexForSid(offsets: seq<OffsetRange>, sid: nat) returns (idx: int)
    ensures idx == Bisect(offsets, 0, |offsets| - 1, sid)
  {
    var lo, hi := 0, |offsets| - 1;
    while lo <= hi
      invariant 0 <= lo && hi < |offsets|
      invariant Bisect(offsets, lo, hi, sid) == Bisect(offsets, 0, |offsets| - 1, sid)
      decreases hi - lo
    {
      var mid := lo + (hi - lo) / 2;
      if offsets[mid].sid == sid {
        return mid;
      }
      if offsets[mid].sid < sid {
        lo := mid + 1;
      } else {
        hi := mid - 1;
      }
    }
    return -1;
  }

  /** On its way to entry `k` bisection of `[lo, hi]` meets no padding to the right of it: sid 0 would send it on to the right. */
  predicate ClearPath(offsets: seq<OffsetRange>, lo: int, hi: int, k: int)
    requires 0 <= lo && hi < |offsets|
    decreases hi - lo
  {
    lo <= hi &&
    var mid := lo + (hi - lo) / 2;
    k == mid || (if k < mid then offsets[mid].sid > 0 && ClearPath(offsets, lo, mid - 1, k) else ClearPath(offsets, mid + 1, hi, k))
  }

  /** The same for the part of the table from `lo` on. */
  predicate Clear(offsets: seq<OffsetRange>, lo: nat, k: int) {
    ClearPath(offsets, lo, |offsets| - 1, k)
  }

  ghost predicate NoPaddingInTheWay(offsets: seq<OffsetRange>) {
    forall k {:trigger Clear(offsets, 0, k)} :: 0 <= k < |offsets| && offsets[k].sid > 0 ==> Clear(offsets, 0, k)
  }

  /** Entry `k` is where bisection for its sid ends. */
  ghost predicate Found(offsets: seq<OffsetRange>, k: nat)
    requires k < |offsets|
  {
    Bisect(offsets, 0, |offsets| - 1, offsets[k].sid) == k
  }

  /** What bisection relies on: slices in sid order, and padding out of its way. */
  ghost predicate Searchable(offsets: seq<OffsetRange>) {
    SidsAscend(offsets) && NoPaddingInTheWay(offsets)
  }

  ghost predicate AllFound(offsets: seq<OffsetRange>) {
    forall k {:trigger Found(offsets, k)} :: 0 <= k < |offsets| && offsets[k].sid > 0 ==> Found(offsets, k)
  }

  /** Bisection finds every slice of the table exactly when the sids ascend and no padding is in the way. */
  lemma BisectFindsAllIff(offsets: seq<OffsetRange>)
    ensures AllFound(offsets) <==> Searchable(offsets)
  {
    if Searchable(offsets) {
      forall k | 0 <= k < |offsets| && offsets[k].sid > 0 ensures Found(offsets, k) {
        assert Clear(offsets, 0, k);
        AscendingIsFound(offsets, 0, |offsets| - 1, k);
      }
    }
    if AllFound(offsets) {
      FoundIsSearchable(offsets);
    }
  }

  lemma FoundIsSearchable(offsets: seq<OffsetRange>)
    requires AllFound(offsets)
    ensures Searchable(offsets)
  {
    forall i, j | 0 <= i < j < |offsets| && offsets[i].sid > 0 && offsets[j].sid > 0 ensures offsets[i].sid < offsets[j].sid {
      assert Found(offsets, i) && Found(offsets, j);
      FoundIsAscending(offsets, 0, |offsets| - 1, i, j);
    }
    forall k | 0 <= k < |offsets| && offsets[k].sid > 0 ensures Clear(offsets, 0, k) {
      assert Found(offsets, k);
      FoundIsClear(offsets, 0, |offsets| - 1, k);
    }
  }

  lemma {:induction false} AscendingIsFound(offsets: seq<OffsetRange>, lo: int, hi: int, k: nat)
    requires 0 <= lo <= k <= hi < |offsets| && offsets[k].sid > 0
    requires SidsAscend(offsets) && ClearPath(offsets, lo, hi, k)
    ensures Bisect(offsets, lo, hi, offsets[k].sid) == k
    decreases hi - lo
  {
    var mid := lo + (hi - lo) / 2;
    if mid < k {
      AscendingIsFound(offsets, mid + 1, hi, k);
    } else if k < mid {
      AscendingIsFound(offsets, lo, mid - 1, k);
    }
  }

  lemma {:induction false} FoundIsClear(offsets: seq<OffsetRange>, lo: int, hi: int, k: nat)
    requires 0 <= lo <= k <= hi < |offsets| && offsets[k].sid > 0 && Bisect(offsets, lo, hi, offsets[k].sid) == k
    ensures ClearPath(offsets, lo, hi, k)
    decreases hi - lo
  {
    var mid := lo + (hi - lo) / 2;
    if mid < k {
      FoundIsClear(offsets, mid + 1, hi, k);
    } else if k < mid {
      FoundIsClear(offsets, lo, mid - 1, k);
    }
  }

  /** Two ids that are both found parted ways at a probe, which lies between them. */
  lemma {:induction false} FoundIsAscending(offsets: seq<OffsetRange>, lo: int, hi: int, i: nat, j: nat)
    requires 0 <= lo <= i < j <= hi < |offsets|
    requires Bisect(offsets, lo, hi, offsets[i].sid) == i && Bisect(offsets, lo, hi, offsets[j].sid) == j
    ensures offsets[i].sid < offsets[j].sid
    decreases hi - lo
  {
    var mid := lo + (hi - lo) / 2;
    if mid < i {
      FoundIsAscending(offsets, mid + 1, hi, i, j);
    } else if j < mid {
      FoundIsAscending(offsets, lo, mid - 1, i, j);
    }
  }

  /* ---- Padding at the end ---- */

  function Halved(n: nat, times: nat): nat {
    if times == 0 then n else Halved(n / 2, times - 1)
  }

  ghost predicate HalvesTo(n: nat, times: nat, rest: nat) {
    Halved(n, times) == rest
  }

  /** Halving a length some number of times, rounding down, leaves `rest`. */
  ghost predicate HalvingLeaves(n: nat, rest: nat) {
    exists times: nat :: HalvesTo(n, times, rest)
  }

  lemma {:induction false} HalvedShrinks(n: nat, times: nat)
    ensures Halved(n, times) <= n && (times > 0 ==> Halved(n, times) <= n / 2)
  {
    if times > 0 {
      HalvedShrinks(n / 2, times - 1);
    }
  }

  lemma HalvedOnce(n: nat, rest: nat)
    requires rest < n
    ensures HalvingLeaves(n, rest) <==> HalvingLeaves(n / 2, rest)
    ensures HalvingLeaves(n, rest) ==> rest <= n / 2
  {
    if times: nat :| HalvesTo(n, times, rest) {
      HalvedShrinks(n, times);
      assert times > 0 && HalvesTo(n / 2, times - 1, rest);
    }
    if times: nat :| HalvesTo(n / 2, times, rest) {
      assert HalvesTo(n, times + 1, rest);
    }
  }

  /** The slices come first and are followed by padding only. */
  ghost predicate SlicesFirst(offsets: seq<OffsetRange>, slices: nat) {
    slices <= |offsets| && forall k :: 0 <= k < |offsets| ==> (offsets[k].sid > 0 <==> k < slices)
  }

  /** Bisection of the table from `lo` on reaches all slices there. */
  ghost predicate ClearFrom(offsets: seq<OffsetRange>, lo: nat, slices: nat) {
    forall k :: lo <= k < slices ==> Clear(offsets, lo, k)
  }

  lemma {:induction false} SlicesAreClear(offsets: seq<OffsetRange>, lo: int, hi: int, slices: nat, k: int)
    requires SlicesFirst(offsets, slices) && 0 <= lo <= k <= hi < slices
    ensures ClearPath(offsets, lo, hi, k)
    decreases hi - lo
  {
    var mid := lo + (hi - lo) / 2;
    if mid < k {
      SlicesAreClear(offsets, mid + 1, hi, slices, k);
    } else if k < mid {
      SlicesAreClear(offsets, lo, mid - 1, slices, k);
    }
  }

  lemma ClearRight(offsets: seq<OffsetRange>, lo: nat, slices: nat, mid: nat)
    requires SlicesFirst(offsets, slices) && lo < |offsets| && mid == lo + (|offsets| - 1 - lo) / 2 < slices
    ensures ClearFrom(offsets, lo, slices) <==> ClearFrom(offsets, mid + 1, slices)
  {
    var right := mid + 1;
    if ClearFrom(offsets, lo, slices) {
      forall k | right <= k < slices ensures Clear(offsets, right, k) {
        assert Clear(offsets, lo, k);
      }
    }
    if ClearFrom(offsets, right, slices) {
      forall k | lo <= k < slices ensures Clear(offsets, lo, k) {
        if k < mid {
          SlicesAreClear(offsets, lo, mid - 1, slices, k);
        } else if mid < k {
          assert Clear(offsets, right, k);
        }
      }
    }
  }

  lemma {:induction false} ClearFromIff(offsets: seq<OffsetRange>, lo: nat, slices: nat)
    requires SlicesFirst(offsets, slices) && lo <= slices
    ensures ClearFrom(offsets, lo, slices) <==> HalvingLeaves(|offsets| - lo, |offsets| - slices)
    decreases |offsets| - lo
  {
    var n := |offsets|;
    if lo == slices {
      assert HalvesTo(n - lo, 0, n - slices);
    } else {
      var mid: nat := lo + (n - 1 - lo) / 2;
      HalvedOnce(n - lo, n - slices);
      if slices <= mid {
        assert !Clear(offsets, lo, lo);
      } else {
        ClearRight(offsets, lo, slices, mid);
        ClearFromIff(offsets, mid + 1, slices);
        assert n - (mid + 1) == (n - lo) / 2;
      }
    }
  }

  /** Padding behind the slices is out of the way exactly if there is as much of it as halving the table's length leaves. */
  lemma TrailingPaddingIff(offsets: seq<OffsetRange>, slices: nat)
    requires SlicesFirst(offsets, slices)
    ensures NoPaddingInTheWay(offsets) <==> HalvingLeaves(|offsets|, |offsets| - slices)
  {
    ClearFromIff(offsets, 0, slices);
  }

  /* ---- Merged tables ---- */

  /**
    The offset table of a merged segment of `count` sids: the larger segment's entries first, then the
    smaller one's, then zeros for the sids of a gap between them.
   */
  function MergedOffsets(larger: seq<OffsetRange>, smaller: seq<OffsetRange>, largerRows: nat, count: nat): seq<OffsetRange>
    requires |larger| + |smaller| <= count
  {
    seq(count, i requires 0 <= i < count =>
      if i < |larger| then larger[i]
      else if i < |larger| + |smaller| then
        var s := smaller[i - |larger|]; OffsetRange(s.sid, s.lo + largerRows, s.hi + largerRows)
      else OffsetRange(0, 0, 0))
  }

  lemma MergedCovers(larger: seq<OffsetRange>, smaller: seq<OffsetRange>, largerRows: nat, smallerRows: nat, count: nat, p: nat)
    requires |larger| + |smaller| <= count
    requires OffsetsOk(larger, largerRows) && OffsetsOk(smaller, smallerRows) && p < largerRows + smallerRows
    ensures InSomeSlice(MergedOffsets(larger, smaller, largerRows, count), p)
  {
    var merged := MergedOffsets(larger, smaller, largerRows, count);
    if p < largerRows {
      assert InSomeSlice(larger, p);
      var k :| 0 <= k < |larger| && larger[k].lo <= p < larger[k].hi;
      assert merged[k] == larger[k];
    } else {
      assert InSomeSlice(smaller, p - largerRows);
      var k :| 0 <= k < |smaller| && smaller[k].lo <= p - largerRows < smaller[k].hi;
      assert merged[|larger| + k].lo == smaller[k].lo + largerRows;
    }
  }

  ghost predicate SidsApart(a: seq<OffsetRange>, b: seq<OffsetRange>) {
    forall i, j :: 0 <= i < |a| && 0 <= j < |b| && a[i].sid > 0 ==> a[i].sid != b[j].sid
  }

  /** Merging keeps the slices in order, also when the segments merged have padding of their own. */
  lemma MergedOffsetsOk(larger: seq<OffsetRange>, smaller: seq<OffsetRange>, largerRows: nat, smallerRows: nat, count: nat)
    requires |larger| + |smaller| <= count && OffsetsOk(larger, largerRows) && OffsetsOk(smaller, smallerRows)
    requires SidsApart(larger, smaller)
    ensures OffsetsOk(MergedOffsets(larger, smaller, largerRows, count), largerRows + smallerRows)
  {
    forall p: nat | p < largerRows + smallerRows ensures InSomeSlice(MergedOffsets(larger, smaller, largerRows, count), p) {
      MergedCovers(larger, smaller, largerRows, smallerRows, count, p);
    }
  }

  /** The slices of a merged table are in sid order exactly when both parts' are and the larger segment comes first in sid order. */
  lemma MergedAscendsIff(larger: seq<OffsetRange>, smaller: seq<OffsetRange>, largerRows: nat, count: nat)
    requires |larger| + |smaller| <= count
    ensures SidsAscend(MergedOffsets(larger, smaller, largerRows, count)) <==>
      && SidsAscend(larger) && SidsAscend(smaller)
      && forall i, j :: 0 <= i < |larger| && 0 <= j < |smaller| && larger[i].sid > 0 && smaller[j].sid > 0 ==>
           larger[i].sid < smaller[j].sid
  {
    var merged := MergedOffsets(larger, smaller, largerRows, count);
    assert forall i :: 0 <= i < |larger| ==> merged[i] == larger[i];
    assert forall j :: 0 <= j < |smaller| ==> merged[|larger| + j].sid == smaller[j].sid;
    if SidsAscend(merged) {
      forall i, j | 0 <= i < |larger| && 0 <= j < |smaller| && larger[i].sid > 0 && smaller[j].sid > 0
        ensures larger[i].sid < smaller[j].sid
      {
        assert merged[i].sid < merged[|larger| + j].sid;
      }
      forall i, j | 0 <= i < j < |smaller| && smaller[i].sid > 0 && smaller[j].sid > 0 ensures smaller[i].sid < smaller[j].sid {
        assert merged[|larger| + i].sid < merged[|larger| + j].sid;
      }
    }
  }

  ghost predicate Unpadded(offsets: seq<OffsetRange>) {
    forall k :: 0 <= k < |offsets| ==> offsets[k].sid > 0
  }

  /**
    Bisection finds every sid of two merged segments without gaps of their own exactly if the larger one
    is the first in sid order, both are in sid order, and the gap between them is none or what
    halving the merged length leaves.
   */
  lemma MergedIsSearchableIff(larger: seq<OffsetRange>, smaller: seq<OffsetRange>, largerRows: nat, count: nat)
    requires |larger| + |smaller| <= count && Unpadded(larger) && Unpadded(smaller)
    ensures Searchable(MergedOffsets(larger, smaller, largerRows, count)) <==>
      && SidsAscend(larger) && SidsAscend(smaller)
      && (forall i, j :: 0 <= i < |larger| && 0 <= j < |smaller| ==> larger[i].sid < smaller[j].sid)
      && HalvingLeaves(count, count - (|larger| + |smaller|))
  {
    MergedAscendsIff(larger, smaller, largerRows, count);
    TrailingPaddingIff(MergedOffsets(larger, smaller, largerRows, count), |larger| + |smaller|);
  }

  /** Sids 3 and 4, the larger segment being that of sid 4: sid 3 is in the table but not found. */
  lemma LargerSecondIsMissed()
    ensures var t := MergedOffsets([OffsetRange(4, 0, 2)], [OffsetRange(3, 0, 1)], 2, 2);
      t == [OffsetRange(4, 0, 2), OffsetRange(3, 2, 3)] && Bisect(t, 0, |t| - 1, 3) == -1
  {
  }

  /** Sids 3 to 4 and 7 to 8, in sid order, leave a gap of two in six entries: sid 8 is in the table but not found. */
  lemma GapHidesSid()
    ensures var t := MergedOffsets([OffsetRange(3, 0, 2), OffsetRange(4, 2, 4)], [OffsetRange(7, 0, 1), OffsetRange(8, 1, 2)], 4, 6);
      SidsAscend(t) && t[3].sid == 8 && Bisect(t, 0, |t| - 1, 8) == -1
  {
    var t := MergedOffsets([OffsetRange(3, 0, 2), OffsetRange(4, 2, 4)], [OffsetRange(7, 0, 1), OffsetRange(8, 1, 2)], 4, 6);
    assert t[2].sid == 7 && t[4].sid == 0 && t[5].sid == 0;
    assert Bisect(t, 5, 5, 8) == -1;
    assert Bisect(t, 3, 5, 8) == -1;
  }

  /** Linear search, as adoption does it; the first index or `|offsets|`. */
  method FindOffset(offsets: seq<OffsetRange>, sid: nat) returns (idx: nat)
    ensures idx <= |offsets| && (idx < |offsets| ==> offsets[idx].sid == sid)
    ensures forall k :: 0 <= k < idx ==> offsets[k].sid != sid
  {
    idx := 0;
    while idx < |offsets| && offsets[idx].sid != sid
      invariant idx <= |offsets| && forall k :: 0 <= k < idx ==> offsets[k].sid != sid
    {
      idx := idx + 1;
    }
  }
}
