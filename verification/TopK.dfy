/**
  Collecting the nearest rows: each memtable's top k, merged one after the other, then merged with
  the results from the flushed segments while dropping rows seen twice.
 */
module TopK {
  import opened FiniteSets

  /** A candidate row and its distance to the query. */
  datatype Pair = Pair(distance: real, id: int)

  /* ---- What a top k is ---- */

  ghost predicate Sorted(s: seq<Pair>) {
    forall i, j :: 0 <= i < j < |s| ==> s[i].distance <= s[j].distance
  }

  function Min(a: nat, b: nat): nat {
    if a < b then a else b
  }

  /** `x` is as far as everything in `s`, or farther. */
  ghost predicate NotCloser(x: Pair, s: seq<Pair>) {
    forall i :: 0 <= i < |s| ==> s[i].distance <= x.distance
  }

  /** A sorted list of candidates, long enough for k, such that no candidate left out is strictly closer than one listed. */
  ghost predicate Covers(all: multiset<Pair>, s: seq<Pair>, k: nat) {
    && Sorted(s) && multiset(s) <= all && (|s| >= k || |s| >= |all|)
    && forall x {:trigger NotCloser(x, s)} :: x in all - multiset(s) ==> NotCloser(x, s)
  }

  ghost predicate IsTopK(all: multiset<Pair>, s: seq<Pair>, k: nat) {
    Covers(all, s, k) && |s| <= k
  }

  /* ---- Merging ---- */

  /** Which list the next element comes from: the first one on a tie. */
  predicate FromFirst(a: seq<Pair>, i: nat, b: seq<Pair>, j: nat) {
    i < |a| && (j >= |b| || a[i].distance <= b[j].distance)
  }

  /** Where the merge stands: what it has put out, and that nothing ahead is closer than that. */
  ghost predicate MergedTo(a: seq<Pair>, i: nat, b: seq<Pair>, j: nat, out: seq<Pair>) {
    && i <= |a| && j <= |b| && |out| == i + j && Sorted(out)
    && multiset(out) == multiset(a[..i]) + multiset(b[..j])
    && (forall x :: i <= x < |a| ==> NotCloser(a[x], out))
    && (forall x :: j <= x < |b| ==> NotCloser(b[x], out))
  }

  /** Taking the next element from the first list. */
  lemma TakeFirst(a: seq<Pair>, i: nat, b: seq<Pair>, j: nat, out: seq<Pair>)
    requires Sorted(a) && Sorted(b) && MergedTo(a, i, b, j, out) && i < |a|
    requires j < |b| ==> a[i].distance <= b[j].distance
    ensures MergedTo(a, i + 1, b, j, out + [a[i]])
  {
    var now := out + [a[i]];
    assert NotCloser(a[i], out);
    assert a[..i + 1] == a[..i] + [a[i]];
    TakenBag(multiset(a[..i]), multiset(b[..j]), multiset{a[i]});
    forall x | i + 1 <= x < |a| ensures NotCloser(a[x], now) {
      assert NotCloser(a[x], out);
    }
    forall x | j <= x < |b| ensures NotCloser(b[x], now) {
      assert NotCloser(b[x], out);
    }
  }

  lemma TakenBag(a: multiset<Pair>, b: multiset<Pair>, c: multiset<Pair>)
    ensures (a + b) + c == (a + c) + b
  {
  }

  lemma MergeSwap(a: seq<Pair>, i: nat, b: seq<Pair>, j: nat, out: seq<Pair>)
    requires MergedTo(a, i, b, j, out)
    ensures MergedTo(b, j, a, i, out)
  {
  }

  lemma MergeStep(a: seq<Pair>, i: nat, b: seq<Pair>, j: nat, out: seq<Pair>)
    requires Sorted(a) && Sorted(b) && MergedTo(a, i, b, j, out) && (i < |a| || j < |b|)
    ensures if FromFirst(a, i, b, j) then MergedTo(a, i + 1, b, j, out + [a[i]])
            else j < |b| && MergedTo(a, i, b, j + 1, out + [b[j]])
  {
    if FromFirst(a, i, b, j) {
      TakeFirst(a, i, b, j, out);
    } else {
      MergeSwap(a, i, b, j, out);
      TakeFirst(b, j, a, i, out);
      MergeSwap(b, j + 1, a, i, out + [b[j]]);
    }
  }

  /** Merges two sorted lists until `topK` elements are out. */
  method MergeTopK(pairs1: array<Pair>, pairs2: array<Pair>, num1: nat, num2: nat, topK: nat, merged: array<Pair>)
    returns (n: nat, ghost i: nat, ghost j: nat)
    requires num1 <= pairs1.Length && num2 <= pairs2.Length && topK <= merged.Length
    requires merged != pairs1 && merged != pairs2
    requires Sorted(pairs1[..num1]) && Sorted(pairs2[..num2])
    modifies merged
    ensures n == Min(topK, num1 + num2) && MergedTo(pairs1[..num1], i, pairs2[..num2], j, merged[..n])
  {
    ghost var a, b := pairs1[..num1], pairs2[..num2];
    var x: nat, y: nat := 0, 0;
    n := 0;
    assert merged[..0] == [];
    while n < topK && (x < num1 || y < num2)
      invariant n <= topK && n == x + y && x <= num1 && y <= num2
      invariant MergedTo(a, x, b, y, merged[..n])
      decreases num1 + num2 - n
    {
      MergeStep(a, x, b, y, merged[..n]);
      ghost var before := merged[..n];
      if x < num1 && (y >= num2 || pairs1[x].distance <= pairs2[y].distance) {
        merged[n] := pairs1[x];
        n, x := n + 1, x + 1;
      } else {
        merged[n] := pairs2[y];
        n, y := n + 1, y + 1;
      }
      assert merged[..n] == before + [merged[n - 1]];
    }
    i, j := x, y;
  }

  /** What a list leaves out splits into what it had already left out and what the merge leaves of it. */
  lemma LeftOut(all: multiset<Pair>, s: seq<Pair>, i: nat, x: Pair)
    requires i <= |s| && multiset(s) <= all && x in all - multiset(s[..i])
    ensures x in all - multiset(s) || x in s[i..]
  {
    assert s == s[..i] + s[i..];
  }

  /** A list that leaves something out holds at least k elements. */
  lemma LongEnough(all: multiset<Pair>, s: seq<Pair>, x: Pair, k: nat)
    requires multiset(s) <= all && (|s| >= k || |s| >= |all|) && x in all - multiset(s)
    ensures |s| >= k
  {
    assert all == multiset(s) + (all - multiset(s));
    assert |all| == |s| + |all - multiset(s)|;
  }

  lemma FartherThanMerged(allA: multiset<Pair>, a: seq<Pair>, i: nat, allB: multiset<Pair>, b: seq<Pair>, j: nat, k: nat,
                          out: seq<Pair>, x: Pair)
    requires Covers(allA, a, k) && MergedTo(a, i, b, j, out) && |out| == Min(k, |a| + |b|)
    requires x in allA - multiset(a) || x in a[i..]
    ensures NotCloser(x, out)
  {
    if x in a[i..] {
      var n :| 0 <= n < |a| - i && a[i..][n] == x;
      assert NotCloser(a[i + n], out);
    } else {
      assert NotCloser(x, a);
      LongEnough(allA, a, x, k);
      if i < |a| {
        assert NotCloser(a[i], out);
      } else {
        assert a[..i] == a && b[..j] == [];
        assert multiset(out) == multiset(a);
        forall n | 0 <= n < |out| ensures out[n].distance <= x.distance {
          assert out[n] in multiset(out);
        }
      }
    }
  }

  lemma MergeSize(allA: multiset<Pair>, a: seq<Pair>, allB: multiset<Pair>, b: seq<Pair>, k: nat)
    requires multiset(a) <= allA && multiset(b) <= allB && |a| >= Min(k, |allA|) && |b| >= Min(k, |allB|)
    ensures Min(k, |a| + |b|) >= Min(k, |allA + allB|)
  {
    assert |allA + allB| == |allA| + |allB|;
  }

  lemma MergedPart(allA: multiset<Pair>, a: seq<Pair>, i: nat, allB: multiset<Pair>, b: seq<Pair>, j: nat, out: seq<Pair>)
    requires multiset(a) <= allA && multiset(b) <= allB && MergedTo(a, i, b, j, out)
    ensures multiset(out) <= allA + allB
    ensures forall x :: x in allA + allB - multiset(out) ==> x in allA - multiset(a[..i]) || x in allB - multiset(b[..j])
  {
    assert a == a[..i] + a[i..] && b == b[..j] + b[j..];
    assert multiset(a[..i]) <= multiset(a) && multiset(b[..j]) <= multiset(b);
  }

  /** Truncating before merging loses nothing: merging two lists that are long enough is a top k of both. */
  lemma MergeIsTopK(allA: multiset<Pair>, a: seq<Pair>, allB: multiset<Pair>, b: seq<Pair>, k: nat, i: nat, j: nat, out: seq<Pair>)
    requires Covers(allA, a, k) && Covers(allB, b, k)
    requires MergedTo(a, i, b, j, out) && |out| == Min(k, |a| + |b|)
    ensures IsTopK(allA + allB, out, k)
  {
    MergeSize(allA, a, allB, b, k);
    MergedPart(allA, a, i, allB, b, j, out);
    forall x | x in allA + allB - multiset(out) ensures NotCloser(x, out) {
      if x in allA - multiset(a[..i]) {
        LeftOut(allA, a, i, x);
        FartherThanMerged(allA, a, i, allB, b, j, k, out, x);
      } else {
        LeftOut(allB, b, j, x);
        FartherThanMerged(allB, b, j, allA, a, i, k, out, x);
      }
    }
  }

  /* ---- Sorting ---- */

  method InsertSorted(s: seq<Pair>, x: Pair) returns (r: seq<Pair>)
    requires Sorted(s)
    ensures Sorted(r) && multiset(r) == multiset(s) + multiset{x}
  {
    var p := 0;
    while p < |s| && s[p].distance <= x.distance
      invariant p <= |s| && forall i :: 0 <= i < p ==> s[i].distance <= x.distance
    {
      p := p + 1;
    }
    r := s[..p] + [x] + s[p..];
    assert s == s[..p] + s[p..];
  }

  method SortPairs(s: seq<Pair>) returns (r: seq<Pair>)
    ensures Sorted(r) && multiset(r) == multiset(s)
  {
    r := [];
    for i := 0 to |s|
      invariant Sorted(r) && multiset(r) == multiset(s[..i])
    {
      r := InsertSorted(r, s[i]);
      assert s[..i + 1] == s[..i] + [s[i]];
    }
    assert s[..|s|] == s;
  }

  /** The head of a complete sorted list is a top k; the whole list covers. */
  lemma SortedCovers(s: seq<Pair>, k: nat)
    requires Sorted(s)
    ensures Covers(multiset(s), s, k) && IsTopK(multiset(s), s[..Min(k, |s|)], k)
  {
    var n := Min(k, |s|);
    assert s == s[..n] + s[n..];
    forall x | x in multiset(s) - multiset(s[..n]) ensures NotCloser(x, s[..n]) {
      assert x in s[n..];
    }
  }

  /* ---- Memtables ---- */

  /** A memtable as one search sees it; `distance` is that of each row's vector to the query. */
  datatype Memtable = Memtable(tids: seq<int>, distance: seq<real>, ready: seq<bool>, excluded: seq<bool>,
                               currentSize: nat, maxReadyId: int) {
    ghost predicate Ok() {
      && |tids| == |distance| == |ready| == |excluded|
      && -1 <= maxReadyId < |tids|
      && forall i :: 0 <= i <= maxReadyId ==> ready[i]
    }

    function ValidNum(): nat {
      Min(currentSize, |tids|)
    }
  }

  /** The rows of slots `[lo, hi)` that are not excluded and, if asked for, published. */
  ghost function RowList(mt: Memtable, lo: nat, hi: nat, checkReady: bool): seq<Pair>
    requires mt.Ok() && lo <= hi <= |mt.tids|
    decreases hi
  {
    if lo == hi then [] else
      RowList(mt, lo, hi - 1, checkReady)
      + if !mt.excluded[hi - 1] && (checkReady ==> mt.ready[hi - 1]) then [Pair(mt.distance[hi - 1], mt.tids[hi - 1])] else []
  }

  ghost function Rows(mt: Memtable, lo: nat, hi: nat, checkReady: bool): multiset<Pair>
    requires mt.Ok() && lo <= hi <= |mt.tids|
  {
    multiset(RowList(mt, lo, hi, checkReady))
  }

  lemma {:induction false} RowsSplit(mt: Memtable, lo: nat, mid: nat, hi: nat, checkReady: bool)
    requires mt.Ok() && lo <= mid <= hi <= |mt.tids|
    ensures RowList(mt, lo, hi, checkReady) == RowList(mt, lo, mid, checkReady) + RowList(mt, mid, hi, checkReady)
    decreases hi
  {
    if mid < hi {
      RowsSplit(mt, lo, mid, hi - 1, checkReady);
    }
  }

  /* ---- What the candidates of a memtable are ---- */

  /** Slot `i` is in use and not excluded, published if that is asked for, and holds this row at this distance. */
  ghost predicate SlotHolds(mt: Memtable, i: nat, checkReady: bool, x: Pair)
    requires mt.Ok()
  {
    && i < |mt.tids| && i < mt.currentSize && !mt.excluded[i] && (checkReady ==> mt.ready[i])
    && mt.tids[i] == x.id && mt.distance[i] == x.distance
  }

  ghost function SlotsBelow(mt: Memtable, hi: nat, checkReady: bool, x: Pair): set<nat>
    requires mt.Ok()
  {
    set i: nat | i < hi && SlotHolds(mt, i, checkReady, x)
  }

  ghost function SlotsOf(mt: Memtable, checkReady: bool, x: Pair): set<nat>
    requires mt.Ok()
  {
    SlotsBelow(mt, |mt.tids|, checkReady, x)
  }

  /** Each pair occurs once for every slot that holds it. */
  ghost predicate AreCandidates(mt: Memtable, checkReady: bool, all: multiset<Pair>)
    requires mt.Ok()
  {
    forall x :: all[x] == |SlotsOf(mt, checkReady, x)|
  }

  lemma OneMoreSlot(mt: Memtable, n: nat, checkReady: bool, x: Pair)
    requires mt.Ok()
    ensures |SlotsBelow(mt, n + 1, checkReady, x)| == |SlotsBelow(mt, n, checkReady, x)| + if SlotHolds(mt, n, checkReady, x) then 1 else 0
  {
    var before, now := SlotsBelow(mt, n, checkReady, x), SlotsBelow(mt, n + 1, checkReady, x);
    assert now == if SlotHolds(mt, n, checkReady, x) then before + {n} else before;
  }

  lemma {:induction false} RowsAreSlots(mt: Memtable, hi: nat, checkReady: bool, x: Pair)
    requires mt.Ok() && hi <= |mt.tids| && hi <= mt.currentSize
    ensures multiset(RowList(mt, 0, hi, checkReady))[x] == |SlotsBelow(mt, hi, checkReady, x)|
  {
    if hi > 0 {
      RowsAreSlots(mt, hi - 1, checkReady, x);
      OneMoreSlot(mt, hi - 1, checkReady, x);
      var row := Pair(mt.distance[hi - 1], mt.tids[hi - 1]);
      assert multiset(RowList(mt, 0, hi - 1, checkReady) + [row]) == multiset(RowList(mt, 0, hi - 1, checkReady)) + multiset{row};
    }
  }

  /** The rows a search looks at are those of the slots in use, whatever the counter has grown to. */
  lemma RowsAreCandidates(mt: Memtable, checkReady: bool)
    requires mt.Ok()
    ensures AreCandidates(mt, checkReady, Rows(mt, 0, mt.ValidNum(), checkReady))
  {
    var n := mt.ValidNum();
    forall x ensures Rows(mt, 0, n, checkReady)[x] == |SlotsOf(mt, checkReady, x)| {
      RowsAreSlots(mt, n, checkReady, x);
      assert SlotsOf(mt, checkReady, x) == SlotsBelow(mt, n, checkReady, x);
    }
  }

  /** A top k of what the slots of a memtable hold. */
  ghost predicate IsTopKOfSlots(mt: Memtable, checkReady: bool, s: seq<Pair>, k: nat)
    requires mt.Ok()
  {
    exists all :: AreCandidates(mt, checkReady, all) && IsTopK(all, s, k)
  }

  /** Where everything that is not excluded is published, checking makes no difference. */
  lemma {:induction false} PublishedRows(mt: Memtable, lo: nat, hi: nat)
    requires mt.Ok() && lo <= hi <= |mt.tids|
    requires forall i :: lo <= i < hi ==> mt.excluded[i] || mt.ready[i]
    ensures RowList(mt, lo, hi, true) == RowList(mt, lo, hi, false)
    decreases hi
  {
    if lo < hi {
      PublishedRows(mt, lo, hi - 1);
    }
  }

  lemma {:induction false} RowCount(mt: Memtable, lo: nat, hi: nat, i: nat)
    requires mt.Ok() && lo <= hi <= |mt.tids|
    ensures |RowList(mt, lo, hi, true)| <= |RowList(mt, lo, hi, false)|
    ensures lo <= i < hi && !mt.excluded[i] && !mt.ready[i] ==> |RowList(mt, lo, hi, true)| < |RowList(mt, lo, hi, false)|
    decreases hi
  {
    if lo < hi {
      RowCount(mt, lo, hi - 1, i);
    }
  }

  /** How many of the first `n` rows are published. */
  function PublishedCount(mt: Memtable, n: nat): (c: nat)
    requires n <= |mt.ready|
    ensures c <= n
  {
    if n == 0 then 0 else PublishedCount(mt, n - 1) + if mt.ready[n - 1] then 1 else 0
  }

  /** How many of the first `n` rows are published or excluded. */
  function SettledCount(mt: Memtable, n: nat): (c: nat)
    requires n <= |mt.ready| == |mt.excluded|
    ensures c <= n
  {
    if n == 0 then 0 else SettledCount(mt, n - 1) + if mt.ready[n - 1] || mt.excluded[n - 1] then 1 else 0
  }

  lemma {:induction false} CountsSayAll(mt: Memtable, n: nat)
    requires mt.Ok() && n <= |mt.tids|
    ensures SettledCount(mt, n) == n <==> forall i :: 0 <= i < n ==> mt.excluded[i] || mt.ready[i]
    ensures PublishedCount(mt, n) == n <==> forall i :: 0 <= i < n ==> mt.ready[i]
    ensures PublishedCount(mt, n) <= SettledCount(mt, n)
  {
    if n > 0 {
      CountsSayAll(mt, n - 1);
    }
  }

  /**
    A scan that does not check sees only published rows exactly when as many rows are published or
    excluded as are valid. So it does when the ready count is the valid count, and where no
    unpublished row is excluded, only then.
   */
  lemma UncheckedSeesPublishedIff(mt: Memtable)
    requires mt.Ok()
    ensures var n := mt.ValidNum(); var same := Rows(mt, 0, n, false) == Rows(mt, 0, n, true);
      && (same <==> SettledCount(mt, n) == n)
      && (PublishedCount(mt, n) == n ==> same)
      && ((forall i :: 0 <= i < n && mt.excluded[i] ==> mt.ready[i]) ==> (same <==> PublishedCount(mt, n) == n))
  {
    var n := mt.ValidNum();
    CountsSayAll(mt, n);
    forall i | 0 <= i < n && !mt.excluded[i] && !mt.ready[i]
      ensures Rows(mt, 0, n, false) != Rows(mt, 0, n, true)
    {
      RowCount(mt, 0, n, i);
      assert |Rows(mt, 0, n, true)| < |Rows(mt, 0, n, false)|;
    }
    if forall i :: 0 <= i < n ==> mt.excluded[i] || mt.ready[i] {
      PublishedRows(mt, 0, n);
    }
  }

  /** Collects the rows of `[lo, hi)`. */
  method Collect(mt: Memtable, lo: nat, hi: nat, checkReady: bool) returns (s: seq<Pair>)
    requires mt.Ok() && lo <= hi <= |mt.tids|
    ensures s == RowList(mt, lo, hi, checkReady)
  {
    s := [];
    for i := lo to hi
      invariant s == RowList(mt, lo, i, checkReady)
    {
      if (checkReady && !mt.ready[i]) || mt.excluded[i] {
        continue;
      }
      s := s + [Pair(mt.distance[i], mt.tids[i])];
    }
  }

  /** The brute-force scan over a prefix of a memtable: it looks at the bitmap, not at the ready flags. */
  method BruteForceSearch(mt: Memtable, limit: nat, k: nat) returns (s: seq<Pair>)
    requires mt.Ok() && limit <= |mt.tids|
    ensures IsTopK(Rows(mt, 0, limit, false), s, k)
  {
    var all := Collect(mt, 0, limit, false);
    var sorted := SortPairs(all);
    SortedCovers(sorted, k);
    s := sorted[..Min(k, |sorted|)];
  }

  method CopyIn(s: seq<Pair>, out: array<Pair>)
    requires |s| <= out.Length
    modifies out
    ensures out[..|s|] == s
  {
    for i := 0 to |s|
      invariant out[..i] == s[..i]
    {
      out[i] := s[i];
    }
  }

  method ToArray(s: seq<Pair>) returns (a: array<Pair>)
    ensures fresh(a) && a[..] == s && a.Length == |s|
  {
    a := new Pair[|s|](i requires 0 <= i < |s| => s[i]);
  }

  /**
    Searches one memtable. With `checkReady` the published prefix is scanned as a whole and later
    slots one by one; without it all reserved slots are scanned.
   */
  method SearchMemtable(mt: Memtable, k: nat, out: array<Pair>, checkReady: bool) returns (n: nat)
    requires mt.Ok() && out.Length >= k
    modifies out
    ensures n <= k && IsTopK(Rows(mt, 0, mt.ValidNum(), checkReady), out[..n], k)
    ensures IsTopKOfSlots(mt, checkReady, out[..n], k)
  {
    RowsAreCandidates(mt, checkReady);
    var validNum := mt.ValidNum();
    if validNum == 0 {
      assert out[..0] == [];
      return 0;
    }
    if !checkReady {
      var s := BruteForceSearch(mt, validNum, k);
      CopyIn(s, out);
      return |s|;
    }
    if mt.maxReadyId == -1 {
      var all := Collect(mt, 0, validNum, true);
      var sorted := SortPairs(all);
      SortedCovers(sorted, k);
      CopyIn(sorted[..Min(k, |sorted|)], out);
      return Min(k, |sorted|);
    }
    n := SearchSplit(mt, validNum, Min(mt.maxReadyId + 1, validNum), k, out);
  }

  /** Merges two candidate lists into `out`. */
  method MergeLists(s1: seq<Pair>, s2: seq<Pair>, k: nat, out: array<Pair>, ghost all1: multiset<Pair>, ghost all2: multiset<Pair>)
    returns (n: nat)
    requires Covers(all1, s1, k) && Covers(all2, s2, k) && out.Length >= k
    modifies out
    ensures n <= k && IsTopK(all2 + all1, out[..n], k)
  {
    var a := ToArray(s1);
    var b := ToArray(s2);
    ghost var i, j;
    n, i, j := MergeTopK(a, b, |s1|, |s2|, k, out);
    assert a[..|s1|] == s1 && b[..|s2|] == s2;
    MergeIsTopK(all1, s1, all2, s2, k, i, j, out[..n]);
    assert all1 + all2 == all2 + all1;
  }

  /** The published prefix by brute force, the rest slot by slot, merged. */
  method SearchSplit(mt: Memtable, validNum: nat, readyLimit: nat, k: nat, out: array<Pair>) returns (n: nat)
    requires mt.Ok() && out.Length >= k && readyLimit <= validNum <= |mt.tids| && readyLimit <= mt.maxReadyId + 1
    modifies out
    ensures n <= k && IsTopK(Rows(mt, 0, validNum, true), out[..n], k)
  {
    var rest := Collect(mt, readyLimit, validNum, true);
    var remaining := SortPairs(rest);
    SortedCovers(remaining, k);
    var scanned := BruteForceSearch(mt, readyLimit, k);
    PublishedRows(mt, 0, readyLimit);
    RowsSplit(mt, 0, readyLimit, validNum, true);
    n := MergeLists(remaining, scanned, k, out, Rows(mt, readyLimit, validNum, true), Rows(mt, 0, readyLimit, true));
  }

  /* ---- All memtables of a snapshot ---- */

  /** The rows of the growing memtable that are published, and of the first `n` sealed ones all that are reserved. */
  ghost function SnapshotRows(growing: Memtable, sealed: seq<Memtable>, n: nat): multiset<Pair>
    requires growing.Ok() && n <= |sealed| && forall i :: 0 <= i < |sealed| ==> sealed[i].Ok()
  {
    if n == 0 then Rows(growing, 0, growing.ValidNum(), true)
    else SnapshotRows(growing, sealed, n - 1) + Rows(sealed[n - 1], 0, sealed[n - 1].ValidNum(), false)
  }

  /** The slots of the first `n` sealed memtables that hold a pair, each as memtable and index. */
  ghost function SealedSlots(sealed: seq<Memtable>, n: nat, x: Pair): set<(nat, nat)>
    requires n <= |sealed| && forall m :: 0 <= m < |sealed| ==> sealed[m].Ok()
  {
    set m: nat, i: nat | m < n && i in SlotsOf(sealed[m], false, x) :: (m, i)
  }

  /** A snapshot's candidates: the published slots of the growing memtable, and all slots in use of every sealed one. */
  ghost predicate AreSnapshotCandidates(growing: Memtable, sealed: seq<Memtable>, all: multiset<Pair>)
    requires growing.Ok() && forall m :: 0 <= m < |sealed| ==> sealed[m].Ok()
  {
    forall x :: all[x] == |SlotsOf(growing, true, x)| + |SealedSlots(sealed, |sealed|, x)|
  }

  ghost function Paired(n: nat, slots: set<nat>): set<(nat, nat)> {
    set i | i in slots :: (n, i)
  }

  lemma {:induction false} PairedSize(n: nat, slots: set<nat>)
    ensures |Paired(n, slots)| == |slots|
    decreases slots
  {
    if i :| i in slots {
      PairedSize(n, slots - {i});
      assert Paired(n, slots) == Paired(n, slots - {i}) + {(n, i)};
    }
  }

  lemma OneMoreMemtable(sealed: seq<Memtable>, n: nat, x: Pair)
    requires n < |sealed| && forall m :: 0 <= m < |sealed| ==> sealed[m].Ok()
    ensures |SealedSlots(sealed, n + 1, x)| == |SealedSlots(sealed, n, x)| + |SlotsOf(sealed[n], false, x)|
  {
    var last := Paired(n, SlotsOf(sealed[n], false, x));
    assert SealedSlots(sealed, n + 1, x) == SealedSlots(sealed, n, x) + last;
    assert SealedSlots(sealed, n, x) !! last;
    PairedSize(n, SlotsOf(sealed[n], false, x));
  }

  lemma NoMemtable(sealed: seq<Memtable>, x: Pair)
    requires forall m :: 0 <= m < |sealed| ==> sealed[m].Ok()
    ensures |SealedSlots(sealed, 0, x)| == 0
  {
    assert SealedSlots(sealed, 0, x) == {};
  }

  ghost function Total(first: multiset<Pair>, bags: seq<multiset<Pair>>, n: nat): multiset<Pair>
    requires n <= |bags|
  {
    if n == 0 then first else Total(first, bags, n - 1) + bags[n - 1]
  }

  lemma {:induction false} TotalCounts(first: multiset<Pair>, bags: seq<multiset<Pair>>, sealed: seq<Memtable>, n: nat, x: Pair)
    requires n <= |bags| == |sealed| && forall m :: 0 <= m < |sealed| ==> sealed[m].Ok()
    requires forall m :: 0 <= m < |sealed| ==> bags[m][x] == |SlotsOf(sealed[m], false, x)|
    ensures Total(first, bags, n)[x] == first[x] + |SealedSlots(sealed, n, x)|
  {
    if n == 0 {
      NoMemtable(sealed, x);
    } else {
      TotalCounts(first, bags, sealed, n - 1, x);
      OneMoreMemtable(sealed, n - 1, x);
    }
  }

  lemma {:induction false} SnapshotIsTotal(growing: Memtable, sealed: seq<Memtable>, bags: seq<multiset<Pair>>, n: nat)
    requires growing.Ok() && n <= |sealed| == |bags| && forall m :: 0 <= m < |sealed| ==> sealed[m].Ok()
    requires forall m :: 0 <= m < |sealed| ==> bags[m] == Rows(sealed[m], 0, sealed[m].ValidNum(), false)
    ensures SnapshotRows(growing, sealed, n) == Total(Rows(growing, 0, growing.ValidNum(), true), bags, n)
  {
    if n > 0 {
      SnapshotIsTotal(growing, sealed, bags, n - 1);
    }
  }

  lemma SnapshotRowsAreCandidates(growing: Memtable, sealed: seq<Memtable>)
    requires growing.Ok() && forall m :: 0 <= m < |sealed| ==> sealed[m].Ok()
    ensures AreSnapshotCandidates(growing, sealed, SnapshotRows(growing, sealed, |sealed|))
  {
    var first := Rows(growing, 0, growing.ValidNum(), true);
    var bags := seq(|sealed|, m requires 0 <= m < |sealed| => Rows(sealed[m], 0, sealed[m].ValidNum(), false));
    SnapshotIsTotal(growing, sealed, bags, |sealed|);
    forall m | 0 <= m < |sealed| ensures AreCandidates(sealed[m], false, bags[m]) {
      RowsAreCandidates(sealed[m], false);
    }
    RowsAreCandidates(growing, true);
    TotalIsCandidates(growing, sealed, first, bags);
  }

  lemma TotalIsCandidates(growing: Memtable, sealed: seq<Memtable>, first: multiset<Pair>, bags: seq<multiset<Pair>>)
    requires growing.Ok() && |bags| == |sealed| && forall m :: 0 <= m < |sealed| ==> sealed[m].Ok()
    requires AreCandidates(growing, true, first) && forall m :: 0 <= m < |sealed| ==> AreCandidates(sealed[m], false, bags[m])
    ensures AreSnapshotCandidates(growing, sealed, Total(first, bags, |sealed|))
  {
    forall x ensures Total(first, bags, |sealed|)[x] == |SlotsOf(growing, true, x)| + |SealedSlots(sealed, |sealed|, x)| {
      TotalCounts(first, bags, sealed, |sealed|, x);
    }
  }

  /** A top k of what the slots of a snapshot hold. */
  ghost predicate IsTopKOfSnapshot(growing: Memtable, sealed: seq<Memtable>, s: seq<Pair>, k: nat)
    requires growing.Ok() && forall m :: 0 <= m < |sealed| ==> sealed[m].Ok()
  {
    exists all :: AreSnapshotCandidates(growing, sealed, all) && IsTopK(all, s, k)
  }

  lemma TopKOfSnapshot(growing: Memtable, sealed: seq<Memtable>, s: seq<Pair>, k: nat)
    requires growing.Ok() && forall m :: 0 <= m < |sealed| ==> sealed[m].Ok()
    requires IsTopK(SnapshotRows(growing, sealed, |sealed|), s, k)
    ensures IsTopKOfSnapshot(growing, sealed, s, k)
  {
    SnapshotRowsAreCandidates(growing, sealed);
  }

  /** Merges two results into a new array. */
  method MergeArrays(p1: array<Pair>, n1: nat, p2: array<Pair>, n2: nat, k: nat, ghost all1: multiset<Pair>, ghost all2: multiset<Pair>)
    returns (merged: array<Pair>, n: nat)
    requires n1 <= p1.Length && n2 <= p2.Length && IsTopK(all1, p1[..n1], k) && IsTopK(all2, p2[..n2], k)
    ensures fresh(merged) && merged.Length == k && n <= k && IsTopK(all1 + all2, merged[..n], k)
  {
    merged := new Pair[k];
    ghost var a, b := p1[..n1], p2[..n2];
    ghost var x, y;
    n, x, y := MergeTopK(p1, p2, n1, n2, k, merged);
    assert p1[..n1] == a && p2[..n2] == b;
    MergeIsTopK(all1, a, all2, b, k, x, y, merged[..n]);
  }

  /** Searches one sealed memtable and merges its top k into what has been found so far. */
  method AddMemtable(pairs: array<Pair>, num: nat, mt: Memtable, k: nat, ghost all: multiset<Pair>)
    returns (merged: array<Pair>, n: nat)
    requires mt.Ok() && num <= pairs.Length && IsTopK(all, pairs[..num], k)
    ensures fresh(merged) && merged.Length == k && n <= k
    ensures IsTopK(all + Rows(mt, 0, mt.ValidNum(), false), merged[..n], k)
  {
    var smt := new Pair[k];
    var smtNum := SearchMemtable(mt, k, smt, false);
    merged, n := MergeArrays(pairs, num, smt, smtNum, k, all, Rows(mt, 0, mt.ValidNum(), false));
  }

  /** Merges the top k of each sealed memtable into what has been found so far. */
  method SearchMemtables(growing: Memtable, sealed: seq<Memtable>, k: nat) returns (pairs: array<Pair>, num: nat)
    requires growing.Ok() && forall i :: 0 <= i < |sealed| ==> sealed[i].Ok()
    ensures fresh(pairs) && num <= k == pairs.Length && IsTopK(SnapshotRows(growing, sealed, |sealed|), pairs[..num], k)
    ensures IsTopKOfSnapshot(growing, sealed, pairs[..num], k)
  {
    pairs := new Pair[k];
    num := SearchMemtable(growing, k, pairs, true);
    for i := 0 to |sealed|
      invariant fresh(pairs) && num <= k == pairs.Length
      invariant IsTopK(SnapshotRows(growing, sealed, i), pairs[..num], k)
    {
      pairs, num := AddMemtable(pairs, num, sealed[i], k, SnapshotRows(growing, sealed, i));
    }
    TopKOfSnapshot(growing, sealed, pairs[..num], k);
  }

  /* ---- The final merge, without repetitions ---- */

  ghost predicate OnceEach(s: seq<Pair>) {
    forall i, j :: 0 <= i < j < |s| ==> s[i].id != s[j].id
  }

  /** The row is listed, from a copy at least as close. */
  ghost predicate Represented(x: Pair, out: seq<Pair>) {
    exists i :: 0 <= i < |out| && out[i].id == x.id && out[i].distance <= x.distance
  }

  /** After `i` and `j` candidates: each is represented, and nothing ahead is closer than what is out. */
  ghost predicate DedupTo(a: seq<Pair>, i: nat, b: seq<Pair>, j: nat, out: seq<Pair>) {
    && i <= |a| && j <= |b| && |out| <= i + j && Sorted(out) && OnceEach(out)
    && (forall x :: 0 <= x < |out| ==> out[x] in a[..i] || out[x] in b[..j])
    && (forall x :: 0 <= x < i ==> Represented(a[x], out))
    && (forall x :: 0 <= x < j ==> Represented(b[x], out))
    && (forall x :: i <= x < |a| ==> NotCloser(a[x], out))
    && (forall x :: j <= x < |b| ==> NotCloser(b[x], out))
  }

  ghost predicate HasId(out: seq<Pair>, id: int) {
    exists m :: 0 <= m < |out| && out[m].id == id
  }

  lemma StillRepresented(x: Pair, out: seq<Pair>, c: Pair)
    requires Represented(x, out)
    ensures Represented(x, out + [c])
  {
    var i :| 0 <= i < |out| && out[i].id == x.id && out[i].distance <= x.distance;
    assert (out + [c])[i] == out[i];
  }

  /** Dropping the next candidate of the first list: a closer copy is out already. */
  lemma DedupDrop(a: seq<Pair>, i: nat, b: seq<Pair>, j: nat, out: seq<Pair>)
    requires DedupTo(a, i, b, j, out) && i < |a| && HasId(out, a[i].id)
    ensures DedupTo(a, i + 1, b, j, out)
  {
    assert NotCloser(a[i], out);
    assert a[..i + 1] == a[..i] + [a[i]];
    var m :| 0 <= m < |out| && out[m].id == a[i].id;
    assert Represented(a[i], out);
  }

  /** Putting out the next candidate of the first list. */
  lemma DedupTake(a: seq<Pair>, i: nat, b: seq<Pair>, j: nat, out: seq<Pair>)
    requires Sorted(a) && Sorted(b) && DedupTo(a, i, b, j, out) && i < |a| && !HasId(out, a[i].id)
    requires j < |b| ==> a[i].distance <= b[j].distance
    ensures DedupTo(a, i + 1, b, j, out + [a[i]])
  {
    var c, now := a[i], out + [a[i]];
    assert NotCloser(c, out);
    assert a[..i + 1] == a[..i] + [c];
    forall x | 0 <= x < |now| ensures now[x] in a[..i + 1] || now[x] in b[..j] {
      assert x < |out| ==> now[x] == out[x];
    }
    forall x | 0 <= x < i + 1 ensures Represented(a[x], now) {
      if x < i {
        StillRepresented(a[x], out, c);
      } else {
        assert now[|out|] == c;
      }
    }
    forall x | 0 <= x < j ensures Represented(b[x], now) {
      StillRepresented(b[x], out, c);
    }
    forall x | i + 1 <= x < |a| ensures NotCloser(a[x], now) {
      assert NotCloser(a[x], out);
    }
    forall x | j <= x < |b| ensures NotCloser(b[x], now) {
      assert NotCloser(b[x], out);
    }
  }

  /** Taking the next candidate from the first list. */
  lemma DedupStep(a: seq<Pair>, i: nat, b: seq<Pair>, j: nat, out: seq<Pair>, dup: bool)
    requires Sorted(a) && Sorted(b) && DedupTo(a, i, b, j, out) && i < |a|
    requires j < |b| ==> a[i].distance <= b[j].distance
    requires dup <==> HasId(out, a[i].id)
    ensures DedupTo(a, i + 1, b, j, if dup then out else out + [a[i]])
  {
    if dup {
      DedupDrop(a, i, b, j, out);
    } else {
      DedupTake(a, i, b, j, out);
    }
  }

  lemma DedupSwap(a: seq<Pair>, i: nat, b: seq<Pair>, j: nat, out: seq<Pair>)
    ensures DedupTo(a, i, b, j, out) <==> DedupTo(b, j, a, i, out)
  {
  }

  /** Taking the next candidate from either list. */
  lemma DedupChoice(a: seq<Pair>, i: nat, b: seq<Pair>, j: nat, out: seq<Pair>, dup: bool)
    requires Sorted(a) && Sorted(b) && DedupTo(a, i, b, j, out) && (i < |a| || j < |b|)
    requires dup <==> HasId(out, if FromFirst(a, i, b, j) then a[i].id else b[j].id)
    ensures if FromFirst(a, i, b, j) then DedupTo(a, i + 1, b, j, if dup then out else out + [a[i]])
            else DedupTo(a, i, b, j + 1, if dup then out else out + [b[j]])
  {
    if FromFirst(a, i, b, j) {
      DedupStep(a, i, b, j, out, dup);
    } else {
      DedupSwap(a, i, b, j, out);
      DedupStep(b, j, a, i, out, dup);
      DedupSwap(b, j + 1, a, i, if dup then out else out + [b[j]]);
    }
  }

  method AlreadyOut(merged: array<Pair>, k: nat, id: int) returns (dup: bool)
    requires k <= merged.Length
    ensures dup <==> HasId(merged[..k], id)
  {
    for m := 0 to k
      invariant forall x :: 0 <= x < m ==> merged[..k][x].id != id
    {
      if merged[m].id == id {
        assert merged[..k][m].id == id;
        return true;
      }
    }
    return false;
  }

  /** Merges two sorted lists until `topK` distinct rows are out. */
  method MergeTopKDedup(pairs1: array<Pair>, pairs2: array<Pair>, num1: nat, num2: nat, topK: nat, merged: array<Pair>)
    returns (k: nat, ghost i: nat, ghost j: nat)
    requires num1 <= pairs1.Length && num2 <= pairs2.Length && topK <= merged.Length
    requires merged != pairs1 && merged != pairs2
    requires Sorted(pairs1[..num1]) && Sorted(pairs2[..num2])
    modifies merged
    ensures k <= topK && DedupTo(pairs1[..num1], i, pairs2[..num2], j, merged[..k])
    ensures k == topK || (i == num1 && j == num2)
  {
    ghost var a, b := pairs1[..num1], pairs2[..num2];
    var x: nat, y: nat := 0, 0;
    k := 0;
    assert merged[..0] == [];
    while k < topK && (x < num1 || y < num2)
      invariant k <= topK && x <= num1 && y <= num2
      invariant DedupTo(a, x, b, y, merged[..k])
      decreases num1 + num2 - x - y
    {
      var candidate;
      ghost var before, x0, y0 := merged[..k], x, y;
      if x < num1 && (y >= num2 || pairs1[x].distance <= pairs2[y].distance) {
        candidate, x := pairs1[x], x + 1;
      } else {
        candidate, y := pairs2[y], y + 1;
      }
      var dup := AlreadyOut(merged, k, candidate.id);
      ghost var now := if dup then before else before + [candidate];
      DedupChoice(a, x0, b, y0, before, dup);
      assert DedupTo(a, x, b, y, now);
      if !dup {
        merged[k] := candidate;
        k := k + 1;
      }
      assert merged[..k] == now;
    }
    i, j := x, y;
  }

  /* ---- What the final list is ---- */

  /**
    No row twice, ascending; every candidate is listed from a closest copy, or the list is full of
    rows that are all at least as close.
   */
  ghost predicate IsDedupTopK(all: multiset<Pair>, out: seq<Pair>, k: nat) {
    && Sorted(out) && OnceEach(out) && |out| <= k
    && (forall i :: 0 <= i < |out| ==> out[i] in all)
    && (forall x {:trigger Represented(x, out)} :: x in all ==> Represented(x, out) || (|out| == k && NotCloser(x, out)))
  }

  /** No row occurs twice, or at two distances. */
  ghost predicate DistinctRows(all: multiset<Pair>) {
    forall x, y :: x in all && y in all && x.id == y.id ==> x == y && all[x] == 1
  }

  lemma DistinctOnceEach(all: multiset<Pair>, s: seq<Pair>)
    requires DistinctRows(all) && multiset(s) <= all
    ensures OnceEach(s)
  {
    forall i, j | 0 <= i < j < |s| ensures s[i].id != s[j].id {
      assert s[i] in multiset(s) && s[j] in multiset(s);
      if s[i] == s[j] {
        TwiceCounts(s, i, j);
      }
    }
  }

  lemma TwiceCounts(s: seq<Pair>, i: nat, j: nat)
    requires i < j < |s| && s[i] == s[j]
    ensures multiset(s)[s[i]] >= 2
  {
    assert s == s[..i] + [s[i]] + s[i + 1..j] + [s[j]] + s[j + 1..];
  }

  ghost function Ids(s: seq<Pair>): set<int> {
    set i | 0 <= i < |s| :: s[i].id
  }

  lemma {:induction false} IdCount(s: seq<Pair>)
    requires OnceEach(s)
    ensures |Ids(s)| == |s|
  {
    if s != [] {
      var n := |s| - 1;
      IdCount(s[..n]);
      assert Ids(s) == Ids(s[..n]) + {s[n].id};
      assert s[n].id !in Ids(s[..n]);
    }
  }

  /** If k distinct rows are all represented in a list of at most k, the list represents nothing else. */
  lemma AllStandFor(a: seq<Pair>, out: seq<Pair>, m: nat) returns (n: nat)
    requires OnceEach(a) && OnceEach(out) && |out| <= |a| && m < |out|
    requires forall i :: 0 <= i < |a| ==> Represented(a[i], out)
    ensures |out| == |a| && n < |a| && out[m].id == a[n].id && out[m].distance <= a[n].distance
  {
    IdCount(a);
    IdCount(out);
    forall i | 0 <= i < |a| ensures a[i].id in Ids(out) {
      assert Represented(a[i], out);
    }
    SubsetIsSmaller(Ids(a), Ids(out));
    SubsetOfSameSize(Ids(a), Ids(out));
    assert out[m].id in Ids(a);
    n :| n < |a| && a[n].id == out[m].id;
    assert Represented(a[n], out);
  }

  lemma DedupCovers(allA: multiset<Pair>, a: seq<Pair>, i: nat, b: seq<Pair>, j: nat, out: seq<Pair>, k: nat, x: Pair)
    requires IsTopK(allA, a, k) && OnceEach(a) && DedupTo(a, i, b, j, out) && |out| <= k
    requires (|out| == k || (i == |a| && j == |b|)) && x in allA
    ensures Represented(x, out) || (|out| == k && NotCloser(x, out))
  {
    if x in a {
      var n :| 0 <= n < |a| && a[n] == x;
      if n < i {
        assert Represented(a[n], out);
      } else {
        assert NotCloser(a[n], out);
      }
    } else {
      assert NotCloser(x, a);
      LongEnough(allA, a, x, k);
      if i < |a| {
        assert NotCloser(a[i], out);
      } else {
        StandInsAreCloser(a, out, k, x);
      }
    }
  }

  lemma StandInsAreCloser(a: seq<Pair>, out: seq<Pair>, k: nat, x: Pair)
    requires OnceEach(a) && OnceEach(out) && |out| <= k <= |a| && |a| <= k && NotCloser(x, a)
    requires forall i :: 0 <= i < |a| ==> Represented(a[i], out)
    ensures |out| == k && NotCloser(x, out)
  {
    forall m | 0 <= m < |out| ensures out[m].distance <= x.distance {
      var n := AllStandFor(a, out, m);
    }
    IdCount(a);
    IdCount(out);
    forall i | 0 <= i < |a| ensures a[i].id in Ids(out) {
      assert Represented(a[i], out);
    }
    SubsetIsSmaller(Ids(a), Ids(out));
  }

  /** The deduplicating merge of two truncated lists is a top k of everything they were taken from. */
  lemma DedupIsTopK(allA: multiset<Pair>, a: seq<Pair>, allB: multiset<Pair>, b: seq<Pair>, i: nat, j: nat, out: seq<Pair>, k: nat)
    requires IsTopK(allA, a, k) && OnceEach(a) && IsTopK(allB, b, k) && OnceEach(b)
    requires DedupTo(a, i, b, j, out) && |out| <= k && (|out| == k || (i == |a| && j == |b|))
    ensures IsDedupTopK(allA + allB, out, k)
  {
    forall x | x in allA + allB ensures Represented(x, out) || (|out| == k && NotCloser(x, out)) {
      if x in allA {
        DedupCovers(allA, a, i, b, j, out, k, x);
      } else {
        DedupSwap(a, i, b, j, out);
        DedupCovers(allB, b, j, a, i, out, k, x);
      }
    }
    forall m | 0 <= m < |out| ensures out[m] in allA + allB {
      assert out[m] in a[..i] || out[m] in b[..j];
      assert out[m] in a ==> out[m] in multiset(a);
      assert out[m] in b ==> out[m] in multiset(b);
    }
  }

  /** A search: the snapshot's memtables, then the segment results, without repetitions. */
  method SearchIndex(growing: Memtable, sealed: seq<Memtable>, segments: seq<Pair>, ghost segmentRows: multiset<Pair>, k: nat)
    returns (pairs: array<Pair>, num: nat)
    requires growing.Ok() && forall i :: 0 <= i < |sealed| ==> sealed[i].Ok()
    requires DistinctRows(SnapshotRows(growing, sealed, |sealed|))
    requires IsTopK(segmentRows, segments, k) && DistinctRows(segmentRows)
    ensures num <= k == pairs.Length
    ensures IsDedupTopK(SnapshotRows(growing, sealed, |sealed|) + segmentRows, pairs[..num], k)
    ensures exists all :: AreSnapshotCandidates(growing, sealed, all) && IsDedupTopK(all + segmentRows, pairs[..num], k)
  {
    SnapshotRowsAreCandidates(growing, sealed);
    var p1, n1 := SearchMemtables(growing, sealed, k);
    var p2 := ToArray(segments);
    pairs := new Pair[k];
    ghost var a := p1[..n1];
    DistinctOnceEach(SnapshotRows(growing, sealed, |sealed|), a);
    DistinctOnceEach(segmentRows, segments);
    ghost var i, j;
    assert p2[..|segments|] == segments;
    num, i, j := MergeTopKDedup(p1, p2, n1, |segments|, k, pairs);
    DedupIsTopK(SnapshotRows(growing, sealed, |sealed|), a, segmentRows, segments, i, j, pairs[..num], k);
  }
}
