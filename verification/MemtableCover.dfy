/**
  What the segment fetcher does with the memtables an adopted segment covers: copying their
  deletions into groups, and dropping them from the list once the segment is installed.
 */
module MemtableCover {
  import opened Tombstones
  import opened AdoptionUnion

  const MEMTABLE_NUM := 4
  const MT_IDX_INVALID := -1

  /** The slot `idx` is in use and holds a memtable of the segment's range. */
  predicate Covered(sids: seq<nat>, idx: int, start: nat, end: nat) {
    0 <= idx < |sids| && start <= sids[idx] <= end
  }

  /* ---- The cover ---- */

  /** The sids in the range among the first `n` listed memtables, in list order. */
  function CoveredSids(idxs: seq<int>, sids: seq<nat>, start: nat, end: nat, n: nat): (r: seq<nat>)
    requires n <= |idxs|
    ensures |r| <= n
  {
    if n == 0 then [] else
      var r := CoveredSids(idxs, sids, start, end, n - 1);
      if Covered(sids, idxs[n - 1], start, end) then r + [sids[idxs[n - 1]]] else r
  }

  lemma {:induction false} CoverExactly(idxs: seq<int>, sids: seq<nat>, start: nat, end: nat, n: nat, sid: nat)
    requires n <= |idxs|
    ensures sid in CoveredSids(idxs, sids, start, end, n) <==>
            exists i {:trigger idxs[i]} :: 0 <= i < n && Covered(sids, idxs[i], start, end) && sids[idxs[i]] == sid
  {
    if n > 0 {
      CoverExactly(idxs, sids, start, end, n - 1, sid);
    }
  }

  /** The sids of the sealed memtables in the range, then the growing one's; there is room for all. */
  method ScanCover(idxs: array<int>, count: nat, growing: int, sids: seq<nat>, start: nat, end: nat) returns (cover: seq<nat>)
    requires count <= idxs.Length && count <= MEMTABLE_NUM && growing < |sids|
    requires forall i :: 0 <= i < count ==> idxs[i] < |sids|
    ensures cover == CoveredSids(idxs[..count] + [growing], sids, start, end, count + 1)
  {
    ghost var listed := idxs[..count] + [growing];
    cover := [];
    var i := 0;
    while i < count && |cover| < MEMTABLE_NUM + 1
      invariant i <= count && |cover| <= i && cover == CoveredSids(listed, sids, start, end, i)
    {
      assert listed[i] == idxs[i];
      if idxs[i] >= 0 && start <= sids[idxs[i]] <= end {
        cover := cover + [sids[idxs[i]]];
      }
      i := i + 1;
    }
    if growing >= 0 && |cover| < MEMTABLE_NUM + 1 && start <= sids[growing] <= end {
      cover := cover + [sids[growing]];
    }
  }

  /* ---- Copying deletions ---- */

  /** The masked rows among the first `n`, in slot order. */
  function MaskedTids(tids: seq<int>, bits: seq<bool>, n: nat): (g: seq<int>)
    requires n <= |tids| == |bits|
  {
    if n == 0 then [] else
      var g := MaskedTids(tids, bits, n - 1);
      if bits[n - 1] then g + [tids[n - 1]] else g
  }

  lemma {:induction false} MaskedTidsExactly(tids: seq<int>, bits: seq<bool>, n: nat, tid: int)
    requires n <= |tids| == |bits|
    ensures tid in MaskedTids(tids, bits, n) <==> exists i :: 0 <= i < n && bits[i] && tids[i] == tid
  {
    if n > 0 {
      MaskedTidsExactly(tids, bits, n - 1, tid);
    }
  }

  lemma {:induction false} MaskedTidsGrow(tids: seq<int>, bits: seq<bool>, m: nat, n: nat)
    requires m <= n <= |tids| == |bits|
    ensures |MaskedTids(tids, bits, m)| <= |MaskedTids(tids, bits, n)|
    decreases n
  {
    if m < n {
      MaskedTidsGrow(tids, bits, m, n - 1);
    }
  }

  /** Counts the masked rows, then copies them into a buffer of exactly that size. */
  method CollectGroup(sid: nat, tids: seq<int>, bits: seq<bool>, currentSize: nat) returns (group: Group)
    requires |tids| == |bits|
    ensures group == Group(sid, MaskedTids(tids, bits, if currentSize > |tids| then |tids| else currentSize))
  {
    var valid := if currentSize > |tids| then |tids| else currentSize;
    var nSet := 0;
    for j := 0 to valid
      invariant nSet == |MaskedTids(tids, bits, j)|
    {
      if bits[j] {
        nSet := nSet + 1;
      }
    }
    var buffer := new int[nSet];
    var g := 0;
    for j := 0 to valid
      invariant g <= nSet && buffer[..g] == MaskedTids(tids, bits, j)
    {
      MaskedTidsGrow(tids, bits, j + 1, valid);
      if bits[j] {
        buffer[g] := tids[j];
        g := g + 1;
      }
    }
    assert buffer[..nSet] == buffer[..];
    return Group(sid, buffer[..]);
  }

  lemma ExtendEmbedding(rows: seq<int>, lo: nat, hi: nat, entries: seq<int>, f: seq<nat>, tid: int)
    requires lo <= hi < |rows| && rows[hi] == tid && Embeds(rows, lo, hi, entries, |entries|, f)
    ensures Embeds(rows, lo, hi + 1, entries, |entries|, f)
    ensures Embeds(rows, lo, hi + 1, entries + [tid], |entries + [tid]|, f + [hi])
  {
  }

  ghost predicate RowIs(rows: seq<int>, lo: nat, tids: seq<int>, i: nat)
    requires i < |tids|
  {
    lo + i < |rows| && rows[lo + i] == tids[i]
  }

  /** The rows of the copied group are placed in the slice of a segment flushed from the memtable. */
  lemma {:induction false} GroupEmbedsInFlush(rows: seq<int>, lo: nat, tids: seq<int>, bits: seq<bool>, n: nat) returns (f: seq<nat>)
    requires n <= |tids| == |bits| && lo + n <= |rows| && forall i :: 0 <= i < n ==> RowIs(rows, lo, tids, i)
    ensures Embeds(rows, lo, lo + n, MaskedTids(tids, bits, n), |MaskedTids(tids, bits, n)|, f)
  {
    if n == 0 {
      f := [];
    } else {
      var f0 := GroupEmbedsInFlush(rows, lo, tids, bits, n - 1);
      var g0, hi := MaskedTids(tids, bits, n - 1), lo + n - 1;
      assert RowIs(rows, lo, tids, n - 1);
      ExtendEmbedding(rows, lo, hi, g0, f0, tids[n - 1]);
      if bits[n - 1] {
        f := f0 + [hi];
        assert MaskedTids(tids, bits, n) == g0 + [tids[n - 1]];
      } else {
        f := f0;
        assert MaskedTids(tids, bits, n) == g0;
      }
    }
  }

  /** So the groups of freshly flushed memtables with distinct rows meet the adoption's demand. */
  lemma FlushedGroupEmbeds(n: Table, k: nat, tids: seq<int>, bits: seq<bool>, size: nat)
    requires n.Ok() && k < |n.offsets| && size <= |tids| == |bits|
    requires n.offsets[k].hi - n.offsets[k].lo == size && n.Slice(k) == tids[..size]
    requires DistinctRows(n.rows, n.offsets[k].lo, n.offsets[k].hi)
    ensures GroupEmbeds(n, k, Group(n.offsets[k].sid, MaskedTids(tids, bits, size)))
  {
    forall i | 0 <= i < size ensures RowIs(n.rows, n.offsets[k].lo, tids, i) {
      assert n.Slice(k)[i] == tids[..size][i];
    }
    var f := GroupEmbedsInFlush(n.rows, n.offsets[k].lo, tids, bits, size);
  }

  /* ---- Dropping covered memtables ---- */

  /** The list without unused entries and covered memtables, in order. */
  function Kept(idxs: seq<int>, sids: seq<nat>, start: nat, end: nat): (r: seq<int>)
    ensures |r| <= |idxs|
  {
    if idxs == [] then [] else
      var last := idxs[|idxs| - 1];
      var r := Kept(idxs[..|idxs| - 1], sids, start, end);
      if last < 0 || Covered(sids, last, start, end) then r else r + [last]
  }

  lemma {:induction false} KeptExactly(idxs: seq<int>, sids: seq<nat>, start: nat, end: nat, x: int)
    ensures x in Kept(idxs, sids, start, end) <==> x in idxs && x >= 0 && !Covered(sids, x, start, end)
  {
    if idxs != [] {
      KeptExactly(idxs[..|idxs| - 1], sids, start, end, x);
      assert idxs == idxs[..|idxs| - 1] + [idxs[|idxs| - 1]];
    }
  }

  /** The reference counts after the first `n` entries have been treated. */
  function RefsAfter(refs: seq<int>, idxs: seq<int>, sids: seq<nat>, start: nat, end: nat, n: nat): (r: seq<int>)
    requires |refs| == |sids| && n <= |idxs|
    ensures |r| == |refs|
  {
    if n == 0 then refs else
      var r := RefsAfter(refs, idxs, sids, start, end, n - 1);
      var idx := idxs[n - 1];
      if Covered(sids, idx, start, end) then r[idx := r[idx] - 1] else r
  }

  /** Each dropped memtable loses one reference, nobody else loses any. */
  lemma {:induction false} RefsExactly(refs: seq<int>, idxs: seq<int>, sids: seq<nat>, start: nat, end: nat, n: nat, k: nat)
    requires |refs| == |sids| && n <= |idxs| && k < |refs|
    requires forall i, j :: 0 <= i < j < |idxs| && idxs[i] >= 0 ==> idxs[i] != idxs[j]
    ensures RefsAfter(refs, idxs, sids, start, end, n)[k] ==
            refs[k] - if k in idxs[..n] && Covered(sids, k, start, end) then 1 else 0
  {
    if n > 0 {
      RefsExactly(refs, idxs, sids, start, end, n - 1, k);
      assert idxs[..n] == idxs[..n - 1] + [idxs[n - 1]];
    }
  }

  /** Compacts the list in place; each dropped memtable gives up the list's reference. */
  method ReleaseCovered(idxs: array<int>, count: nat, refs: array<int>, sids: seq<nat>, start: nat, end: nat)
    returns (newCount: nat)
    requires count <= idxs.Length && refs.Length == |sids| && idxs != refs
    requires forall i :: 0 <= i < count ==> idxs[i] < |sids|
    modifies idxs, refs
    ensures newCount <= count && idxs[..newCount] == Kept(old(idxs[..count]), sids, start, end)
    ensures refs[..] == RefsAfter(old(refs[..]), old(idxs[..count]), sids, start, end, count)
  {
    ghost var was := idxs[..count];
    newCount := 0;
    for i := 0 to count
      invariant newCount <= i && idxs[..newCount] == Kept(was[..i], sids, start, end)
      invariant forall j :: i <= j < count ==> idxs[j] == was[j]
      invariant refs[..] == RefsAfter(old(refs[..]), was, sids, start, end, i)
    {
      var idx := idxs[i];
      assert was[..i + 1][..i] == was[..i];
      if idx < 0 {
        continue;
      }
      if start <= sids[idx] <= end {
        refs[idx] := refs[idx] - 1;
      } else {
        idxs[newCount] := idx;
        newCount := newCount + 1;
      }
    }
    assert was[..count] == was;
  }

  /** Drops the covered memtables from the list, and the growing one if it is covered. */
  method ReleaseCover(idxs: array<int>, count: nat, refs: array<int>, sids: seq<nat>, growing: int, start: nat, end: nat)
    returns (newCount: nat, newGrowing: int)
    requires count <= idxs.Length && refs.Length == |sids| && idxs != refs && growing < |sids|
    requires forall i :: 0 <= i < count ==> idxs[i] < |sids|
    modifies idxs, refs
    ensures newCount <= count && idxs[..newCount] == Kept(old(idxs[..count]), sids, start, end)
    ensures newGrowing == if Covered(sids, growing, start, end) then MT_IDX_INVALID else growing
    ensures refs[..] == RefsAfter(old(refs[..]), old(idxs[..count]) + [growing], sids, start, end, count + 1)
  {
    ghost var was := idxs[..count];
    newCount := ReleaseCovered(idxs, count, refs, sids, start, end);
    SameEntries(old(refs[..]), was, was + [growing], sids, start, end, count);
    newGrowing := growing;
    if growing >= 0 && start <= sids[growing] <= end {
      refs[growing] := refs[growing] - 1;
      newGrowing := MT_IDX_INVALID;
    }
  }

  lemma {:induction false} SameEntries(refs: seq<int>, a: seq<int>, b: seq<int>, sids: seq<nat>, start: nat, end: nat, n: nat)
    requires |refs| == |sids| && n <= |a| && a <= b
    ensures RefsAfter(refs, a, sids, start, end, n) == RefsAfter(refs, b, sids, start, end, n)
  {
    if n > 0 {
      SameEntries(refs, a, b, sids, start, end, n - 1);
    }
  }

  /** Exactly the cover goes: a memtable leaves the list iff its sid is in the cover scanned from that list. */
  lemma DroppedIffInCover(idxs: seq<int>, sids: seq<nat>, start: nat, end: nat, x: int)
    requires x in idxs && 0 <= x < |sids|
    ensures x !in Kept(idxs, sids, start, end) <==> sids[x] in CoveredSids(idxs, sids, start, end, |idxs|)
  {
    KeptExactly(idxs, sids, start, end, x);
    CoverExactly(idxs, sids, start, end, |idxs|, sids[x]);
  }
}
