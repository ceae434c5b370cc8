/**
  Tombstone records: what the primary emits while it vacuums a flushed segment, and what a standby
  makes of them. The indexed path and the two-pointer path are compared against the emission.
 */
module VacuumReplay {
  import opened Tombstones

  /** Where the primary found the row, and which row it was. */
  datatype Entry = Entry(localIdx: nat, tid: int)

  /* ---- What one vacuum of a segment finds ---- */

  predicate NewlyDead(rows: seq<int>, was: seq<bool>, dead: int -> bool, p: nat)
    requires p < |rows| == |was|
  {
    !was[p] && dead(rows[p])
  }

  /** The entries for the newly dead rows of `[lo, m)`, in row order. */
  function Emitted(rows: seq<int>, was: seq<bool>, dead: int -> bool, lo: nat, m: nat): (es: seq<Entry>)
    requires lo <= m <= |rows| == |was|
    ensures |es| <= m - lo
    decreases m
  {
    if m == lo then [] else
      var es := Emitted(rows, was, dead, lo, m - 1);
      if NewlyDead(rows, was, dead, m - 1) then es + [Entry(m - 1 - lo, rows[m - 1])] else es
  }

  function Tids(es: seq<Entry>): (ts: seq<int>)
    ensures |ts| == |es| && forall i :: 0 <= i < |es| ==> ts[i] == es[i].tid
  {
    seq(|es|, i requires 0 <= i < |es| => es[i].tid)
  }

  predicate Indexed(es: seq<Entry>, lo: nat, p: nat) {
    exists w :: 0 <= w < |es| && lo + es[w].localIdx == p
  }

  lemma {:induction false} EmittedExactly(rows: seq<int>, was: seq<bool>, dead: int -> bool, lo: nat, m: nat)
    requires lo <= m <= |rows| == |was|
    ensures forall p :: lo <= p < m ==> (Indexed(Emitted(rows, was, dead, lo, m), lo, p) <==> NewlyDead(rows, was, dead, p))
    ensures forall e :: e in Emitted(rows, was, dead, lo, m) ==> lo + e.localIdx < m && rows[lo + e.localIdx] == e.tid
    decreases m
  {
    if m > lo {
      EmittedExactly(rows, was, dead, lo, m - 1);
      var before, es := Emitted(rows, was, dead, lo, m - 1), Emitted(rows, was, dead, lo, m);
      forall p | lo <= p < m ensures Indexed(es, lo, p) <==> NewlyDead(rows, was, dead, p) {
        if p < m - 1 {
          assert before <= es;
          if Indexed(before, lo, p) {
            var w :| 0 <= w < |before| && lo + before[w].localIdx == p;
            assert es[w] == before[w];
          }
        } else if NewlyDead(rows, was, dead, p) {
          assert lo + es[|es| - 1].localIdx == p;
        } else {
          assert forall e :: e in before ==> lo + e.localIdx < m - 1;
        }
      }
    }
  }

  lemma {:induction false} EmittedPrefix(rows: seq<int>, was: seq<bool>, dead: int -> bool, lo: nat, m: nat, hi: nat)
    requires lo <= m <= hi <= |rows| == |was|
    ensures Emitted(rows, was, dead, lo, m) <= Emitted(rows, was, dead, lo, hi)
    decreases hi
  {
    if m < hi {
      EmittedPrefix(rows, was, dead, lo, m, hi - 1);
    }
  }

  /* ---- The primary ---- */

  function Clamp(i: nat, lo: nat, hi: nat): (c: nat)
    requires lo <= hi
    ensures lo <= c <= hi
  {
    if i < lo then lo else if i < hi then i else hi
  }

  ghost predicate EmittedUpTo(buffers: seq<seq<Entry>>, rows: seq<int>, was: seq<bool>, dead: int -> bool,
                              offsets: seq<OffsetRange>, i: nat)
    requires OffsetsOk(offsets, |rows|) && |was| == |rows| && |buffers| == |offsets|
  {
    forall k :: 0 <= k < |offsets| ==>
      buffers[k] == Emitted(rows, was, dead, offsets[k].lo, Clamp(i, offsets[k].lo, offsets[k].hi))
  }

  lemma EmitOne(rows: seq<int>, was: seq<bool>, dead: int -> bool, lo: nat, hi: nat, i: nat)
    requires lo <= hi <= |rows| == |was| && i < |rows|
    ensures Emitted(rows, was, dead, lo, Clamp(i + 1, lo, hi)) ==
            Emitted(rows, was, dead, lo, Clamp(i, lo, hi))
            + if lo <= i < hi && NewlyDead(rows, was, dead, i) then [Entry(i - lo, rows[i])] else []
  {
  }

  lemma EmitStep(buffers: seq<seq<Entry>>, rows: seq<int>, was: seq<bool>, dead: int -> bool, offsets: seq<OffsetRange>,
                 i: nat, cur: nat)
    requires OffsetsOk(offsets, |rows|) && |was| == |rows| && |buffers| == |offsets| && i < |rows|
    requires EmittedUpTo(buffers, rows, was, dead, offsets, i)
    requires cur < |offsets| && offsets[cur].lo <= i < offsets[cur].hi && NewlyDead(rows, was, dead, i)
    ensures |buffers[cur]| < offsets[cur].hi - offsets[cur].lo
    ensures EmittedUpTo(buffers[cur := buffers[cur] + [Entry(i - offsets[cur].lo, rows[i])]], rows, was, dead, offsets, i + 1)
  {
    forall k | 0 <= k < |offsets|
      ensures Emitted(rows, was, dead, offsets[k].lo, Clamp(i + 1, offsets[k].lo, offsets[k].hi)) ==
              if k == cur then buffers[k] + [Entry(i - offsets[cur].lo, rows[i])] else buffers[k]
    {
      EmitOne(rows, was, dead, offsets[k].lo, offsets[k].hi, i);
      assert k < cur ==> offsets[k].hi <= offsets[cur].lo;
      assert k > cur && offsets[k].sid > 0 ==> offsets[cur].hi <= offsets[k].lo;
    }
  }

  lemma NoEmitStep(buffers: seq<seq<Entry>>, rows: seq<int>, was: seq<bool>, dead: int -> bool, offsets: seq<OffsetRange>, i: nat)
    requires OffsetsOk(offsets, |rows|) && |was| == |rows| && |buffers| == |offsets| && i < |rows|
    requires EmittedUpTo(buffers, rows, was, dead, offsets, i) && !NewlyDead(rows, was, dead, i)
    ensures EmittedUpTo(buffers, rows, was, dead, offsets, i + 1)
  {
    forall k | 0 <= k < |offsets|
      ensures Emitted(rows, was, dead, offsets[k].lo, Clamp(i + 1, offsets[k].lo, offsets[k].hi)) == buffers[k]
    {
      EmitOne(rows, was, dead, offsets[k].lo, offsets[k].hi, i);
    }
  }

  /** The slice that holds row `i` is the first one that ends after it. */
  lemma FirstEndingAfter(offsets: seq<OffsetRange>, rows: nat, i: nat, cur: nat)
    requires OffsetsOk(offsets, rows) && i < rows && cur <= |offsets|
    requires forall k :: 0 <= k < cur ==> offsets[k].hi <= i
    requires cur < |offsets| ==> i < offsets[cur].hi
    ensures cur < |offsets| && offsets[cur].lo <= i
  {
    assert InSomeSlice(offsets, i);
    var j :| 0 <= j < |offsets| && offsets[j].lo <= i < offsets[j].hi;
  }

  /** A segment of one sid has a single slice, of all its rows. */
  lemma SingleSlice(offsets: seq<OffsetRange>, rows: nat, i: nat)
    requires OffsetsOk(offsets, rows) && i < rows && |offsets| == 1
    ensures offsets[0].lo == 0 && i < offsets[0].hi
  {
    assert InSomeSlice(offsets, 0) && InSomeSlice(offsets, i);
  }

  ghost predicate MaskedUpTo(bits: seq<bool>, rows: seq<int>, was: seq<bool>, dead: int -> bool, i: nat)
    requires |bits| == |was| == |rows|
  {
    forall p :: 0 <= p < |rows| ==> bits[p] == (was[p] || (p < i && dead(rows[p])))
  }

  /** Moves the slice cursor to the slice that holds row `i`; it never runs off the table. */
  method AdvanceOffset(rows: seq<int>, offsets: seq<OffsetRange>, i: nat, start: nat) returns (cur: nat)
    requires OffsetsOk(offsets, |rows|) && i < |rows| && start <= |offsets|
    requires forall k :: 0 <= k < start ==> offsets[k].hi <= i
    ensures start <= cur < |offsets| && offsets[cur].lo <= i < offsets[cur].hi
    ensures forall k :: 0 <= k < cur ==> offsets[k].hi <= i
  {
    cur := start;
    while cur < |offsets| && i >= offsets[cur].hi
      invariant start <= cur <= |offsets| && forall k :: 0 <= k < cur ==> offsets[k].hi <= i
    {
      cur := cur + 1;
    }
    FirstEndingAfter(offsets, |rows|, i, cur);
  }

  /** Adds the entry for a newly dead row to its sid's buffer. */
  method EmitRow(buffers: seq<seq<Entry>>, rows: seq<int>, ghost was: seq<bool>, ghost dead: int -> bool, offsets: seq<OffsetRange>,
                 i: nat, start: nat) returns (out: seq<seq<Entry>>, cur: nat)
    requires OffsetsOk(offsets, |rows|) && |was| == |rows| && |buffers| == |offsets| && i < |rows|
    requires EmittedUpTo(buffers, rows, was, dead, offsets, i) && NewlyDead(rows, was, dead, i)
    requires start <= |offsets| && forall k :: 0 <= k < start ==> offsets[k].hi <= i
    ensures |out| == |offsets| && EmittedUpTo(out, rows, was, dead, offsets, i + 1)
    ensures cur <= |offsets| && forall k :: 0 <= k < cur ==> offsets[k].hi <= i
  {
    cur := start;
    if |offsets| == 1 {
      SingleSlice(offsets, |rows|, i);
      EmitStep(buffers, rows, was, dead, offsets, i, 0);
      out := [buffers[0] + [Entry(i, rows[i])]];
      assert out == buffers[0 := buffers[0] + [Entry(i - offsets[0].lo, rows[i])]];
    } else {
      cur := AdvanceOffset(rows, offsets, i, cur);
      EmitStep(buffers, rows, was, dead, offsets, i, cur);
      out := buffers[cur := buffers[cur] + [Entry(i - offsets[cur].lo, rows[i])]];
    }
  }

  /**
    Vacuums one segment: masks every row the callback calls dead, and fills one buffer of entries
    per source memtable, each within the span of its slice.
   */
  method VacuumSegment(rows: seq<int>, offsets: seq<OffsetRange>, bitmap: array<bool>, dead: int -> bool, deleteCount: nat)
    returns (buffers: seq<seq<Entry>>, newCount: nat)
    requires OffsetsOk(offsets, |rows|) && bitmap.Length == |rows|
    requires deleteCount == CountSet(bitmap[..])
    modifies bitmap
    ensures |buffers| == |offsets|
    ensures forall k :: 0 <= k < |offsets| ==>
      buffers[k] == Emitted(rows, old(bitmap[..]), dead, offsets[k].lo, offsets[k].hi)
      && |buffers[k]| <= offsets[k].hi - offsets[k].lo
    ensures forall p :: 0 <= p < |rows| ==> bitmap[p] == (old(bitmap[p]) || dead(rows[p]))
    ensures newCount == CountSet(bitmap[..])
  {
    ghost var was := bitmap[..];
    buffers := seq(|offsets|, _ => []);
    newCount := deleteCount;
    var cur: nat := 0;
    var i := 0;
    while i < |rows|
      invariant i <= |rows| && |buffers| == |offsets|
      invariant EmittedUpTo(buffers, rows, was, dead, offsets, i)
      invariant cur <= |offsets| && forall k :: 0 <= k < cur ==> offsets[k].hi <= i
      invariant MaskedUpTo(bitmap[..], rows, was, dead, i)
      invariant newCount == CountSet(bitmap[..])
    {
      if !bitmap[i] && dead(rows[i]) {
        SetSlot(bitmap, i);
        newCount := newCount + 1;
        buffers, cur := EmitRow(buffers, rows, was, dead, offsets, i, cur);
      } else {
        NoEmitStep(buffers, rows, was, dead, offsets, i);
      }
      i := i + 1;
    }
  }

  /* ---- The standby ---- */

  /** Which rows of a slice a record sets, by position or by the two-pointer walk. */
  ghost predicate Sets(fast: bool, rows: seq<int>, lo: nat, hi: nat, es: seq<Entry>, p: nat)
    requires p < |rows|
  {
    lo <= p < hi && if fast then Indexed(es, lo, p) else Marked(rows, lo, p, Tids(es))
  }

  /** Replays one record on the slice it belongs to; `applied` counts the bits that flipped. */
  method ApplyToSlice(rows: seq<int>, bitmap: array<bool>, lo: nat, hi: nat, fast: bool, es: seq<Entry>) returns (applied: nat)
    requires lo <= hi <= |rows| == bitmap.Length
    modifies bitmap
    ensures forall p :: 0 <= p < |rows| ==> bitmap[p] == (old(bitmap[p]) || Sets(fast, rows, lo, hi, es, p))
    ensures CountSet(bitmap[..]) == CountSet(old(bitmap[..])) + applied
  {
    if fast {
      applied := 0;
      for w := 0 to |es|
        invariant forall p :: 0 <= p < |rows| ==> bitmap[p] == (old(bitmap[p]) || (lo <= p < hi && Indexed(es[..w], lo, p)))
        invariant CountSet(bitmap[..]) == CountSet(old(bitmap[..])) + applied
      {
        var m := lo + es[w].localIdx;
        if m < hi && !bitmap[m] {
          SetSlot(bitmap, m);
          applied := applied + 1;
        }
        IndexedStep(es, lo, w);
      }
      assert es[..|es|] == es;
    } else {
      applied := MarkSlice(rows, bitmap, lo, hi, Tids(es));
    }
  }

  lemma IndexedStep(es: seq<Entry>, lo: nat, w: nat)
    requires w < |es|
    ensures forall p: nat :: Indexed(es[..w + 1], lo, p) <==> Indexed(es[..w], lo, p) || p == lo + es[w].localIdx
  {
    forall p: nat ensures Indexed(es[..w + 1], lo, p) <==> Indexed(es[..w], lo, p) || p == lo + es[w].localIdx {
      if Indexed(es[..w], lo, p) {
        var v :| 0 <= v < w && lo + es[..w][v].localIdx == p;
        assert es[..w + 1][v] == es[..w][v];
      }
      if Indexed(es[..w + 1], lo, p) {
        var v :| 0 <= v < w + 1 && lo + es[..w + 1][v].localIdx == p;
        if v < w {
          assert es[..w][v] == es[..w + 1][v];
        }
      }
      assert es[..w + 1][w] == es[w];
    }
  }

  /** Replays the record of one sid on a standby's segment; fails if bisection of the table misses the sid. */
  method ApplyToFile(rows: seq<int>, offsets: seq<OffsetRange>, bitmap: array<bool>, diskVersion: nat, deleteCount: nat,
                     sid: nat, ownerVersion: nat, memtableOwner: bool, es: seq<Entry>)
    returns (handled: bool, newCount: nat)
    requires OffsetsOk(offsets, |rows|) && bitmap.Length == |rows| && deleteCount == CountSet(bitmap[..])
    modifies bitmap
    ensures newCount == CountSet(bitmap[..])
    ensures handled <==> Bisect(offsets, 0, |offsets| - 1, sid) >= 0
    ensures forall p :: 0 <= p < |rows| ==>
      bitmap[p] == (old(bitmap[p]) || SetBySid(diskVersion == ownerVersion && !memtableOwner, rows, offsets, sid, es, p))
  {
    var oi := OffsetIndexForSid(offsets, sid);
    if oi < 0 {
      return false, deleteCount;
    }
    var fast := diskVersion == ownerVersion && !memtableOwner;
    var applied := ApplyToSlice(rows, bitmap, offsets[oi].lo, offsets[oi].hi, fast, es);
    handled, newCount := true, deleteCount + applied;
  }

  ghost predicate SetBySid(fast: bool, rows: seq<int>, offsets: seq<OffsetRange>, sid: nat, es: seq<Entry>, p: nat)
    requires p < |rows|
  {
    var oi := Bisect(offsets, 0, |offsets| - 1, sid);
    oi >= 0 && Sets(fast, rows, offsets[oi].lo, offsets[oi].hi, es, p)
  }

  /* ---- Indexed and two-pointer replay ---- */

  /** Between a row that is passed over and the next newly dead row, the walk cannot mistake one for the other. */
  ghost predicate Unambiguous(rows: seq<int>, was: seq<bool>, dead: int -> bool, lo: nat, hi: nat)
    requires lo <= hi <= |rows| == |was|
  {
    forall m, d :: lo <= m < d < hi && NextDead(rows, was, dead, m, d) ==> rows[m] != rows[d]
  }

  /** `m` is not newly dead, and `d` is the first newly dead row after it. */
  ghost predicate NextDead(rows: seq<int>, was: seq<bool>, dead: int -> bool, m: nat, d: nat)
    requires m < d < |rows| == |was|
  {
    NewlyDead(rows, was, dead, d) && forall x :: m <= x < d ==> !NewlyDead(rows, was, dead, x)
  }

  ghost predicate PathsAgree(rows: seq<int>, was: seq<bool>, dead: int -> bool, lo: nat, m: nat, hi: nat)
    requires lo <= m <= hi <= |rows| == |was|
  {
    forall p :: lo <= p < m ==>
      (Marked(rows, lo, p, Tids(Emitted(rows, was, dead, lo, hi))) <==> NewlyDead(rows, was, dead, p))
  }

  lemma {:induction false} AgreementCounts(rows: seq<int>, was: seq<bool>, dead: int -> bool, lo: nat, m: nat, hi: nat)
    requires lo <= m <= hi <= |rows| == |was| && PathsAgree(rows, was, dead, lo, m, hi)
    ensures MatchCount(rows, lo, m, Tids(Emitted(rows, was, dead, lo, hi))) == |Emitted(rows, was, dead, lo, m)|
    decreases m
  {
    if lo < m {
      AgreementCounts(rows, was, dead, lo, m - 1, hi);
      assert Marked(rows, lo, m - 1, Tids(Emitted(rows, was, dead, lo, hi))) <==> NewlyDead(rows, was, dead, m - 1);
    }
  }

  /** What the walk is looking for when it reaches `m`: the first newly dead row from there on. */
  lemma {:induction false} NextWanted(rows: seq<int>, was: seq<bool>, dead: int -> bool, lo: nat, m: nat, hi: nat)
    returns (d: nat)
    requires lo <= m < hi <= |rows| == |was|
    ensures m <= d <= hi
    ensures forall x :: m <= x < d ==> !NewlyDead(rows, was, dead, x)
    ensures d < hi ==> NewlyDead(rows, was, dead, d)
    ensures var es, w := Emitted(rows, was, dead, lo, hi), |Emitted(rows, was, dead, lo, m)|;
            if d < hi then w < |es| && es[w].tid == rows[d] else w == |es|
    decreases hi - m
  {
    if NewlyDead(rows, was, dead, m) {
      d := m;
      EmittedPrefix(rows, was, dead, lo, m + 1, hi);
    } else if m + 1 < hi {
      d := NextWanted(rows, was, dead, lo, m + 1, hi);
    } else {
      d := hi;
    }
  }

  /** The record of a slice sets the same rows on either path. */
  ghost predicate SamePaths(rows: seq<int>, was: seq<bool>, dead: int -> bool, lo: nat, hi: nat)
    requires lo <= hi <= |rows| == |was|
  {
    forall p :: 0 <= p < |rows| ==>
      (Sets(true, rows, lo, hi, Emitted(rows, was, dead, lo, hi), p)
       <==> Sets(false, rows, lo, hi, Emitted(rows, was, dead, lo, hi), p))
  }

  lemma SameIffAgree(rows: seq<int>, was: seq<bool>, dead: int -> bool, lo: nat, hi: nat)
    requires lo <= hi <= |rows| == |was|
    ensures SamePaths(rows, was, dead, lo, hi) <==> PathsAgree(rows, was, dead, lo, hi, hi)
  {
    var es := Emitted(rows, was, dead, lo, hi);
    EmittedExactly(rows, was, dead, lo, hi);
    if SamePaths(rows, was, dead, lo, hi) {
      forall p | lo <= p < hi ensures Marked(rows, lo, p, Tids(es)) <==> NewlyDead(rows, was, dead, p) {
        assert Sets(true, rows, lo, hi, es, p) <==> Sets(false, rows, lo, hi, es, p);
      }
    }
  }

  /** The two paths set the same rows of a slice exactly when no passed row carries the next dead row's id. */
  lemma PathsAgreeIffUnambiguous(rows: seq<int>, was: seq<bool>, dead: int -> bool, lo: nat, hi: nat)
    requires lo <= hi <= |rows| == |was|
    ensures SamePaths(rows, was, dead, lo, hi) <==> Unambiguous(rows, was, dead, lo, hi)
  {
    SameIffAgree(rows, was, dead, lo, hi);
    if Unambiguous(rows, was, dead, lo, hi) {
      UnambiguousAgrees(rows, was, dead, lo, hi, hi);
    }
    if PathsAgree(rows, was, dead, lo, hi, hi) {
      forall m, d | lo <= m < d < hi && NextDead(rows, was, dead, m, d) ensures rows[m] != rows[d] {
        AgreementCounts(rows, was, dead, lo, m, hi);
        var d' := NextWanted(rows, was, dead, lo, m, hi);
        assert !NewlyDead(rows, was, dead, m) && !Marked(rows, lo, m, Tids(Emitted(rows, was, dead, lo, hi)));
      }
    }
  }

  /** If the walk has matched what was emitted before `m`, it marks `m` exactly if it is newly dead. */
  lemma WalkAgreesAt(rows: seq<int>, was: seq<bool>, dead: int -> bool, lo: nat, m: nat, hi: nat)
    requires lo <= m < hi <= |rows| == |was| && Unambiguous(rows, was, dead, lo, hi)
    requires MatchCount(rows, lo, m, Tids(Emitted(rows, was, dead, lo, hi))) == |Emitted(rows, was, dead, lo, m)|
    ensures Marked(rows, lo, m, Tids(Emitted(rows, was, dead, lo, hi))) <==> NewlyDead(rows, was, dead, m)
  {
    var d := NextWanted(rows, was, dead, lo, m, hi);
    if m < d < hi {
      assert NextDead(rows, was, dead, m, d);
    }
  }

  lemma {:induction false} UnambiguousAgrees(rows: seq<int>, was: seq<bool>, dead: int -> bool, lo: nat, m: nat, hi: nat)
    requires lo <= m <= hi <= |rows| == |was| && Unambiguous(rows, was, dead, lo, hi)
    ensures PathsAgree(rows, was, dead, lo, m, hi)
    decreases m
  {
    if lo < m {
      UnambiguousAgrees(rows, was, dead, lo, m - 1, hi);
      AgreementCounts(rows, was, dead, lo, m - 1, hi);
      WalkAgreesAt(rows, was, dead, lo, m - 1, hi);
    }
  }

  lemma DistinctIsUnambiguous(rows: seq<int>, was: seq<bool>, dead: int -> bool, lo: nat, hi: nat)
    requires lo <= hi <= |rows| == |was| && DistinctRows(rows, lo, hi)
    ensures Unambiguous(rows, was, dead, lo, hi)
  {
  }

  /** A slice for which the paths differ: the passed row 0 has the id of the dead row 1. */
  lemma PathsCanDiffer()
    ensures var rows, was := [7, 7], [true, false];
            var es := Emitted(rows, was, (_: int) => true, 0, 2);
            Sets(true, rows, 0, 2, es, 1) && !Sets(false, rows, 0, 2, es, 1) && Sets(false, rows, 0, 2, es, 0)
  {
    var rows, was, dead := [7, 7], [true, false], (_: int) => true;
    EmittedExactly(rows, was, dead, 0, 2);
    assert Emitted(rows, was, dead, 0, 1) == [];
    assert Emitted(rows, was, dead, 0, 2) == [Entry(1, 7)];
    assert MatchCount(rows, 0, 0, [7]) == 0 && MatchCount(rows, 0, 1, [7]) == 1;
    assert Tids([Entry(1, 7)]) == [7];
  }

  /* ---- Replaying a whole vacuum ---- */

  /** The path taken for every record sets exactly the newly dead rows of its slice. */
  ghost predicate Faithful(fast: bool, rows: seq<int>, was: seq<bool>, dead: int -> bool, offsets: seq<OffsetRange>)
    requires OffsetsOk(offsets, |rows|) && |was| == |rows|
  {
    fast || forall k :: 0 <= k < |offsets| ==> Unambiguous(rows, was, dead, offsets[k].lo, offsets[k].hi)
  }

  /** Bisection finds the slice of this row's source memtable. */
  ghost predicate Reached(offsets: seq<OffsetRange>, p: nat) {
    exists k: nat :: Delivers(offsets, k, p)
  }

  /** Slice `k` holds row `p`, and bisection finds it. */
  ghost predicate Delivers(offsets: seq<OffsetRange>, k: nat, p: nat) {
    k < |offsets| && offsets[k].lo <= p < offsets[k].hi && Found(offsets, k)
  }

  lemma RecordSets(fast: bool, rows: seq<int>, was: seq<bool>, dead: int -> bool, offsets: seq<OffsetRange>, k: nat, p: nat)
    requires OffsetsOk(offsets, |rows|) && |was| == |rows| && k < |offsets| && p < |rows|
    requires Faithful(fast, rows, was, dead, offsets)
    ensures SetBySid(fast, rows, offsets, offsets[k].sid, Emitted(rows, was, dead, offsets[k].lo, offsets[k].hi), p)
       <==> Delivers(offsets, k, p) && NewlyDead(rows, was, dead, p)
  {
    var es := Emitted(rows, was, dead, offsets[k].lo, offsets[k].hi);
    EmittedExactly(rows, was, dead, offsets[k].lo, offsets[k].hi);
    if !fast {
      PathsAgreeIffUnambiguous(rows, was, dead, offsets[k].lo, offsets[k].hi);
    }
    if offsets[k].sid > 0 {
      FoundWhereItIs(offsets, |rows|, k);
    }
  }

  lemma FoundWhereItIs(offsets: seq<OffsetRange>, rows: nat, k: nat)
    requires OffsetsOk(offsets, rows) && k < |offsets| && offsets[k].sid > 0
    ensures var r := Bisect(offsets, 0, |offsets| - 1, offsets[k].sid); r >= 0 ==> r == k
  {
  }

  /** In a searchable table every row is reached. */
  lemma AllReached(offsets: seq<OffsetRange>, rows: nat, p: nat)
    requires OffsetsOk(offsets, rows) && Searchable(offsets) && p < rows
    ensures Reached(offsets, p)
  {
    assert InSomeSlice(offsets, p);
    var k :| 0 <= k < |offsets| && offsets[k].lo <= p < offsets[k].hi;
    BisectFindsAllIff(offsets);
    assert Delivers(offsets, k, p);
  }

  /**
    A standby with the primary's version, mapping and bitmap that replays the records of one vacuum
    masks exactly the dead rows whose slice bisection finds; with another version too, as long as the
    two-pointer walk is unambiguous. So it ends with the primary's bitmap exactly if bisection finds
    every slice with a newly dead row, as it does in a searchable table.
   */
  method ReplayVacuum(rows: seq<int>, offsets: seq<OffsetRange>, bitmap: array<bool>, diskVersion: nat, deleteCount: nat,
                      ownerVersion: nat, buffers: seq<seq<Entry>>, ghost dead: int -> bool) returns (newCount: nat)
    requires OffsetsOk(offsets, |rows|) && bitmap.Length == |rows| && deleteCount == CountSet(bitmap[..])
    requires |buffers| == |offsets|
    requires forall k :: 0 <= k < |offsets| ==>
      buffers[k] == Emitted(rows, bitmap[..], dead, offsets[k].lo, offsets[k].hi)
    requires Faithful(diskVersion == ownerVersion, rows, bitmap[..], dead, offsets)
    modifies bitmap
    ensures forall p :: 0 <= p < |rows| ==> bitmap[p] == (old(bitmap[p]) || (dead(rows[p]) && Reached(offsets, p)))
    ensures (forall p :: 0 <= p < |rows| ==> bitmap[p] == (old(bitmap[p]) || dead(rows[p]))) <==>
            forall p: nat :: p < |rows| && NewlyDead(rows, old(bitmap[..]), dead, p) ==> Reached(offsets, p)
    ensures Searchable(offsets) ==> forall p :: 0 <= p < |rows| ==> bitmap[p] == (old(bitmap[p]) || dead(rows[p]))
    ensures newCount == CountSet(bitmap[..])
  {
    ghost var was := bitmap[..];
    newCount := deleteCount;
    for k := 0 to |offsets|
      invariant newCount == CountSet(bitmap[..])
      invariant ReplayedUpTo(bitmap[..], rows, was, dead, offsets, k)
    {
      if |buffers[k]| > 0 {
        ghost var before := bitmap[..];
        var handled;
        handled, newCount := ApplyToFile(rows, offsets, bitmap, diskVersion, newCount, offsets[k].sid, ownerVersion, false, buffers[k]);
        ReplayStep(bitmap[..], before, rows, was, dead, offsets, k, diskVersion == ownerVersion);
      } else {
        ReplayStep(bitmap[..], bitmap[..], rows, was, dead, offsets, k, diskVersion == ownerVersion);
      }
    }
    ReplayOutcome(bitmap[..], rows, was, dead, offsets);
  }

  lemma ReplayOutcome(bits: seq<bool>, rows: seq<int>, was: seq<bool>, dead: int -> bool, offsets: seq<OffsetRange>)
    requires OffsetsOk(offsets, |rows|) && |bits| == |was| == |rows|
    requires ReplayedUpTo(bits, rows, was, dead, offsets, |offsets|)
    ensures forall p :: 0 <= p < |rows| ==> bits[p] == (was[p] || (dead(rows[p]) && Reached(offsets, p)))
    ensures (forall p :: 0 <= p < |rows| ==> bits[p] == (was[p] || dead(rows[p]))) <==>
            forall p: nat :: p < |rows| && NewlyDead(rows, was, dead, p) ==> Reached(offsets, p)
    ensures Searchable(offsets) ==> forall p :: 0 <= p < |rows| ==> bits[p] == (was[p] || dead(rows[p]))
  {
    forall p: nat | p < |rows| ensures DeliveredBy(offsets, |offsets|, p) <==> Reached(offsets, p) {
      if Reached(offsets, p) {
        var k: nat :| Delivers(offsets, k, p);
        assert k < |offsets|;
      }
    }
    if Searchable(offsets) {
      forall p: nat | p < |rows| ensures Reached(offsets, p) {
        AllReached(offsets, |rows|, p);
      }
    }
  }

  lemma SecondSliceIsNotReached(offsets: seq<OffsetRange>)
    requires offsets == MergedOffsets([OffsetRange(4, 0, 2)], [OffsetRange(3, 0, 1)], 2, 2)
    ensures OffsetsOk(offsets, 3) && !Reached(offsets, 2)
  {
    LargerSecondIsMissed();
    forall p: nat | p < 3 ensures InSomeSlice(offsets, p) {
      assert offsets[0] == OffsetRange(4, 0, 2) && offsets[1] == OffsetRange(3, 2, 3);
    }
  }

  lemma {:induction false} NoneSet(bits: seq<bool>)
    requires forall p :: 0 <= p < |bits| ==> !bits[p]
    ensures CountSet(bits) == 0
  {
    if bits != [] {
      NoneSet(bits[..|bits| - 1]);
    }
  }

  /**
    A deletion that only the primary has: in the merge of sids 4 and 3, with sid 4 the larger segment,
    row 2 dies. The primary masks it and emits its record; the standby, with the same file, never masks it.
   */
  method LostDeletion() returns (primary: seq<bool>, standby: seq<bool>)
    ensures |primary| == |standby| == 3
    ensures primary[2] && !standby[2]
  {
    var rows, dead := [10, 11, 12], t => t == 12;
    var offsets := MergedOffsets([OffsetRange(4, 0, 2)], [OffsetRange(3, 0, 1)], 2, 2);
    SecondSliceIsNotReached(offsets);
    var here, there := new bool[3](_ => false), new bool[3](_ => false);
    NoneSet(here[..]);
    NoneSet(there[..]);
    assert here[..] == there[..];
    var buffers, newCount := VacuumSegment(rows, offsets, here, dead, 0);
    newCount := ReplayVacuum(rows, offsets, there, 1, 0, 1, buffers, dead);
    primary, standby := here[..], there[..];
  }

  /** One of the first `done` records reaches this row. */
  ghost predicate DeliveredBy(offsets: seq<OffsetRange>, done: nat, p: nat) {
    exists k: nat :: k < done && Delivers(offsets, k, p)
  }

  ghost predicate ReplayedUpTo(bits: seq<bool>, rows: seq<int>, was: seq<bool>, dead: int -> bool,
                               offsets: seq<OffsetRange>, done: nat)
    requires |bits| == |was| == |rows|
  {
    forall p :: 0 <= p < |rows| ==> bits[p] == (was[p] || (DeliveredBy(offsets, done, p) && dead(rows[p])))
  }

  lemma ReplayStep(bits: seq<bool>, before: seq<bool>, rows: seq<int>, was: seq<bool>, dead: int -> bool,
                   offsets: seq<OffsetRange>, k: nat, fast: bool)
    requires OffsetsOk(offsets, |rows|) && |bits| == |before| == |was| == |rows| && k < |offsets|
    requires Faithful(fast, rows, was, dead, offsets)
    requires ReplayedUpTo(before, rows, was, dead, offsets, k)
    requires var es := Emitted(rows, was, dead, offsets[k].lo, offsets[k].hi);
             if es == [] then bits == before else forall p :: 0 <= p < |rows| ==>
               bits[p] == (before[p] || SetBySid(fast, rows, offsets, offsets[k].sid, es, p))
    ensures ReplayedUpTo(bits, rows, was, dead, offsets, k + 1)
  {
    var es := Emitted(rows, was, dead, offsets[k].lo, offsets[k].hi);
    EmittedExactly(rows, was, dead, offsets[k].lo, offsets[k].hi);
    forall p | 0 <= p < |rows|
      ensures bits[p] == (was[p] || (DeliveredBy(offsets, k + 1, p) && dead(rows[p])))
    {
      RecordSets(fast, rows, was, dead, offsets, k, p);
      DeliveredStep(offsets, k, p);
    }
  }

  lemma DeliveredStep(offsets: seq<OffsetRange>, k: nat, p: nat)
    requires k < |offsets|
    ensures DeliveredBy(offsets, k + 1, p) <==> DeliveredBy(offsets, k, p) || Delivers(offsets, k, p)
  {
    if DeliveredBy(offsets, k, p) {
      var j: nat :| j < k && Delivers(offsets, j, p);
      assert j < k + 1;
    }
  }

  /** Replaying a record again changes nothing: the rows it sets do not depend on the bitmap. */
  method ReplayTwice(rows: seq<int>, offsets: seq<OffsetRange>, bitmap: array<bool>, diskVersion: nat, deleteCount: nat,
                     sid: nat, ownerVersion: nat, memtableOwner: bool, es: seq<Entry>)
    returns (ghost once: seq<bool>, first: nat, second: nat)
    requires OffsetsOk(offsets, |rows|) && bitmap.Length == |rows| && deleteCount == CountSet(bitmap[..])
    modifies bitmap
    ensures bitmap[..] == once && first == second == CountSet(once)
    ensures forall p :: 0 <= p < |rows| ==>
      once[p] == (old(bitmap[p]) || SetBySid(diskVersion == ownerVersion && !memtableOwner, rows, offsets, sid, es, p))
  {
    var handled;
    handled, first := ApplyToFile(rows, offsets, bitmap, diskVersion, deleteCount, sid, ownerVersion, memtableOwner, es);
    once := bitmap[..];
    handled, second := ApplyToFile(rows, offsets, bitmap, diskVersion, first, sid, ownerVersion, memtableOwner, es);
    assert bitmap[..] == once;
  }

  /* ---- The worker's refresh ---- */

  /**
    After a replay the worker adds the file's bits to those of the segment in memory, and takes the
    file's delete count over. The count is right exactly if memory knew no bit the file did not have.
   */
  method RefreshBitmap(memory: array<bool>, file: seq<bool>, fileCount: nat) returns (newCount: nat)
    requires |file| == memory.Length && fileCount == CountSet(file)
    modifies memory
    ensures forall p :: 0 <= p < |file| ==> memory[p] == (old(memory[p]) || file[p])
    ensures newCount == fileCount <= CountSet(memory[..])
    ensures newCount == CountSet(memory[..]) <==> forall p :: 0 <= p < |file| ==> (old(memory[p]) ==> file[p])
  {
    for i := 0 to |file|
      invariant forall p :: 0 <= p < i ==> memory[p] == (old(memory[p]) || file[p])
      invariant forall p :: i <= p < |file| ==> memory[p] == old(memory[p])
    {
      memory[i] := memory[i] || file[i];
    }
    newCount := fileCount;
    RefreshCount(old(memory[..]), file, memory[..]);
  }

  lemma RefreshCount(was: seq<bool>, file: seq<bool>, now: seq<bool>)
    requires |was| == |file| == |now| && forall p :: 0 <= p < |file| ==> now[p] == (was[p] || file[p])
    ensures CountSet(file) <= CountSet(now)
    ensures CountSet(file) == CountSet(now) <==> forall p :: 0 <= p < |file| ==> (was[p] ==> file[p])
  {
    MoreSet(file, now);
    if forall p :: 0 <= p < |file| ==> (was[p] ==> file[p]) {
      assert file == now;
    }
  }

  /** A row masked by an adoption only in memory, and another masked by a replay in the file: two bits, counted as one. */
  method RefreshCanUndercount() returns (count: nat, bits: seq<bool>)
    ensures count == 1 && CountSet(bits) == 2
  {
    var memory, file := new bool[2](i => i == 0), [false, true];
    assert [false, true][..1] == [false] && [true, true][..1] == [true];
    assert CountSet([false]) == 0 && CountSet([true]) == 1 && CountSet(file) == 1;
    count := RefreshBitmap(memory, file, 1);
    bits := memory[..];
    assert bits == [true, true];
  }

  /* ---- The memtable of the same sid ---- */

  /** Marks rows of a memtable: by slot if the primary's owner was a memtable, else by walking its rows. */
  method ApplyToMemtable(tids: seq<int>, bitmap: array<bool>, currentSize: nat, memtableOwner: bool, es: seq<Entry>)
    requires |tids| == bitmap.Length
    modifies bitmap
    ensures forall p :: 0 <= p < |tids| ==>
      bitmap[p] == (old(bitmap[p])
                    || if memtableOwner then Indexed(es, 0, p) else p < currentSize && Marked(tids, 0, p, Tids(es)))
  {
    if memtableOwner {
      var applied := ApplyToSlice(tids, bitmap, 0, |tids|, true, es);
    } else {
      var cap := if currentSize > |tids| then |tids| else currentSize;
      var applied := ApplyToSlice(tids, bitmap, 0, cap, false, es);
    }
  }
}
