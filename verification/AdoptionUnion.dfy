/**
  Carrying deletions into an adopted segment: the bitmap unions run under the predecessors'
  mutexes before the new segment is installed.
 */
module AdoptionUnion {
  import opened Tombstones

  /** A segment's row ids and the slices they fall into; fixed once loaded. */
  datatype Table = Table(rows: seq<int>, offsets: seq<OffsetRange>) {
    ghost predicate Ok() {
      OffsetsOk(offsets, |rows|)
    }

    ghost predicate At(k: int, p: int)
      requires Ok()
    {
      0 <= k < |offsets| && offsets[k].lo <= p < offsets[k].hi
    }

    ghost function Slice(k: nat): seq<int>
      requires Ok() && k < |offsets|
    {
      rows[offsets[k].lo..offsets[k].hi]
    }
  }

  /** The loaded buffers of one segment. */
  class SegmentData {
    const table: Table
    const bitmap: array<bool>
    var deleteCount: nat

    constructor (table: Table, bitmap: array<bool>, deleteCount: nat)
      ensures this.table == table && this.bitmap == bitmap && this.deleteCount == deleteCount
    {
      this.table, this.bitmap, this.deleteCount := table, bitmap, deleteCount;
    }

    ghost predicate Valid()
      reads this, bitmap
    {
      table.Ok() && |table.rows| == bitmap.Length && deleteCount == CountSet(bitmap[..])
    }
  }

  /** Deletions captured from one cover memtable. */
  datatype Group = Group(sid: nat, tids: seq<int>)

  /* ---- One slice ---- */

  /** While walking `old[lo..hi)` against `entries`, entry `q` is matched at a masked row. */
  ghost predicate Supplied(old_: seq<int>, oldBits: seq<bool>, lo: nat, hi: nat, entries: seq<int>, q: nat)
    requires lo <= hi <= |old_| == |oldBits|
  {
    exists p :: lo <= p < hi && Marked(old_, lo, p, entries) && MatchCount(old_, lo, p, entries) == q && oldBits[p]
  }

  /** If the new slice embeds in the old one, an entry is supplied iff its row id is masked there. */
  lemma SuppliedIffMasked(old_: seq<int>, oldBits: seq<bool>, lo: nat, hi: nat, entries: seq<int>, f: seq<nat>, q: nat)
    requires lo <= hi <= |old_| == |oldBits| && DistinctRows(old_, lo, hi)
    requires Embeds(old_, lo, hi, entries, |entries|, f) && q < |entries|
    ensures Supplied(old_, oldBits, lo, hi, entries, q) <==> exists p :: lo <= p < hi && old_[p] == entries[q] && oldBits[p]
  {
    LongestPrefix(old_, lo, hi, entries, |entries|);
    var p := MatchedAt(old_, lo, hi, entries, q);
  }

  /** Row `q` of the new slice gets a bit from the part `old[olo..o)` of the old one. */
  ghost predicate Carried(old_: seq<int>, oldBits: seq<bool>, olo: nat, o: nat, entries: seq<int>, nlo: nat, q: nat)
    requires olo <= o <= |old_| == |oldBits| && nlo <= q
  {
    Supplied(old_, oldBits, olo, o, entries, q - nlo)
  }

  lemma SuppliedStep(old_: seq<int>, oldBits: seq<bool>, lo: nat, o: nat, entries: seq<int>, q: nat)
    requires lo <= o < |old_| == |oldBits|
    ensures Supplied(old_, oldBits, lo, o + 1, entries, q) <==>
            (Supplied(old_, oldBits, lo, o, entries, q)
             || (q == MatchCount(old_, lo, o, entries) && Marked(old_, lo, o, entries) && oldBits[o]))
  {
    if Supplied(old_, oldBits, lo, o, entries, q) {
      var p :| lo <= p < o && Marked(old_, lo, p, entries) && MatchCount(old_, lo, p, entries) == q && oldBits[p];
      assert p < o + 1;
    }
  }

  lemma NothingMoreSupplied(old_: seq<int>, oldBits: seq<bool>, lo: nat, mid: nat, hi: nat, entries: seq<int>, q: nat)
    requires lo <= mid <= hi <= |old_| == |oldBits| && MatchCount(old_, lo, mid, entries) == |entries|
    ensures Supplied(old_, oldBits, lo, hi, entries, q) <==> Supplied(old_, oldBits, lo, mid, entries, q)
  {
    if Supplied(old_, oldBits, lo, hi, entries, q) {
      var p :| lo <= p < hi && Marked(old_, lo, p, entries) && MatchCount(old_, lo, p, entries) == q && oldBits[p];
      if mid <= p {
        CountGrows(old_, lo, mid, p, entries);
      }
    }
    if Supplied(old_, oldBits, lo, mid, entries, q) {
      var p :| lo <= p < mid && Marked(old_, lo, p, entries) && MatchCount(old_, lo, p, entries) == q && oldBits[p];
      assert p < hi;
    }
  }

  /** The new bits: what was set, and what has been carried so far. */
  ghost predicate CarriedInto(bits: seq<bool>, was: seq<bool>, old_: seq<int>, oldBits: seq<bool>, olo: nat, o: nat,
                              entries: seq<int>, nlo: nat)
    requires olo <= o <= |old_| == |oldBits| && |bits| == |was|
  {
    forall q :: 0 <= q < |bits| ==>
      bits[q] == (was[q] || (nlo <= q < nlo + |entries| && Carried(old_, oldBits, olo, o, entries, nlo, q)))
  }

  lemma MergeStep(bits: seq<bool>, before: seq<bool>, was: seq<bool>, old_: seq<int>, oldBits: seq<bool>, olo: nat, o: nat,
                  entries: seq<int>, nlo: nat)
    requires olo <= o < |old_| == |oldBits| && |bits| == |before| == |was| && nlo + |entries| <= |bits|
    requires CarriedInto(before, was, old_, oldBits, olo, o, entries, nlo)
    requires bits == if Marked(old_, olo, o, entries) && oldBits[o]
                     then before[nlo + MatchCount(old_, olo, o, entries) := true] else before
    ensures CarriedInto(bits, was, old_, oldBits, olo, o + 1, entries, nlo)
  {
    forall q | nlo <= q < nlo + |entries|
      ensures bits[q] == (was[q] || Carried(old_, oldBits, olo, o + 1, entries, nlo, q))
    {
      SuppliedStep(old_, oldBits, olo, o, entries, q - nlo);
    }
  }

  lemma NothingMoreCarried(bits: seq<bool>, was: seq<bool>, old_: seq<int>, oldBits: seq<bool>, olo: nat, mid: nat, ohi: nat,
                           entries: seq<int>, nlo: nat)
    requires olo <= mid <= ohi <= |old_| == |oldBits| && |bits| == |was|
    requires CarriedInto(bits, was, old_, oldBits, olo, mid, entries, nlo)
    requires MatchCount(old_, olo, mid, entries) == |entries|
    ensures CarriedInto(bits, was, old_, oldBits, olo, ohi, entries, nlo)
  {
    forall q | nlo <= q < |bits|
      ensures Carried(old_, oldBits, olo, ohi, entries, nlo, q) <==> Carried(old_, oldBits, olo, mid, entries, nlo, q)
    {
      NothingMoreSupplied(old_, oldBits, olo, mid, ohi, entries, q - nlo);
    }
  }

  /** Walks an old and a new slice of one source memtable in lockstep and carries set bits over. */
  method MergeSlice(newRows: seq<int>, newBits: array<bool>, nlo: nat, nhi: nat,
                    oldRows: seq<int>, oldBits: array<bool>, olo: nat, ohi: nat) returns (applied: nat)
    requires nlo <= nhi <= |newRows| == newBits.Length && olo <= ohi <= |oldRows| == oldBits.Length
    requires newBits != oldBits
    modifies newBits
    ensures CarriedInto(newBits[..], old(newBits[..]), oldRows, oldBits[..], olo, ohi, newRows[nlo..nhi], nlo)
    ensures CountSet(newBits[..]) == CountSet(old(newBits[..])) + applied
  {
    ghost var entries, bits, was := newRows[nlo..nhi], oldBits[..], newBits[..];
    applied := 0;
    var o, n := olo, nlo;
    while o < ohi && n < nhi
      invariant olo <= o <= ohi && nlo <= n <= nhi && n - nlo == MatchCount(oldRows, olo, o, entries)
      invariant CarriedInto(newBits[..], was, oldRows, bits, olo, o, entries, nlo)
      invariant CountSet(newBits[..]) == CountSet(was) + applied
    {
      ghost var before := newBits[..];
      assert entries[n - nlo] == newRows[n];
      if oldRows[o] == newRows[n] {
        if oldBits[o] && !newBits[n] {
          SetSlot(newBits, n);
          applied := applied + 1;
        }
        n := n + 1;
      }
      MergeStep(newBits[..], before, was, oldRows, bits, olo, o, entries, nlo);
      o := o + 1;
    }
    if n == nhi {
      NothingMoreCarried(newBits[..], was, oldRows, bits, olo, o, ohi, entries, nlo);
    }
  }

  /* ---- A whole displaced segment ---- */

  /** Row `q` of slice `k` gets a bit from the displaced segment's slice with the same sid. */
  ghost predicate FromSegment(n: Table, k: nat, q: nat, o: Table, oldBits: seq<bool>)
    requires n.Ok() && o.Ok() && |oldBits| == |o.rows| && n.At(k, q)
  {
    exists oi :: 0 <= oi < |o.offsets| && o.offsets[oi].sid == n.offsets[k].sid
      && Carried(o.rows, oldBits, o.offsets[oi].lo, o.offsets[oi].hi, n.Slice(k), n.offsets[k].lo, q)
  }

  /** The first `done` slices have been unioned, the rest are untouched. */
  ghost predicate Unioned(bits: seq<bool>, was: seq<bool>, n: Table, o: Table, oldBits: seq<bool>, done: nat)
    requires n.Ok() && o.Ok() && |oldBits| == |o.rows| && |bits| == |was| == |n.rows|
  {
    forall k, q :: n.At(k, q) ==>
      bits[q] == (was[q] || (k < done && FromSegment(n, k, q, o, oldBits)))
  }

  lemma FromOneSlice(n: Table, k: nat, q: nat, o: Table, oldBits: seq<bool>, oi: nat)
    requires n.Ok() && o.Ok() && |oldBits| == |o.rows| && n.At(k, q)
    requires oi < |o.offsets| && o.offsets[oi].sid == n.offsets[k].sid
    ensures FromSegment(n, k, q, o, oldBits)
       <==> Carried(o.rows, oldBits, o.offsets[oi].lo, o.offsets[oi].hi, n.Slice(k), n.offsets[k].lo, q)
  {
  }

  lemma UnionedSlice(bits: seq<bool>, before: seq<bool>, was: seq<bool>, n: Table, o: Table, oldBits: seq<bool>, ni: nat, oi: nat)
    requires n.Ok() && o.Ok() && |oldBits| == |o.rows| && |bits| == |before| == |was| == |n.rows|
    requires ni < |n.offsets| && oi < |o.offsets| && o.offsets[oi].sid == n.offsets[ni].sid
    requires Unioned(before, was, n, o, oldBits, ni)
    requires CarriedInto(bits, before, o.rows, oldBits, o.offsets[oi].lo, o.offsets[oi].hi, n.Slice(ni), n.offsets[ni].lo)
    ensures Unioned(bits, was, n, o, oldBits, ni + 1)
  {
    forall k, q | n.At(k, q)
      ensures bits[q] == (was[q] || (k < ni + 1 && FromSegment(n, k, q, o, oldBits)))
    {
      if k < ni {
        assert n.offsets[ni].sid > 0 ==> n.offsets[k].hi <= n.offsets[ni].lo;
      } else if k > ni {
        assert n.offsets[ni].hi <= n.offsets[k].lo;
      } else {
        FromOneSlice(n, ni, q, o, oldBits, oi);
      }
    }
  }

  /** Carries the set bits of a displaced segment into the new one, slice by slice. */
  method UnionSegment(n: SegmentData, o: SegmentData)
    requires n.Valid() && o.Valid() && n.bitmap != o.bitmap
    modifies n`deleteCount, n.bitmap
    ensures n.Valid()
    ensures Unioned(n.bitmap[..], old(n.bitmap[..]), n.table, o.table, o.bitmap[..], |n.table.offsets|)
  {
    ghost var was, oldBits := n.bitmap[..], o.bitmap[..];
    var applied := 0;
    var ni := 0;
    while ni < |n.table.offsets|
      modifies n.bitmap
      invariant ni <= |n.table.offsets|
      invariant Unioned(n.bitmap[..], was, n.table, o.table, oldBits, ni)
      invariant CountSet(n.bitmap[..]) == CountSet(was) + applied
    {
      ghost var before := n.bitmap[..];
      var new_ := n.table.offsets[ni];
      var oi := FindOffset(o.table.offsets, new_.sid);
      if oi < |o.table.offsets| {
        var old_ := o.table.offsets[oi];
        var c := MergeSlice(n.table.rows, n.bitmap, new_.lo, new_.hi, o.table.rows, o.bitmap, old_.lo, old_.hi);
        applied := applied + c;
        UnionedSlice(n.bitmap[..], before, was, n.table, o.table, oldBits, ni, oi);
      }
      ni := ni + 1;
    }
    n.deleteCount := n.deleteCount + applied;
  }

  /* ---- Deletions captured from cover memtables ---- */

  /** Row `q` of slice `k` is marked by one of the first `done` groups. */
  ghost predicate FromGroups(n: Table, k: nat, q: nat, groups: seq<Group>, done: nat)
    requires n.Ok() && n.At(k, q)
  {
    exists g :: 0 <= g < done && g < |groups| && groups[g].sid == n.offsets[k].sid
      && Marked(n.rows, n.offsets[k].lo, q, groups[g].tids)
  }

  ghost predicate Grouped(bits: seq<bool>, was: seq<bool>, n: Table, groups: seq<Group>, done: nat)
    requires n.Ok() && |bits| == |was| == |n.rows|
  {
    forall k, q :: n.At(k, q) ==> bits[q] == (was[q] || FromGroups(n, k, q, groups, done))
  }

  lemma FromGroupsStep(n: Table, k: nat, q: nat, groups: seq<Group>, g: nat)
    requires n.Ok() && n.At(k, q) && g < |groups|
    ensures FromGroups(n, k, q, groups, g + 1) <==>
            (FromGroups(n, k, q, groups, g)
             || (groups[g].sid == n.offsets[k].sid && Marked(n.rows, n.offsets[k].lo, q, groups[g].tids)))
  {
    if FromGroups(n, k, q, groups, g) {
      var h :| 0 <= h < g && groups[h].sid == n.offsets[k].sid && Marked(n.rows, n.offsets[k].lo, q, groups[h].tids);
      assert h < g + 1;
    }
  }

  lemma GroupedStep(bits: seq<bool>, before: seq<bool>, was: seq<bool>, n: Table, groups: seq<Group>, g: nat, oi: nat)
    requires n.Ok() && |bits| == |before| == |was| == |n.rows| && g < |groups|
    requires Grouped(before, was, n, groups, g)
    requires oi <= |n.offsets| && forall k :: 0 <= k < oi ==> n.offsets[k].sid != groups[g].sid
    requires if oi < |n.offsets|
             then n.offsets[oi].sid == groups[g].sid
               && forall q :: 0 <= q < |bits| ==>
                    bits[q] == (before[q] || (n.At(oi, q) && Marked(n.rows, n.offsets[oi].lo, q, groups[g].tids)))
             else bits == before
    ensures Grouped(bits, was, n, groups, g + 1)
  {
    forall k, q | n.At(k, q) ensures bits[q] == (was[q] || FromGroups(n, k, q, groups, g + 1)) {
      FromGroupsStep(n, k, q, groups, g);
      if k < oi {
        assert n.offsets[k].sid != groups[g].sid;
        assert oi < |n.offsets| && n.offsets[oi].sid > 0 ==> n.offsets[k].hi <= n.offsets[oi].lo;
      } else if k > oi {
        assert n.offsets[oi].hi <= n.offsets[k].lo;
      }
    }
  }

  /** Marks, for every group, the rows of its sid's slice that the group lists. */
  method UnionGroups(n: SegmentData, groups: seq<Group>)
    requires n.Valid()
    modifies n`deleteCount, n.bitmap
    ensures n.Valid()
    ensures Grouped(n.bitmap[..], old(n.bitmap[..]), n.table, groups, |groups|)
  {
    ghost var was := n.bitmap[..];
    var applied := 0;
    var g := 0;
    while g < |groups|
      modifies n.bitmap
      invariant g <= |groups|
      invariant Grouped(n.bitmap[..], was, n.table, groups, g)
      invariant CountSet(n.bitmap[..]) == CountSet(was) + applied
    {
      ghost var before := n.bitmap[..];
      var oi := FindOffset(n.table.offsets, groups[g].sid);
      if oi < |n.table.offsets| {
        var slice := n.table.offsets[oi];
        var c := MarkSlice(n.table.rows, n.bitmap, slice.lo, slice.hi, groups[g].tids);
        applied := applied + c;
      }
      GroupedStep(n.bitmap[..], before, was, n.table, groups, g, oi);
      g := g + 1;
    }
    n.deleteCount := n.deleteCount + applied;
  }

  /* ---- What an adoption masks ---- */

  /** The rows kept from a displaced segment are a subsequence of it, sid by sid. */
  ghost predicate Descends(n: Table, o: Table)
    requires n.Ok() && o.Ok()
  {
    forall k, oi :: 0 <= k < |n.offsets| && 0 <= oi < |o.offsets| && o.offsets[oi].sid == n.offsets[k].sid ==>
      SliceDescends(n, k, o, oi)
  }

  ghost predicate SliceDescends(n: Table, k: nat, o: Table, oi: nat)
    requires n.Ok() && o.Ok() && k < |n.offsets| && oi < |o.offsets|
  {
    && DistinctRows(o.rows, o.offsets[oi].lo, o.offsets[oi].hi)
    && exists f :: Embeds(o.rows, o.offsets[oi].lo, o.offsets[oi].hi, n.Slice(k), |n.Slice(k)|, f)
  }

  /** Every group lists rows of its sid's slice, in order. */
  ghost predicate GroupsEmbed(n: Table, groups: seq<Group>)
    requires n.Ok()
  {
    forall k, g :: 0 <= k < |n.offsets| && 0 <= g < |groups| && groups[g].sid == n.offsets[k].sid ==>
      GroupEmbeds(n, k, groups[g])
  }

  ghost predicate GroupEmbeds(n: Table, k: nat, group: Group)
    requires n.Ok() && k < |n.offsets|
  {
    && DistinctRows(n.rows, n.offsets[k].lo, n.offsets[k].hi)
    && exists f :: Embeds(n.rows, n.offsets[k].lo, n.offsets[k].hi, group.tids, |group.tids|, f)
  }

  /** Some row of `sid` carries this row id and is masked. */
  ghost predicate Masks(t: Table, bits: seq<bool>, sid: nat, tid: int)
    requires t.Ok() && |bits| == |t.rows|
  {
    exists k, p :: t.At(k, p) && t.offsets[k].sid == sid && t.rows[p] == tid && bits[p]
  }

  ghost predicate Lists(groups: seq<Group>, sid: nat, tid: int) {
    exists g :: 0 <= g < |groups| && groups[g].sid == sid && tid in groups[g].tids
  }

  lemma FromSegmentIffMasked(n: Table, k: nat, q: nat, o: Table, oldBits: seq<bool>)
    requires n.Ok() && o.Ok() && |oldBits| == |o.rows| && n.At(k, q) && Descends(n, o)
    ensures FromSegment(n, k, q, o, oldBits) <==> Masks(o, oldBits, n.offsets[k].sid, n.rows[q])
  {
    forall oi | 0 <= oi < |o.offsets| && o.offsets[oi].sid == n.offsets[k].sid
      ensures Carried(o.rows, oldBits, o.offsets[oi].lo, o.offsets[oi].hi, n.Slice(k), n.offsets[k].lo, q)
              <==> exists p :: o.At(oi, p) && o.rows[p] == n.rows[q] && oldBits[p]
    {
      assert SliceDescends(n, k, o, oi);
      var f :| Embeds(o.rows, o.offsets[oi].lo, o.offsets[oi].hi, n.Slice(k), |n.Slice(k)|, f);
      SuppliedIffMasked(o.rows, oldBits, o.offsets[oi].lo, o.offsets[oi].hi, n.Slice(k), f, q - n.offsets[k].lo);
    }
    if Masks(o, oldBits, n.offsets[k].sid, n.rows[q]) {
      var oi, p :| o.At(oi, p) && o.offsets[oi].sid == n.offsets[k].sid && o.rows[p] == n.rows[q] && oldBits[p];
      assert Carried(o.rows, oldBits, o.offsets[oi].lo, o.offsets[oi].hi, n.Slice(k), n.offsets[k].lo, q);
    }
  }

  lemma FromGroupsIffListed(n: Table, k: nat, q: nat, groups: seq<Group>)
    requires n.Ok() && n.At(k, q) && GroupsEmbed(n, groups)
    ensures FromGroups(n, k, q, groups, |groups|) <==> Lists(groups, n.offsets[k].sid, n.rows[q])
  {
    forall g | 0 <= g < |groups| && groups[g].sid == n.offsets[k].sid
      ensures Marked(n.rows, n.offsets[k].lo, q, groups[g].tids) <==> n.rows[q] in groups[g].tids
    {
      assert GroupEmbeds(n, k, groups[g]);
      var f :| Embeds(n.rows, n.offsets[k].lo, n.offsets[k].hi, groups[g].tids, |groups[g].tids|, f);
      MarkedIffListed(n.rows, n.offsets[k].lo, n.offsets[k].hi, groups[g].tids, f, q);
    }
  }

  /** A displaced segment's masks reach the new segment, and nothing else does. */
  method UnionPredecessor(n: SegmentData, o: SegmentData)
    requires n.Valid() && o.Valid() && n.bitmap != o.bitmap && Descends(n.table, o.table)
    modifies n`deleteCount, n.bitmap
    ensures n.Valid()
    ensures forall k, q :: n.table.At(k, q) ==>
      (n.bitmap[q] <==> old(n.bitmap[q]) || Masks(o.table, o.bitmap[..], n.table.offsets[k].sid, n.table.rows[q]))
  {
    UnionSegment(n, o);
    forall k, q | n.table.At(k, q)
      ensures FromSegment(n.table, k, q, o.table, o.bitmap[..])
         <==> Masks(o.table, o.bitmap[..], n.table.offsets[k].sid, n.table.rows[q])
    {
      FromSegmentIffMasked(n.table, k, q, o.table, o.bitmap[..]);
    }
  }

  /** The rows that the groups list are masked, and nothing else is. */
  method UnionListed(n: SegmentData, groups: seq<Group>)
    requires n.Valid() && GroupsEmbed(n.table, groups)
    modifies n`deleteCount, n.bitmap
    ensures n.Valid()
    ensures forall k, q :: n.table.At(k, q) ==>
      (n.bitmap[q] <==> old(n.bitmap[q]) || Lists(groups, n.table.offsets[k].sid, n.table.rows[q]))
  {
    UnionGroups(n, groups);
    forall k, q | n.table.At(k, q)
      ensures FromGroups(n.table, k, q, groups, |groups|) <==> Lists(groups, n.table.offsets[k].sid, n.table.rows[q])
    {
      FromGroupsIffListed(n.table, k, q, groups);
    }
  }

  ghost predicate MaskedByPredecessor(preds: seq<SegmentData>, done: nat, sid: nat, tid: int)
    reads preds, set o | o in preds :: o.bitmap
  {
    exists i :: 0 <= i < done && i < |preds| && preds[i].Valid() && Masks(preds[i].table, preds[i].bitmap[..], sid, tid)
  }

  method UnionPredecessors(n: SegmentData, preds: seq<SegmentData>)
    requires n.Valid() && n !in preds
    requires forall o :: o in preds ==> o.Valid() && o.bitmap != n.bitmap && Descends(n.table, o.table)
    modifies n`deleteCount, n.bitmap
    ensures n.Valid()
    ensures forall k, q :: n.table.At(k, q) ==>
      (n.bitmap[q] <==> old(n.bitmap[q]) || MaskedByPredecessor(preds, |preds|, n.table.offsets[k].sid, n.table.rows[q]))
  {
    var i := 0;
    while i < |preds|
      invariant i <= |preds| && n.Valid()
      invariant forall k, q :: n.table.At(k, q) ==>
        (n.bitmap[q] <==> old(n.bitmap[q]) || MaskedByPredecessor(preds, i, n.table.offsets[k].sid, n.table.rows[q]))
    {
      UnionPredecessor(n, preds[i]);
      i := i + 1;
    }
  }

  /** How the pool was found: exact range, memtables only, or a tiling by segments and memtables. */
  datatype Case = ExactRange | CoverOnly | Tiling

  /** Some of these rows of the segment, listed by the groups, is not masked. */
  ghost predicate MissesListed(n: Table, bits: seq<bool>, groups: seq<Group>)
    requires n.Ok() && |bits| == |n.rows|
  {
    exists k, q :: n.At(k, q) && Lists(groups, n.offsets[k].sid, n.rows[q]) && !bits[q]
  }

  /** Some listed row is masked neither in the segment's own file nor in a displaced segment. */
  ghost predicate ListedOnly(n: Table, was: seq<bool>, preds: seq<SegmentData>, groups: seq<Group>)
    requires n.Ok() && |was| == |n.rows|
    reads preds, set o | o in preds :: o.bitmap
  {
    exists k, q :: n.At(k, q) && Lists(groups, n.offsets[k].sid, n.rows[q]) && !was[q]
      && !MaskedByPredecessor(preds, |preds|, n.offsets[k].sid, n.rows[q])
  }

  /**
    What adoption does with deletions: a row of the installed segment is masked exactly when it was
    masked in its own file, in a displaced segment, or captured from a cover memtable, except that an
    exact-range adoption leaves the captured ones out. So a captured deletion is dropped exactly
    there, if only the memtable knew it.
   */
  method CarryDeletions(kase: Case, n: SegmentData, preds: seq<SegmentData>, groups: seq<Group>)
    requires n.Valid() && n !in preds
    requires forall o :: o in preds ==> o.Valid() && o.bitmap != n.bitmap && Descends(n.table, o.table)
    requires kase.ExactRange? ==> |preds| == 1
    requires kase.CoverOnly? ==> |preds| == 0
    requires GroupsEmbed(n.table, groups)
    modifies n`deleteCount, n.bitmap
    ensures n.Valid()
    ensures forall k, q :: n.table.At(k, q) ==>
      (n.bitmap[q] <==>
        || old(n.bitmap[q])
        || (!kase.CoverOnly? && MaskedByPredecessor(preds, |preds|, n.table.offsets[k].sid, n.table.rows[q]))
        || (!kase.ExactRange? && Lists(groups, n.table.offsets[k].sid, n.table.rows[q])))
    ensures MissesListed(n.table, n.bitmap[..], groups) <==>
            kase.ExactRange? && old(ListedOnly(n.table, n.bitmap[..], preds, groups))
  {
    match kase
    case ExactRange =>
      UnionPredecessors(n, preds);
    case CoverOnly =>
      UnionListed(n, groups);
    case Tiling =>
      UnionPredecessors(n, preds);
      UnionListed(n, groups);
  }

  lemma OneRow(t: Table)
    requires t == Table([7], [OffsetRange(3, 0, 1)])
    ensures t.Ok() && Descends(t, t) && GroupsEmbed(t, [Group(3, [7])])
  {
    assert t.offsets[0].lo <= 0 < t.offsets[0].hi;
    assert InSomeSlice(t.offsets, 0);
    assert t.Slice(0) == [7] && Embeds(t.rows, 0, 1, [7], 1, [0]);
  }

  /** Sid 3's only row was deleted after the displaced segment was written, so only the memtable knows it; the deletion is dropped. */
  method DroppedDeletion() returns (table: Table, bits: seq<bool>, groups: seq<Group>)
    ensures table.Ok() && |bits| == |table.rows| && GroupsEmbed(table, groups)
    ensures MissesListed(table, bits, groups)
  {
    table, groups := Table([7], [OffsetRange(3, 0, 1)]), [Group(3, [7])];
    OneRow(table);
    var mine, theirs := new bool[1](_ => false), new bool[1](_ => false);
    assert mine[..] == theirs[..] == [false] && CountSet([false]) == 0;
    var n := new SegmentData(table, mine, 0);
    var o := new SegmentData(table, theirs, 0);
    assert table.At(0, 0) && groups[0].sid == 3 && Lists(groups, 3, 7);
    CarryDeletions(ExactRange, n, [o], groups);
    bits := n.bitmap[..];
  }
}
