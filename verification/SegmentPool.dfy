/**
  The pool of flushed segments: an array of slots that carries a doubly linked list in order of
  start sid, with aggregate statistics kept beside it. Every operation runs under the pool lock.
 */
module SegmentPool {
  const MAX_SEGMENTS_COUNT := 1024
  const THRESHOLD_SMALL_SEGMENT_SIZE := 1000000
  const NIL := -1

  /** One slot; `next` and `prev` are slot numbers or `NIL`. */
  datatype Seg = Seg(inUsed: bool, next: int, prev: int, start: nat, end: nat, version: nat,
                     flat: bool, vecCount: nat, ref: int) {
    /** The segment a slot holds, whatever its place in the list. */
    function Content(): (nat, nat, nat, bool, nat) {
      (start, end, version, flat, vecCount)
    }
  }

  /* ---- The list an array of slots carries ---- */

  function NextOf(list: seq<nat>, i: nat): int
    requires i < |list|
  {
    if i + 1 < |list| then list[i + 1] else NIL
  }

  function PrevOf(list: seq<nat>, i: nat): int
    requires i < |list|
  {
    if i > 0 then list[i - 1] else NIL
  }

  ghost predicate InRange(list: seq<nat>, n: nat) {
    forall i :: 0 <= i < |list| ==> list[i] < n
  }

  ghost predicate NodeOk(s: seq<Seg>, list: seq<nat>, i: nat)
    requires i < |list|
  {
    && list[i] < |s|
    && s[list[i]].inUsed && s[list[i]].ref >= 1
    && s[list[i]].next == NextOf(list, i) && s[list[i]].prev == PrevOf(list, i)
  }

  ghost predicate NodesOk(s: seq<Seg>, list: seq<nat>) {
    forall i :: 0 <= i < |list| ==> NodeOk(s, list, i)
  }

  ghost predicate Differ(list: seq<nat>, i: nat, j: nat)
    requires i < |list| && j < |list|
  {
    list[i] != list[j]
  }

  ghost predicate NoRepeats(list: seq<nat>) {
    forall i, j :: 0 <= i < j < |list| ==> Differ(list, i, j)
  }

  ghost predicate StartsBefore(s: seq<Seg>, list: seq<nat>, i: nat, j: nat)
    requires InRange(list, |s|) && i < |list| && j < |list|
  {
    s[list[i]].start <= s[list[j]].start
  }

  ghost predicate InStartOrder(s: seq<Seg>, list: seq<nat>)
    requires InRange(list, |s|)
  {
    forall i, j :: 0 <= i < j < |list| ==> StartsBefore(s, list, i, j)
  }

  lemma Distinct(list: seq<nat>)
    requires NoRepeats(list)
    ensures forall i, j :: 0 <= i < j < |list| ==> list[i] != list[j]
  {
    forall i, j | 0 <= i < j < |list| ensures list[i] != list[j] {
      assert Differ(list, i, j);
    }
  }

  lemma StartsAscend(s: seq<Seg>, list: seq<nat>)
    requires InRange(list, |s|) && InStartOrder(s, list)
    ensures forall i, j :: 0 <= i < j < |list| ==> s[list[i]].start <= s[list[j]].start
  {
    forall i, j | 0 <= i < j < |list| ensures s[list[i]].start <= s[list[j]].start {
      assert StartsBefore(s, list, i, j);
    }
  }

  /** The links from `head` to `tail` spell out `list`: no slot twice, both directions, in start order. */
  ghost predicate Linked(s: seq<Seg>, head: int, tail: int, list: seq<nat>) {
    && InRange(list, |s|) && NodesOk(s, list) && NoRepeats(list) && InStartOrder(s, list)
    && head == (if list == [] then NIL else list[0])
    && tail == (if list == [] then NIL else list[|list| - 1])
  }

  /** Following `next` from the head visits exactly the list and ends; so does `prev` from the tail. */
  function Follow(s: seq<Seg>, from: int, steps: nat): seq<int>
    decreases steps
  {
    if steps == 0 || !(0 <= from < |s|) then [] else [from] + Follow(s, s[from].next, steps - 1)
  }

  lemma {:induction false} FollowSpellsList(s: seq<Seg>, head: int, tail: int, list: seq<nat>, i: nat, steps: nat)
    requires Linked(s, head, tail, list) && i <= |list| && |list| - i <= steps
    ensures Follow(s, if i < |list| then list[i] else NIL, steps) == list[i..]
    decreases steps
  {
    if i < |list| {
      assert NodeOk(s, list, i);
      FollowSpellsList(s, head, tail, list, i + 1, steps - 1);
      assert list[i..] == [list[i]] + list[i + 1..];
    }
  }

  /** The list is determined by the slots: two readings of the same links are the same list. */
  lemma LinksDetermineList(s: seq<Seg>, head: int, tail: int, a: seq<nat>, b: seq<nat>)
    requires Linked(s, head, tail, a) && Linked(s, head, tail, b)
    ensures a == b
  {
    var n := |a| + |b|;
    FollowSpellsList(s, head, tail, a, 0, n);
    FollowSpellsList(s, head, tail, b, 0, n);
    assert a[0..] == a && b[0..] == b;
  }

  /* ---- Statistics ---- */

  datatype Stat = FlatCount | MemtableCapacityLe | SmallSegmentLe

  predicate Counts(seg: Seg, stat: Stat, memtableCapacity: nat) {
    match stat
    case FlatCount => seg.flat
    case MemtableCapacityLe => seg.vecCount <= memtableCapacity
    case SmallSegmentLe => seg.vecCount <= THRESHOLD_SMALL_SEGMENT_SIZE
  }

  function One(seg: Seg, stat: Stat, memtableCapacity: nat): nat {
    if Counts(seg, stat, memtableCapacity) then 1 else 0
  }

  function Slots(list: seq<nat>): set<nat> {
    set k | k in list
  }

  /** Those of the given slots that a statistic counts. */
  function Counted(s: seq<Seg>, slots: set<nat>, stat: Stat, memtableCapacity: nat): set<nat> {
    set k | k in slots && k < |s| && Counts(s[k], stat, memtableCapacity)
  }

  lemma CountedWithout(s: seq<Seg>, slots: set<nat>, k: nat, stat: Stat, mc: nat)
    requires k in slots && k < |s|
    ensures |Counted(s, slots - {k}, stat, mc)| == |Counted(s, slots, stat, mc)| - One(s[k], stat, mc)
  {
    var before, after := Counted(s, slots, stat, mc), Counted(s, slots - {k}, stat, mc);
    assert after == before - {k};
  }

  lemma CountedWith(s: seq<Seg>, slots: set<nat>, k: nat, stat: Stat, mc: nat)
    requires k !in slots && k < |s|
    ensures |Counted(s, slots + {k}, stat, mc)| == |Counted(s, slots, stat, mc)| + One(s[k], stat, mc)
  {
    CountedWithout(s, slots + {k}, k, stat, mc);
    assert slots + {k} - {k} == slots;
  }

  /** Relinking does not change what is counted. */
  lemma CountedSame(s: seq<Seg>, s': seq<Seg>, slots: set<nat>, stat: Stat, mc: nat)
    requires |s| == |s'| && forall k :: k in slots && k < |s| ==> s'[k].Content() == s[k].Content()
    ensures Counted(s', slots, stat, mc) == Counted(s, slots, stat, mc)
  {
  }

  /* ---- Splicing ---- */

  /** `now` is the list with the stretch `[a, b)` replaced by one slot. */
  ghost predicate IsSplice(list: seq<nat>, a: nat, b: nat, idx: nat, now: seq<nat>) {
    && a <= b <= |list| && |now| == |list| - (b - a) + 1
    && (forall i :: 0 <= i < a ==> now[i] == list[i])
    && now[a] == idx
    && (forall i :: a < i < |now| ==> now[i] == list[i - a - 1 + b])
  }

  lemma Splice(list: seq<nat>, a: nat, b: nat, idx: nat) returns (now: seq<nat>)
    requires a <= b <= |list|
    ensures IsSplice(list, a, b, idx, now)
  {
    now := list[..a] + [idx] + list[b..];
  }

  /** `idxs` is the stretch of the list that starts at `a`. */
  ghost predicate IsStretch(list: seq<nat>, a: nat, idxs: seq<nat>) {
    a + |idxs| <= |list| && forall i :: 0 <= i < |idxs| ==> idxs[i] == list[a + i]
  }

  /** A splice removes the slots of the stretch and adds one. */
  lemma SpliceSlots(list: seq<nat>, a: nat, idxs: seq<nat>, idx: nat, now: seq<nat>)
    requires IsStretch(list, a, idxs) && IsSplice(list, a, a + |idxs|, idx, now) && NoRepeats(list)
    ensures Slots(now) == Slots(list) - Slots(idxs) + {idx}
  {
    var b := a + |idxs|;
    Distinct(list);
    forall i | 0 <= i < |list| ensures if a <= i < b then list[i] in idxs else list[i] in now {
      if a <= i < b {
        assert idxs[i - a] == list[i];
      } else {
        assert now[if i < a then i else i - b + a + 1] == list[i];
      }
    }
    forall i | 0 <= i < |now| && i != a ensures now[i] in list && now[i] !in idxs {
      var from := if i < a then i else i - a - 1 + b;
      assert now[i] == list[from];
    }
  }

  /* ---- Relinking ---- */

  /** Slots outside the list, other than `idx`, are as they were. */
  ghost predicate RestKept(s: seq<Seg>, s': seq<Seg>, list: seq<nat>, idx: nat)
    requires |s| == |s'|
  {
    forall k :: 0 <= k < |s| && k !in list && k != idx ==> s'[k] == s[k]
  }

  /** The slots after `idx` has taken the place of `list[a..b)`; the removed slots are not described. */
  ghost predicate Relinked(s: seq<Seg>, s': seq<Seg>, list: seq<nat>, a: nat, b: nat, idx: nat)
    requires a <= b <= |list| && |s| == |s'| && idx < |s| && InRange(list, |s|)
  {
    && s'[idx] == s[idx].(prev := if a > 0 then list[a - 1] else NIL, next := if b < |list| then list[b] else NIL, ref := 1)
    && (forall i :: 0 <= i < a - 1 ==> s'[list[i]] == s[list[i]])
    && (a > 0 ==> s'[list[a - 1]] == s[list[a - 1]].(next := idx))
    && (b < |list| ==> s'[list[b]] == s[list[b]].(prev := idx))
    && (forall i :: b < i < |list| ==> s'[list[i]] == s[list[i]])
    && RestKept(s, s', list, idx)
  }

  lemma RelinkedNode(s: seq<Seg>, s': seq<Seg>, list: seq<nat>, a: nat, b: nat, idx: nat, now: seq<nat>, i: nat)
    requires a <= b <= |list| && |s| == |s'| && idx < |s| && InRange(list, |s|) && IsSplice(list, a, b, idx, now)
    requires i < |now| && s[idx].inUsed && Relinked(s, s', list, a, b, idx)
    requires i < a ==> NodeOk(s, list, i)
    requires i > a ==> NodeOk(s, list, i - a - 1 + b)
    ensures NodeOk(s', now, i)
  {
  }

  lemma SpliceNoRepeats(list: seq<nat>, a: nat, b: nat, idx: nat, now: seq<nat>)
    requires a <= b <= |list| && IsSplice(list, a, b, idx, now) && NoRepeats(list) && idx !in list
    ensures NoRepeats(now)
  {
    Distinct(list);
    forall i, j | 0 <= i < j < |now| ensures Differ(now, i, j) {
    }
  }

  lemma RelinkedOrder(s: seq<Seg>, s': seq<Seg>, list: seq<nat>, a: nat, b: nat, idx: nat, now: seq<nat>)
    requires a <= b <= |list| && |s| == |s'| && idx < |s| && InRange(list, |s|) && IsSplice(list, a, b, idx, now)
    requires Relinked(s, s', list, a, b, idx) && InStartOrder(s, list)
    requires a > 0 ==> s[list[a - 1]].start <= s[idx].start
    requires b < |list| ==> s[idx].start <= s[list[b]].start
    ensures InRange(now, |s'|) && InStartOrder(s', now)
  {
    StartsAscend(s, list);
    forall i | 0 <= i < |now| ensures now[i] < |s| && s'[now[i]].start == s[now[i]].start {
    }
    forall i, j | 0 <= i < j < |now| ensures StartsBefore(s', now, i, j) {
    }
  }

  lemma RelinkedIsLinked(s: seq<Seg>, s': seq<Seg>, head: int, tail: int, list: seq<nat>, a: nat, b: nat, idx: nat, now: seq<nat>)
    requires Linked(s, head, tail, list) && a <= b <= |list| && |s| == |s'| && idx < |s| && IsSplice(list, a, b, idx, now)
    requires idx !in list && s[idx].inUsed
    requires Relinked(s, s', list, a, b, idx)
    requires a > 0 ==> s[list[a - 1]].start <= s[idx].start
    requires b < |list| ==> s[idx].start <= s[list[b]].start
    ensures Linked(s', if a == 0 then idx else head, if b == |list| then idx else tail, now)
  {
    RelinkedOrder(s, s', list, a, b, idx, now);
    SpliceNoRepeats(list, a, b, idx, now);
    forall i | 0 <= i < |now| ensures NodeOk(s', now, i) {
      RelinkedNode(s, s', list, a, b, idx, now, i);
    }
  }

  /** `p` is where a segment starting at `start` belongs: after everything that does not start later. */
  ghost predicate IsPlace(s: seq<Seg>, list: seq<nat>, p: nat, start: nat)
    requires InRange(list, |s|)
  {
    p <= |list| && forall i :: 0 <= i < |list| ==> (i < p <==> s[list[i]].start <= start)
  }

  lemma PlaceFound(s: seq<Seg>, list: seq<nat>, p: nat, start: nat)
    requires InRange(list, |s|) && InStartOrder(s, list) && p <= |list|
    requires p > 0 ==> s[list[p - 1]].start <= start
    requires forall i :: p <= i < |list| ==> start < s[list[i]].start
    ensures IsPlace(s, list, p, start)
  {
    StartsAscend(s, list);
  }

  ghost predicate DroppedAt(s: seq<Seg>, s': seq<Seg>, list: seq<nat>, i: nat)
    requires i < |list| && list[i] < |s| == |s'|
  {
    s'[list[i]] == Dropped(s[list[i]])
  }

  /** What a replacement does to the slots: relinks the neighbours, and each replaced segment gives up a reference. */
  ghost predicate Replaced(s: seq<Seg>, s': seq<Seg>, list: seq<nat>, a: nat, b: nat, idx: nat) {
    && |s'| == |s| && idx < |s| && InRange(list, |s|) && a <= b <= |list|
    && Relinked(s, s', list, a, b, idx)
    && forall i :: a <= i < b ==> DroppedAt(s, s', list, i)
  }

  /** The three statistics are exact. */
  ghost predicate StatsOk(s: seq<Seg>, slots: set<nat>, flats: int, caps: int, smalls: int, mc: nat) {
    && flats == |Counted(s, slots, FlatCount, mc)|
    && caps == |Counted(s, slots, MemtableCapacityLe, mc)|
    && smalls == |Counted(s, slots, SmallSegmentLe, mc)|
  }

  /** Everything the pool keeps: the links spell out the list, the statistics count it. */
  ghost predicate PoolOk(s: seq<Seg>, head: int, tail: int, list: seq<nat>, flats: int, caps: int, smalls: int, mc: nat) {
    Linked(s, head, tail, list) && StatsOk(s, Slots(list), flats, caps, smalls, mc)
  }

  lemma StatsWith(s: seq<Seg>, s': seq<Seg>, slots: set<nat>, idx: nat, flats: int, caps: int, smalls: int, mc: nat)
    requires StatsOk(s, slots, flats, caps, smalls, mc) && |s| == |s'| && idx < |s| && idx !in slots
    requires forall k :: k in slots && k < |s| ==> s'[k].Content() == s[k].Content()
    ensures StatsOk(s', slots + {idx}, flats + One(s'[idx], FlatCount, mc), caps + One(s'[idx], MemtableCapacityLe, mc),
                    smalls + One(s'[idx], SmallSegmentLe, mc), mc)
  {
    forall stat ensures |Counted(s', slots + {idx}, stat, mc)| == |Counted(s, slots, stat, mc)| + One(s'[idx], stat, mc) {
      CountedSame(s, s', slots, stat, mc);
      CountedWith(s', slots, idx, stat, mc);
    }
  }

  lemma StatsWithout(s: seq<Seg>, slots: set<nat>, idx: nat, flats: int, caps: int, smalls: int, mc: nat)
    requires StatsOk(s, slots, flats, caps, smalls, mc) && idx < |s| && idx in slots
    ensures StatsOk(s, slots - {idx}, flats - One(s[idx], FlatCount, mc), caps - One(s[idx], MemtableCapacityLe, mc),
                    smalls - One(s[idx], SmallSegmentLe, mc), mc)
  {
    CountedWithout(s, slots, idx, FlatCount, mc);
    CountedWithout(s, slots, idx, MemtableCapacityLe, mc);
    CountedWithout(s, slots, idx, SmallSegmentLe, mc);
  }

  /** Links and statistics do not depend on slots outside the list, nor on how many references are held. */
  lemma OutsideKeepsPool(s: seq<Seg>, s': seq<Seg>, head: int, tail: int, list: seq<nat>,
                         flats: int, caps: int, smalls: int, mc: nat)
    requires PoolOk(s, head, tail, list, flats, caps, smalls, mc) && |s| == |s'|
    requires forall k :: 0 <= k < |s| && k in list ==> s'[k].(ref := s[k].ref) == s[k] && (s[k].ref >= 1 ==> s'[k].ref >= 1)
    ensures PoolOk(s', head, tail, list, flats, caps, smalls, mc)
  {
    forall i | 0 <= i < |list| ensures NodeOk(s', list, i) {
      assert NodeOk(s, list, i);
    }
    forall i, j | 0 <= i < j < |list| ensures StartsBefore(s', list, i, j) {
      assert StartsBefore(s, list, i, j);
    }
    forall stat ensures Counted(s', Slots(list), stat, mc) == Counted(s, Slots(list), stat, mc) {
      CountedSame(s, s', Slots(list), stat, mc);
    }
  }

  lemma FreeIsUnlinked(s: seq<Seg>, list: seq<nat>, idx: nat)
    requires NodesOk(s, list) && idx < |s| && !s[idx].inUsed
    ensures idx !in list
  {
    forall i | 0 <= i < |list| ensures list[i] != idx {
      assert NodeOk(s, list, i);
    }
  }

  /* ---- The pool ---- */

  /** A slot after one reference is given up: freed with the last one. */
  function Dropped(seg: Seg): Seg {
    if seg.ref == 1 then seg.(inUsed := false, next := NIL, prev := NIL, ref := 0) else seg.(ref := seg.ref - 1)
  }

  /** The first `n` of `idxs` have each given up one reference. */
  ghost predicate DroppedUpTo(s: seq<Seg>, s': seq<Seg>, idxs: seq<nat>, n: nat)
    requires InRange(idxs, |s|) && n <= |idxs| && |s| == |s'|
  {
    && (forall i :: 0 <= i < n ==> s'[idxs[i]] == Dropped(s[idxs[i]]))
    && (forall k :: 0 <= k < |s| && k !in idxs[..n] ==> s'[k] == s[k])
  }

  lemma DropStep(s: seq<Seg>, before: seq<Seg>, idxs: seq<nat>, n: nat)
    requires InRange(idxs, |s|) && n < |idxs| && |s| == |before| && NoRepeats(idxs) && DroppedUpTo(s, before, idxs, n)
    ensures before[idxs[n]] == s[idxs[n]]
    ensures DroppedUpTo(s, before[idxs[n] := Dropped(s[idxs[n]])], idxs, n + 1)
  {
    assert idxs[..n + 1] == idxs[..n] + [idxs[n]];
    Distinct(idxs);
  }

  /** What a contiguous stretch of the list looks like in the slots. */
  lemma StretchFacts(s: seq<Seg>, head: int, tail: int, list: seq<nat>, idxs: seq<nat>, a: nat)
    requires Linked(s, head, tail, list) && |idxs| > 0 && IsStretch(list, a, idxs)
    ensures InRange(idxs, |s|) && NoRepeats(idxs) && forall i :: 0 <= i < |idxs| ==> s[idxs[i]].ref >= 1
    ensures Slots(idxs) <= Slots(list)
    ensures s[idxs[0]].prev == PrevOf(list, a) && s[idxs[|idxs| - 1]].next == NextOf(list, a + |idxs| - 1)
    ensures head == idxs[0] <==> a == 0
    ensures tail == idxs[|idxs| - 1] <==> a + |idxs| == |list|
  {
    Distinct(list);
    forall i | 0 <= i < |idxs| ensures NodeOk(s, list, a + i) && s[idxs[i]] == s[list[a + i]] {
    }
    forall i, j | 0 <= i < j < |idxs| ensures Differ(idxs, i, j) {
    }
  }

  /** `s'` is `s` with `idx` linked between two neighbours, either of which may be missing. */
  ghost predicate Between(s: seq<Seg>, s': seq<Seg>, prevIdx: int, nextIdx: int, idx: nat) {
    && |s'| == |s| && idx < |s|
    && forall k :: 0 <= k < |s| ==>
      s'[k] == (if k == idx then s[idx].(prev := prevIdx, next := nextIdx, ref := 1)
                else if k == prevIdx then s[k].(next := idx)
                else if k == nextIdx then s[k].(prev := idx)
                else s[k])
  }

  /** What dropping the stretch leaves, seen along the list. */
  ghost predicate StretchDropped(s: seq<Seg>, dropped: seq<Seg>, list: seq<nat>, a: nat, b: nat, idx: nat)
    requires InRange(list, |s|) && |s| == |dropped| && idx < |s|
  {
    && dropped[idx] == s[idx] && RestKept(s, dropped, list, idx)
    && (forall i :: 0 <= i < |list| ==> dropped[list[i]] == if a <= i < b then Dropped(s[list[i]]) else s[list[i]])
  }

  lemma DroppedStretch(s: seq<Seg>, dropped: seq<Seg>, list: seq<nat>, idxs: seq<nat>, a: nat, idx: nat)
    requires idx < |s| && idx !in idxs
    requires InRange(list, |s|) && NoRepeats(list) && IsStretch(list, a, idxs)
    requires |s| == |dropped| && InRange(idxs, |s|) && DroppedUpTo(s, dropped, idxs, |idxs|)
    ensures StretchDropped(s, dropped, list, a, a + |idxs|, idx)
  {
    assert idxs[..|idxs|] == idxs;
    Distinct(list);
    forall i | 0 <= i < |list| ensures dropped[list[i]] == if a <= i < a + |idxs| then Dropped(s[list[i]]) else s[list[i]] {
      if a <= i < a + |idxs| {
        assert idxs[i - a] == list[i];
      }
    }
  }

  /** Dropping the stretch and linking its successor in amounts to a replacement. */
  lemma DropThenLink(s: seq<Seg>, dropped: seq<Seg>, s': seq<Seg>, list: seq<nat>, a: nat, b: nat, idx: nat)
    requires InRange(list, |s|) && NoRepeats(list) && a <= b <= |list| && idx < |s| && idx !in list
    requires |s| == |dropped| && StretchDropped(s, dropped, list, a, b, idx)
    requires Between(dropped, s', if a > 0 then list[a - 1] else NIL, if b < |list| then list[b] else NIL, idx)
    ensures Replaced(s, s', list, a, b, idx)
  {
    Distinct(list);
    forall i | 0 <= i < |list|
      ensures s'[list[i]] == if i == a - 1 then s[list[i]].(next := idx)
                             else if i == b then s[list[i]].(prev := idx)
                             else if a <= i < b then Dropped(s[list[i]]) else s[list[i]]
    {
    }
  }

  /** A replacement keeps the statistics exact: taken out for the stretch, added for `idx`. */
  lemma ReplaceKeepsStats(s: seq<Seg>, s': seq<Seg>, list: seq<nat>, idxs: seq<nat>, a: nat, idx: nat, now: seq<nat>,
                          flats: int, caps: int, smalls: int, mc: nat)
    requires NoRepeats(list) && IsStretch(list, a, idxs) && IsSplice(list, a, a + |idxs|, idx, now)
    requires |s| == |s'| && idx < |s| && idx !in list && Replaced(s, s', list, a, a + |idxs|, idx)
    requires StatsOk(s, Slots(list) - Slots(idxs), flats, caps, smalls, mc)
    ensures StatsOk(s', Slots(now), flats + One(s'[idx], FlatCount, mc), caps + One(s'[idx], MemtableCapacityLe, mc),
                    smalls + One(s'[idx], SmallSegmentLe, mc), mc)
  {
    SpliceSlots(list, a, idxs, idx, now);
    forall k | k in list ensures s'[k].Content() == s[k].Content() {
      var i :| 0 <= i < |list| && list[i] == k;
      assert a <= i < a + |idxs| ==> DroppedAt(s, s', list, i);
    }
    StatsWith(s, s', Slots(list) - Slots(idxs), idx, flats, caps, smalls, mc);
  }

  /** Linking `idx` between its neighbours is a splice that removes nothing. */
  lemma LinkedAfter(s: seq<Seg>, s': seq<Seg>, list: seq<nat>, p: nat, idx: nat)
    requires InRange(list, |s|) && NoRepeats(list) && p <= |list| && idx < |s| && idx !in list
    requires Between(s, s', if p > 0 then list[p - 1] else NIL, if p < |list| then list[p] else NIL, idx)
    ensures Relinked(s, s', list, p, p, idx)
  {
    DropThenLink(s, s, s', list, p, p, idx);
  }

  /** A replacement keeps the pool in order once the statistics count the new segment. */
  lemma SpliceKeepsPool(s: seq<Seg>, s': seq<Seg>, head: int, tail: int, list: seq<nat>, idxs: seq<nat>, a: nat, idx: nat,
                        now: seq<nat>, flats: int, caps: int, smalls: int, mc: nat)
    requires Linked(s, head, tail, list) && IsStretch(list, a, idxs) && IsSplice(list, a, a + |idxs|, idx, now)
    requires |s| == |s'| && idx < |s| && idx !in list && s[idx].inUsed && Replaced(s, s', list, a, a + |idxs|, idx)
    requires StatsOk(s, Slots(list) - Slots(idxs), flats, caps, smalls, mc)
    requires a > 0 ==> s[list[a - 1]].start <= s[idx].start
    requires a + |idxs| < |list| ==> s[idx].start <= s[list[a + |idxs|]].start
    ensures PoolOk(s', if a == 0 then idx else head, if a + |idxs| == |list| then idx else tail, now,
                   flats + One(s'[idx], FlatCount, mc), caps + One(s'[idx], MemtableCapacityLe, mc),
                   smalls + One(s'[idx], SmallSegmentLe, mc), mc)
  {
    RelinkedIsLinked(s, s', head, tail, list, a, a + |idxs|, idx, now);
    ReplaceKeepsStats(s, s', list, idxs, a, idx, now, flats, caps, smalls, mc);
  }

  lemma ReplaceKeepsPool(s: seq<Seg>, s': seq<Seg>, head: int, tail: int, list: seq<nat>, idxs: seq<nat>, a: nat, idx: nat,
                         flats: int, caps: int, smalls: int, mc: nat) returns (now: seq<nat>)
    requires Linked(s, head, tail, list) && IsStretch(list, a, idxs)
    requires |s| == |s'| && idx < |s| && idx !in list && s[idx].inUsed && Replaced(s, s', list, a, a + |idxs|, idx)
    requires StatsOk(s, Slots(list) - Slots(idxs), flats, caps, smalls, mc)
    requires a > 0 ==> s[list[a - 1]].start <= s[idx].start
    requires a + |idxs| < |list| ==> s[idx].start <= s[list[a + |idxs|]].start
    ensures IsSplice(list, a, a + |idxs|, idx, now)
    ensures PoolOk(s', if a == 0 then idx else head, if a + |idxs| == |list| then idx else tail, now,
                   flats + One(s'[idx], FlatCount, mc), caps + One(s'[idx], MemtableCapacityLe, mc),
                   smalls + One(s'[idx], SmallSegmentLe, mc), mc)
  {
    now := Splice(list, a, a + |idxs|, idx);
    SpliceKeepsPool(s, s', head, tail, list, idxs, a, idx, now, flats, caps, smalls, mc);
  }

  lemma RegisterKeepsStats(s: seq<Seg>, s': seq<Seg>, list: seq<nat>, p: nat, idx: nat, now: seq<nat>,
                           flats: int, caps: int, smalls: int, mc: nat)
    requires NoRepeats(list) && IsSplice(list, p, p, idx, now) && InRange(list, |s|)
    requires |s| == |s'| && idx < |s| && idx !in list && Relinked(s, s', list, p, p, idx)
    requires StatsOk(s, Slots(list), flats, caps, smalls, mc)
    ensures StatsOk(s', Slots(now), flats + One(s'[idx], FlatCount, mc), caps + One(s'[idx], MemtableCapacityLe, mc),
                    smalls + One(s'[idx], SmallSegmentLe, mc), mc)
  {
    SpliceSlots(list, p, [], idx, now);
    assert Slots(list) - Slots([]) == Slots(list);
    forall k | k in list ensures s'[k].Content() == s[k].Content() {
      var i :| 0 <= i < |list| && list[i] == k;
    }
    StatsWith(s, s', Slots(list), idx, flats, caps, smalls, mc);
  }

  lemma RegisterKeepsPool(s: seq<Seg>, s': seq<Seg>, head: int, tail: int, list: seq<nat>, p: nat, idx: nat,
                          flats: int, caps: int, smalls: int, mc: nat) returns (now: seq<nat>)
    requires PoolOk(s, head, tail, list, flats, caps, smalls, mc) && IsPlace(s, list, p, if idx < |s| then s[idx].start else 0)
    requires |s| == |s'| && idx < |s| && idx !in list && s[idx].inUsed && Relinked(s, s', list, p, p, idx)
    ensures IsSplice(list, p, p, idx, now)
    ensures PoolOk(s', if p == 0 then idx else head, if p == |list| then idx else tail, now,
                   flats + One(s'[idx], FlatCount, mc), caps + One(s'[idx], MemtableCapacityLe, mc),
                   smalls + One(s'[idx], SmallSegmentLe, mc), mc)
  {
    now := Splice(list, p, p, idx);
    RelinkedIsLinked(s, s', head, tail, list, p, p, idx, now);
    RegisterKeepsStats(s, s', list, p, idx, now, flats, caps, smalls, mc);
  }

  ghost predicate ExactRange(s: seq<Seg>, list: seq<nat>, i: nat, start: nat, end: nat) {
    i < |list| && list[i] < |s| && s[list[i]].start == start && s[list[i]].end == end
  }

  ghost predicate Contains(s: seq<Seg>, list: seq<nat>, i: nat, start: nat, end: nat) {
    i < |list| && list[i] < |s| && s[list[i]].start <= start && end <= s[list[i]].end && !ExactRange(s, list, i, start, end)
  }

  /** Only the last node is the tail. */
  lemma AtTail(s: seq<Seg>, head: int, tail: int, list: seq<nat>, i: nat)
    requires Linked(s, head, tail, list) && i < |list| && list[i] == tail
    ensures i == |list| - 1
  {
    Distinct(list);
  }

  /** How many of the first `n` segments of a stretch are held by the list alone. */
  function Unpinned(s: seq<Seg>, idxs: seq<nat>, n: nat): nat
    requires n <= |idxs| && InRange(idxs, |s|)
  {
    if n == 0 then 0 else Unpinned(s, idxs, n - 1) + if s[idxs[n - 1]].ref == 1 then 1 else 0
  }

  /** By how much a statistic exceeds what it counts, when these segments have been added to it twice. */
  ghost function Tally(recounted: seq<Seg>, stat: Stat, mc: nat): nat {
    if recounted == [] then 0
    else Tally(recounted[..|recounted| - 1], stat, mc) + One(recounted[|recounted| - 1], stat, mc)
  }

  lemma TallyWith(recounted: seq<Seg>, seg: Seg, mc: nat)
    ensures forall stat :: Tally(recounted + [seg], stat, mc) == Tally(recounted, stat, mc) + One(seg, stat, mc)
  {
    assert (recounted + [seg])[..|recounted|] == recounted;
  }

  lemma {:induction false} TallyIsZeroIff(recounted: seq<Seg>, stat: Stat, mc: nat)
    ensures Tally(recounted, stat, mc) == 0 <==> forall i :: 0 <= i < |recounted| ==> !Counts(recounted[i], stat, mc)
  {
    if recounted != [] {
      TallyIsZeroIff(recounted[..|recounted| - 1], stat, mc);
    }
  }

  class Pool {
    const segs: array<Seg>
    const memtableCapacity: nat
    var head: int
    var tail: int
    var insertIdx: nat
    var count: int
    var flatCount: int
    var memtableCapacityLe: int
    var smallSegmentLe: int
    /** The slots in list order. */
    ghost var list: seq<nat>
    /** Segments that a rebuild or merge installed and then added to the statistics once more. */
    ghost var recounted: seq<Seg>
    /** How many segments have left the list and been freed since. */
    ghost var freed: nat

    ghost function Statistic(stat: Stat): int
      reads this
    {
      match stat
      case FlatCount => flatCount
      case MemtableCapacityLe => memtableCapacityLe
      case SmallSegmentLe => smallSegmentLe
    }

    /** A statistic without what was added to it twice. */
    ghost function Net(stat: Stat): int
      reads this
    {
      Statistic(stat) - Tally(recounted, stat, memtableCapacity)
    }

    /**
      The links spell out the list; each statistic counts it, once too often for every recounted
      segment; and `count` is the length of the list less the segments freed after a replacement.
     */
    ghost predicate Valid()
      reads this, segs
    {
      && segs.Length == MAX_SEGMENTS_COUNT && insertIdx <= MAX_SEGMENTS_COUNT
      && PoolOk(segs[..], head, tail, list, Net(FlatCount), Net(MemtableCapacityLe), Net(SmallSegmentLe), memtableCapacity)
      && count == |list| - freed
    }

    /** A statistic is exact exactly if it counts no recounted segment. */
    lemma ExactIff(stat: Stat)
      requires Valid()
      ensures Statistic(stat) == |Counted(segs[..], Slots(list), stat, memtableCapacity)| <==>
              forall i :: 0 <= i < |recounted| ==> !Counts(recounted[i], stat, memtableCapacity)
    {
      TallyIsZeroIff(recounted, stat, memtableCapacity);
    }

    /** A slot that has been handed out but is not in the list. */
    ghost predicate Reserved(idx: nat)
      requires Valid()
      reads this, segs
    {
      idx < segs.Length && segs[idx].inUsed && idx !in list
    }

    constructor (memtableCapacity: nat)
      ensures Valid() && fresh(segs) && list == [] && recounted == [] && freed == 0
      ensures insertIdx == 0 && this.memtableCapacity == memtableCapacity
      ensures forall k :: 0 <= k < segs.Length ==> !segs[k].inUsed
    {
      this.memtableCapacity := memtableCapacity;
      segs := new Seg[MAX_SEGMENTS_COUNT](_ => Seg(false, NIL, NIL, 0, 0, 0, false, 0, 0));
      head, tail, insertIdx, count := NIL, NIL, 0, 0;
      flatCount, memtableCapacityLe, smallSegmentLe := 0, 0, 0;
      list, recounted, freed := [], [], 0;
    }

    /** Hands out the first free slot from `insertIdx` on, or none. */
    method Reserve() returns (idx: int)
      requires Valid()
      modifies this`insertIdx, segs
      ensures Valid()
      ensures idx == NIL <==> forall k :: old(insertIdx) <= k < segs.Length ==> old(segs[k].inUsed)
      ensures idx == NIL ==> segs[..] == old(segs[..]) && insertIdx == old(insertIdx)
      ensures idx != NIL ==> old(insertIdx) <= idx && Reserved(idx)
      ensures idx != NIL ==> forall k :: old(insertIdx) <= k < idx ==> old(segs[..])[k].inUsed
      ensures idx != NIL ==> !old(segs[..])[idx].inUsed && insertIdx == idx + 1
      ensures idx != NIL ==> segs[..] == old(segs[..])[idx := old(segs[..])[idx].(inUsed := true)]
    {
      for i := insertIdx to MAX_SEGMENTS_COUNT
        invariant forall k :: insertIdx <= k < i ==> segs[k].inUsed
        invariant segs[..] == old(segs[..]) && Valid() && insertIdx == old(insertIdx)
      {
        if !segs[i].inUsed {
          ghost var s := segs[..];
          FreeIsUnlinked(s, list, i);
          insertIdx := i + 1;
          segs[i] := segs[i].(inUsed := true);
          OutsideKeepsPool(s, segs[..], head, tail, list, Net(FlatCount), Net(MemtableCapacityLe), Net(SmallSegmentLe), memtableCapacity);
          return i;
        }
      }
      return NIL;
    }

    method UpdateStats(seg: Seg, delta: int)
      modifies this`flatCount, this`memtableCapacityLe, this`smallSegmentLe
      ensures flatCount == old(flatCount) + if Counts(seg, FlatCount, memtableCapacity) then delta else 0
      ensures memtableCapacityLe == old(memtableCapacityLe) + if Counts(seg, MemtableCapacityLe, memtableCapacity) then delta else 0
      ensures smallSegmentLe == old(smallSegmentLe) + if Counts(seg, SmallSegmentLe, memtableCapacity) then delta else 0
    {
      if seg.flat {
        flatCount := flatCount + delta;
      }
      if seg.vecCount <= memtableCapacity {
        memtableCapacityLe := memtableCapacityLe + delta;
      }
      if seg.vecCount <= THRESHOLD_SMALL_SEGMENT_SIZE {
        smallSegmentLe := smallSegmentLe + delta;
      }
    }

    /** Adds a segment just linked to the statistics; `now` is the new list, and `unpinned` segments were freed for it. */
    method CountIn(idx: nat, replaced: nat, ghost unpinned: nat, ghost now: seq<nat>)
      requires idx < segs.Length == MAX_SEGMENTS_COUNT && insertIdx <= MAX_SEGMENTS_COUNT
      requires PoolOk(segs[..], head, tail, now, Net(FlatCount) + One(segs[idx], FlatCount, memtableCapacity),
                      Net(MemtableCapacityLe) + One(segs[idx], MemtableCapacityLe, memtableCapacity),
                      Net(SmallSegmentLe) + One(segs[idx], SmallSegmentLe, memtableCapacity), memtableCapacity)
      requires count == |now| + replaced - freed - unpinned
      modifies this`flatCount, this`memtableCapacityLe, this`smallSegmentLe, this`count, this`freed, this`list
      ensures Valid() && list == now && freed == old(freed) + unpinned
    {
      UpdateStats(segs[idx], 1);
      count := count - replaced;
      list, freed := now, freed + unpinned;
    }

    /** Walks from the tail to the last segment that does not start after `start`. */
    method FindPlace(start: nat) returns (cur: int, ghost p: nat)
      requires Valid()
      ensures IsPlace(segs[..], list, p, start) && cur == if p == 0 then NIL else list[p - 1]
      ensures cur != NIL ==> 0 <= cur < segs.Length && segs[cur].start <= start
    {
      cur, p := tail, |list|;
      while cur != NIL && segs[cur].start > start
        invariant p <= |list| && cur == if p == 0 then NIL else list[p - 1]
        invariant forall i :: p <= i < |list| ==> start < segs[list[i]].start
        decreases p
      {
        assert NodeOk(segs[..], list, p - 1);
        cur := segs[cur].prev;
        p := p - 1;
      }
      PlaceFound(segs[..], list, p, start);
    }

    /** Links a reserved slot in start order, after any segments with the same start. */
    method Register(idx: nat) returns (ghost p: nat)
      requires Valid() && Reserved(idx)
      modifies this, segs
      ensures Valid()
      ensures IsSplice(old(list), p, p, idx, list)
      ensures Relinked(old(segs[..]), segs[..], old(list), p, p, idx)
      ensures IsPlace(old(segs[..]), old(list), p, old(segs[idx].start))
      ensures recounted == old(recounted) && freed == old(freed) && insertIdx == old(insertIdx)
    {
      var cur;
      cur, p := FindPlace(segs[idx].start);
      LinkAfter(idx, cur, p);
      ghost var now := RegisterKeepsPool(old(segs[..]), segs[..], old(head), old(tail), list, p, idx,
                                         old(Net(FlatCount)), old(Net(MemtableCapacityLe)), old(Net(SmallSegmentLe)),
                                         memtableCapacity);
      CountIn(idx, 0, 0, now);
    }

    /** Writes the links that put `idx` behind `cur`, or at the head. */
    method LinkAfter(idx: nat, cur: int, ghost p: nat)
      requires Valid() && Reserved(idx) && p <= |list| && cur == if p == 0 then NIL else list[p - 1]
      modifies this`head, this`tail, this`count, segs
      ensures Relinked(old(segs[..]), segs[..], list, p, p, idx)
      ensures head == if p == 0 then idx else old(head)
      ensures tail == if p == |list| then idx else old(tail)
      ensures count == old(count) + 1
    {
      assert 0 < p < |list| ==> Differ(list, p - 1, p);
      if p > 0 {
        assert NodeOk(segs[..], list, p - 1);
      }
      segs[idx] := segs[idx].(ref := 1);
      if head == NIL {
        segs[idx] := segs[idx].(prev := NIL, next := NIL);
        head, tail := idx, idx;
      } else if cur == NIL {
        var oldHead := head;
        segs[idx] := segs[idx].(prev := NIL, next := oldHead);
        segs[oldHead] := segs[oldHead].(prev := idx);
        head := idx;
      } else {
        var after := segs[cur].next;
        segs[idx] := segs[idx].(prev := cur, next := after);
        segs[cur] := segs[cur].(next := idx);
        if after != NIL {
          segs[after] := segs[after].(prev := idx);
        } else {
          tail := idx;
        }
      }
      count := count + 1;
      LinkedAfter(old(segs[..]), segs[..], list, p, idx);
    }

    /** Gives up one reference; the last one frees the slot, and rewinds `insertIdx` if the lock is free. */
    method DecrementRef(idx: nat, lockFree: bool)
      requires idx < segs.Length && segs[idx].ref >= 1
      modifies this`count, this`insertIdx, segs
      ensures segs[..] == old(segs[..])[idx := Dropped(old(segs[idx]))]
      ensures segs[idx].ref == old(segs[idx].ref) - 1 && (segs[idx].inUsed <==> old(segs[idx].inUsed) && old(segs[idx].ref) > 1)
      ensures count == old(count) - if old(segs[idx].ref) == 1 then 1 else 0
      ensures insertIdx == if old(segs[idx].ref) == 1 && lockFree && idx < old(insertIdx) then idx else old(insertIdx)
    {
      segs[idx] := segs[idx].(ref := segs[idx].ref - 1);
      if segs[idx].ref == 0 {
        segs[idx] := segs[idx].(inUsed := false, next := NIL, prev := NIL);
        count := count - 1;
        if lockFree && idx < insertIdx {
          insertIdx := idx;
        }
      }
    }

    /** Takes the segments of a stretch of the list out of the statistics. */
    method RemoveStats(idxs: seq<nat>)
      requires InRange(idxs, segs.Length) && NoRepeats(idxs) && Slots(idxs) <= Slots(list)
      requires StatsOk(segs[..], Slots(list), Net(FlatCount), Net(MemtableCapacityLe), Net(SmallSegmentLe), memtableCapacity)
      modifies this`flatCount, this`memtableCapacityLe, this`smallSegmentLe
      ensures StatsOk(segs[..], Slots(list) - Slots(idxs), Net(FlatCount), Net(MemtableCapacityLe), Net(SmallSegmentLe),
                      memtableCapacity)
    {
      ghost var left := Slots(list);
      for i := 0 to |idxs|
        invariant left == Slots(list) - Slots(idxs[..i])
        invariant StatsOk(segs[..], left, Net(FlatCount), Net(MemtableCapacityLe), Net(SmallSegmentLe), memtableCapacity)
      {
        assert idxs[i] !in idxs[..i] by {
          Distinct(idxs);
        }
        StatsWithout(segs[..], left, idxs[i], Net(FlatCount), Net(MemtableCapacityLe), Net(SmallSegmentLe), memtableCapacity);
        UpdateStats(segs[idxs[i]], -1);
        left := left - {idxs[i]};
        assert idxs[..i + 1] == idxs[..i] + [idxs[i]];
      }
      assert idxs[..|idxs|] == idxs;
    }

    /** The replaced segments give up the list's references; afterwards they are no longer described by it. */
    method DropStretch(idxs: seq<nat>, ghost a: nat, ghost newIdx: nat)
      requires newIdx < segs.Length && newIdx !in idxs
      requires InRange(list, segs.Length) && NoRepeats(list) && IsStretch(list, a, idxs) && InRange(idxs, segs.Length)
      requires NoRepeats(idxs) && forall i :: 0 <= i < |idxs| ==> segs[idxs[i]].ref >= 1
      modifies this`count, this`insertIdx, segs
      ensures StretchDropped(old(segs[..]), segs[..], list, a, a + |idxs|, newIdx)
      ensures insertIdx == old(insertIdx) && count == old(count) - Unpinned(old(segs[..]), idxs, |idxs|)
    {
      for i := 0 to |idxs|
        invariant DroppedUpTo(old(segs[..]), segs[..], idxs, i)
        invariant insertIdx == old(insertIdx) && count == old(count) - Unpinned(old(segs[..]), idxs, i)
      {
        DropStep(old(segs[..]), segs[..], idxs, i);
        DecrementRef(idxs[i], false);
      }
      DroppedStretch(old(segs[..]), segs[..], list, idxs, a, newIdx);
    }

    /** Writes the links that put `newIdx` between two neighbours, in place of `first` to `last`. */
    method LinkBetween(first: nat, last: nat, prevIdx: int, nextIdx: int, newIdx: nat)
      requires newIdx < segs.Length && NIL <= prevIdx < segs.Length && NIL <= nextIdx < segs.Length
      requires newIdx != prevIdx && newIdx != nextIdx && (prevIdx == nextIdx ==> prevIdx == NIL)
      modifies this`head, this`tail, segs
      ensures head == if old(head) == first then newIdx else old(head)
      ensures tail == if old(tail) == last then newIdx else old(tail)
      ensures Between(old(segs[..]), segs[..], prevIdx, nextIdx, newIdx)
    {
      if head == first {
        head := newIdx;
      }
      if tail == last {
        tail := newIdx;
      }
      segs[newIdx] := segs[newIdx].(prev := prevIdx, next := nextIdx);
      if prevIdx != NIL {
        segs[prevIdx] := segs[prevIdx].(next := newIdx);
      }
      if nextIdx != NIL {
        segs[nextIdx] := segs[nextIdx].(prev := newIdx);
      }
      segs[newIdx] := segs[newIdx].(ref := 1);
    }

    /** Links `newIdx` where a stretch has been dropped from `s0`. */
    method LinkInPlace(first: nat, last: nat, prevIdx: int, nextIdx: int, newIdx: nat, ghost s0: seq<Seg>, ghost a: nat, ghost b: nat)
      requires InRange(list, segs.Length) && NoRepeats(list) && a < b <= |list| && newIdx < segs.Length && newIdx !in list
      requires prevIdx == PrevOf(list, a) && nextIdx == NextOf(list, b - 1)
      requires |s0| == segs.Length && StretchDropped(s0, segs[..], list, a, b, newIdx)
      modifies this`head, this`tail, segs
      ensures head == if old(head) == first then newIdx else old(head)
      ensures tail == if old(tail) == last then newIdx else old(tail)
      ensures Replaced(s0, segs[..], list, a, b, newIdx)
    {
      assert a > 0 && b < |list| ==> Differ(list, a - 1, b);
      LinkBetween(first, last, prevIdx, nextIdx, newIdx);
      DropThenLink(s0, old(segs[..]), segs[..], list, a, b, newIdx);
    }

    /** Drops a non-empty stretch and links `newIdx` in its place. */
    method SwapLinks(oldIdxs: seq<nat>, newIdx: nat, ghost a: nat)
      requires Linked(segs[..], head, tail, list) && |oldIdxs| > 0 && IsStretch(list, a, oldIdxs)
      requires newIdx < segs.Length && newIdx !in list
      modifies this`head, this`tail, this`count, this`insertIdx, segs
      ensures Replaced(old(segs[..]), segs[..], list, a, a + |oldIdxs|, newIdx)
      ensures head == if a == 0 then newIdx else old(head)
      ensures tail == if a + |oldIdxs| == |list| then newIdx else old(tail)
      ensures insertIdx == old(insertIdx)
      ensures InRange(oldIdxs, segs.Length) && count == old(count) - Unpinned(old(segs[..]), oldIdxs, |oldIdxs|)
    {
      ghost var s0 := segs[..];
      StretchFacts(s0, head, tail, list, oldIdxs, a);
      var prevIdx, nextIdx := segs[oldIdxs[0]].prev, segs[oldIdxs[|oldIdxs| - 1]].next;
      DropStretch(oldIdxs, a, newIdx);
      LinkInPlace(oldIdxs[0], oldIdxs[|oldIdxs| - 1], prevIdx, nextIdx, newIdx, s0, a, a + |oldIdxs|);
    }

    /** Takes a non-empty stretch out of statistics and links, and links `newIdx` in its place. */
    method SwapIn(oldIdxs: seq<nat>, newIdx: nat, ghost a: nat)
      requires Valid() && Reserved(newIdx) && |oldIdxs| > 0 && IsStretch(list, a, oldIdxs)
      modifies this`flatCount, this`memtableCapacityLe, this`smallSegmentLe, this`head, this`tail, this`count, this`insertIdx, segs
      ensures Replaced(old(segs[..]), segs[..], list, a, a + |oldIdxs|, newIdx)
      ensures StatsOk(old(segs[..]), Slots(list) - Slots(oldIdxs), Net(FlatCount), Net(MemtableCapacityLe), Net(SmallSegmentLe),
                      memtableCapacity)
      ensures head == if a == 0 then newIdx else old(head)
      ensures tail == if a + |oldIdxs| == |list| then newIdx else old(tail)
      ensures insertIdx == old(insertIdx)
      ensures InRange(oldIdxs, segs.Length) && count == old(count) - Unpinned(old(segs[..]), oldIdxs, |oldIdxs|)
    {
      StretchFacts(segs[..], head, tail, list, oldIdxs, a);
      RemoveStats(oldIdxs);
      assert segs[..] == old(segs[..]);
      SwapLinks(oldIdxs, newIdx, a);
    }

    /** Replaces a non-empty stretch of the list; `a` is where it starts. */
    method ReplaceStretch(oldIdxs: seq<nat>, newIdx: nat, ghost a: nat)
      requires Valid() && Reserved(newIdx)
      requires |oldIdxs| > 0 && IsStretch(list, a, oldIdxs)
      requires a > 0 ==> segs[list[a - 1]].start <= segs[newIdx].start
      requires a + |oldIdxs| < |list| ==> segs[newIdx].start <= segs[list[a + |oldIdxs|]].start
      modifies this, segs
      ensures Valid() && insertIdx == old(insertIdx)
      ensures IsSplice(old(list), a, a + |oldIdxs|, newIdx, list)
      ensures Replaced(old(segs[..]), segs[..], old(list), a, a + |oldIdxs|, newIdx)
      ensures recounted == old(recounted)
      ensures InRange(oldIdxs, segs.Length) && freed == old(freed) + Unpinned(old(segs[..]), oldIdxs, |oldIdxs|)
    {
      SwapIn(oldIdxs, newIdx, a);
      ghost var now := ReplaceKeepsPool(old(segs[..]), segs[..], old(head), old(tail), list, oldIdxs, a, newIdx,
                                        Net(FlatCount), Net(MemtableCapacityLe), Net(SmallSegmentLe), memtableCapacity);
      CountIn(newIdx, |oldIdxs| - 1, Unpinned(old(segs[..]), oldIdxs, |oldIdxs|), now);
    }

    /**
      Replaces a contiguous stretch of the list by one reserved slot. Each replaced segment gives up
      the list's reference; those nobody else holds are freed. `count` loses the freed segments
      twice: on cleanup, and as replaced.
     */
    method ReplaceN(oldIdxs: seq<nat>, newIdx: nat, ghost a: nat)
      requires Valid() && Reserved(newIdx)
      requires IsStretch(list, a, oldIdxs)
      requires |oldIdxs| > 0 && a > 0 ==> segs[list[a - 1]].start <= segs[newIdx].start
      requires |oldIdxs| > 0 && a + |oldIdxs| < |list| ==> segs[newIdx].start <= segs[list[a + |oldIdxs|]].start
      modifies this, segs
      ensures Valid() && insertIdx == old(insertIdx)
      ensures recounted == old(recounted) && (oldIdxs == [] ==> list == old(list) && segs[..] == old(segs[..]) && freed == old(freed))
      ensures oldIdxs != [] ==> InRange(oldIdxs, segs.Length) && freed == old(freed) + Unpinned(old(segs[..]), oldIdxs, |oldIdxs|)
      ensures oldIdxs != [] ==> IsSplice(old(list), a, a + |oldIdxs|, newIdx, list)
      ensures oldIdxs != [] ==> Replaced(old(segs[..]), segs[..], old(list), a, a + |oldIdxs|, newIdx)
    {
      if |oldIdxs| > 0 {
        ReplaceStretch(oldIdxs, newIdx, a);
      }
    }

    /**
      What rebuilds and merges do: they replace, and then add the new segment to the statistics once
      more. The links are in order as ever; the statistics that count the segment are off by one more.
     */
    method ReplaceAndRecount(oldIdxs: seq<nat>, newIdx: nat, ghost a: nat)
      requires Valid() && Reserved(newIdx) && oldIdxs != [] && IsStretch(list, a, oldIdxs)
      requires a > 0 ==> segs[list[a - 1]].start <= segs[newIdx].start
      requires a + |oldIdxs| < |list| ==> segs[newIdx].start <= segs[list[a + |oldIdxs|]].start
      modifies this, segs
      ensures Valid() && insertIdx == old(insertIdx)
      ensures recounted == old(recounted) + [segs[newIdx]]
      ensures InRange(oldIdxs, segs.Length) && freed == old(freed) + Unpinned(old(segs[..]), oldIdxs, |oldIdxs|)
      ensures IsSplice(old(list), a, a + |oldIdxs|, newIdx, list)
      ensures Replaced(old(segs[..]), segs[..], old(list), a, a + |oldIdxs|, newIdx)
    {
      ReplaceStretch(oldIdxs, newIdx, a);
      UpdateStats(segs[newIdx], 1);
      TallyWith(recounted, segs[newIdx], memtableCapacity);
      recounted := recounted + [segs[newIdx]];
    }

    /* ---- References, and slots outside the list ---- */

    /** A search pins a linked segment. */
    method Acquire(idx: nat)
      requires Valid() && idx in list
      modifies segs
      ensures Valid() && segs[..] == old(segs[..])[idx := old(segs[idx]).(ref := old(segs[idx].ref) + 1)]
    {
      segs[idx] := segs[idx].(ref := segs[idx].ref + 1);
      OutsideKeepsPool(old(segs[..]), segs[..], head, tail, list, Net(FlatCount), Net(MemtableCapacityLe), Net(SmallSegmentLe), memtableCapacity);
    }

    /** A search unpins a segment, which may have left the list meanwhile and is then freed with its last pin. */
    method Release(idx: nat)
      requires Valid() && idx < segs.Length && segs[idx].ref >= 1 && (idx in list ==> segs[idx].ref >= 2)
      modifies this`count, this`insertIdx, this`freed, segs
      ensures Valid() && segs[..] == old(segs[..])[idx := Dropped(old(segs[idx]))]
      ensures insertIdx == if old(segs[idx].ref) == 1 && idx < old(insertIdx) then idx else old(insertIdx)
      ensures freed == old(freed) + if old(segs[idx].ref) == 1 then 1 else 0
      ensures segs[idx].ref == old(segs[idx].ref) - 1 && (segs[idx].inUsed <==> old(segs[idx].inUsed) && old(segs[idx].ref) > 1)
      ensures segs[idx].Content() == old(segs[idx].Content())
    {
      freed := freed + if segs[idx].ref == 1 then 1 else 0;
      DecrementRef(idx, true);
      OutsideKeepsPool(old(segs[..]), segs[..], head, tail, list, Net(FlatCount), Net(MemtableCapacityLe), Net(SmallSegmentLe), memtableCapacity);
    }

    /** The last pin of a segment that has left the list makes room: the next reservation succeeds, at this slot or an earlier one. */
    method ReleaseAndReuse(idx: nat) returns (slot: int)
      requires Valid() && idx < segs.Length && segs[idx].ref == 1 && idx !in list
      modifies this`count, this`insertIdx, this`freed, segs
      ensures Valid() && 0 <= slot <= idx && Reserved(slot) && insertIdx == slot + 1
      ensures slot < idx ==> !segs[idx].inUsed
    {
      Release(idx);
      assert !segs[..][idx].inUsed;
      slot := Reserve();
    }

    /** Gives back a slot that was reserved but never linked. */
    method Discard(idx: nat)
      requires Valid() && Reserved(idx)
      modifies this`insertIdx, segs
      ensures Valid() && !segs[idx].inUsed && insertIdx == if idx < old(insertIdx) then idx else old(insertIdx)
      ensures forall k :: 0 <= k < segs.Length && k != idx ==> segs[k] == old(segs[k])
    {
      segs[idx] := segs[idx].(inUsed := false, next := NIL, prev := NIL, ref := 0);
      if idx < insertIdx {
        insertIdx := idx;
      }
      OutsideKeepsPool(old(segs[..]), segs[..], head, tail, list, Net(FlatCount), Net(MemtableCapacityLe), Net(SmallSegmentLe), memtableCapacity);
    }

    /* ---- Searching the list ---- */

    /** The first linked segment with exactly this range. */
    method FindSegmentBySids(start: nat, end: nat) returns (idx: int, ghost k: nat)
      requires Valid()
      ensures k <= |list| && forall i :: 0 <= i < k ==> !ExactRange(segs[..], list, i, start, end)
      ensures if k < |list| then idx == list[k] && ExactRange(segs[..], list, k, start, end) else idx == NIL
      ensures idx == NIL <==> forall i :: 0 <= i < |list| ==> !ExactRange(segs[..], list, i, start, end)
      ensures idx != NIL ==> 0 <= idx < segs.Length && segs[idx].start == start && segs[idx].end == end
    {
      idx, k := head, 0;
      while idx != NIL
        invariant k <= |list| && idx == if k < |list| then list[k] else NIL
        invariant forall i :: 0 <= i < k ==> !ExactRange(segs[..], list, i, start, end)
        decreases |list| - k
      {
        assert NodeOk(segs[..], list, k);
        if segs[idx].inUsed && segs[idx].start == start && segs[idx].end == end {
          assert ExactRange(segs[..], list, k, start, end);
          return;
        }
        k := k + 1;
        if idx == tail {
          AtTail(segs[..], head, tail, list, k - 1);
          return NIL, k;
        }
        idx := segs[idx].next;
      }
    }

    /** The first linked segment whose range strictly contains this one. */
    method FindStrictlyContaining(start: nat, end: nat) returns (idx: int, ghost k: nat)
      requires Valid()
      ensures k <= |list| && forall i :: 0 <= i < k ==> !Contains(segs[..], list, i, start, end)
      ensures if k < |list| then idx == list[k] && Contains(segs[..], list, k, start, end) else idx == NIL
      ensures idx == NIL <==> forall i :: 0 <= i < |list| ==> !Contains(segs[..], list, i, start, end)
      ensures idx != NIL ==> 0 <= idx < segs.Length && segs[idx].start <= start && end <= segs[idx].end
    {
      idx, k := head, 0;
      while idx != NIL
        invariant k <= |list| && idx == if k < |list| then list[k] else NIL
        invariant forall i :: 0 <= i < k ==> !Contains(segs[..], list, i, start, end)
        decreases |list| - k
      {
        assert NodeOk(segs[..], list, k);
        if segs[idx].inUsed && segs[idx].start <= start && segs[idx].end >= end
           && !(segs[idx].start == start && segs[idx].end == end) {
          assert Contains(segs[..], list, k, start, end);
          return;
        }
        k := k + 1;
        if idx == tail {
          AtTail(segs[..], head, tail, list, k - 1);
          return NIL, k;
        }
        idx := segs[idx].next;
      }
    }

    /** Two neighbours of which the first starts, and the second ends, with the target range. */
    method FindTwoAdjacent(start: nat, end: nat) returns (idx0: int, idx1: int, ghost k: nat)
      requires Valid()
      ensures k <= |list| && forall i :: 0 <= i < k ==> segs[list[i]].start != start
      ensures k < |list| ==> segs[list[k]].start == start
      ensures if k + 1 < |list| && segs[list[k]].end < end && segs[list[k + 1]].end == end
              then idx0 == list[k] && idx1 == list[k + 1] else idx0 == NIL && idx1 == NIL
      ensures idx0 == NIL <==> idx1 == NIL
      ensures idx0 != NIL ==> && 0 <= idx0 < segs.Length && 0 <= idx1 < segs.Length
                              && segs[idx0].next == idx1 && segs[idx0].start == start && segs[idx1].end == end
    {
      var idx := head;
      idx0, idx1, k := NIL, NIL, 0;
      while idx != NIL
        invariant k <= |list| && idx == if k < |list| then list[k] else NIL
        invariant forall i :: 0 <= i < k ==> segs[list[i]].start != start
        decreases |list| - k
      {
        assert NodeOk(segs[..], list, k);
        if segs[idx].inUsed && segs[idx].start == start {
          var nextIdx := segs[idx].next;
          if segs[idx].end < end && nextIdx != NIL && segs[nextIdx].end == end {
            idx0, idx1 := idx, nextIdx;
          }
          return;
        }
        k := k + 1;
        if idx == tail {
          AtTail(segs[..], head, tail, list, k - 1);
          return;
        }
        idx := segs[idx].next;
      }
    }
  }
}
