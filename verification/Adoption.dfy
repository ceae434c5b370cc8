/**
  Adopting a segment file that a standby has fetched: deciding what the new segment displaces, and
  installing it. The decision and the installation are one atomic step.
 */
module Adoption {
  import opened SegmentPool

  /* ---- Ranges of a pool ---- */

  ghost predicate Holds(s: seq<Seg>, list: seq<nat>, i: nat, sid: nat) {
    i < |list| && list[i] < |s| && s[list[i]].start <= sid <= s[list[i]].end
  }

  /** Some linked segment represents this source memtable. */
  ghost predicate InPool(s: seq<Seg>, list: seq<nat>, sid: nat) {
    exists i: nat :: Holds(s, list, i, sid)
  }

  ghost predicate Ranged(s: seq<Seg>, list: seq<nat>) {
    InRange(list, |s|) && forall i :: 0 <= i < |list| ==> s[list[i]].start <= s[list[i]].end
  }

  ghost predicate EndsBefore(s: seq<Seg>, list: seq<nat>, i: nat, j: nat)
    requires InRange(list, |s|) && i < |list| && j < |list|
  {
    s[list[i]].end < s[list[j]].start
  }

  /** Ascending and pairwise disjoint. */
  ghost predicate Apart(s: seq<Seg>, list: seq<nat>) {
    Ranged(s, list) && forall i, j :: 0 <= i < j < |list| ==> EndsBefore(s, list, i, j)
  }

  /** Neither before the range, nor after it, nor inside it, nor around it. */
  ghost predicate Crosses(seg: Seg, start: nat, end: nat) {
    && start <= seg.end && seg.start <= end
    && !(start <= seg.start && seg.end <= end)
    && !(seg.start <= start && end <= seg.end)
  }

  /** No linked segment crosses the range: ranges of one merge history are nested or disjoint. */
  ghost predicate LaminarWith(s: seq<Seg>, list: seq<nat>, start: nat, end: nat) {
    InRange(list, |s|) && forall i :: 0 <= i < |list| ==> !Crosses(s[list[i]], start, end)
  }

  ghost predicate RightOverhang(seg: Seg, start: nat, end: nat) {
    start <= seg.end && seg.start <= end < seg.end
  }

  ghost predicate LeftOverhang(seg: Seg, start: nat, end: nat) {
    seg.start < start <= seg.end
  }

  /** Every sid of the range has a predecessor, and none reaches beyond the range's end. */
  ghost predicate Tiled(s: seq<Seg>, list: seq<nat>, start: nat, end: nat, cover: seq<nat>) {
    && InRange(list, |s|)
    && (forall i :: 0 <= i < |list| ==> !RightOverhang(s[list[i]], start, end))
    && (forall sid :: start <= sid <= end ==> CoveredSid(s, list, cover, sid))
  }

  ghost predicate CoveredSid(s: seq<Seg>, list: seq<nat>, cover: seq<nat>, sid: nat) {
    sid in cover || InPool(s, list, sid)
  }

  /** `list[p..q)` are the segments that overlap the range. */
  ghost predicate OverlapsAre(s: seq<Seg>, list: seq<nat>, start: nat, end: nat, p: nat, q: nat)
    requires InRange(list, |s|)
  {
    && p <= q <= |list|
    && (forall i :: 0 <= i < p ==> s[list[i]].end < start)
    && (forall i :: p <= i < q ==> start <= s[list[i]].end && s[list[i]].start <= end)
    && (forall i :: q <= i < |list| ==> end < s[list[i]].start)
  }

  lemma EndsAscend(s: seq<Seg>, list: seq<nat>)
    requires Apart(s, list)
    ensures forall i, j :: 0 <= i < j < |list| ==> s[list[i]].end < s[list[j]].start
  {
    forall i, j | 0 <= i < j < |list| ensures s[list[i]].end < s[list[j]].start {
      assert EndsBefore(s, list, i, j);
    }
  }

  lemma BetweenNeighbours(s: seq<Seg>, list: seq<nat>, k: nat, sid: nat)
    requires Apart(s, list) && k <= |list|
    requires k > 0 ==> s[list[k - 1]].end < sid
    requires k < |list| ==> sid < s[list[k]].start
    ensures !InPool(s, list, sid)
  {
    forall i | 0 <= i < |list| ensures !Holds(s, list, i, sid) {
      if i < k - 1 {
        assert EndsBefore(s, list, i, k - 1);
      } else if i > k {
        assert EndsBefore(s, list, k, i);
      }
    }
  }

  /* ---- The tile walk ---- */

  /** All of `[lo, hi)` is in the memtable cover. */
  method CoverHas(cover: seq<nat>, lo: nat, hi: nat) returns (ok: bool)
    ensures ok <==> forall sid :: lo <= sid < hi ==> sid in cover
  {
    var sid := lo;
    while sid < hi
      invariant lo <= sid && (lo <= hi ==> sid <= hi) && forall t :: lo <= t < sid ==> t in cover
    {
      if sid !in cover {
        return false;
      }
      sid := sid + 1;
    }
    return true;
  }

  /** What the walk has established after the first `k` segments of the list. */
  ghost predicate WalkedTo(s: seq<Seg>, list: seq<nat>, start: nat, end: nat, cover: seq<nat>, p: nat, k: nat, tileLo: nat)
    requires InRange(list, |s|)
  {
    && p <= k <= |list|
    && (forall i :: 0 <= i < p ==> s[list[i]].end < start)
    && (forall i :: p <= i < k ==> start <= s[list[i]].end <= end && s[list[i]].start <= end)
    && tileLo == (if p < k then s[list[k - 1]].end + 1 else start)
    && (forall sid :: start <= sid < tileLo ==> CoveredSid(s, list, cover, sid))
  }

  lemma WalkStep(s: seq<Seg>, list: seq<nat>, start: nat, end: nat, cover: seq<nat>, p: nat, k: nat, tileLo: nat)
    requires Apart(s, list) && WalkedTo(s, list, start, end, cover, p, k, tileLo) && k < |list|
    requires start <= s[list[k]].end <= end && s[list[k]].start <= end
    requires forall sid :: tileLo <= sid < s[list[k]].start ==> sid in cover
    ensures WalkedTo(s, list, start, end, cover, p, k + 1, s[list[k]].end + 1)
  {
    forall sid | start <= sid < s[list[k]].end + 1 ensures CoveredSid(s, list, cover, sid) {
      if tileLo <= sid && s[list[k]].start <= sid {
        assert Holds(s, list, k, sid);
      }
    }
  }

  /** A segment before the range is skipped. */
  lemma SkipStep(s: seq<Seg>, list: seq<nat>, start: nat, end: nat, cover: seq<nat>, p: nat, k: nat, tileLo: nat)
    requires Apart(s, list) && WalkedTo(s, list, start, end, cover, p, k, tileLo) && k < |list|
    requires s[list[k]].end < start
    ensures p == k && WalkedTo(s, list, start, end, cover, k + 1, k + 1, tileLo)
  {
    EndsAscend(s, list);
  }

  /** A sid in front of segment `k` that the walk has not passed and no memtable covers. */
  lemma GapIsFatal(s: seq<Seg>, list: seq<nat>, start: nat, end: nat, cover: seq<nat>, p: nat, k: nat, tileLo: nat, sid: nat)
    requires Apart(s, list) && WalkedTo(s, list, start, end, cover, p, k, tileLo)
    requires tileLo <= sid <= end && (k < |list| ==> sid < s[list[k]].start) && sid !in cover
    ensures !Tiled(s, list, start, end, cover)
  {
    BetweenNeighbours(s, list, k, sid);
    assert start <= tileLo;
    assert !CoveredSid(s, list, cover, sid);
  }

  /** The walk ended before segment `k`, which lies after the range, with nothing uncovered. */
  lemma WalkDone(s: seq<Seg>, list: seq<nat>, start: nat, end: nat, cover: seq<nat>, p: nat, k: nat, tileLo: nat)
    requires Apart(s, list) && WalkedTo(s, list, start, end, cover, p, k, tileLo)
    requires k < |list| ==> end < s[list[k]].start
    ensures OverlapsAre(s, list, start, end, p, k)
    ensures Tiled(s, list, start, end, cover) <==> forall sid :: tileLo <= sid <= end ==> sid in cover
  {
    forall i | k < i < |list| ensures end < s[list[i]].start {
      assert EndsBefore(s, list, k, i);
    }
    if sid :| tileLo <= sid <= end && sid !in cover {
      GapIsFatal(s, list, start, end, cover, p, k, tileLo, sid);
    }
  }

  datatype Step = Skip | Past | Reject | Take

  ghost predicate Walking(s: seq<Seg>, list: seq<nat>, start: nat, end: nat, cover: seq<nat>, p: nat, k: nat, tileLo: nat, snaps: seq<nat>)
    requires InRange(list, |s|)
  {
    WalkedTo(s, list, start, end, cover, p, k, tileLo) && IsStretch(list, p, snaps) && p + |snaps| == k
  }

  /** Success means the range is tiled, and what was collected is what overlaps it. */
  ghost predicate TileResult(s: seq<Seg>, list: seq<nat>, start: nat, end: nat, cover: seq<nat>, ok: bool, snaps: seq<nat>, p: nat)
    requires InRange(list, |s|)
  {
    && (ok <==> Tiled(s, list, start, end, cover))
    && (ok ==> IsStretch(list, p, snaps) && OverlapsAre(s, list, start, end, p, p + |snaps|))
  }

  /** What the walk does with the next segment. */
  method Examine(seg: Seg, snaps: seq<nat>, start: nat, end: nat, cover: seq<nat>, tileLo: nat,
                 ghost s: seq<Seg>, ghost list: seq<nat>, ghost p: nat, ghost k: nat) returns (step: Step)
    requires Apart(s, list) && Walking(s, list, start, end, cover, p, k, tileLo, snaps)
    requires k < |list| && seg == s[list[k]] && |list| <= MAX_SEGMENTS_COUNT
    ensures step == Skip ==> snaps == [] && Walking(s, list, start, end, cover, k + 1, k + 1, tileLo, snaps)
    ensures step == Past ==> end < seg.start
    ensures step == Reject ==> !Tiled(s, list, start, end, cover)
    ensures step == Take ==> Walking(s, list, start, end, cover, p, k + 1, seg.end + 1, snaps + [list[k]])
  {
    if seg.end < start {
      SkipStep(s, list, start, end, cover, p, k, tileLo);
      return Skip;
    }
    if seg.start > end {
      return Past;
    }
    if seg.end > end {
      assert RightOverhang(s[list[k]], start, end);
      return Reject;
    }
    var covered := CoverHas(cover, tileLo, seg.start);
    if !covered {
      ghost var sid :| tileLo <= sid < seg.start && sid !in cover;
      GapIsFatal(s, list, start, end, cover, p, k, tileLo, sid);
      return Reject;
    }
    if |snaps| >= MAX_SEGMENTS_COUNT {
      return Reject;
    }
    WalkStep(s, list, start, end, cover, p, k, tileLo);
    return Take;
  }

  lemma WalkEnds(s: seq<Seg>, list: seq<nat>, start: nat, end: nat, cover: seq<nat>, p: nat, k: nat, tileLo: nat,
                 snaps: seq<nat>, ok: bool)
    requires Apart(s, list) && Walking(s, list, start, end, cover, p, k, tileLo, snaps)
    requires k < |list| ==> end < s[list[k]].start
    requires ok <==> forall sid :: tileLo <= sid < end + 1 ==> sid in cover
    ensures TileResult(s, list, start, end, cover, ok, snaps, p)
  {
    WalkDone(s, list, start, end, cover, p, k, tileLo);
  }

  /**
    Walks the list and collects the segments inside the range; succeeds exactly when the range is
    tiled by them and the memtable cover. The limit on collected segments is never reached.
   */
  method TileWalk(pool: Pool, start: nat, end: nat, cover: seq<nat>) returns (ok: bool, snaps: seq<nat>, ghost p: nat)
    requires pool.Valid() && Apart(pool.segs[..], pool.list)
    ensures TileResult(pool.segs[..], pool.list, start, end, cover, ok, snaps, p)
    ensures ok <==> Tiled(pool.segs[..], pool.list, start, end, cover)
  {
    ghost var s, list := pool.segs[..], pool.list;
    FewSegments(s, list);
    var cur := pool.head;
    var tileLo: nat := start;
    snaps, p := [], 0;
    ghost var k := 0;
    while cur != NIL
      invariant k <= |list| && cur == if k < |list| then list[k] else NIL
      invariant Walking(s, list, start, end, cover, p, k, tileLo, snaps)
      decreases |list| - k
    {
      assert NodeOk(s, list, k);
      var seg := pool.segs[cur];
      var step := Examine(seg, snaps, start, end, cover, tileLo, s, list, p, k);
      match step {
        case Past => break;
        case Reject => return false, snaps, p;
        case Skip => p := k + 1;
        case Take =>
          snaps := snaps + [cur];
          tileLo := seg.end + 1;
      }
      cur := seg.next;
      k := k + 1;
    }
    ok := CoverHas(cover, tileLo, end + 1);
    WalkEnds(s, list, start, end, cover, p, k, tileLo, snaps, ok);
  }

  /** The list has no more nodes than there are slots. */
  lemma FewSegments(s: seq<Seg>, list: seq<nat>)
    requires InRange(list, |s|) && NoRepeats(list)
    ensures |list| <= |s|
  {
    Distinct(list);
    Pigeonhole(list, |s|);
  }

  lemma {:induction false} Pigeonhole(list: seq<nat>, n: nat)
    requires forall i :: 0 <= i < |list| ==> list[i] < n
    requires forall i, j :: 0 <= i < j < |list| ==> list[i] != list[j]
    ensures |list| <= n
    decreases n
  {
    if list != [] {
      assert list[0] < n;
      if n - 1 in list {
        var k :| 0 <= k < |list| && list[k] == n - 1;
        var rest := list[..k] + list[k + 1..];
        Pigeonhole(rest, n - 1);
      } else {
        Pigeonhole(list, n - 1);
      }
    }
  }

  /* ---- What an installation does to the represented sids ---- */

  /** The new segment is the only one that overlaps its range. */
  ghost predicate SoleOwner(s: seq<Seg>, list: seq<nat>, p: nat, start: nat, end: nat)
    requires InRange(list, |s|)
  {
    && p < |list| && s[list[p]].start == start && s[list[p]].end == end
    && forall i :: 0 <= i < |list| && i != p ==> s[list[i]].end < start || end < s[list[i]].start
  }

  /** No sid outside the range leaves or enters the pool. */
  ghost predicate OutsideSame(s: seq<Seg>, list: seq<nat>, s': seq<Seg>, list': seq<nat>, start: nat, end: nat) {
    forall sid: nat :: sid < start || end < sid ==> (InPool(s', list', sid) <==> InPool(s, list, sid))
  }

  ghost predicate NoLeftOverhang(s: seq<Seg>, list: seq<nat>, start: nat) {
    InRange(list, |s|) && forall i :: 0 <= i < |list| ==> !LeftOverhang(s[list[i]], start, start)
  }

  lemma SplicedRanges(s: seq<Seg>, s': seq<Seg>, list: seq<nat>, p: nat, q: nat, idx: nat, now: seq<nat>, start: nat, end: nat)
    requires Apart(s, list) && idx < |s| == |s'| && IsSplice(list, p, q, idx, now) && OverlapsAre(s, list, start, end, p, q)
    requires Relinked(s, s', list, p, q, idx) && s[idx].start == start <= end == s[idx].end
    ensures Apart(s', now) && SoleOwner(s', now, p, start, end)
  {
    forall i | 0 <= i < |now|
      ensures now[i] < |s'| && s'[now[i]].Content() == s[now[i]].Content()
    {
    }
    forall i, j | 0 <= i < j < |now| ensures EndsBefore(s', now, i, j) {
      if i != p && j != p {
        assert EndsBefore(s, list, if i < p then i else i - p - 1 + q, if j < p then j else j - p - 1 + q);
      }
    }
  }

  /** A segment that is not displaced represents this sid. */
  ghost predicate HeldOutside(s: seq<Seg>, list: seq<nat>, p: nat, q: nat, sid: nat) {
    exists i: nat :: !(p <= i < q) && Holds(s, list, i, sid)
  }

  lemma HoldsAfter(s: seq<Seg>, s': seq<Seg>, list: seq<nat>, p: nat, q: nat, idx: nat, now: seq<nat>, start: nat, end: nat, sid: nat)
    requires InRange(list, |s|) && idx < |s| == |s'| && IsSplice(list, p, q, idx, now)
    requires Relinked(s, s', list, p, q, idx) && s[idx].start == start <= end == s[idx].end
    ensures InPool(s', now, sid) <==> start <= sid <= end || HeldOutside(s, list, p, q, sid)
  {
    forall i: nat | i < |now|
      ensures Holds(s', now, i, sid) <==> if i == p then start <= sid <= end else Holds(s, list, if i < p then i else i - p - 1 + q, sid)
    {
    }
    if InPool(s', now, sid) {
      var i: nat :| Holds(s', now, i, sid);
      assert i != p ==> Holds(s, list, if i < p then i else i - p - 1 + q, sid);
    }
    if HeldOutside(s, list, p, q, sid) {
      var i: nat :| !(p <= i < q) && Holds(s, list, i, sid);
      assert Holds(s', now, if i < p then i else i - q + p + 1, sid);
    }
    assert start <= sid <= end ==> Holds(s', now, p, sid);
  }

  lemma HeldOnce(s: seq<Seg>, list: seq<nat>, i: nat, j: nat, sid: nat)
    requires Apart(s, list) && Holds(s, list, i, sid) && Holds(s, list, j, sid)
    ensures i == j
  {
    EndsAscend(s, list);
  }

  /** Sids outside the range are kept exactly when nothing displaced starts before it. */
  lemma OutsideKeptIff(s: seq<Seg>, s': seq<Seg>, list: seq<nat>, p: nat, q: nat, idx: nat, now: seq<nat>, start: nat, end: nat)
    requires Apart(s, list) && idx < |s| == |s'| && IsSplice(list, p, q, idx, now) && OverlapsAre(s, list, start, end, p, q)
    requires Relinked(s, s', list, p, q, idx) && s[idx].start == start <= end == s[idx].end
    requires NoRightOverhang(s, list, start, end)
    ensures OutsideSame(s, list, s', now, start, end) <==> NoLeftOverhang(s, list, start)
  {
    if NoLeftOverhang(s, list, start) {
      forall sid: nat | sid < start || end < sid ensures InPool(s', now, sid) <==> InPool(s, list, sid) {
        HoldsAfter(s, s', list, p, q, idx, now, start, end, sid);
        forall i: nat | p <= i < q ensures !Holds(s, list, i, sid) {
          assert !LeftOverhang(s[list[i]], start, start) && !RightOverhang(s[list[i]], start, end);
        }
      }
    } else {
      var i :| 0 <= i < |list| && LeftOverhang(s[list[i]], start, start);
      var sid := s[list[i]].start;
      HoldsAfter(s, s', list, p, q, idx, now, start, end, sid);
      assert Holds(s, list, i, sid) && p <= i < q;
      forall j: nat | Holds(s, list, j, sid) ensures j == i {
        HeldOnce(s, list, i, j, sid);
      }
    }
  }

  /** Ranges of one merge history leave no segment hanging over to the left once nothing contains the range. */
  lemma LaminarHasNoLeftOverhang(s: seq<Seg>, list: seq<nat>, start: nat, end: nat, version: nat, cover: seq<nat>)
    requires LaminarWith(s, list, start, end) && Apart(s, list) && start <= end && WillAdopt(s, list, start, end, version, cover)
    ensures NoLeftOverhang(s, list, start)
  {
    forall i | 0 <= i < |list| ensures !LeftOverhang(s[list[i]], start, start) {
      assert !Crosses(s[list[i]], start, end);
      if HasExactRange(s, list, start, end) {
        var k :| 0 <= k < |list| && ExactRange(s, list, k, start, end);
        assert i < k ==> EndsBefore(s, list, i, k);
        assert k < i ==> EndsBefore(s, list, k, i);
      } else {
        assert !Contains(s, list, i, start, end) && !ExactRange(s, list, i, start, end);
      }
    }
  }

  /* ---- The decision ---- */

  ghost predicate HasExactRange(s: seq<Seg>, list: seq<nat>, start: nat, end: nat) {
    exists i :: 0 <= i < |list| && ExactRange(s, list, i, start, end)
  }

  /** When an offered segment is taken: it is newer than its namesake, or it tiles and nothing contains it. */
  ghost predicate WillAdopt(s: seq<Seg>, list: seq<nat>, start: nat, end: nat, version: nat, cover: seq<nat>) {
    if HasExactRange(s, list, start, end)
    then exists i :: 0 <= i < |list| && ExactRange(s, list, i, start, end) && s[list[i]].version < version
    else (forall i :: 0 <= i < |list| ==> !Contains(s, list, i, start, end)) && Tiled(s, list, start, end, cover)
  }

  /** What is displaced: a stretch of the list, nothing, or the offer is turned down. */
  datatype Decision = Stale | Replace(snaps: seq<nat>) | Append

  ghost predicate NoRightOverhang(s: seq<Seg>, list: seq<nat>, start: nat, end: nat) {
    InRange(list, |s|) && forall i :: 0 <= i < |list| ==> !RightOverhang(s[list[i]], start, end)
  }

  /** The decision is the right one, and a stretch to displace is exactly what overlaps the range. */
  ghost predicate Sound(d: Decision, s: seq<Seg>, list: seq<nat>, start: nat, end: nat, version: nat, cover: seq<nat>, p: nat) {
    match d
    case Stale => !WillAdopt(s, list, start, end, version, cover)
    case Replace(snaps) =>
      && WillAdopt(s, list, start, end, version, cover) && NoRightOverhang(s, list, start, end)
      && snaps != [] && IsStretch(list, p, snaps) && OverlapsAre(s, list, start, end, p, p + |snaps|)
    case Append =>
      && WillAdopt(s, list, start, end, version, cover) && NoRightOverhang(s, list, start, end)
      && OverlapsAre(s, list, start, end, p, p)
  }

  lemma ExactOverlapsAlone(s: seq<Seg>, list: seq<nat>, k: nat, start: nat, end: nat)
    requires Apart(s, list) && ExactRange(s, list, k, start, end) && start <= end
    ensures OverlapsAre(s, list, start, end, k, k + 1)
    ensures forall i: nat :: i < |list| && i != k ==> !ExactRange(s, list, i, start, end)
    ensures NoRightOverhang(s, list, start, end)
  {
    forall i: nat | i < |list| ensures (i < k ==> s[list[i]].end < start) && (k < i ==> end < s[list[i]].start) {
      assert i < k ==> EndsBefore(s, list, i, k);
      assert k < i ==> EndsBefore(s, list, k, i);
    }
  }

  lemma ExactDecides(s: seq<Seg>, list: seq<nat>, k: nat, start: nat, end: nat, version: nat, cover: seq<nat>)
    requires Apart(s, list) && ExactRange(s, list, k, start, end) && start <= end
    ensures Sound(if version > s[list[k]].version then Replace([list[k]]) else Stale, s, list, start, end, version, cover, k)
  {
    ExactOverlapsAlone(s, list, k, start, end);
  }

  lemma WiderDecides(s: seq<Seg>, list: seq<nat>, k: nat, start: nat, end: nat, version: nat, cover: seq<nat>)
    requires !HasExactRange(s, list, start, end) && Contains(s, list, k, start, end)
    ensures Sound(Stale, s, list, start, end, version, cover, k)
  {
  }

  lemma TilingDecides(s: seq<Seg>, list: seq<nat>, ok: bool, snaps: seq<nat>, p: nat,
                      start: nat, end: nat, version: nat, cover: seq<nat>)
    requires !HasExactRange(s, list, start, end) && forall i: nat :: i < |list| ==> !Contains(s, list, i, start, end)
    requires InRange(list, |s|) && TileResult(s, list, start, end, cover, ok, snaps, p)
    ensures Sound(if !ok then Stale else if snaps == [] then Append else Replace(snaps), s, list, start, end, version, cover, p)
  {
  }

  /** Cases A, B, D and E on the current pool. */
  method Decide(pool: Pool, start: nat, end: nat, version: nat, cover: seq<nat>) returns (d: Decision, ghost p: nat)
    requires pool.Valid() && Apart(pool.segs[..], pool.list) && start <= end
    ensures Sound(d, pool.segs[..], pool.list, start, end, version, cover, p)
    ensures !d.Stale? <==> WillAdopt(pool.segs[..], pool.list, start, end, version, cover)
  {
    ghost var s, list := pool.segs[..], pool.list;
    var found;
    found, p := pool.FindSegmentBySids(start, end);
    if found != NIL {
      ExactDecides(s, list, p, start, end, version, cover);
      assert NodeOk(s, list, p);
      var newer := pool.segs[found].inUsed && version > pool.segs[found].version;
      return if newer then Replace([found]) else Stale, p;
    }
    var wider;
    wider, p := pool.FindStrictlyContaining(start, end);
    if wider != NIL {
      WiderDecides(s, list, p, start, end, version, cover);
      return Stale, p;
    }
    var ok, snaps;
    ok, snaps, p := TileWalk(pool, start, end, cover);
    TilingDecides(s, list, ok, snaps, p, start, end, version, cover);
    return if !ok then Stale else if snaps == [] then Append else Replace(snaps), p;
  }

  /* ---- Loading and installing ---- */

  /** Nothing about the linked segments has changed. */
  ghost predicate SameLinked(s: seq<Seg>, s': seq<Seg>, list: seq<nat>) {
    |s| == |s'| && InRange(list, |s|) && forall i :: 0 <= i < |list| ==> s'[list[i]] == s[list[i]]
  }

  /** Everything said about ranges and tilings depends on the linked segments only. */
  lemma LinkedDecide(s: seq<Seg>, s': seq<Seg>, list: seq<nat>, start: nat, end: nat, version: nat, cover: seq<nat>, p: nat, q: nat)
    requires SameLinked(s, s', list)
    ensures Apart(s, list) <==> Apart(s', list)
    ensures WillAdopt(s, list, start, end, version, cover) <==> WillAdopt(s', list, start, end, version, cover)
    ensures OverlapsAre(s, list, start, end, p, q) <==> OverlapsAre(s', list, start, end, p, q)
    ensures NoLeftOverhang(s, list, start) <==> NoLeftOverhang(s', list, start)
    ensures forall sid :: CoveredSid(s, list, cover, sid) <==> CoveredSid(s', list, cover, sid)
    ensures forall sid :: InPool(s, list, sid) <==> InPool(s', list, sid)
  {
    forall i: nat, sid: nat ensures Holds(s, list, i, sid) <==> Holds(s', list, i, sid) {
    }
    forall sid ensures InPool(s, list, sid) <==> InPool(s', list, sid) {
      SamePool(s, s', list, sid);
    }
    forall i, j | 0 <= i < j < |list| ensures EndsBefore(s, list, i, j) <==> EndsBefore(s', list, i, j) {
    }
    forall i: nat | i < |list|
      ensures ExactRange(s, list, i, start, end) <==> ExactRange(s', list, i, start, end)
      ensures Contains(s, list, i, start, end) <==> Contains(s', list, i, start, end)
    {
    }
    forall sid ensures CoveredSid(s, list, cover, sid) <==> CoveredSid(s', list, cover, sid) {
    }
  }

  lemma SamePool(s: seq<Seg>, s': seq<Seg>, list: seq<nat>, sid: nat)
    requires SameLinked(s, s', list)
    ensures InPool(s, list, sid) <==> InPool(s', list, sid)
  {
    if InPool(s, list, sid) {
      var i: nat :| Holds(s, list, i, sid);
      assert Holds(s', list, i, sid);
    }
    if InPool(s', list, sid) {
      var i: nat :| Holds(s', list, i, sid);
      assert Holds(s, list, i, sid);
    }
  }

  /** Loads the offered file into a reserved slot. */
  method LoadSegment(pool: Pool, idx: nat, start: nat, end: nat, version: nat, flat: bool, vecCount: nat)
    requires pool.Valid() && pool.Reserved(idx)
    modifies pool.segs
    ensures pool.Valid() && pool.Reserved(idx)
    ensures pool.segs[idx].Content() == (start, end, version, flat, vecCount)
    ensures forall k :: 0 <= k < pool.segs.Length && k != idx ==> pool.segs[k] == old(pool.segs[k])
    ensures SameLinked(old(pool.segs[..]), pool.segs[..], pool.list)
  {
    pool.segs[idx] := pool.segs[idx].(start := start, end := end, version := version, flat := flat, vecCount := vecCount);
    OutsideKeepsPool(old(pool.segs[..]), pool.segs[..], pool.head, pool.tail, pool.list,
                     pool.Net(FlatCount), pool.Net(MemtableCapacityLe), pool.Net(SmallSegmentLe), pool.memtableCapacity);
  }

  lemma PlaceIsWhereNothingOverlaps(s: seq<Seg>, list: seq<nat>, start: nat, end: nat, p: nat, p': nat)
    requires Ranged(s, list) && start <= end && OverlapsAre(s, list, start, end, p, p) && IsPlace(s, list, p', start)
    ensures p == p'
  {
    assert p < |list| ==> start < s[list[p]].start;
    assert p' < |list| ==> start < s[list[p']].start;
  }

  lemma NeighboursInOrder(s: seq<Seg>, list: seq<nat>, start: nat, end: nat, p: nat, q: nat)
    requires Ranged(s, list) && start <= end && OverlapsAre(s, list, start, end, p, q)
    ensures p > 0 ==> s[list[p - 1]].start <= start
    ensures q < |list| ==> start <= s[list[q]].start
  {
  }

  /** What an installation at `[p, q)` leaves. */
  ghost predicate Installed(s: seq<Seg>, list: seq<nat>, s': seq<Seg>, list': seq<nat>, start: nat, end: nat, p: nat, q: nat, idx: nat) {
    && InRange(list, |s|) && |s'| == |s| && idx < |s|
    && IsSplice(list, p, q, idx, list') && OverlapsAre(s, list, start, end, p, q) && Relinked(s, s', list, p, q, idx)
  }

  method InstallNew(pool: Pool, idx: nat, ghost start: nat, ghost end: nat, ghost p: nat)
    requires pool.Valid() && pool.Reserved(idx) && Apart(pool.segs[..], pool.list) && start <= end
    requires pool.segs[idx].start == start && OverlapsAre(pool.segs[..], pool.list, start, end, p, p)
    modifies pool, pool.segs
    ensures pool.Valid() && pool.recounted == old(pool.recounted)
    ensures Installed(old(pool.segs[..]), old(pool.list), pool.segs[..], pool.list, start, end, p, p, idx)
  {
    ghost var place := pool.Register(idx);
    PlaceIsWhereNothingOverlaps(old(pool.segs[..]), old(pool.list), start, end, p, place);
  }

  method InstallOver(pool: Pool, snaps: seq<nat>, idx: nat, ghost start: nat, ghost end: nat, ghost p: nat)
    requires pool.Valid() && pool.Reserved(idx) && Apart(pool.segs[..], pool.list) && start <= end
    requires pool.segs[idx].start == start && snaps != [] && IsStretch(pool.list, p, snaps)
    requires OverlapsAre(pool.segs[..], pool.list, start, end, p, p + |snaps|)
    modifies pool, pool.segs
    ensures pool.Valid() && pool.recounted == old(pool.recounted)
    ensures Installed(old(pool.segs[..]), old(pool.list), pool.segs[..], pool.list, start, end, p, p + |snaps|, idx)
  {
    NeighboursInOrder(pool.segs[..], pool.list, start, end, p, p + |snaps|);
    pool.ReplaceN(snaps, idx, p);
  }

  /** Registers or replaces, according to the decision. */
  method Install(pool: Pool, d: Decision, idx: nat, ghost start: nat, ghost end: nat, ghost version: nat, ghost cover: seq<nat>,
                 ghost p: nat) returns (ghost q: nat)
    requires pool.Valid() && pool.Reserved(idx) && Apart(pool.segs[..], pool.list) && start <= end
    requires pool.segs[idx].start == start && !d.Stale?
    requires Sound(d, pool.segs[..], pool.list, start, end, version, cover, p)
    modifies pool, pool.segs
    ensures pool.Valid() && pool.recounted == old(pool.recounted)
    ensures Installed(old(pool.segs[..]), old(pool.list), pool.segs[..], pool.list, start, end, p, q, idx)
  {
    match d {
      case Append =>
        q := p;
        InstallNew(pool, idx, start, end, p);
      case Replace(snaps) =>
        q := p + |snaps|;
        InstallOver(pool, snaps, idx, start, end, p);
    }
  }

  /* ---- Adoption ---- */

  datatype Outcome = Adopted | StaleDiscard

  /** What an adoption leaves behind. */
  ghost predicate AdoptedWell(s: seq<Seg>, list: seq<nat>, s': seq<Seg>, list': seq<nat>, start: nat, end: nat,
                              cover: seq<nat>, p: nat, q: nat, idx: nat)
  {
    && Apart(s, list) && Apart(s', list')
    && IsSplice(list, p, q, idx, list') && OverlapsAre(s, list, start, end, p, q)
    && SoleOwner(s', list', p, start, end)
    && |s'| == |s| && (forall i :: 0 <= i < |list| && !(p <= i < q) ==> s'[list[i]].Content() == s[list[i]].Content())
    && (forall sid :: start <= sid <= end ==> CoveredSid(s, list, cover, sid))
    && (OutsideSame(s, list, s', list', start, end) <==> NoLeftOverhang(s, list, start))
  }

  lemma InstalledWell(s: seq<Seg>, s': seq<Seg>, list: seq<nat>, d: Decision, idx: nat, now: seq<nat>,
                      start: nat, end: nat, version: nat, cover: seq<nat>, p: nat, q: nat)
    requires Apart(s, list) && |s| == |s'| && idx < |s|
    requires start <= end && s[idx].start == start && s[idx].end == end
    requires !d.Stale? && Sound(d, s, list, start, end, version, cover, p)
    requires Installed(s, list, s', now, start, end, p, q, idx)
    ensures AdoptedWell(s, list, s', now, start, end, cover, p, q, idx)
  {
    SplicedRanges(s, s', list, p, q, idx, now, start, end);
    OutsideKeptIff(s, s', list, p, q, idx, now, start, end);
    forall sid | start <= sid <= end ensures CoveredSid(s, list, cover, sid) {
      if HasExactRange(s, list, start, end) {
        var i :| 0 <= i < |list| && ExactRange(s, list, i, start, end);
        assert Holds(s, list, i, sid);
      }
    }
  }

  /** Decides about a loaded segment and installs it, or gives its slot back. */
  method Commit(pool: Pool, idx: nat, start: nat, end: nat, version: nat, cover: seq<nat>)
    returns (outcome: Outcome, ghost p: nat, ghost q: nat)
    requires pool.Valid() && pool.Reserved(idx) && Apart(pool.segs[..], pool.list)
    requires pool.segs[idx].start == start <= end == pool.segs[idx].end
    modifies pool, pool.segs
    ensures pool.Valid() && pool.recounted == old(pool.recounted)
    ensures outcome == Adopted <==> WillAdopt(old(pool.segs[..]), old(pool.list), start, end, version, cover)
    ensures outcome == StaleDiscard ==> pool.list == old(pool.list) && SameLinked(old(pool.segs[..]), pool.segs[..], pool.list)
    ensures outcome == Adopted ==> pool.segs[idx].Content() == old(pool.segs[idx].Content())
    ensures outcome == Adopted ==>
      AdoptedWell(old(pool.segs[..]), old(pool.list), pool.segs[..], pool.list, start, end, cover, p, q, idx)
  {
    ghost var s, list := pool.segs[..], pool.list;
    var d;
    d, p := Decide(pool, start, end, version, cover);
    q := p;
    if d == Stale {
      pool.Discard(idx);
      outcome := StaleDiscard;
    } else {
      q := Install(pool, d, idx, start, end, version, cover, p);
      outcome := Adopted;
      InstalledWell(s, pool.segs[..], list, d, idx, pool.list, start, end, version, cover, p, q);
    }
  }

  lemma WellForLinked(s: seq<Seg>, s1: seq<Seg>, list: seq<nat>, s': seq<Seg>, list': seq<nat>, start: nat, end: nat,
                      cover: seq<nat>, p: nat, q: nat, idx: nat)
    requires SameLinked(s, s1, list) && AdoptedWell(s1, list, s', list', start, end, cover, p, q, idx)
    ensures AdoptedWell(s, list, s', list', start, end, cover, p, q, idx)
  {
    LinkedDecide(s, s1, list, start, end, 0, cover, p, q);
  }

  /**
    Offers a segment file to the pool. It is adopted exactly when a slot is free and the decision is
    in its favour; otherwise the linked segments stay as they are.
   */
  method Adopt(pool: Pool, start: nat, end: nat, version: nat, flat: bool, vecCount: nat, cover: seq<nat>)
    returns (outcome: Outcome, ghost p: nat, ghost q: nat, ghost idx: int)
    requires pool.Valid() && Apart(pool.segs[..], pool.list) && start <= end
    modifies pool, pool.segs
    ensures pool.Valid() && pool.recounted == old(pool.recounted) && Apart(pool.segs[..], pool.list)
    ensures outcome == Adopted <==>
      && (exists k :: old(pool.insertIdx) <= k < pool.segs.Length && !old(pool.segs[..])[k].inUsed)
      && WillAdopt(old(pool.segs[..]), old(pool.list), start, end, version, cover)
    ensures outcome == StaleDiscard ==> pool.list == old(pool.list) && SameLinked(old(pool.segs[..]), pool.segs[..], pool.list)
    ensures outcome == Adopted ==> 0 <= idx < pool.segs.Length && pool.segs[idx].Content() == (start, end, version, flat, vecCount)
    ensures outcome == Adopted ==>
      AdoptedWell(old(pool.segs[..]), old(pool.list), pool.segs[..], pool.list, start, end, cover, p, q, idx)
  {
    ghost var s, list := pool.segs[..], pool.list;
    var slot := pool.Reserve();
    idx, p, q := slot, 0, 0;
    if slot == NIL {
      return StaleDiscard, p, q, idx;
    }
    LoadSegment(pool, slot, start, end, version, flat, vecCount);
    ghost var s1 := pool.segs[..];
    LinkedDecide(s, s1, list, start, end, version, cover, 0, 0);
    outcome, p, q := Commit(pool, slot, start, end, version, cover);
    if outcome == Adopted {
      WellForLinked(s, s1, list, pool.segs[..], pool.list, start, end, cover, p, q, slot);
    } else {
      LinkedDecide(s, pool.segs[..], list, start, end, version, cover, 0, 0);
    }
  }

  /* ---- Concrete pools ---- */

  /** A pool that holds [3, 5], offered [4, 6] with sid 6 in a memtable: it is adopted, and sid 3 is no longer in the pool. */
  lemma OverhangCanBeDisplaced(s: seq<Seg>, list: seq<nat>, s': seq<Seg>, now: seq<nat>, p: nat, q: nat, idx: nat)
    requires |list| == 1 && list[0] < |s| && s[list[0]].start == 3 && s[list[0]].end == 5
    ensures Apart(s, list) && WillAdopt(s, list, 4, 6, 0, [6]) && InPool(s, list, 3)
    ensures AdoptedWell(s, list, s', now, 4, 6, [6], p, q, idx) ==> !InPool(s', now, 3)
  {
    assert Holds(s, list, 0, 3);
    forall sid | 4 <= sid <= 6 ensures CoveredSid(s, list, [6], sid) {
      assert sid <= 5 ==> Holds(s, list, 0, sid);
    }
    assert LeftOverhang(s[list[0]], 4, 4);
  }

  /** Reserves the next slot for a segment and loads it. */
  method Prepare(pool: Pool, start: nat, end: nat, vecCount: nat) returns (slot: nat)
    requires pool.Valid() && pool.insertIdx < MAX_SEGMENTS_COUNT && !pool.segs[pool.insertIdx].inUsed
    modifies pool`insertIdx, pool.segs
    ensures pool.Valid() && pool.Reserved(slot) && pool.segs[slot].Content() == (start, end, 0, false, vecCount)
    ensures slot == old(pool.insertIdx) && pool.insertIdx == slot + 1
    ensures forall k :: 0 <= k < pool.segs.Length && k != slot ==> pool.segs[k] == old(pool.segs[k])
  {
    slot := pool.Reserve();
    assert !old(pool.segs[..])[old(pool.insertIdx)].inUsed;
    LoadSegment(pool, slot, start, end, 0, false, vecCount);
  }

  /** A pool with one linked segment. */
  method OneSegment(start: nat, end: nat) returns (pool: Pool)
    requires start <= end
    ensures fresh(pool) && fresh(pool.segs) && pool.Valid() && pool.memtableCapacity == 10
    ensures pool.list == [0] && pool.recounted == [] && pool.freed == 0
    ensures pool.segs[0].start == start && pool.segs[0].end == end && pool.segs[0].ref == 1
    ensures pool.insertIdx == 1 && !pool.segs[1].inUsed && !pool.segs[2].inUsed
  {
    pool := new Pool(10);
    var slot := Prepare(pool, start, end, 1);
    ghost var place := pool.Register(slot);
    assert pool.list == [0];
  }

  /** The same with the pool at work: sid 3 is in it before the adoption and not after. */
  method LoseSid() returns (pool: Pool, outcome: Outcome, ghost s: seq<Seg>, ghost list: seq<nat>)
    ensures pool.Valid() && outcome == Adopted
    ensures InPool(s, list, 3) && !InPool(pool.segs[..], pool.list, 3)
  {
    pool := OneSegment(3, 5);
    var slot := Prepare(pool, 4, 6, 1);
    s, list := pool.segs[..], pool.list;
    ghost var p, q;
    OverhangCanBeDisplaced(s, list, s, list, 0, 0, slot);
    outcome, p, q := Commit(pool, slot, 4, 6, 0, [6]);
    OverhangCanBeDisplaced(s, list, pool.segs[..], pool.list, p, q, slot);
  }

  /** Two small segments that no search holds. */
  method TwoSegments() returns (pool: Pool)
    ensures fresh(pool) && fresh(pool.segs) && pool.Valid() && pool.memtableCapacity == 10
    ensures pool.list == [0, 1] && pool.recounted == [] && pool.freed == 0
    ensures pool.segs[0].ref == 1 && pool.segs[1].ref == 1 && pool.insertIdx == 2 && !pool.segs[2].inUsed
  {
    pool := OneSegment(3, 3);
    var slot := Prepare(pool, 4, 4, 1);
    ghost var place := pool.Register(slot);
    assert place == 1;
    assert pool.list == [0, 1];
  }

  lemma UnpinnedPair(s: seq<Seg>)
    requires |s| >= 2 && s[0].ref == 1 && s[1].ref == 1
    ensures Unpinned(s, [0, 1], 2) == 2
  {
    assert Unpinned(s, [0, 1], 0) == 0 && Unpinned(s, [0, 1], 1) == 1;
  }

  lemma CountedAlone(s: seq<Seg>, list: seq<nat>, stat: Stat, mc: nat)
    requires |list| == 1 && list[0] < |s| && Counts(s[list[0]], stat, mc)
    ensures |Counted(s, Slots(list), stat, mc)| == 1 && Tally([s[list[0]]], stat, mc) == 1
  {
    assert Counted(s, Slots(list), stat, mc) == {list[0]};
  }

  /** They are merged into one: the list has one segment, but `count` is -1, and both size statistics are 2. */
  method MergeOfTwo() returns (pool: Pool)
    ensures pool.Valid() && |pool.list| == 1
    ensures pool.count == -1 && pool.memtableCapacityLe == 2 && pool.smallSegmentLe == 2
  {
    pool := TwoSegments();
    var c := Prepare(pool, 3, 4, 2);
    UnpinnedPair(pool.segs[..]);
    pool.ReplaceAndRecount([0, 1], c, 0);
    CountedAlone(pool.segs[..], pool.list, MemtableCapacityLe, 10);
    CountedAlone(pool.segs[..], pool.list, SmallSegmentLe, 10);
  }
}
