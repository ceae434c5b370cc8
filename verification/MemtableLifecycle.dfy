/**
  The life cycle of memtables on the primary: reserve, publish, seal, rotate, enqueue, claim,
  flush, hand off and recycle, racing with searches and vacuums.

  Any number of threads share a buffer of memtable slots. One step is one atomic operation or one
  section executed under the memtable lock; a section that mixes several atomics under the shared
  lock (reserving a row) is several steps, and exclusive sections wait until nobody is inside it.

  Fields and variables that exist only to state properties: `place`, `counted`, the claimant in
  `claim`, the rotating thread in `growing`, `log`, `published`, `home`, and `due` in a search.
 */
module MemtableLifecycle {
  import opened FiniteSets

  const MEMTABLE_BUF_SIZE: nat := 8
  const MEMTABLE_NUM: nat := 4

  datatype Option<+T> = None | Some(value: T)

  /** A row is known by its memtable and its index there. */
  datatype Row = Row(sid: nat, idx: nat)

  /** Who is responsible for the base reference of a slot. */
  datatype Place =
    | Free
    | Blank(owner: nat)
    | Fresh(owner: nat)
    | Growing
    | Retiring(owner: nat)
    | Queued
    | Unlinked(owner: nat)

  datatype Slot = Slot(ref: int, sid: nat, cap: nat, size: nat, sealed: bool, claim: Option<nat>,
                       ready: set<nat>, readyCnt: nat, counted: set<nat>, place: Place)

  datatype GrowingIdx = At(slot: nat) | Rotating(owner: nat)

  /** A search: its snapshot, the references it still holds, and what it has found. */
  datatype View = View(gidx: nat, gheld: bool, sidxs: seq<nat>, released: nat,
                       poolDone: bool, seen: set<Row>, due: set<Row>)

  datatype Pc =
    | Idle
    | Inserting
    | SawUnsealed(slot: nat)
    | Overflowed(slot: nat)
    | Reserved(slot: nat, idx: nat)
    | Flagged(slot: nat, idx: nat)
    | NeedRotate
    | Allocating(cur: nat)
    | Initializing(cur: nat, next: nat)
    | Enqueuing(cur: nat, next: nat)
    | Installing(next: nat)
    | Claimed(slot: nat)
    | Flushing(slot: nat, valid: nat)
    | InPool(slot: nat)
    | Releasing(slot: nat)
    | Searching(view: View)
    | Failing(view: View)
    | Vacuuming(slot: nat)

  datatype State = State(slots: seq<Slot>, growing: GrowingIdx, queue: seq<nat>, nextSid: nat, firstSid: nat,
                         pcs: map<nat, Pc>, pool: set<Row>, log: seq<nat>, published: set<Row>, home: map<nat, nat>)

  function PcOf(s: State, t: nat): Pc {
    if t in s.pcs then s.pcs[t] else Idle
  }

  function Goto(s: State, t: nat, pc: Pc): State {
    s.(pcs := s.pcs[t := pc])
  }

  function Put(s: State, k: nat, slot: Slot): State
    requires k < |s.slots|
  {
    s.(slots := s.slots[k := slot])
  }

  function Valid(slot: Slot): nat {
    if slot.size < slot.cap then slot.size else slot.cap
  }

  /* ---- Steps ---- */

  /** The threads inside the shared-lock section of a reservation keep exclusive sections out. */
  ghost predicate ExclusiveFree(s: State) {
    forall t :: !PcOf(s, t).SawUnsealed? && !PcOf(s, t).Overflowed?
  }

  datatype Action =
    | StartInsert | ReadSealed | FetchAdd | Seal | SetReady | AddReadyCnt
    | EnterRotate | AllocSlot(k: nat) | InitSlot(cap: nat) | Enqueue | Install
    | Claim(k: nat) | WaitForPublish | IntoPool | Handoff | ReleaseSlot
    | Snapshot | ScanGrowing | ScanSealed | SearchPool | FinishSearch | Fail | DropOne | FinishFailure
    | Vacuum(k: nat) | FinishVacuum

  ghost predicate StepInsert(s: State, t: nat, a: Action, s': State)
    requires |s.slots| == MEMTABLE_BUF_SIZE
  {
    var p := PcOf(s, t);
    match a
    case StartInsert =>
      p.Idle? && s' == Goto(s, t, Inserting)
    case ReadSealed =>
      && p.Inserting? && s.growing.At? && s.growing.slot < |s.slots|
      && s' == Goto(s, t, if s.slots[s.growing.slot].sealed then NeedRotate else SawUnsealed(s.growing.slot))
    case FetchAdd =>
      && p.SawUnsealed? && p.slot < |s.slots|
      && var k, m := p.slot, s.slots[p.slot];
      s' == Goto(Put(s, k, m.(size := m.size + 1)), t, if m.size < m.cap then Reserved(k, m.size) else Overflowed(k))
    case Seal =>
      && p.Overflowed? && p.slot < |s.slots|
      && s' == Goto(Put(s, p.slot, s.slots[p.slot].(sealed := true)), t, NeedRotate)
    case SetReady =>
      && p.Reserved? && p.slot < |s.slots|
      && var k, i, m := p.slot, p.idx, s.slots[p.slot];
      s' == Goto(Put(s, k, m.(ready := m.ready + {i})), t, Flagged(k, i))
              .(published := s.published + {Row(m.sid, i)})
    case AddReadyCnt =>
      && p.Flagged? && p.slot < |s.slots|
      && var m := s.slots[p.slot];
      s' == Goto(Put(s, p.slot, m.(readyCnt := m.readyCnt + 1, counted := m.counted + {p.idx})), t, Idle)
    case _ => false
  }

  ghost predicate StepRotate(s: State, t: nat, a: Action, s': State)
    requires |s.slots| == MEMTABLE_BUF_SIZE
  {
    var p := PcOf(s, t);
    match a
    case EnterRotate =>
      && p.NeedRotate? && ExclusiveFree(s)
      && if s.growing.Rotating? then s' == Goto(s, t, Inserting) else
        && s.growing.slot < |s.slots|
        && var k := s.growing.slot;
        if !s.slots[k].sealed then s' == Goto(s, t, Inserting) else
          s' == Goto(Put(s, k, s.slots[k].(place := Retiring(t))), t, Allocating(k)).(growing := Rotating(t))
    case AllocSlot(k) =>
      && p.Allocating? && k < |s.slots| && s.slots[k].ref == 0
      && s' == Goto(Put(s, k, s.slots[k].(ref := 1, place := Blank(t))), t, Initializing(p.cur, k))
    case InitSlot(cap) =>
      && p.Initializing? && p.next < |s.slots|
      && var k := p.next;
      s' == Goto(Put(s, k, Slot(s.slots[k].ref, s.nextSid, cap, 0, false, None, {}, 0, {}, Fresh(t))), t, Enqueuing(p.cur, k))
              .(nextSid := s.nextSid + 1, home := s.home[s.nextSid := k])
    case Enqueue =>
      && p.Enqueuing? && ExclusiveFree(s) && |s.queue| < MEMTABLE_NUM && p.cur < |s.slots|
      && s' == Goto(Put(s, p.cur, s.slots[p.cur].(place := Queued)), t, Installing(p.next))
                .(queue := s.queue + [p.cur], log := s.log + [s.slots[p.cur].sid])
    case Install =>
      && p.Installing? && ExclusiveFree(s) && p.next < |s.slots|
      && s' == Goto(Put(s, p.next, s.slots[p.next].(place := Growing)), t, Inserting).(growing := At(p.next))
    case _ => false
  }

  function Remove(q: seq<nat>, k: nat): seq<nat> {
    if q == [] then [] else if q[0] == k then q[1..] else [q[0]] + Remove(q[1..], k)
  }

  ghost predicate StepFlush(s: State, t: nat, a: Action, s': State)
    requires |s.slots| == MEMTABLE_BUF_SIZE
  {
    var p := PcOf(s, t);
    match a
    case Claim(k) =>
      && p.Idle? && k in s.queue && k < |s.slots| && s.slots[k].claim == None
      && s' == Goto(Put(s, k, s.slots[k].(claim := Some(t))), t, Claimed(k))
    case WaitForPublish =>
      && p.Claimed? && p.slot < |s.slots|
      && s.slots[p.slot].sealed && s.slots[p.slot].readyCnt == Valid(s.slots[p.slot])
      && s' == Goto(s, t, Flushing(p.slot, Valid(s.slots[p.slot])))
    case IntoPool =>
      && p.Flushing? && p.slot < |s.slots|
      && s' == Goto(s, t, InPool(p.slot)).(pool := s.pool + set i: nat | i < p.valid :: Row(s.slots[p.slot].sid, i))
    case Handoff =>
      && p.InPool? && ExclusiveFree(s) && p.slot < |s.slots|
      && s' == Goto(Put(s, p.slot, s.slots[p.slot].(place := Unlinked(t))), t, Releasing(p.slot))
                .(queue := Remove(s.queue, p.slot))
    case ReleaseSlot =>
      && p.Releasing? && p.slot < |s.slots|
      && s' == Goto(Put(s, p.slot, s.slots[p.slot].(ref := s.slots[p.slot].ref - 1, place := Free)), t, Idle)
    case _ => false
  }

  function Retain(slots: seq<Slot>, ks: set<nat>): (r: seq<Slot>)
    ensures |r| == |slots|
    ensures forall k :: 0 <= k < |slots| ==> r[k] == if k in ks then slots[k].(ref := slots[k].ref + 1) else slots[k]
  {
    seq(|slots|, k requires 0 <= k < |slots| => if k in ks then slots[k].(ref := slots[k].ref + 1) else slots[k])
  }

  function Drop(s: State, k: nat): State
    requires k < |s.slots|
  {
    Put(s, k, s.slots[k].(ref := s.slots[k].ref - 1))
  }

  function RowsOf(slot: Slot): set<Row> {
    set i | i in slot.ready :: Row(slot.sid, i)
  }

  function AllRowsOf(slot: Slot): set<Row> {
    RowsOf(slot) + set i: nat | i < Valid(slot) :: Row(slot.sid, i)
  }

  ghost predicate StepSearch(s: State, t: nat, a: Action, s': State)
    requires |s.slots| == MEMTABLE_BUF_SIZE
  {
    var p := PcOf(s, t);
    match a
    case Snapshot =>
      && p.Idle? && s.growing.At?
      && s' == Goto(s, t, Searching(View(s.growing.slot, true, s.queue, 0, false, {}, s.published)))
                .(slots := Retain(s.slots, {s.growing.slot} + set k | k in s.queue))
    case ScanGrowing =>
      && p.Searching? && p.view.gheld && p.view.gidx < |s.slots|
      && var v := p.view;
      s' == Goto(Drop(s, v.gidx), t, Searching(v.(gheld := false, seen := v.seen + RowsOf(s.slots[v.gidx]))))
    case ScanSealed =>
      && p.Searching? && !p.view.gheld && p.view.released < |p.view.sidxs| && p.view.sidxs[p.view.released] < |s.slots|
      && var v, k := p.view, p.view.sidxs[p.view.released];
      s' == Goto(Drop(s, k), t, Searching(v.(released := v.released + 1, seen := v.seen + AllRowsOf(s.slots[k]))))
    case SearchPool =>
      && p.Searching? && !p.view.poolDone
      && s' == Goto(s, t, Searching(p.view.(poolDone := true, seen := p.view.seen + s.pool)))
    case FinishSearch =>
      && p.Searching? && !p.view.gheld && p.view.released == |p.view.sidxs| && p.view.poolDone
      && s' == Goto(s, t, Idle)
    case Fail =>
      p.Searching? && s' == Goto(s, t, Failing(p.view))
    case DropOne =>
      && p.Failing?
      && var v := p.view;
      if v.gheld then
        && v.gidx < |s.slots|
        && s' == Goto(Drop(s, v.gidx), t, Failing(v.(gheld := false)))
      else
        && v.released < |v.sidxs| && v.sidxs[v.released] < |s.slots|
        && s' == Goto(Drop(s, v.sidxs[v.released]), t, Failing(v.(released := v.released + 1)))
    case FinishFailure =>
      && p.Failing? && !p.view.gheld && p.view.released == |p.view.sidxs|
      && s' == Goto(s, t, Idle)
    case Vacuum(k) =>
      && p.Idle? && (s.growing == At(k) || k in s.queue) && k < |s.slots|
      && s' == Goto(Put(s, k, s.slots[k].(ref := s.slots[k].ref + 1)), t, Vacuuming(k))
    case FinishVacuum =>
      && p.Vacuuming? && p.slot < |s.slots|
      && s' == Goto(Drop(s, p.slot), t, Idle)
    case _ => false
  }

  ghost predicate Step(s: State, t: nat, a: Action, s': State) {
    |s.slots| == MEMTABLE_BUF_SIZE &&
    (StepInsert(s, t, a, s') || StepRotate(s, t, a, s') || StepFlush(s, t, a, s') || StepSearch(s, t, a, s'))
  }

  ghost predicate Next(s: State, s': State) {
    exists t, a :: Step(s, t, a, s')
  }

  /** One empty growing memtable, nothing sealed, nobody active. */
  ghost predicate Init(s: State) {
    && |s.slots| == MEMTABLE_BUF_SIZE && s.growing == At(0) && s.queue == [] && s.log == []
    && s.nextSid == s.firstSid + 1 && s.pcs == map[] && s.pool == {} && s.published == {} && s.home == map[s.firstSid := 0]
    && s.slots[0] == Slot(1, s.firstSid, s.slots[0].cap, 0, false, None, {}, 0, {}, Growing)
    && forall k :: 1 <= k < |s.slots| ==> s.slots[k].ref == 0 && s.slots[k].place == Free
  }

  ghost predicate IsRun(run: seq<State>) {
    |run| > 0 && Init(run[0]) && forall i :: 0 <= i < |run| - 1 ==> StepAt(run, i)
  }

  ghost predicate StepAt(run: seq<State>, i: nat)
    requires i + 1 < |run|
  {
    Next(run[i], run[i + 1])
  }

  /* ---- The invariant ---- */

  ghost predicate Live(slot: Slot) {
    slot.place.Fresh? || slot.place.Growing? || slot.place.Retiring? || slot.place.Queued?
  }

  ghost predicate Holds(pc: Pc, k: nat) {
    match pc
    case Searching(v) => ViewHolds(v, k)
    case Failing(v) => ViewHolds(v, k)
    case Vacuuming(j) => j == k
    case _ => false
  }

  ghost predicate ViewHolds(v: View, k: nat) {
    (v.gheld && v.gidx == k) || (exists j :: v.released <= j < |v.sidxs| && v.sidxs[j] == k)
  }

  ghost function Holders(s: State, k: nat): set<nat> {
    set t | t in s.pcs && Holds(s.pcs[t], k)
  }

  ghost predicate RefOk(s: State, k: nat)
    requires k < |s.slots|
  {
    s.slots[k].ref == (if s.slots[k].place.Free? then 0 else 1) + |Holders(s, k)|
  }

  /** What the place of a slot says about the rest of the state. */
  ghost predicate PlaceOk(s: State, k: nat)
    requires k < |s.slots|
  {
    match s.slots[k].place
    case Free => true
    case Blank(t) => PcOf(s, t).Initializing? && PcOf(s, t).next == k && Holders(s, k) == {}
    case Fresh(t) =>
      && (PcOf(s, t).Enqueuing? || PcOf(s, t).Installing?) && PcOf(s, t).next == k
      && Holders(s, k) == {} && !s.slots[k].sealed
    case Growing => s.growing == At(k)
    case Retiring(t) =>
      && (PcOf(s, t).Allocating? || PcOf(s, t).Initializing? || PcOf(s, t).Enqueuing?)
      && PcOf(s, t).cur == k && s.slots[k].sealed
    case Queued => k in s.queue && s.slots[k].sealed
    case Unlinked(t) => PcOf(s, t) == Releasing(k)
  }

  /** A live memtable: counters agree with the flags and published rows are recorded. */
  ghost predicate ContentOk(s: State, k: nat)
    requires k < |s.slots|
  {
    var m := s.slots[k];
    Live(m) ==>
      && m.counted <= m.ready && m.readyCnt == |m.counted|
      && (forall i :: i in m.ready ==> i < Valid(m) && Row(m.sid, i) in s.published)
      && (m.sealed ==> m.cap <= m.size)
      && m.sid < s.nextSid && m.sid in s.home && s.home[m.sid] == k
  }

  /** A claim belongs to a queued memtable and to the one thread that is flushing it. */
  ghost predicate ClaimOk(s: State, k: nat)
    requires k < |s.slots|
  {
    var m := s.slots[k];
    Live(m) && m.claim.Some? ==> m.place.Queued? && Flusher(PcOf(s, m.claim.value), k)
  }

  ghost predicate Flusher(pc: Pc, k: nat) {
    (pc.Claimed? || pc.Flushing? || pc.InPool?) && pc.slot == k
  }

  ghost predicate FlushedBy(s: State, t: nat, k: nat) {
    && k < |s.slots| && s.slots[k].place == Queued && s.slots[k].claim == Some(t)
  }

  /** The row a found-or-findable search result must account for. */
  ghost predicate Findable(s: State, v: View, r: Row) {
    || r in v.seen
    || (!v.poolDone && r in s.pool)
    || (&& r.sid in s.home && s.home[r.sid] < |s.slots| && ViewHolds(v, s.home[r.sid])
        && s.slots[s.home[r.sid]].sid == r.sid && r.idx in s.slots[s.home[r.sid]].ready)
  }

  ghost predicate ViewOk(s: State, v: View) {
    && v.released <= |v.sidxs| && v.gidx < |s.slots| && v.gidx !in v.sidxs
    && (forall j :: 0 <= j < |v.sidxs| ==> v.sidxs[j] < |s.slots|)
    && (forall i, j :: 0 <= i < j < |v.sidxs| ==> v.sidxs[i] != v.sidxs[j])
  }

  ghost predicate DueFindable(s: State, v: View) {
    forall r :: r in v.due ==> Findable(s, v, r)
  }

  ghost predicate Unflushed(slot: Slot) {
    slot.place.Growing? || slot.place.Retiring? || slot.place.Queued?
  }

  ghost predicate InserterOk(s: State, t: nat) {
    match PcOf(s, t)
    case SawUnsealed(k) => s.growing == At(k)
    case Overflowed(k) => s.growing == At(k) && k < |s.slots| && s.slots[k].cap <= s.slots[k].size
    case Reserved(k, i) =>
      k < |s.slots| && Unflushed(s.slots[k]) && i < Valid(s.slots[k]) && i !in s.slots[k].ready
    case Flagged(k, i) =>
      k < |s.slots| && Unflushed(s.slots[k]) && i in s.slots[k].ready && i !in s.slots[k].counted
    case _ => true
  }

  ghost predicate RotatorOk(s: State, t: nat) {
    match PcOf(s, t)
    case Allocating(cur) =>
      s.growing == Rotating(t) && cur < |s.slots| && s.slots[cur].place == Retiring(t)
    case Initializing(cur, next) =>
      && s.growing == Rotating(t) && cur < |s.slots| && next < |s.slots|
      && s.slots[cur].place == Retiring(t) && s.slots[next].place == Blank(t)
    case Enqueuing(cur, next) =>
      && s.growing == Rotating(t) && cur < |s.slots| && next < |s.slots|
      && s.slots[cur].place == Retiring(t) && s.slots[next].place == Fresh(t)
    case Installing(next) =>
      s.growing == Rotating(t) && next < |s.slots| && s.slots[next].place == Fresh(t)
    case _ => true
  }

  ghost predicate FlusherOk(s: State, t: nat) {
    match PcOf(s, t)
    case Claimed(k) => FlushedBy(s, t, k)
    case Flushing(k, valid) =>
      && FlushedBy(s, t, k) && valid == s.slots[k].cap && (forall i: nat :: i < valid ==> i in s.slots[k].counted)
    case InPool(k) =>
      && FlushedBy(s, t, k) && (forall i: nat :: i < s.slots[k].cap ==> i in s.slots[k].counted)
      && (forall i: nat :: i < s.slots[k].cap ==> Row(s.slots[k].sid, i) in s.pool)
    case Releasing(k) => k < |s.slots| && s.slots[k].place == Unlinked(t)
    case _ => true
  }

  ghost predicate SearcherOk(s: State, t: nat) {
    match PcOf(s, t)
    case Searching(v) => ViewOk(s, v) && DueFindable(s, v)
    case Failing(v) => ViewOk(s, v)
    case Vacuuming(k) => k < |s.slots|
    case _ => true
  }

  /** What the program counter of a thread says about the rest of the state. */
  ghost predicate PcOk(s: State, t: nat) {
    InserterOk(s, t) && RotatorOk(s, t) && FlusherOk(s, t) && SearcherOk(s, t)
  }

  ghost predicate Publishing(pc: Pc) { pc.Reserved? || pc.Flagged? }

  ghost predicate NoClash(s: State, t: nat, u: nat) {
    t != u && Publishing(PcOf(s, t)) && Publishing(PcOf(s, u)) ==>
      PcOf(s, t).slot != PcOf(s, u).slot || PcOf(s, t).idx != PcOf(s, u).idx
  }

  /** No two threads work on the same row. */
  ghost predicate RowsDistinct(s: State) {
    forall t, u :: NoClash(s, t, u)
  }

  ghost predicate QueueOk(s: State) {
    && |s.queue| <= MEMTABLE_NUM
    && (forall j :: 0 <= j < |s.queue| ==> s.queue[j] < |s.slots| && s.slots[s.queue[j]].place == Queued)
    && (forall i, j :: 0 <= i < j < |s.queue| ==> s.queue[i] != s.queue[j])
  }

  ghost predicate GrowingOk(s: State) {
    match s.growing
    case At(g) => g < |s.slots| && s.slots[g].place == Growing
    case Rotating(t) =>
      PcOf(s, t).Allocating? || PcOf(s, t).Initializing? || PcOf(s, t).Enqueuing? || PcOf(s, t).Installing?
  }

  /** Memtables enter the queue in the order of their ids, each exactly once. */
  ghost predicate LogOk(s: State) {
    && (forall j :: 0 <= j < |s.log| ==> s.log[j] == s.firstSid + j)
    && var n := s.firstSid + |s.log|;
    match s.growing
    case At(g) => g < |s.slots| && s.slots[g].sid == n && s.nextSid == n + 1
    case Rotating(t) =>
      match PcOf(s, t)
      case Allocating(cur) => cur < |s.slots| && s.slots[cur].sid == n && s.nextSid == n + 1
      case Initializing(cur, next) => cur < |s.slots| && s.slots[cur].sid == n && s.nextSid == n + 1
      case Enqueuing(cur, next) =>
        && cur < |s.slots| && next < |s.slots| && s.slots[cur].sid == n && s.slots[next].sid == n + 1 && s.nextSid == n + 2
      case Installing(next) => next < |s.slots| && s.slots[next].sid == n && s.nextSid == n + 1
      case _ => false
  }

  /** Every published row is in the pool or in a memtable that is still growing, retiring or queued. */
  ghost predicate RowsOk(s: State) {
    && s.pool <= s.published
    && forall r :: r in s.published && r !in s.pool ==>
      && r.sid in s.home && s.home[r.sid] < |s.slots|
      && var m := s.slots[s.home[r.sid]];
      && m.sid == r.sid && r.idx in m.ready && (m.place.Growing? || m.place.Retiring? || m.place.Queued?)
  }

  ghost predicate Inv(s: State) {
    && |s.slots| == MEMTABLE_BUF_SIZE
    && QueueOk(s) && GrowingOk(s) && LogOk(s) && RowsOk(s) && RowsDistinct(s)
    && (forall k :: 0 <= k < |s.slots| ==> PlaceOk(s, k) && ContentOk(s, k) && ClaimOk(s, k) && RefOk(s, k))
    && (forall t :: PcOk(s, t))
    && HomeOk(s)
  }

  ghost predicate HomeOk(s: State) {
    forall x :: x in s.home ==> s.home[x] < |s.slots| && s.firstSid <= x < s.nextSid
  }

  lemma InitInv(s: State)
    requires Init(s)
    ensures Inv(s)
  {
    assert forall k :: Holders(s, k) == {};
  }

  /* ---- Facts about the thread that moves ---- */

  lemma HoldersAfter(s: State, t: nat, s': State, k: nat)
    requires OnlyMoves(s, t, s')
    ensures Holders(s', k) == if Holds(PcOf(s', t), k) then Holders(s, k) + {t} else Holders(s, k) - {t}
    ensures Holds(PcOf(s, t), k) <==> t in Holders(s, k)
  {
  }

  /** The slot a thread is working on is in order, and a slot without references is free. */
  lemma Facts(s: State, t: nat, a: Action)
    requires Inv(s)
    ensures PcOk(s, t)
    ensures var p := PcOf(s, t);
      p.SawUnsealed? || p.Overflowed? || p.Reserved? || p.Flagged? || p.Claimed? || p.Flushing? || p.InPool? ==>
        p.slot < |s.slots| && ContentOk(s, p.slot) && PlaceOk(s, p.slot) && ClaimOk(s, p.slot)
    ensures var p := PcOf(s, t);
      p.Allocating? || p.Initializing? || p.Enqueuing? ==> ContentOk(s, p.cur) && PlaceOk(s, p.cur) && ClaimOk(s, p.cur)
    ensures var p := PcOf(s, t);
      p.Initializing? || p.Enqueuing? || p.Installing? ==> ContentOk(s, p.next) && PlaceOk(s, p.next) && ClaimOk(s, p.next)
    ensures a.AllocSlot? && a.k < |s.slots| && s.slots[a.k].ref == 0 ==> s.slots[a.k].place.Free? && Holders(s, a.k) == {}
  {
    assert PcOk(s, t);
    var p := PcOf(s, t);
    if p.SawUnsealed? || p.Overflowed? || p.Reserved? || p.Flagged? || p.Claimed? || p.Flushing? || p.InPool? {
      assert ContentOk(s, p.slot) && PlaceOk(s, p.slot) && ClaimOk(s, p.slot);
    }
    if p.Allocating? || p.Initializing? || p.Enqueuing? {
      assert ContentOk(s, p.cur) && PlaceOk(s, p.cur) && ClaimOk(s, p.cur);
    }
    if p.Initializing? || p.Enqueuing? || p.Installing? {
      assert ContentOk(s, p.next) && PlaceOk(s, p.next) && ClaimOk(s, p.next);
    }
    if a.AllocSlot? && a.k < |s.slots| {
      assert RefOk(s, a.k);
    }
  }

  /* ---- Steps that leave the structure alone: inserting and searching ---- */

  ghost predicate Plain(pc: Pc) {
    !pc.Allocating? && !pc.Initializing? && !pc.Enqueuing? && !pc.Installing?
    && !pc.Claimed? && !pc.Flushing? && !pc.InPool? && !pc.Releasing?
  }

  ghost predicate SlotEvolves(m: Slot, m': Slot) {
    && m'.sid == m.sid && m'.cap == m.cap && m'.place == m.place && m'.claim == m.claim
    && m.size <= m'.size && m.ready <= m'.ready && m.counted <= m'.counted
    && (m.sealed ==> m'.sealed) && (m'.sealed ==> m.sealed || m.place.Growing?)
  }

  ghost predicate Evolves(s: State, t: nat, s': State) {
    && |s'.slots| == |s.slots| && (forall k :: 0 <= k < |s.slots| ==> SlotEvolves(s.slots[k], s'.slots[k]))
    && s'.growing == s.growing && s'.queue == s.queue && s'.nextSid == s.nextSid && s'.firstSid == s.firstSid
    && s'.log == s.log && s'.home == s.home && s'.pool == s.pool && s.published <= s'.published
    && OnlyMoves(s, t, s') && Plain(PcOf(s, t)) && Plain(PcOf(s', t))
  }

  ghost predicate OnlyMoves(s: State, t: nat, s': State) {
    t in s'.pcs && forall u :: u != t ==> PcOf(s', u) == PcOf(s, u) && (u in s.pcs <==> u in s'.pcs)
  }

  lemma InsertEvolves(s: State, t: nat, a: Action, s': State)
    requires |s.slots| == MEMTABLE_BUF_SIZE && GrowingOk(s) && InserterOk(s, t) && StepInsert(s, t, a, s')
    ensures Evolves(s, t, s') && forall k :: !Holds(PcOf(s', t), k)
  {
  }

  /** A search or vacuum step changes reference counts only. */
  ghost predicate OnlyRefs(s: State, s': State) {
    && |s'.slots| == |s.slots|
    && (forall k :: 0 <= k < |s.slots| ==> s'.slots[k] == s.slots[k].(ref := s'.slots[k].ref))
    && s' == s.(slots := s'.slots, pcs := s'.pcs)
  }

  lemma SearchEvolves(s: State, t: nat, a: Action, s': State)
    requires |s.slots| == MEMTABLE_BUF_SIZE && StepSearch(s, t, a, s')
    ensures Evolves(s, t, s') && OnlyRefs(s, s')
  {
    SearchOnlyRefs(s, t, a, s');
    SearchOnlyMoves(s, t, a, s');
  }

  lemma SearchOnlyRefs(s: State, t: nat, a: Action, s': State)
    requires |s.slots| == MEMTABLE_BUF_SIZE && StepSearch(s, t, a, s')
    ensures OnlyRefs(s, s')
  {
  }

  lemma SearchOnlyMoves(s: State, t: nat, a: Action, s': State)
    requires |s.slots| == MEMTABLE_BUF_SIZE && StepSearch(s, t, a, s')
    ensures OnlyMoves(s, t, s') && Plain(PcOf(s, t)) && Plain(PcOf(s', t))
  {
  }

  lemma EvolvingKeepsStructure(s: State, t: nat, s': State)
    requires Inv(s) && Evolves(s, t, s')
    ensures QueueOk(s') && GrowingOk(s') && LogOk(s') && HomeOk(s')
  {
    assert forall k :: 0 <= k < |s.slots| ==> SlotEvolves(s.slots[k], s'.slots[k]);
  }

  ghost predicate TakesNoNewcomer(s: State, pc: Pc) {
    forall k :: 0 <= k < |s.slots| && (s.slots[k].place.Blank? || s.slots[k].place.Fresh?) ==> !Holds(pc, k)
  }

  lemma EvolvingKeepsPlaces(s: State, t: nat, s': State)
    requires Inv(s) && Evolves(s, t, s') && TakesNoNewcomer(s, PcOf(s', t))
    ensures forall k :: 0 <= k < |s'.slots| ==> PlaceOk(s', k) && ClaimOk(s', k)
  {
    forall k | 0 <= k < |s'.slots| ensures PlaceOk(s', k) && ClaimOk(s', k) {
      assert PlaceOk(s, k) && ClaimOk(s, k) && SlotEvolves(s.slots[k], s'.slots[k]);
      HoldersAfter(s, t, s', k);
    }
  }

  lemma EvolvingKeepsWorkers(s: State, t: nat, s': State)
    requires Inv(s) && Evolves(s, t, s')
    ensures forall u :: RotatorOk(s', u) && FlusherOk(s', u)
  {
    assert forall k :: 0 <= k < |s.slots| ==> SlotEvolves(s.slots[k], s'.slots[k]);
    forall u ensures RotatorOk(s', u) && FlusherOk(s', u) {
      assert PcOk(s, u);
    }
  }

  lemma EvolvingKeepsSearches(s: State, t: nat, s': State)
    requires Inv(s) && Evolves(s, t, s')
    ensures forall u :: u != t ==> SearcherOk(s', u)
  {
    assert forall k :: 0 <= k < |s.slots| ==> SlotEvolves(s.slots[k], s'.slots[k]);
    forall u | u != t ensures SearcherOk(s', u) {
      assert PcOk(s, u);
    }
  }

  lemma InsertKeepsRows(s: State, t: nat, a: Action, s': State)
    requires Inv(s) && StepInsert(s, t, a, s')
    ensures RowsOk(s')
  {
    Facts(s, t, a);
  }

  /** A newly reserved row lies above every row that somebody is working on. */
  lemma NewRowIsApart(s: State, t: nat, s': State, u: nat)
    requires Inv(s) && StepInsert(s, t, FetchAdd, s') && u != t
    ensures NoClash(s', t, u) && NoClash(s', u, t)
  {
    Facts(s, u, FetchAdd);
  }

  lemma WorksOnSameRow(s: State, t: nat, a: Action, s': State)
    requires |s.slots| == MEMTABLE_BUF_SIZE && StepInsert(s, t, a, s') && !a.FetchAdd? && Publishing(PcOf(s', t))
    ensures Publishing(PcOf(s, t)) && PcOf(s', t).slot == PcOf(s, t).slot && PcOf(s', t).idx == PcOf(s, t).idx
  {
  }

  lemma InsertKeepsDistinct(s: State, t: nat, a: Action, s': State)
    requires Inv(s) && StepInsert(s, t, a, s') && OnlyMoves(s, t, s')
    ensures RowsDistinct(s')
  {
    if !a.FetchAdd? && Publishing(PcOf(s', t)) {
      WorksOnSameRow(s, t, a, s');
    }
    forall x, y ensures NoClash(s', x, y) {
      assert NoClash(s, x, y);
      if a.FetchAdd? && x == t && y != t {
        NewRowIsApart(s, t, s', y);
      } else if a.FetchAdd? && y == t && x != t {
        NewRowIsApart(s, t, s', x);
      }
    }
  }

  lemma InsertKeepsContent(s: State, t: nat, a: Action, s': State)
    requires Inv(s) && StepInsert(s, t, a, s')
    ensures forall k :: 0 <= k < |s'.slots| ==> ContentOk(s', k)
  {
    Facts(s, t, a);
    forall k | 0 <= k < |s'.slots| ensures ContentOk(s', k) {
      assert ContentOk(s, k);
    }
  }

  lemma InsertKeepsRefs(s: State, t: nat, a: Action, s': State)
    requires Inv(s) && StepInsert(s, t, a, s')
    ensures forall k :: 0 <= k < |s'.slots| ==> RefOk(s', k)
  {
    forall k | 0 <= k < |s'.slots| ensures RefOk(s', k) {
      assert RefOk(s, k);
      HoldersAfter(s, t, s', k);
    }
  }

  lemma InsertKeepsInserters(s: State, t: nat, a: Action, s': State)
    requires Inv(s) && StepInsert(s, t, a, s')
    ensures forall u :: InserterOk(s', u)
  {
    Facts(s, t, a);
    forall u ensures InserterOk(s', u) {
      assert PcOk(s, u) && NoClash(s, t, u);
    }
  }

  lemma InsertKeepsInv(s: State, t: nat, a: Action, s': State)
    requires Inv(s) && StepInsert(s, t, a, s')
    ensures Inv(s')
  {
    Facts(s, t, a);
    InsertEvolves(s, t, a, s');
    EvolvingKeepsStructure(s, t, s');
    EvolvingKeepsPlaces(s, t, s');
    EvolvingKeepsWorkers(s, t, s');
    EvolvingKeepsSearches(s, t, s');
    InsertKeepsRows(s, t, a, s');
    InsertKeepsDistinct(s, t, a, s');
    InsertKeepsContent(s, t, a, s');
    InsertKeepsRefs(s, t, a, s');
    InsertKeepsInserters(s, t, a, s');
  }

  lemma SearchKeepsContent(s: State, t: nat, s': State)
    requires Inv(s) && Evolves(s, t, s') && OnlyRefs(s, s')
    ensures RowsOk(s') && forall k :: 0 <= k < |s'.slots| ==> ContentOk(s', k)
  {
    forall k | 0 <= k < |s'.slots| ensures ContentOk(s', k) {
      assert ContentOk(s, k) && s'.slots[k] == s.slots[k].(ref := s'.slots[k].ref);
    }
  }

  lemma SearchKeepsInserters(s: State, t: nat, s': State)
    requires Inv(s) && Evolves(s, t, s') && OnlyRefs(s, s') && !Publishing(PcOf(s', t)) && InserterOk(s', t)
    ensures RowsDistinct(s') && forall u :: InserterOk(s', u)
  {
    forall u ensures InserterOk(s', u) {
      assert PcOk(s, u);
    }
    forall x, y ensures NoClash(s', x, y) {
      assert NoClash(s, x, y);
    }
  }

  /** A search or vacuum holds fewer slots after each step, except when it starts. */
  lemma SearchHoldsLess(s: State, t: nat, a: Action, s': State, k: nat)
    requires |s.slots| == MEMTABLE_BUF_SIZE && StepSearch(s, t, a, s') && SearcherOk(s, t) && k < |s.slots|
    requires !a.Snapshot? && !a.Vacuum?
    ensures Holds(PcOf(s', t), k) ==> Holds(PcOf(s, t), k)
    ensures s'.slots[k].ref == s.slots[k].ref -
      (if Holds(PcOf(s, t), k) && !Holds(PcOf(s', t), k) then 1 else 0)
  {
  }

  ghost predicate StartsHolding(s: State, t: nat, s': State, k: nat)
    requires k < |s.slots| == |s'.slots|
  {
    && !Holds(PcOf(s, t), k)
    && s'.slots[k].ref == s.slots[k].ref + (if Holds(PcOf(s', t), k) then 1 else 0)
    && (Holds(PcOf(s', t), k) ==> s.slots[k].place.Growing? || s.slots[k].place.Queued?)
  }

  lemma SnapshotStarts(s: State, t: nat, s': State, k: nat)
    requires |s.slots| == MEMTABLE_BUF_SIZE && StepSearch(s, t, Snapshot, s') && k < |s.slots| && QueueOk(s) && GrowingOk(s)
    ensures |s'.slots| == |s.slots| && StartsHolding(s, t, s', k)
  {
    var v := PcOf(s', t).view;
    assert v.sidxs == s.queue;
    assert ViewHolds(v, k) <==> k == s.growing.slot || k in s.queue;
  }

  lemma SearchStarts(s: State, t: nat, a: Action, s': State, k: nat)
    requires |s.slots| == MEMTABLE_BUF_SIZE && StepSearch(s, t, a, s') && k < |s.slots| && QueueOk(s) && GrowingOk(s)
    requires a.Snapshot? || a.Vacuum?
    ensures |s'.slots| == |s.slots| && StartsHolding(s, t, s', k)
  {
    if a.Snapshot? {
      SnapshotStarts(s, t, s', k);
    }
  }

  lemma SearchKeepsRefs(s: State, t: nat, a: Action, s': State)
    requires Inv(s) && StepSearch(s, t, a, s') && Evolves(s, t, s')
    ensures TakesNoNewcomer(s, PcOf(s', t))
    ensures forall k :: 0 <= k < |s'.slots| ==> RefOk(s', k)
  {
    assert PcOk(s, t);
    forall k | 0 <= k < |s'.slots|
      ensures RefOk(s', k) && ((s.slots[k].place.Blank? || s.slots[k].place.Fresh?) ==> !Holds(PcOf(s', t), k))
    {
      assert RefOk(s, k) && PlaceOk(s, k);
      assert SlotEvolves(s.slots[k], s'.slots[k]);
      HoldersAfter(s, t, s', k);
      if a.Snapshot? || a.Vacuum? {
        SearchStarts(s, t, a, s', k);
      } else {
        SearchHoldsLess(s, t, a, s', k);
      }
    }
  }

  lemma OwnerOk(s: State, k: nat)
    requires Inv(s) && k < |s.slots|
    ensures PlaceOk(s, k) && (s.slots[k].place.Retiring? ==> RotatorOk(s, s.slots[k].place.owner))
  {
    assert PlaceOk(s, k);
    if s.slots[k].place.Retiring? {
      assert PcOk(s, s.slots[k].place.owner);
    }
  }

  /** No snapshot is taken while a sealed memtable is neither growing nor queued. */
  lemma NothingBetweenPlaces(s: State, k: nat)
    requires Inv(s) && s.growing.At? && k < |s.slots|
    ensures Unflushed(s.slots[k]) ==> s.growing == At(k) || k in s.queue
  {
    OwnerOk(s, k);
  }

  /** At a snapshot every published row is in the pool or in a memtable the snapshot holds. */
  lemma SnapshotIsComplete(s: State, t: nat, s': State)
    requires Inv(s) && StepSearch(s, t, Snapshot, s')
    ensures PcOf(s', t).Searching? && PcOf(s', t).view.due == s.published && SearcherOk(s', t)
    ensures DueFindable(s', PcOf(s', t).view)
  {
    var v := PcOf(s', t).view;
    forall r | r in v.due ensures Findable(s', v, r) {
      if r !in s.pool {
        var k := s.home[r.sid];
        NothingBetweenPlaces(s, k);
        if k in s.queue {
          var j :| 0 <= j < |s.queue| && s.queue[j] == k;
          assert v.sidxs[j] == k;
        }
      }
    }
  }

  lemma ScanKeepsView(s: State, t: nat, a: Action, s': State)
    requires |s.slots| == MEMTABLE_BUF_SIZE && StepSearch(s, t, a, s') && SearcherOk(s, t) && !a.Snapshot?
    ensures SearcherOk(s', t)
  {
  }

  lemma SearchKeepsSearches(s: State, t: nat, a: Action, s': State)
    requires Inv(s) && StepSearch(s, t, a, s') && Evolves(s, t, s')
    ensures forall u :: SearcherOk(s', u)
  {
    assert PcOk(s, t);
    EvolvingKeepsSearches(s, t, s');
    if a.Snapshot? {
      SnapshotIsComplete(s, t, s');
    } else {
      ScanKeepsView(s, t, a, s');
    }
  }

  lemma SearchPcs(s: State, t: nat, a: Action, s': State)
    requires |s.slots| == MEMTABLE_BUF_SIZE && StepSearch(s, t, a, s')
    ensures !Publishing(PcOf(s', t)) && InserterOk(s', t)
  {
  }

  lemma SearchKeepsInv(s: State, t: nat, a: Action, s': State)
    requires Inv(s) && StepSearch(s, t, a, s')
    ensures Inv(s')
  {
    SearchEvolves(s, t, a, s');
    EvolvingKeepsStructure(s, t, s');
    SearchKeepsRefs(s, t, a, s');
    EvolvingKeepsPlaces(s, t, s');
    EvolvingKeepsWorkers(s, t, s');
    SearchKeepsSearches(s, t, a, s');
    SearchKeepsContent(s, t, s');
    SearchPcs(s, t, a, s');
    SearchKeepsInserters(s, t, s');
  }

  /* ---- Flushing ---- */

  /** A flush step touches one queued or unlinked memtable, never its contents. */
  ghost predicate FlushFrame(s: State, t: nat, k: nat, s': State) {
    && |s'.slots| == |s.slots| && k < |s.slots|
    && (forall j :: 0 <= j < |s.slots| && j != k ==> s'.slots[j] == s.slots[j])
    && var m, m' := s.slots[k], s'.slots[k];
    && (m.place.Queued? || m.place.Unlinked?) && !m'.place.Blank? && !m'.place.Fresh? && !m'.place.Growing?
    && !m'.place.Retiring? && (m'.place.Queued? ==> m.place.Queued?)
    && m' == m.(ref := m'.ref, place := m'.place, claim := m'.claim)
    && s' == s.(slots := s'.slots, pcs := s'.pcs, pool := s'.pool, queue := s'.queue) && s.pool <= s'.pool
    && OnlyMoves(s, t, s')
    && (PcOf(s, t).Idle? || Flusher(PcOf(s, t), k) || PcOf(s, t) == Releasing(k))
    && (PcOf(s', t).Idle? || Flusher(PcOf(s', t), k) || PcOf(s', t) == Releasing(k))
  }

  function FlushTarget(s: State, t: nat, a: Action): nat {
    match PcOf(s, t)
    case Claimed(k) => k
    case Flushing(k, _) => k
    case InPool(k) => k
    case Releasing(k) => k
    case _ => if a.Claim? then a.k else 0
  }

  lemma FlushIsFramed(s: State, t: nat, a: Action, s': State)
    requires |s.slots| == MEMTABLE_BUF_SIZE && QueueOk(s) && FlusherOk(s, t) && StepFlush(s, t, a, s')
    ensures FlushFrame(s, t, FlushTarget(s, t, a), s')
  {
  }

  lemma FlushKeepsStructure(s: State, t: nat, k: nat, s': State)
    requires Inv(s) && FlushFrame(s, t, k, s')
    ensures GrowingOk(s') && LogOk(s') && HomeOk(s')
  {
    assert PcOk(s, t);
  }

  lemma FlushKeepsContent(s: State, t: nat, k: nat, s': State)
    requires Inv(s) && FlushFrame(s, t, k, s')
    ensures forall j :: 0 <= j < |s'.slots| ==> ContentOk(s', j)
  {
    forall j | 0 <= j < |s'.slots| ensures ContentOk(s', j) {
      assert ContentOk(s, j);
    }
  }

  lemma FlushKeepsRotators(s: State, t: nat, k: nat, s': State)
    requires Inv(s) && FlushFrame(s, t, k, s')
    ensures RowsDistinct(s') && forall u :: RotatorOk(s', u)
  {
    forall u ensures RotatorOk(s', u) {
      assert PcOk(s, u);
    }
    forall x, y ensures NoClash(s', x, y) {
      assert NoClash(s, x, y);
    }
  }

  lemma FlushKeepsSearches(s: State, t: nat, k: nat, s': State)
    requires Inv(s) && FlushFrame(s, t, k, s')
    ensures forall u :: SearcherOk(s', u)
  {
    forall u ensures SearcherOk(s', u) {
      assert PcOk(s, u);
      var p := PcOf(s, u);
      if u != t && p.Searching? {
        forall r | r in p.view.due ensures Findable(s', p.view, r) {
          assert Findable(s, p.view, r);
        }
      }
    }
  }

  lemma FlushKeepsRefs(s: State, t: nat, a: Action, s': State)
    requires Inv(s) && StepFlush(s, t, a, s')
    ensures forall k :: 0 <= k < |s'.slots| ==> RefOk(s', k)
  {
    Facts(s, t, a);
    forall j | 0 <= j < |s'.slots| ensures RefOk(s', j) {
      assert RefOk(s, j);
      HoldersAfter(s, t, s', j);
    }
  }

  lemma {:induction false} RemoveOne(q: seq<nat>, k: nat)
    requires k in q && forall i, j :: 0 <= i < j < |q| ==> q[i] != q[j]
    ensures var r := Remove(q, k);
      && |r| == |q| - 1 && (forall x :: x in r <==> x in q && x != k)
      && (forall i, j :: 0 <= i < j < |r| ==> r[i] != r[j])
  {
    assert q == [q[0]] + q[1..];
    forall x ensures x in q <==> x == q[0] || x in q[1..] {
    }
    assert q[0] !in q[1..];
    if q[0] != k {
      RemoveOne(q[1..], k);
    }
  }

  lemma HandoffKeepsQueue(s: State, t: nat, s': State)
    requires Inv(s) && StepFlush(s, t, Handoff, s')
    ensures QueueOk(s') && forall x :: x in s'.queue <==> x in s.queue && x != PcOf(s, t).slot
  {
    Facts(s, t, Handoff);
    RemoveOne(s.queue, PcOf(s, t).slot);
    forall j | 0 <= j < |s'.queue| ensures s'.queue[j] < |s'.slots| && s'.slots[s'.queue[j]].place == Queued {
      assert s'.queue[j] in s'.queue;
    }
  }

  lemma FlushKeepsQueue(s: State, t: nat, a: Action, s': State)
    requires Inv(s) && StepFlush(s, t, a, s')
    ensures QueueOk(s') && forall x :: x in s'.queue <==> x in s.queue && !(a.Handoff? && x == PcOf(s, t).slot)
  {
    if a.Handoff? {
      HandoffKeepsQueue(s, t, s');
    } else {
      Facts(s, t, a);
    }
  }

  lemma FlushKeepsOtherPlaces(s: State, t: nat, k: nat, s': State)
    requires Inv(s) && FlushFrame(s, t, k, s') && forall x :: x != k ==> (x in s'.queue <==> x in s.queue)
    ensures forall j :: 0 <= j < |s'.slots| && j != k ==> PlaceOk(s', j)
  {
    forall j | 0 <= j < |s'.slots| && j != k ensures PlaceOk(s', j) {
      assert PlaceOk(s, j);
      HoldersAfter(s, t, s', j);
    }
  }

  lemma FlushKeepsPlaces(s: State, t: nat, a: Action, s': State)
    requires Inv(s) && StepFlush(s, t, a, s')
    ensures forall j :: 0 <= j < |s'.slots| ==> PlaceOk(s', j)
  {
    Facts(s, t, a);
    var k := FlushTarget(s, t, a);
    FlushIsFramed(s, t, a, s');
    FlushKeepsQueue(s, t, a, s');
    FlushKeepsOtherPlaces(s, t, k, s');
    assert PlaceOk(s, k);
  }

  /** The flush condition: as many rows counted ready as are valid means all of them are. */
  lemma AllCounted(m: Slot)
    requires m.counted <= m.ready && m.readyCnt == |m.counted| && (forall i :: i in m.ready ==> i < Valid(m))
    requires m.readyCnt == Valid(m)
    ensures forall i: nat :: i < Valid(m) ==> i in m.counted
  {
    FewBelow(m.counted, Valid(m));
  }

  lemma FlushKeepsClaims(s: State, t: nat, a: Action, s': State)
    requires Inv(s) && StepFlush(s, t, a, s')
    ensures forall k :: 0 <= k < |s'.slots| ==> ClaimOk(s', k)
  {
    Facts(s, t, a);
    forall k | 0 <= k < |s'.slots| ensures ClaimOk(s', k) {
      assert ClaimOk(s, k);
    }
  }

  lemma FlushKeepsOwner(s: State, t: nat, a: Action, s': State)
    requires Inv(s) && StepFlush(s, t, a, s')
    ensures FlusherOk(s', t)
  {
    Facts(s, t, a);
    if a.WaitForPublish? {
      AllCounted(s.slots[PcOf(s, t).slot]);
    }
  }

  lemma FlushKeepsFlushers(s: State, t: nat, a: Action, s': State)
    requires Inv(s) && StepFlush(s, t, a, s')
    ensures forall u :: FlusherOk(s', u)
  {
    Facts(s, t, a);
    FlushIsFramed(s, t, a, s');
    FlushKeepsOwner(s, t, a, s');
    forall u ensures FlusherOk(s', u) {
      assert PcOk(s, u);
    }
  }

  lemma FlushKeepsRows(s: State, t: nat, a: Action, s': State)
    requires Inv(s) && StepFlush(s, t, a, s')
    ensures RowsOk(s')
  {
    Facts(s, t, a);
    FlushIsFramed(s, t, a, s');
  }

  lemma FlushKeepsInserters(s: State, t: nat, k: nat, s': State)
    requires Inv(s) && FlushFrame(s, t, k, s')
    requires s.slots[k].place.Queued? ==> s'.slots[k].place.Queued? || forall i: nat :: i < s.slots[k].cap ==> i in s.slots[k].counted
    ensures forall u :: InserterOk(s', u)
  {
    assert ContentOk(s, k);
    forall u ensures InserterOk(s', u) {
      assert PcOk(s, u);
    }
  }

  lemma FlushKeepsSlots(s: State, t: nat, a: Action, s': State)
    requires Inv(s) && StepFlush(s, t, a, s') && FlushFrame(s, t, FlushTarget(s, t, a), s')
    ensures forall k :: 0 <= k < |s'.slots| ==> PlaceOk(s', k) && ContentOk(s', k) && ClaimOk(s', k) && RefOk(s', k)
  {
    FlushKeepsPlaces(s, t, a, s');
    FlushKeepsContent(s, t, FlushTarget(s, t, a), s');
    FlushKeepsClaims(s, t, a, s');
    FlushKeepsRefs(s, t, a, s');
  }

  lemma FlushKeepsThreads(s: State, t: nat, a: Action, s': State)
    requires Inv(s) && StepFlush(s, t, a, s') && FlushFrame(s, t, FlushTarget(s, t, a), s')
    ensures RowsDistinct(s') && forall u :: PcOk(s', u)
  {
    Facts(s, t, a);
    var k := FlushTarget(s, t, a);
    FlushKeepsInserters(s, t, k, s');
    FlushKeepsRotators(s, t, k, s');
    FlushKeepsFlushers(s, t, a, s');
    FlushKeepsSearches(s, t, k, s');
  }

  lemma FlushKeepsInv(s: State, t: nat, a: Action, s': State)
    requires Inv(s) && StepFlush(s, t, a, s')
    ensures Inv(s')
  {
    assert PcOk(s, t);
    FlushIsFramed(s, t, a, s');
    FlushKeepsStructure(s, t, FlushTarget(s, t, a), s');
    FlushKeepsQueue(s, t, a, s');
    FlushKeepsRows(s, t, a, s');
    FlushKeepsSlots(s, t, a, s');
    FlushKeepsThreads(s, t, a, s');
  }

  /* ---- Rotating ---- */

  lemma RotateKeepsQueue(s: State, t: nat, a: Action, s': State)
    requires Inv(s) && StepRotate(s, t, a, s')
    ensures QueueOk(s')
  {
    Facts(s, t, a);
  }

  lemma RotateKeepsGrowing(s: State, t: nat, a: Action, s': State)
    requires Inv(s) && StepRotate(s, t, a, s')
    ensures GrowingOk(s') && HomeOk(s')
  {
    Facts(s, t, a);
  }

  lemma RotateKeepsLog(s: State, t: nat, a: Action, s': State)
    requires Inv(s) && StepRotate(s, t, a, s')
    ensures LogOk(s')
  {
    Facts(s, t, a);
  }

  lemma RotateKeepsRows(s: State, t: nat, a: Action, s': State)
    requires Inv(s) && StepRotate(s, t, a, s')
    ensures RowsOk(s') && RowsDistinct(s')
  {
    Facts(s, t, a);
    forall x, y ensures NoClash(s', x, y) {
      assert NoClash(s, x, y);
    }
  }

  lemma AllocationKeepsPlace(s: State, t: nat, a: Action, s': State, k: nat)
    requires Inv(s) && StepRotate(s, t, a, s') && (a.AllocSlot? || a.InitSlot?) && k < |s.slots|
    ensures k < |s'.slots| && PlaceOk(s', k)
  {
    Facts(s, t, a);
    assert PlaceOk(s, k);
    HoldersAfter(s, t, s', k);
  }

  lemma EnterKeepsPlace(s: State, t: nat, s': State, k: nat)
    requires Inv(s) && StepRotate(s, t, EnterRotate, s') && k < |s.slots|
    ensures k < |s'.slots| && PlaceOk(s', k)
  {
    Facts(s, t, EnterRotate);
    assert PlaceOk(s, k);
    HoldersAfter(s, t, s', k);
  }

  lemma EnqueueKeepsPlace(s: State, t: nat, s': State, k: nat)
    requires Inv(s) && StepRotate(s, t, Enqueue, s') && k < |s.slots|
    ensures k < |s'.slots| && PlaceOk(s', k)
  {
    Facts(s, t, Enqueue);
    assert PlaceOk(s, k);
    HoldersAfter(s, t, s', k);
  }

  lemma InstallKeepsPlace(s: State, t: nat, s': State, k: nat)
    requires Inv(s) && StepRotate(s, t, Install, s') && k < |s.slots|
    ensures k < |s'.slots| && PlaceOk(s', k)
  {
    Facts(s, t, Install);
    assert PlaceOk(s, k);
    HoldersAfter(s, t, s', k);
  }

  lemma RotateKeepsPlace(s: State, t: nat, a: Action, s': State, k: nat)
    requires Inv(s) && StepRotate(s, t, a, s') && k < |s.slots|
    ensures k < |s'.slots| && PlaceOk(s', k)
  {
    if a.EnterRotate? {
      EnterKeepsPlace(s, t, s', k);
    } else if a.Enqueue? {
      EnqueueKeepsPlace(s, t, s', k);
    } else if a.Install? {
      InstallKeepsPlace(s, t, s', k);
    } else {
      AllocationKeepsPlace(s, t, a, s', k);
    }
  }

  lemma RotateKeepsClaims(s: State, t: nat, a: Action, s': State)
    requires Inv(s) && StepRotate(s, t, a, s')
    ensures forall k :: 0 <= k < |s'.slots| ==> ClaimOk(s', k)
  {
    Facts(s, t, a);
    forall k | 0 <= k < |s'.slots| ensures ClaimOk(s', k) {
      assert ClaimOk(s, k);
    }
  }

  lemma RotateKeepsContent(s: State, t: nat, a: Action, s': State)
    requires Inv(s) && StepRotate(s, t, a, s')
    ensures forall k :: 0 <= k < |s'.slots| ==> ContentOk(s', k)
  {
    Facts(s, t, a);
    forall k | 0 <= k < |s'.slots| ensures ContentOk(s', k) {
      assert ContentOk(s, k);
    }
  }

  lemma RotateKeepsRefs(s: State, t: nat, a: Action, s': State)
    requires Inv(s) && StepRotate(s, t, a, s')
    ensures forall k :: 0 <= k < |s'.slots| ==> RefOk(s', k)
  {
    Facts(s, t, a);
    forall k | 0 <= k < |s'.slots| ensures RefOk(s', k) {
      assert RefOk(s, k);
      HoldersAfter(s, t, s', k);
    }
  }

  /** A rotation step hands a memtable on as it is, or prepares a slot that nobody refers to. */
  ghost predicate RotateFrame(s: State, t: nat, s': State) {
    && |s'.slots| == |s.slots| && OnlyMoves(s, t, s') && s'.pool == s.pool
    && (forall k :: 0 <= k < |s.slots| ==> HandedOn(s.slots[k], s'.slots[k]) || Holders(s, k) == {})
    && (forall k :: 0 <= k < |s.slots| && (Unflushed(s.slots[k]) || s.slots[k].place.Unlinked?) ==>
      HandedOn(s.slots[k], s'.slots[k]))
    && (forall x :: x in s.home ==> x in s'.home && s'.home[x] == s.home[x])
    && (s'.growing == s.growing || ExclusiveFree(s))
    && var p := PcOf(s', t);
    (p.Inserting? || p.Allocating? || p.Initializing? || p.Enqueuing? || p.Installing?)
  }

  ghost predicate HandedOn(m: Slot, m': Slot) {
    && m' == m.(place := m'.place)
    && (m'.place == m.place || (m.place.Growing? && m'.place.Retiring?) || (m.place.Retiring? && m'.place.Queued?)
        || (m.place.Fresh? && m'.place.Growing?))
  }

  lemma RotateHandsOn(s: State, t: nat, a: Action, s': State, k: nat)
    requires Inv(s) && StepRotate(s, t, a, s') && k < |s.slots|
    ensures |s'.slots| == |s.slots|
    ensures HandedOn(s.slots[k], s'.slots[k]) ||
      (Holders(s, k) == {} && !Unflushed(s.slots[k]) && !s.slots[k].place.Unlinked?)
  {
    Facts(s, t, a);
  }

  lemma RotateIsFramed(s: State, t: nat, a: Action, s': State)
    requires Inv(s) && StepRotate(s, t, a, s')
    ensures RotateFrame(s, t, s')
  {
    forall k | 0 <= k < |s.slots|
      ensures HandedOn(s.slots[k], s'.slots[k]) ||
        (Holders(s, k) == {} && !Unflushed(s.slots[k]) && !s.slots[k].place.Unlinked?)
    {
      RotateHandsOn(s, t, a, s', k);
    }
  }

  lemma RotateKeepsInserters(s: State, t: nat, s': State)
    requires Inv(s) && RotateFrame(s, t, s')
    ensures forall u :: InserterOk(s', u)
  {
    forall u ensures InserterOk(s', u) {
      assert PcOk(s, u);
    }
  }

  lemma RotateKeepsRotators(s: State, t: nat, a: Action, s': State)
    requires Inv(s) && StepRotate(s, t, a, s')
    ensures forall u :: RotatorOk(s', u)
  {
    Facts(s, t, a);
    forall u ensures RotatorOk(s', u) {
      assert PcOk(s, u);
    }
  }

  lemma RotateKeepsFlushers(s: State, t: nat, s': State)
    requires Inv(s) && RotateFrame(s, t, s')
    ensures forall u :: FlusherOk(s', u)
  {
    forall u ensures FlusherOk(s', u) {
      assert PcOk(s, u);
    }
  }

  lemma RotateKeepsSearch(s: State, t: nat, s': State, u: nat)
    requires Inv(s) && RotateFrame(s, t, s')
    ensures SearcherOk(s', u)
  {
    assert PcOk(s, u);
    var p := PcOf(s, u);
    if u != t && p.Searching? {
      forall r | r in p.view.due ensures Findable(s', p.view, r) {
        assert Findable(s, p.view, r);
        if r.sid in s.home && s.home[r.sid] < |s.slots| && ViewHolds(p.view, s.home[r.sid]) {
          assert u in Holders(s, s.home[r.sid]);
        }
      }
    }
  }

  lemma RotateKeepsSlots(s: State, t: nat, a: Action, s': State)
    requires Inv(s) && StepRotate(s, t, a, s')
    ensures forall k :: 0 <= k < |s'.slots| ==> PlaceOk(s', k) && ContentOk(s', k) && ClaimOk(s', k) && RefOk(s', k)
  {
    RotateKeepsClaims(s, t, a, s');
    RotateKeepsContent(s, t, a, s');
    RotateKeepsRefs(s, t, a, s');
    forall k | 0 <= k < |s'.slots| ensures PlaceOk(s', k) {
      RotateKeepsPlace(s, t, a, s', k);
    }
  }

  lemma RotateKeepsThreads(s: State, t: nat, a: Action, s': State)
    requires Inv(s) && StepRotate(s, t, a, s')
    ensures forall u :: PcOk(s', u)
  {
    RotateIsFramed(s, t, a, s');
    RotateKeepsInserters(s, t, s');
    RotateKeepsRotators(s, t, a, s');
    RotateKeepsFlushers(s, t, s');
    forall u ensures PcOk(s', u) {
      RotateKeepsSearch(s, t, s', u);
    }
  }

  lemma RotateKeepsInv(s: State, t: nat, a: Action, s': State)
    requires Inv(s) && StepRotate(s, t, a, s')
    ensures Inv(s')
  {
    RotateKeepsQueue(s, t, a, s');
    RotateKeepsGrowing(s, t, a, s');
    RotateKeepsLog(s, t, a, s');
    RotateKeepsRows(s, t, a, s');
    RotateKeepsSlots(s, t, a, s');
    RotateKeepsThreads(s, t, a, s');
  }

  /* ---- All runs ---- */

  lemma NextKeepsInv(s: State, s': State)
    requires Inv(s) && Next(s, s')
    ensures Inv(s')
  {
    var t, a :| Step(s, t, a, s');
    if StepInsert(s, t, a, s') {
      InsertKeepsInv(s, t, a, s');
    } else if StepRotate(s, t, a, s') {
      RotateKeepsInv(s, t, a, s');
    } else if StepFlush(s, t, a, s') {
      FlushKeepsInv(s, t, a, s');
    } else {
      SearchKeepsInv(s, t, a, s');
    }
  }

  lemma {:induction false} RunKeepsInv(run: seq<State>, i: nat)
    requires IsRun(run) && i < |run|
    ensures Inv(run[i])
  {
    if i == 0 {
      InitInv(run[0]);
    } else {
      RunKeepsInv(run, i - 1);
      assert StepAt(run, i - 1);
      NextKeepsInv(run[i - 1], run[i]);
    }
  }

  /** Published rows are never lost: each is in the pool or in a memtable every snapshot will hold. */
  lemma NoRowIsLost(run: seq<State>, i: nat, r: Row)
    requires IsRun(run) && i < |run| && r in run[i].published
    ensures r in run[i].pool ||
      exists k :: 0 <= k < |run[i].slots| && Unflushed(run[i].slots[k]) && run[i].slots[k].sid == r.sid && r.idx in run[i].slots[k].ready
  {
    RunKeepsInv(run, i);
  }

  /** Only a snapshot starts a search, and no step changes what a search is due. */
  ghost predicate DueKept(s: State, t: nat, a: Action, s': State) {
    PcOf(s', t).Searching? ==>
      if a.Snapshot? then PcOf(s, t).Idle? && PcOf(s', t).view.due == s.published
      else PcOf(s, t).Searching? && PcOf(s', t).view.due == PcOf(s, t).view.due
  }

  lemma SearchKeepsDue(s: State, t: nat, a: Action, s': State)
    requires |s.slots| == MEMTABLE_BUF_SIZE && StepSearch(s, t, a, s')
    ensures DueKept(s, t, a, s')
  {
  }

  lemma InsertStartsNoSearch(s: State, t: nat, a: Action, s': State)
    requires |s.slots| == MEMTABLE_BUF_SIZE && StepInsert(s, t, a, s')
    ensures OnlyMoves(s, t, s') && !PcOf(s', t).Searching?
  {
  }

  lemma RotateStartsNoSearch(s: State, t: nat, a: Action, s': State)
    requires |s.slots| == MEMTABLE_BUF_SIZE && StepRotate(s, t, a, s')
    ensures OnlyMoves(s, t, s') && !PcOf(s', t).Searching?
  {
  }

  lemma FlushStartsNoSearch(s: State, t: nat, a: Action, s': State)
    requires |s.slots| == MEMTABLE_BUF_SIZE && StepFlush(s, t, a, s')
    ensures OnlyMoves(s, t, s') && !PcOf(s', t).Searching?
  {
  }

  lemma StepMoves(s: State, t: nat, a: Action, s': State)
    requires Step(s, t, a, s')
    ensures OnlyMoves(s, t, s') && DueKept(s, t, a, s')
  {
    if StepSearch(s, t, a, s') {
      SearchKeepsDue(s, t, a, s');
      SearchOnlyMoves(s, t, a, s');
    } else if StepInsert(s, t, a, s') {
      InsertStartsNoSearch(s, t, a, s');
    } else if StepRotate(s, t, a, s') {
      RotateStartsNoSearch(s, t, a, s');
    } else {
      FlushStartsNoSearch(s, t, a, s');
    }
  }

  lemma NextKeepsDue(s: State, t: nat, s': State)
    requires Next(s, s') && PcOf(s', t).Searching?
    ensures if PcOf(s, t).Searching? then PcOf(s', t).view.due == PcOf(s, t).view.due
            else PcOf(s', t).view.due == s.published
  {
    var u, a :| Step(s, u, a, s');
    StepMoves(s, u, a, s');
  }

  lemma RunKeepsDue(run: seq<State>, i: nat, t: nat)
    requires IsRun(run) && i + 1 < |run| && PcOf(run[i + 1], t).Searching?
    ensures if PcOf(run[i], t).Searching? then PcOf(run[i + 1], t).view.due == PcOf(run[i], t).view.due
            else PcOf(run[i + 1], t).view.due == run[i].published
  {
    assert StepAt(run, i);
    NextKeepsDue(run[i], t, run[i + 1]);
  }

  /** What a search is due stays what was published at its snapshot. */
  lemma {:induction false} DueIsFixed(run: seq<State>, t: nat, i: nat, j: nat)
    requires IsRun(run) && i < j < |run| && PcOf(run[i], t) == Idle
    requires forall n :: i < n <= j ==> PcOf(run[n], t).Searching?
    ensures PcOf(run[j], t).view.due == run[i].published
    decreases j
  {
    if i < j - 1 {
      DueIsFixed(run, t, i, j - 1);
    }
    RunKeepsDue(run, j - 1, t);
  }

  lemma SearchingMovesBySearch(s: State, t: nat, a: Action, s': State)
    requires Step(s, t, a, s') && PcOf(s, t).Searching?
    ensures StepSearch(s, t, a, s')
  {
  }

  lemma SearchEnds(s: State, t: nat, a: Action, s': State)
    requires |s.slots| == MEMTABLE_BUF_SIZE && StepSearch(s, t, a, s') && PcOf(s, t).Searching? && PcOf(s', t).Idle?
    ensures var v := PcOf(s, t).view; !v.gheld && v.released == |v.sidxs| && v.poolDone
  {
  }

  /** A search goes back to idle only by its last step, after all its memtables and the pool. */
  lemma OnlyCompleteEnds(s: State, t: nat, s': State)
    requires Next(s, s') && PcOf(s, t).Searching? && PcOf(s', t).Idle?
    ensures var v := PcOf(s, t).view; !v.gheld && v.released == |v.sidxs| && v.poolDone
  {
    var u, a :| Step(s, u, a, s');
    StepMoves(s, u, a, s');
    assert u == t;
    SearchingMovesBySearch(s, t, a, s');
    SearchEnds(s, t, a, s');
  }

  /**
    When a search returns, it has found every row that was published before it took its snapshot,
    whatever inserts, rotations, flushes and recycling happened meanwhile.
   */
  lemma SearchFindsEverything(run: seq<State>, t: nat, i: nat, j: nat)
    requires IsRun(run) && i < j && j + 1 < |run| && PcOf(run[i], t) == Idle
    requires forall n :: i < n <= j ==> PcOf(run[n], t).Searching?
    requires PcOf(run[j + 1], t) == Idle
    ensures run[i].published <= PcOf(run[j], t).view.seen
  {
    DueIsFixed(run, t, i, j);
    RunKeepsInv(run, j);
    assert PcOk(run[j], t);
    assert StepAt(run, j);
    OnlyCompleteEnds(run[j], t, run[j + 1]);
    var v := PcOf(run[j], t).view;
    forall r | r in v.due ensures r in v.seen {
      assert Findable(run[j], v, r);
    }
  }

  /** A memtable with id `x` that has not been enqueued yet. */
  ghost predicate NotYetQueued(m: Slot, x: nat) {
    m.sid == x && (m.place.Growing? || m.place.Retiring? || m.place.Fresh?)
  }

  lemma WaitingIds(s: State, k: nat)
    requires Inv(s) && k < |s.slots| && NotYetQueued(s.slots[k], s.slots[k].sid)
    ensures s.firstSid + |s.log| <= s.slots[k].sid < s.nextSid
  {
    OwnerOk(s, k);
    assert ContentOk(s, k);
    match s.slots[k].place {
      case Fresh(t) =>
        assert PcOk(s, t);
      case _ =>
    }
  }

  lemma UnloggedIds(s: State, x: nat)
    requires Inv(s) && s.firstSid + |s.log| <= x < s.nextSid
    ensures exists k :: 0 <= k < |s.slots| && NotYetQueued(s.slots[k], x)
  {
    match s.growing {
      case At(g) =>
        assert NotYetQueued(s.slots[g], x);
      case Rotating(t) =>
        assert PcOk(s, t);
        var p := PcOf(s, t);
        if p.Installing? {
          assert NotYetQueued(s.slots[p.next], x);
        } else if x == s.firstSid + |s.log| {
          assert NotYetQueued(s.slots[p.cur], x);
        } else {
          assert NotYetQueued(s.slots[p.next], x);
        }
    }
  }

  /** Each memtable id enters the queue once, in order, and is waiting or growing until then. */
  lemma EnqueuedExactlyOnce(run: seq<State>, i: nat)
    requires IsRun(run) && i < |run|
    ensures var s := run[i];
      && (forall m, n :: 0 <= m < n < |s.log| ==> s.log[m] < s.log[n])
      && (forall x :: s.firstSid <= x < s.nextSid && x !in s.log ==> exists k :: 0 <= k < |s.slots| && NotYetQueued(s.slots[k], x))
      && (forall k :: 0 <= k < |s.slots| && NotYetQueued(s.slots[k], s.slots[k].sid) ==> s.slots[k].sid !in s.log)
  {
    RunKeepsInv(run, i);
    var s := run[i];
    forall x | s.firstSid <= x < s.firstSid + |s.log| ensures x in s.log {
      assert s.log[x - s.firstSid] == x;
    }
    forall x | s.firstSid <= x < s.nextSid && x !in s.log
      ensures exists k :: 0 <= k < |s.slots| && NotYetQueued(s.slots[k], x)
    {
      UnloggedIds(s, x);
    }
    forall k | 0 <= k < |s.slots| && NotYetQueued(s.slots[k], s.slots[k].sid)
      ensures s.slots[k].sid !in s.log
    {
      WaitingIds(s, k);
    }
  }

  /** The reference count is the base reference while the slot is in use plus one per holder. */
  lemma RefsAreExact(run: seq<State>, i: nat, k: nat)
    requires IsRun(run) && i < |run| && k < MEMTABLE_BUF_SIZE
    ensures |run[i].slots| == MEMTABLE_BUF_SIZE
    ensures run[i].slots[k].ref == (if run[i].slots[k].place.Free? then 0 else 1) + |Holders(run[i], k)|
  {
    RunKeepsInv(run, i);
    assert RefOk(run[i], k);
  }

  /** While somebody holds a slot it keeps its memtable, and rows that were ready stay ready. */
  lemma HeldIsNotRecycled(s: State, s': State, u: nat, k: nat)
    requires Inv(s) && Next(s, s') && k < |s.slots| && u in s.pcs && Holds(s.pcs[u], k)
    ensures |s'.slots| == |s.slots|
    ensures s'.slots[k].sid == s.slots[k].sid && s.slots[k].ready <= s'.slots[k].ready
  {
    var t, a :| Step(s, t, a, s');
    HeldIsSpared(s, t, a, s', u, k);
  }

  lemma HeldIsSpared(s: State, t: nat, a: Action, s': State, u: nat, k: nat)
    requires Inv(s) && Step(s, t, a, s') && k < |s.slots| && u in s.pcs && Holds(s.pcs[u], k)
    ensures |s'.slots| == |s.slots|
    ensures s'.slots[k].sid == s.slots[k].sid && s.slots[k].ready <= s'.slots[k].ready
  {
    assert PcOk(s, t);
    if StepInsert(s, t, a, s') {
      InsertEvolves(s, t, a, s');
      assert SlotEvolves(s.slots[k], s'.slots[k]);
    } else if StepRotate(s, t, a, s') {
      RotateHandsOn(s, t, a, s', k);
      assert u in Holders(s, k);
    } else if StepFlush(s, t, a, s') {
      FlushIsFramed(s, t, a, s');
    } else {
      SearchOnlyRefs(s, t, a, s');
    }
  }

  /* ---- A search finds nothing that was not there ---- */

  /** All ready rows of a slot are published. */
  ghost predicate ReadyPublished(s: State, k: nat) {
    k < |s.slots| && forall i :: i in s.slots[k].ready ==> Row(s.slots[k].sid, i) in s.published
  }

  /** A row that was reserved in a memtable sealed and queued at this point. */
  ghost predicate ReservedIn(s: State, r: Row) {
    exists k :: k in s.queue && k < |s.slots| && s.slots[k].sid == r.sid && s.slots[k].sealed && r.idx < Valid(s.slots[k])
  }

  /** Slot `k` still carries the sealed memtable it had at `s0`. */
  ghost predicate StillSealed(s0: State, s: State, k: nat) {
    && k in s0.queue && k < |s0.slots| == |s.slots| && s0.slots[k].sealed && s0.slots[k].cap <= s0.slots[k].size
    && s.slots[k].sid == s0.slots[k].sid && s.slots[k].cap == s0.slots[k].cap && ReadyPublished(s, k)
  }

  /** What a search that took its snapshot at `s0` has found and is still to look at. */
  ghost predicate SeenOk(s0: State, s: State, v: View) {
    && v.released <= |v.sidxs| && (v.gheld ==> ReadyPublished(s, v.gidx))
    && (forall m :: v.released <= m < |v.sidxs| ==> StillSealed(s0, s, v.sidxs[m]))
    && (forall r :: r in v.seen ==> r in s.published || ReservedIn(s0, r))
  }

  lemma InsertKeepsReadyPublished(s: State, t: nat, a: Action, s': State, k: nat)
    requires |s.slots| == MEMTABLE_BUF_SIZE && StepInsert(s, t, a, s') && ReadyPublished(s, k)
    ensures ReadyPublished(s', k)
  {
  }

  lemma RotateKeepsPublished(s: State, t: nat, a: Action, s': State)
    requires |s.slots| == MEMTABLE_BUF_SIZE && StepRotate(s, t, a, s')
    ensures s'.published == s.published
  {
  }

  /** A held slot keeps its memtable, and its ready rows stay published. */
  lemma HeldStaysPublished(s: State, t: nat, a: Action, s': State, u: nat, k: nat)
    requires Inv(s) && Step(s, t, a, s') && u in s.pcs && Holds(s.pcs[u], k) && ReadyPublished(s, k)
    ensures ReadyPublished(s', k) && s'.slots[k].sid == s.slots[k].sid && s'.slots[k].cap == s.slots[k].cap
    ensures s.published <= s'.published && |s'.slots| == |s.slots|
  {
    assert PcOk(s, t);
    if StepInsert(s, t, a, s') {
      InsertEvolves(s, t, a, s');
      assert SlotEvolves(s.slots[k], s'.slots[k]);
      InsertKeepsReadyPublished(s, t, a, s', k);
    } else if StepRotate(s, t, a, s') {
      RotateHandsOn(s, t, a, s', k);
      RotateKeepsPublished(s, t, a, s');
      assert u in Holders(s, k);
    } else if StepFlush(s, t, a, s') {
      FlushIsFramed(s, t, a, s');
    } else {
      SearchOnlyRefs(s, t, a, s');
    }
  }

  lemma PublishedGrows(s: State, t: nat, a: Action, s': State)
    requires Inv(s) && Step(s, t, a, s')
    ensures s.published <= s'.published && |s'.slots| == |s.slots|
  {
    assert PcOk(s, t);
    if StepInsert(s, t, a, s') {
      InsertEvolves(s, t, a, s');
    } else if StepRotate(s, t, a, s') {
      RotateKeepsPublished(s, t, a, s');
      RotateIsFramed(s, t, a, s');
    } else if StepFlush(s, t, a, s') {
      FlushIsFramed(s, t, a, s');
    } else {
      SearchOnlyRefs(s, t, a, s');
    }
  }

  /** A step of any thread leaves what the snapshot still holds, and so the bound on what was seen. */
  lemma StepKeepsHeld(s0: State, s: State, u: nat, a: Action, s': State, t: nat, v: View)
    requires Inv(s) && Step(s, u, a, s') && PcOf(s, t) == Searching(v) && SeenOk(s0, s, v)
    ensures SeenOk(s0, s', v)
  {
    PublishedGrows(s, u, a, s');
    assert t in s.pcs;
    if v.gheld {
      HeldStaysPublished(s, u, a, s', t, v.gidx);
    }
    forall m | v.released <= m < |v.sidxs| ensures StillSealed(s0, s', v.sidxs[m]) {
      assert StillSealed(s0, s, v.sidxs[m]);
      assert Holds(s.pcs[t], v.sidxs[m]);
      HeldStaysPublished(s, u, a, s', t, v.sidxs[m]);
    }
  }

  /** What the search's own step adds: the ready rows of the growing memtable, the reserved rows of a sealed one, the pool. */
  lemma OwnStepAdds(s0: State, s: State, t: nat, a: Action, s': State, r: Row)
    requires Inv(s) && StepSearch(s, t, a, s') && PcOf(s, t).Searching? && PcOf(s', t).Searching? && SeenOk(s0, s, PcOf(s, t).view)
    requires r in PcOf(s', t).view.seen
    ensures r in s.published || ReservedIn(s0, r)
  {
    var v := PcOf(s, t).view;
    if a.ScanSealed? {
      var k := v.sidxs[v.released];
      assert StillSealed(s0, s, k);
      if r in AllRowsOf(s.slots[k]) && r !in RowsOf(s.slots[k]) {
        assert s0.slots[k].sid == r.sid && r.idx < Valid(s0.slots[k]);
      }
    }
  }

  lemma OwnStepShrinks(s: State, t: nat, a: Action, s': State)
    requires |s.slots| == MEMTABLE_BUF_SIZE && StepSearch(s, t, a, s')
    requires PcOf(s, t).Searching? && PcOf(s', t).Searching? && PcOf(s, t).view.released <= |PcOf(s, t).view.sidxs|
    ensures var v, v' := PcOf(s, t).view, PcOf(s', t).view;
      v'.sidxs == v.sidxs && v'.gidx == v.gidx && v.released <= v'.released <= |v.sidxs| && (v'.gheld ==> v.gheld)
  {
  }

  lemma StepKeepsSeen(s0: State, s: State, s': State, t: nat)
    requires Inv(s) && Next(s, s') && PcOf(s, t).Searching? && PcOf(s', t).Searching? && SeenOk(s0, s, PcOf(s, t).view)
    ensures SeenOk(s0, s', PcOf(s', t).view)
  {
    var u, a :| Step(s, u, a, s');
    StepKeepsHeld(s0, s, u, a, s', t, PcOf(s, t).view);
    StepMoves(s, u, a, s');
    if u == t {
      SearchingMovesBySearch(s, t, a, s');
      OwnStepShrinks(s, t, a, s');
      PublishedGrows(s, t, a, s');
      forall r | r in PcOf(s', t).view.seen ensures r in s'.published || ReservedIn(s0, r) {
        OwnStepAdds(s0, s, t, a, s', r);
      }
    }
  }

  lemma SnapshotSeesNothing(s: State, s': State, t: nat)
    requires Inv(s) && Next(s, s') && PcOf(s, t) == Idle && PcOf(s', t).Searching?
    ensures SeenOk(s, s', PcOf(s', t).view)
  {
    var u, a :| Step(s, u, a, s');
    StepMoves(s, u, a, s');
    SearchOnlyRefs(s, t, a, s');
    forall k | 0 <= k < |s.slots| && Live(s.slots[k]) ensures ReadyPublished(s', k) {
      assert ContentOk(s, k);
    }
    var v := PcOf(s', t).view;
    forall m | v.released <= m < |v.sidxs| ensures StillSealed(s, s', v.sidxs[m]) {
      assert PlaceOk(s, s.queue[m]) && ContentOk(s, s.queue[m]);
    }
  }

  lemma {:induction false} RunKeepsSeen(run: seq<State>, t: nat, i: nat, j: nat)
    requires IsRun(run) && i < j < |run| && PcOf(run[i], t) == Idle
    requires forall n :: i < n <= j ==> PcOf(run[n], t).Searching?
    ensures SeenOk(run[i], run[j], PcOf(run[j], t).view)
    decreases j
  {
    RunKeepsInv(run, j - 1);
    assert StepAt(run, j - 1);
    if i == j - 1 {
      SnapshotSeesNothing(run[i], run[j], t);
    } else {
      RunKeepsSeen(run, t, i, j - 1);
      StepKeepsSeen(run[i], run[j - 1], run[j], t);
    }
  }

  /**
    At no point has a search found anything but rows published by then and rows that were reserved,
    when it took its snapshot, in one of the sealed memtables queued there.
   */
  lemma SearchFindsNothingElse(run: seq<State>, t: nat, i: nat, j: nat, r: Row)
    requires IsRun(run) && i < j < |run| && PcOf(run[i], t) == Idle
    requires forall n :: i < n <= j ==> PcOf(run[n], t).Searching?
    requires r in PcOf(run[j], t).view.seen
    ensures r in run[j].published ||
            exists k :: k in run[i].queue && k < |run[i].slots| && run[i].slots[k].sealed
                     && run[i].slots[k].sid == r.sid && r.idx < run[i].slots[k].cap
  {
    RunKeepsSeen(run, t, i, j);
  }

  lemma CountedFits(m: Slot)
    requires m.counted <= m.ready && (forall i :: i in m.ready ==> i < Valid(m))
    ensures |m.counted| <= Valid(m)
  {
    FewBelow(m.counted, Valid(m));
  }

  /** What the flush worker checks at run time, and would stop on, always holds. */
  ghost predicate NoFlushError(s: State, t: nat) {
    match PcOf(s, t)
    case Claimed(k) => k < |s.slots| && s.slots[k].sealed && s.slots[k].readyCnt <= Valid(s.slots[k])
    case InPool(k) => k in s.queue
    case _ => true
  }

  lemma FlushNeverErrs(s: State, t: nat)
    requires Inv(s)
    ensures NoFlushError(s, t)
  {
    Facts(s, t, StartInsert);
    if PcOf(s, t).Claimed? {
      CountedFits(s.slots[PcOf(s, t).slot]);
    }
  }

  lemma RunNeverErrs(run: seq<State>, i: nat, t: nat)
    requires IsRun(run) && i < |run|
    ensures NoFlushError(run[i], t)
  {
    RunKeepsInv(run, i);
    FlushNeverErrs(run[i], t);
  }

  /* ---- Progress ---- */

  ghost predicate CanMove(s: State, t: nat) {
    exists a, s' :: Step(s, t, a, s')
  }

  /** What a thread can be made to wait for. */
  ghost predicate Waits(s: State, t: nat) {
    match PcOf(s, t)
    case Inserting => s.growing.Rotating?
    case NeedRotate => !ExclusiveFree(s)
    case Allocating(_) => forall k :: 0 <= k < |s.slots| ==> s.slots[k].ref != 0
    case Enqueuing(_, _) => !ExclusiveFree(s) || |s.queue| == 4
    case Installing(_) => !ExclusiveFree(s)
    case Claimed(k) => k < |s.slots| && s.slots[k].readyCnt < s.slots[k].cap
    case InPool(_) => !ExclusiveFree(s)
    case _ => false
  }

  lemma InserterMoves(s: State, t: nat)
    requires Inv(s) && !Waits(s, t)
    requires var p := PcOf(s, t); p.Idle? || p.Inserting? || p.SawUnsealed? || p.Overflowed? || p.Reserved? || p.Flagged?
    ensures exists a, s' :: StepInsert(s, t, a, s')
  {
    Facts(s, t, StartInsert);
    match PcOf(s, t) {
      case Idle =>
        assert StepInsert(s, t, StartInsert, Goto(s, t, Inserting));
      case Inserting =>
        assert StepInsert(s, t, ReadSealed, Goto(s, t, if s.slots[s.growing.slot].sealed then NeedRotate else SawUnsealed(s.growing.slot)));
      case SawUnsealed(k) =>
        var m := s.slots[k];
        assert StepInsert(s, t, FetchAdd, Goto(Put(s, k, m.(size := m.size + 1)), t, if m.size < m.cap then Reserved(k, m.size) else Overflowed(k)));
      case Overflowed(k) =>
        assert StepInsert(s, t, Seal, Goto(Put(s, k, s.slots[k].(sealed := true)), t, NeedRotate));
      case Reserved(k, i) =>
        var m := s.slots[k];
        assert StepInsert(s, t, SetReady,
          Goto(Put(s, k, m.(ready := m.ready + {i})), t, Flagged(k, i)).(published := s.published + {Row(m.sid, i)}));
      case Flagged(k, i) =>
        var m := s.slots[k];
        assert StepInsert(s, t, AddReadyCnt, Goto(Put(s, k, m.(readyCnt := m.readyCnt + 1, counted := m.counted + {i})), t, Idle));
    }
  }

  lemma EntrantMoves(s: State, t: nat)
    requires Inv(s) && PcOf(s, t).NeedRotate? && ExclusiveFree(s)
    ensures exists a, s' :: StepRotate(s, t, a, s')
  {
    if s.growing.Rotating? || !s.slots[s.growing.slot].sealed {
      assert StepRotate(s, t, EnterRotate, Goto(s, t, Inserting));
    } else {
      var k := s.growing.slot;
      assert StepRotate(s, t, EnterRotate,
        Goto(Put(s, k, s.slots[k].(place := Retiring(t))), t, Allocating(k)).(growing := Rotating(t)));
    }
  }

  lemma RotatorMoves(s: State, t: nat)
    requires Inv(s) && !Waits(s, t)
    requires var p := PcOf(s, t); p.NeedRotate? || p.Allocating? || p.Initializing? || p.Enqueuing? || p.Installing?
    ensures exists a, s' :: StepRotate(s, t, a, s')
  {
    Facts(s, t, StartInsert);
    match PcOf(s, t) {
      case NeedRotate => EntrantMoves(s, t);
      case Allocating(cur) =>
        var k :| 0 <= k < |s.slots| && s.slots[k].ref == 0;
        assert StepRotate(s, t, AllocSlot(k), Goto(Put(s, k, s.slots[k].(ref := 1, place := Blank(t))), t, Initializing(cur, k)));
      case Initializing(cur, k) =>
        assert StepRotate(s, t, InitSlot(1),
          Goto(Put(s, k, Slot(s.slots[k].ref, s.nextSid, 1, 0, false, None, {}, 0, {}, Fresh(t))), t, Enqueuing(cur, k))
            .(nextSid := s.nextSid + 1, home := s.home[s.nextSid := k]));
      case Enqueuing(cur, next) =>
        assert StepRotate(s, t, Enqueue,
          Goto(Put(s, cur, s.slots[cur].(place := Queued)), t, Installing(next))
            .(queue := s.queue + [cur], log := s.log + [s.slots[cur].sid]));
      case Installing(next) =>
        assert StepRotate(s, t, Install, Goto(Put(s, next, s.slots[next].(place := Growing)), t, Inserting).(growing := At(next)));
    }
  }

  lemma ClaimantMoves(s: State, t: nat)
    requires Inv(s) && !Waits(s, t) && PcOf(s, t).Claimed?
    ensures exists a, s' :: StepFlush(s, t, a, s')
  {
    Facts(s, t, StartInsert);
    var k := PcOf(s, t).slot;
    CountedFits(s.slots[k]);
    assert StepFlush(s, t, WaitForPublish, Goto(s, t, Flushing(k, Valid(s.slots[k]))));
  }

  lemma FlusherMoves(s: State, t: nat)
    requires Inv(s) && !Waits(s, t)
    requires var p := PcOf(s, t); p.Claimed? || p.Flushing? || p.InPool? || p.Releasing?
    ensures exists a, s' :: StepFlush(s, t, a, s')
  {
    Facts(s, t, StartInsert);
    match PcOf(s, t) {
      case Claimed(k) => ClaimantMoves(s, t);
      case Flushing(k, valid) =>
        assert StepFlush(s, t, IntoPool, Goto(s, t, InPool(k)).(pool := s.pool + set i: nat | i < valid :: Row(s.slots[k].sid, i)));
      case InPool(k) =>
        assert StepFlush(s, t, Handoff,
          Goto(Put(s, k, s.slots[k].(place := Unlinked(t))), t, Releasing(k)).(queue := Remove(s.queue, k)));
      case Releasing(k) =>
        assert StepFlush(s, t, ReleaseSlot, Goto(Put(s, k, s.slots[k].(ref := s.slots[k].ref - 1, place := Free)), t, Idle));
    }
  }

  lemma SearchMoves(s: State, t: nat)
    requires Inv(s) && PcOf(s, t).Searching?
    ensures exists a, s' :: StepSearch(s, t, a, s')
  {
    assert PcOk(s, t);
    var v := PcOf(s, t).view;
    if v.gheld {
      assert StepSearch(s, t, ScanGrowing,
        Goto(Drop(s, v.gidx), t, Searching(v.(gheld := false, seen := v.seen + RowsOf(s.slots[v.gidx])))));
    } else if v.released < |v.sidxs| {
      var k := v.sidxs[v.released];
      assert StepSearch(s, t, ScanSealed,
        Goto(Drop(s, k), t, Searching(v.(released := v.released + 1, seen := v.seen + AllRowsOf(s.slots[k])))));
    } else if !v.poolDone {
      assert StepSearch(s, t, SearchPool, Goto(s, t, Searching(v.(poolDone := true, seen := v.seen + s.pool))));
    } else {
      assert StepSearch(s, t, FinishSearch, Goto(s, t, Idle));
    }
  }

  lemma FailureMoves(s: State, t: nat)
    requires Inv(s) && PcOf(s, t).Failing?
    ensures exists a, s' :: StepSearch(s, t, a, s')
  {
    assert PcOk(s, t);
    var v := PcOf(s, t).view;
    if v.gheld {
      assert StepSearch(s, t, DropOne, Goto(Drop(s, v.gidx), t, Failing(v.(gheld := false))));
    } else if v.released < |v.sidxs| {
      assert StepSearch(s, t, DropOne, Goto(Drop(s, v.sidxs[v.released]), t, Failing(v.(released := v.released + 1))));
    } else {
      assert StepSearch(s, t, FinishFailure, Goto(s, t, Idle));
    }
  }

  lemma VacuumMoves(s: State, t: nat)
    requires Inv(s) && PcOf(s, t).Vacuuming?
    ensures exists a, s' :: StepSearch(s, t, a, s')
  {
    assert PcOk(s, t);
    assert StepSearch(s, t, FinishVacuum, Goto(Drop(s, PcOf(s, t).slot), t, Idle));
  }

  /**
    In every reachable state every thread can take a step, unless it waits for a rotation to end, for
    others to leave the shared section of a reservation, for a slot or a place in the queue, or, as a
    flush worker, for rows to be published.
   */
  lemma OnlyTheseWait(run: seq<State>, i: nat, t: nat)
    requires IsRun(run) && i < |run| && !Waits(run[i], t)
    ensures CanMove(run[i], t)
  {
    RunKeepsInv(run, i);
    var s, p := run[i], PcOf(run[i], t);
    if p.Searching? {
      SearchMoves(s, t);
    } else if p.Failing? {
      FailureMoves(s, t);
    } else if p.Vacuuming? {
      VacuumMoves(s, t);
    } else if p.NeedRotate? || p.Allocating? || p.Initializing? || p.Enqueuing? || p.Installing? {
      RotatorMoves(s, t);
    } else if p.Claimed? || p.Flushing? || p.InPool? || p.Releasing? {
      FlusherMoves(s, t);
    } else {
      InserterMoves(s, t);
    }
    AnyMoves(s, t);
  }

  lemma AnyMoves(s: State, t: nat)
    requires |s.slots| == MEMTABLE_BUF_SIZE
    requires (exists a, s' :: StepInsert(s, t, a, s')) || (exists a, s' :: StepRotate(s, t, a, s'))
          || (exists a, s' :: StepFlush(s, t, a, s')) || (exists a, s' :: StepSearch(s, t, a, s'))
    ensures CanMove(s, t)
  {
    if a, s' :| StepInsert(s, t, a, s') {
      assert Step(s, t, a, s');
    } else if a, s' :| StepRotate(s, t, a, s') {
      assert Step(s, t, a, s');
    } else if a, s' :| StepFlush(s, t, a, s') {
      assert Step(s, t, a, s');
    } else {
      var a, s' :| StepSearch(s, t, a, s');
      assert Step(s, t, a, s');
    }
  }

  lemma SnapshotCanBegin(s: State, t: nat)
    requires Inv(s) && PcOf(s, t) == Idle && s.growing.At?
    ensures exists s' :: StepSearch(s, t, Snapshot, s')
  {
    var held := {s.growing.slot} + set k | k in s.queue;
    var s' := Goto(s, t, Searching(View(s.growing.slot, true, s.queue, 0, false, {}, s.published))).(slots := Retain(s.slots, held));
    assert StepSearch(s, t, Snapshot, s');
  }

  lemma VacuumCanBegin(s: State, t: nat, k: nat)
    requires Inv(s) && PcOf(s, t) == Idle && (s.growing == At(k) || k in s.queue) && k < |s.slots|
    ensures exists s' :: StepSearch(s, t, Vacuum(k), s')
  {
    assert StepSearch(s, t, Vacuum(k), Goto(Put(s, k, s.slots[k].(ref := s.slots[k].ref + 1)), t, Vacuuming(k)));
  }

  lemma ClaimCanBegin(s: State, t: nat, k: nat)
    requires Inv(s) && PcOf(s, t) == Idle && k in s.queue && k < |s.slots| && s.slots[k].claim == None
    ensures exists s' :: StepFlush(s, t, Claim(k), s')
  {
    assert StepFlush(s, t, Claim(k), Goto(Put(s, k, s.slots[k].(claim := Some(t))), t, Claimed(k)));
  }

  ghost predicate CanBegin(s: State, t: nat, a: Action) {
    exists s' :: Step(s, t, a, s')
  }

  /** A search, a vacuum of a listed memtable and the flush of an unclaimed one can always begin. */
  lemma WorkCanBegin(run: seq<State>, i: nat, t: nat, k: nat)
    requires IsRun(run) && i < |run| && PcOf(run[i], t) == Idle && k < |run[i].slots|
    ensures run[i].growing.At? ==> CanBegin(run[i], t, Snapshot)
    ensures run[i].growing == At(k) || k in run[i].queue ==> CanBegin(run[i], t, Vacuum(k))
    ensures k in run[i].queue && run[i].slots[k].claim == None ==> CanBegin(run[i], t, Claim(k))
  {
    RunKeepsInv(run, i);
    if run[i].growing.At? {
      SnapshotCanBegin(run[i], t);
      var s' :| StepSearch(run[i], t, Snapshot, s');
      assert Step(run[i], t, Snapshot, s');
    }
    if run[i].growing == At(k) || k in run[i].queue {
      VacuumCanBegin(run[i], t, k);
      var s' :| StepSearch(run[i], t, Vacuum(k), s');
      assert Step(run[i], t, Vacuum(k), s');
    }
    if k in run[i].queue && run[i].slots[k].claim == None {
      ClaimCanBegin(run[i], t, k);
      var s' :| StepFlush(run[i], t, Claim(k), s');
      assert Step(run[i], t, Claim(k), s');
    }
  }

  /* ---- Sealed memtables are scanned without a look at ready flags ---- */

  /** What a scan of reserved rows sees of a live memtable is what is published exactly if as many rows are ready as are valid. */
  lemma ScanSeesPublishedIff(run: seq<State>, i: nat, k: nat)
    requires IsRun(run) && i < |run| && k < |run[i].slots| && Live(run[i].slots[k])
    ensures var m := run[i].slots[k];
      && (AllRowsOf(m) == RowsOf(m) <==> |m.ready| == Valid(m))
      && (m.readyCnt == Valid(m) ==> AllRowsOf(m) == RowsOf(m))
      && (m.counted == m.ready ==> (AllRowsOf(m) == RowsOf(m) <==> m.readyCnt == Valid(m)))
  {
    RunKeepsInv(run, i);
    assert ContentOk(run[i], k);
    ReadyIffFull(run[i].slots[k]);
    FewBelow(run[i].slots[k].counted, Valid(run[i].slots[k]));
    SubsetIsSmaller(run[i].slots[k].counted, run[i].slots[k].ready);
  }

  lemma ReadyIffFull(m: Slot)
    requires forall i :: i in m.ready ==> i < Valid(m)
    ensures AllRowsOf(m) == RowsOf(m) <==> |m.ready| == Valid(m)
  {
    FewBelow(m.ready, Valid(m));
    if AllRowsOf(m) == RowsOf(m) {
      forall i: nat | i < Valid(m) ensures i in m.ready {
        assert Row(m.sid, i) in AllRowsOf(m);
      }
      assert m.ready == Below(Valid(m));
    }
  }

  /** A state of the run below: memtable 3 in slot 0 with the contents `m`, nothing published, threads 0 to 2 at work. */
  ghost predicate Stage(s: State, m: Slot, growing: GrowingIdx, queue: seq<nat>, p0: Pc, p1: Pc, p2: Pc) {
    && |s.slots| == MEMTABLE_BUF_SIZE && s.slots[0] == m && s.growing == growing && s.queue == queue && s.published == {}
    && PcOf(s, 0) == p0 && PcOf(s, 1) == p1 && PcOf(s, 2) == p2 && (forall t :: t in s.pcs ==> t <= 2)
  }

  ghost predicate RunTo(run: seq<State>, m: Slot, growing: GrowingIdx, queue: seq<nat>, p0: Pc, p1: Pc, p2: Pc) {
    IsRun(run) && Stage(run[|run| - 1], m, growing, queue, p0, p1, p2)
  }

  lemma RunWith(run: seq<State>, t: nat, a: Action, s': State)
    requires IsRun(run) && Step(run[|run| - 1], t, a, s')
    ensures IsRun(run + [s'])
  {
    forall i | 0 <= i < |run| ensures StepAt(run + [s'], i) {
      assert i < |run| - 1 ==> StepAt(run, i);
    }
  }

  /** An empty memtable of one row grows. */
  lemma NobodyActive() returns (run: seq<State>)
    ensures RunTo(run, Slot(1, 3, 1, 0, false, None, {}, 0, {}, Growing), At(0), [], Idle, Idle, Idle)
    ensures run[|run| - 1].slots[1].ref == 0
  {
    var free := Slot(0, 0, 0, 0, false, None, {}, 0, {}, Free);
    var m := Slot(1, 3, 1, 0, false, None, {}, 0, {}, Growing);
    run := [State([m, free, free, free, free, free, free, free], At(0), [], 4, 3, map[], {}, [], {}, map[3 := 0])];
  }

  /** Thread 0 reserves the row. */
  lemma FirstReserves() returns (run: seq<State>)
    ensures RunTo(run, Slot(1, 3, 1, 1, false, None, {}, 0, {}, Growing), At(0), [], Reserved(0, 0), Idle, Idle)
    ensures run[|run| - 1].slots[1].ref == 0
  {
    run := NobodyActive();
    var s := run[|run| - 1];
    var s1 := Goto(s, 0, Inserting);
    var s2 := Goto(s1, 0, SawUnsealed(0));
    var s3 := Goto(Put(s2, 0, s.slots[0].(size := 1)), 0, Reserved(0, 0));
    RunWith(run, 0, StartInsert, s1);
    run := run + [s1];
    RunWith(run, 0, ReadSealed, s2);
    run := run + [s2];
    RunWith(run, 0, FetchAdd, s3);
    run := run + [s3];
  }

  /** Thread 1 finds the memtable full and seals it. */
  lemma SecondSeals() returns (run: seq<State>)
    ensures RunTo(run, Slot(1, 3, 1, 2, true, None, {}, 0, {}, Growing), At(0), [], Reserved(0, 0), NeedRotate, Idle)
    ensures run[|run| - 1].slots[1].ref == 0
  {
    run := FirstReserves();
    var s := run[|run| - 1];
    var s1 := Goto(s, 1, Inserting);
    var s2 := Goto(s1, 1, SawUnsealed(0));
    var s3 := Goto(Put(s2, 0, s.slots[0].(size := 2)), 1, Overflowed(0));
    var s4 := Goto(Put(s3, 0, s3.slots[0].(sealed := true)), 1, NeedRotate);
    RunWith(run, 1, StartInsert, s1);
    run := run + [s1];
    RunWith(run, 1, ReadSealed, s2);
    run := run + [s2];
    RunWith(run, 1, FetchAdd, s3);
    run := run + [s3];
    RunWith(run, 1, Seal, s4);
    run := run + [s4];
  }

  /** It takes the memtable out of the growing place and a free slot for the next one. */
  lemma SecondAllocates() returns (run: seq<State>)
    ensures RunTo(run, Slot(1, 3, 1, 2, true, None, {}, 0, {}, Retiring(1)), Rotating(1), [], Reserved(0, 0), Initializing(0, 1), Idle)
    ensures run[|run| - 1].slots[1].ref == 1
  {
    run := SecondSeals();
    var s := run[|run| - 1];
    var s1 := Goto(Put(s, 0, s.slots[0].(place := Retiring(1))), 1, Allocating(0)).(growing := Rotating(1));
    var s2 := Goto(Put(s1, 1, s1.slots[1].(ref := 1, place := Blank(1))), 1, Initializing(0, 1));
    RunWith(run, 1, EnterRotate, s1);
    run := run + [s1];
    RunWith(run, 1, AllocSlot(1), s2);
    run := run + [s2];
  }

  lemma SecondInitializes() returns (run: seq<State>)
    ensures RunTo(run, Slot(1, 3, 1, 2, true, None, {}, 0, {}, Retiring(1)), Rotating(1), [], Reserved(0, 0), Enqueuing(0, 1), Idle)
    ensures run[|run| - 1].slots[1].ready == {}
  {
    run := SecondAllocates();
    var s := run[|run| - 1];
    var next := Slot(1, s.nextSid, 1, 0, false, None, {}, 0, {}, Fresh(1));
    var s1 := Goto(Put(s, 1, next), 1, Enqueuing(0, 1)).(nextSid := s.nextSid + 1, home := s.home[s.nextSid := 1]);
    RunWith(run, 1, InitSlot(1), s1);
    run := run + [s1];
  }

  /** The full memtable is queued, and the new one grows. */
  lemma SecondInstalls() returns (run: seq<State>)
    ensures RunTo(run, Slot(1, 3, 1, 2, true, None, {}, 0, {}, Queued), At(1), [0], Reserved(0, 0), Inserting, Idle)
    ensures run[|run| - 1].slots[1].ready == {}
  {
    run := SecondInitializes();
    var s := run[|run| - 1];
    var s1 := Goto(Put(s, 0, s.slots[0].(place := Queued)), 1, Installing(1)).(queue := s.queue + [0], log := s.log + [3]);
    var s2 := Goto(Put(s1, 1, s1.slots[1].(place := Growing)), 1, Inserting).(growing := At(1));
    RunWith(run, 1, Enqueue, s1);
    run := run + [s1];
    RunWith(run, 1, Install, s2);
    run := run + [s2];
  }

  lemma TakeSnapshot(s: State, p0: Pc, p1: Pc) returns (s': State)
    requires Stage(s, Slot(1, 3, 1, 2, true, None, {}, 0, {}, Queued), At(1), [0], p0, p1, Idle) && s.slots[1].ready == {}
    ensures Step(s, 2, Snapshot, s')
    ensures Stage(s', Slot(2, 3, 1, 2, true, None, {}, 0, {}, Queued), At(1), [0], p0, p1, Searching(View(1, true, [0], 0, false, {}, {})))
    ensures s'.slots[1].ready == {}
  {
    var held := {s.growing.slot} + set k | k in s.queue;
    assert 0 in held && 1 in held;
    s' := Goto(s, 2, Searching(View(1, true, s.queue, 0, false, {}, s.published))).(slots := Retain(s.slots, held));
    assert StepSearch(s, 2, Snapshot, s');
  }

  lemma ThirdTakesSnapshot() returns (run: seq<State>)
    ensures RunTo(run, Slot(2, 3, 1, 2, true, None, {}, 0, {}, Queued), At(1), [0], Reserved(0, 0), Inserting,
                  Searching(View(1, true, [0], 0, false, {}, {})))
    ensures run[|run| - 1].slots[1].ready == {}
  {
    run := SecondInstalls();
    var s' := TakeSnapshot(run[|run| - 1], Reserved(0, 0), Inserting);
    RunWith(run, 2, Snapshot, s');
    run := run + [s'];
  }

  /** Thread 2 searches, and finds row 0 of memtable 3, which thread 0 has reserved and not published. */
  lemma UnpublishedRowIsSeen() returns (run: seq<State>)
    ensures IsRun(run) && PcOf(run[|run| - 1], 0) == Reserved(0, 0) && run[|run| - 1].published == {}
    ensures PcOf(run[|run| - 1], 2).Searching? && Row(3, 0) in PcOf(run[|run| - 1], 2).view.seen
  {
    run := ThirdTakesSnapshot();
    var s := run[|run| - 1];
    var v := PcOf(s, 2).view;
    var v1 := v.(gheld := false, seen := v.seen + RowsOf(s.slots[1]));
    var s1 := Goto(Drop(s, 1), 2, Searching(v1));
    var s2 := Goto(Drop(s1, 0), 2, Searching(v1.(released := 1, seen := v1.seen + AllRowsOf(s1.slots[0]))));
    RunWith(run, 2, ScanGrowing, s1);
    run := run + [s1];
    RunWith(run, 2, ScanSealed, s2);
    run := run + [s2];
    assert Row(3, 0) in AllRowsOf(s1.slots[0]);
  }
}
