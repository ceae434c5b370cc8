/**
  One memtable incarnation seen by its inserters and by the flush worker that waits for them:
  reserving an index, publishing it, moving `max_ready_id` forward with a retried compare-and-swap,
  and waiting until every reserved row is published.

  One step is one atomic operation or one access to a ready flag, in any interleaving of any
  number of threads; accesses are sequentially consistent. `counted` and `given` (which thread got
  which index) exist only to state properties. `maxReady == None` is the all-ones initial value.
 */
module SlotPublishing {
  import opened FiniteSets

  datatype Option<+T> = None | Some(value: T)

  datatype Pc =
    | Idle
    | Saw                                       // read sealed == 0
    | Over                                      // got an index beyond capacity
    | Reserved(idx: nat)
    | Flagged(idx: nat)                         // ready flag set
    | Counted(idx: nat)                         // ready_cnt bumped
    | FirstSwap                                 // about to swap the initial value for 0
    | Scanning(cur: nat, probe: nat)            // looking for the end of the ready range
    | Swapping(cur: nat, target: nat)           // compare-and-swap loop
    | WaitSize | WaitCount(valid: nat) | Waited(valid: nat) | WaitFailed

  datatype State = State(cap: nat, size: nat, sealed: bool, ready: set<nat>, readyCnt: nat, counted: set<nat>,
                         maxReady: Option<nat>, given: seq<nat>, pcs: map<nat, Pc>)

  function PcOf(s: State, t: nat): Pc {
    if t in s.pcs then s.pcs[t] else Idle
  }

  function Goto(s: State, t: nat, pc: Pc): State {
    s.(pcs := s.pcs[t := pc])
  }

  function Valid(s: State): nat {
    if s.size < s.cap then s.size else s.cap
  }

  datatype Action =
    | ReadSealed | FetchAdd | Seal | SetReady | AddReadyCnt
    | ReadMax | SwapFirst | Probe | Swap
    | StartWait | ReadSize | ReadCount

  ghost predicate Step(s: State, t: nat, a: Action, s': State) {
    var p := PcOf(s, t);
    match a
    case ReadSealed =>
      p.Idle? && s' == Goto(s, t, if s.sealed then Idle else Saw)
    case FetchAdd =>
      && p.Saw?
      && if s.size < s.cap then s' == Goto(s, t, Reserved(s.size)).(size := s.size + 1, given := s.given + [t])
         else s' == Goto(s, t, Over).(size := s.size + 1)
    case Seal =>
      p.Over? && s' == Goto(s, t, Idle).(sealed := true)
    case SetReady =>
      p.Reserved? && s' == Goto(s, t, Flagged(p.idx)).(ready := s.ready + {p.idx})
    case AddReadyCnt =>
      p.Flagged? && s' == Goto(s, t, Counted(p.idx)).(readyCnt := s.readyCnt + 1, counted := s.counted + {p.idx})
    case ReadMax =>
      p.Counted? && s' == Goto(s, t,
        if s.maxReady == None then (if p.idx == 0 then FirstSwap else Idle)
        else if p.idx == s.maxReady.value + 1 then Scanning(s.maxReady.value, p.idx) else Idle)
    case SwapFirst =>
      p.FirstSwap? && s' == Goto(s, t, Idle).(maxReady := if s.maxReady == None then Some(0) else s.maxReady)
    case Probe =>
      p.Scanning? && s' == Goto(s, t,
        if p.probe < s.cap && p.probe in s.ready then Scanning(p.cur, p.probe + 1)
        else if p.probe > p.cur + 1 then Swapping(p.cur, p.probe - 1) else Idle)
    case Swap =>
      && p.Swapping?
      && if s.maxReady == Some(p.cur) then s' == Goto(s, t, Idle).(maxReady := Some(p.target))
         else if s.maxReady == None || s.maxReady.value >= p.target then s' == Goto(s, t, Idle)
         else s' == Goto(s, t, Swapping(s.maxReady.value, p.target))
    case StartWait =>
      p.Idle? && s.sealed && s' == Goto(s, t, WaitSize)
    case ReadSize =>
      p.WaitSize? && s' == Goto(s, t, WaitCount(Valid(s)))
    case ReadCount =>
      p.WaitCount? && s' == Goto(s, t,
        if s.readyCnt > p.valid then WaitFailed else if s.readyCnt == p.valid then Waited(p.valid) else WaitSize)
  }

  ghost predicate Next(s: State, s': State) {
    exists t, a :: Step(s, t, a, s')
  }

  /** A freshly registered memtable. */
  ghost predicate Init(s: State) {
    s == State(s.cap, 0, false, {}, 0, {}, None, [], map[])
  }

  ghost predicate StepAt(run: seq<State>, i: nat)
    requires i + 1 < |run|
  {
    Next(run[i], run[i + 1])
  }

  /** Consecutive steps, from anywhere. */
  ghost predicate IsPath(run: seq<State>) {
    |run| > 0 && forall i :: 0 <= i < |run| - 1 ==> StepAt(run, i)
  }

  ghost predicate IsRun(run: seq<State>) {
    IsPath(run) && Init(run[0])
  }

  /* ---- Invariant ---- */

  ghost predicate AllReady(s: State, n: nat) {
    forall j :: 0 <= j < n ==> j in s.ready
  }

  ghost predicate PcOk(s: State, t: nat) {
    match PcOf(s, t)
    case Over => s.cap <= s.size
    case Reserved(i) => i < |s.given| && s.given[i] == t && i !in s.ready
    case Flagged(i) => i < |s.given| && s.given[i] == t && i in s.ready && i !in s.counted
    case Counted(i) => i < |s.given| && s.given[i] == t && i in s.ready
    case FirstSwap => 0 in s.ready
    case Scanning(m, n) => m < n && AllReady(s, n)
    case Swapping(m, n) => m < n && AllReady(s, n + 1)
    case WaitSize => s.sealed
    case WaitCount(v) => s.sealed && v == s.cap
    case Waited(v) => s.sealed && v == s.cap && AllReady(s, v)
    case WaitFailed => false
    case _ => true
  }

  /** The counters and flags agree. */
  ghost predicate CountsOk(s: State) {
    && |s.given| == Valid(s) && (s.sealed ==> s.cap <= s.size)
    && s.counted <= s.ready && s.readyCnt == |s.counted|
    && (forall i :: i in s.ready ==> i < |s.given|)
    && (s.maxReady.Some? ==> AllReady(s, s.maxReady.value + 1))
  }

  /** Every index handed out is published or still with the thread that got it. */
  ghost predicate GivenOk(s: State) {
    forall i :: 0 <= i < |s.given| ==> i in s.ready || PcOf(s, s.given[i]) == Reserved(i)
  }

  ghost predicate Inv(s: State) {
    CountsOk(s) && GivenOk(s) && forall t :: PcOk(s, t)
  }

  lemma CountedFits(s: State)
    requires Inv(s)
    ensures s.readyCnt <= Valid(s)
    ensures s.readyCnt == Valid(s) ==> AllReady(s, Valid(s))
  {
    FewBelow(s.counted, Valid(s));
  }

  lemma StepKeepsCounts(s: State, t: nat, a: Action, s': State)
    requires CountsOk(s) && PcOk(s, t) && Step(s, t, a, s')
    ensures CountsOk(s')
  {
  }

  lemma StepKeepsOwn(s: State, t: nat, a: Action, s': State)
    requires Inv(s) && Step(s, t, a, s')
    ensures PcOk(s', t)
  {
    assert PcOk(s, t);
    CountedFits(s);
  }

  /** Nothing that another thread relies on is ever taken back. */
  ghost predicate Grows(s: State, t: nat, s': State) {
    && s'.cap == s.cap && s.size <= s'.size && (s.sealed ==> s'.sealed)
    && s.ready <= s'.ready && s.given <= s'.given
    && (forall i :: i in s'.ready && i !in s.ready ==> PcOf(s, t) == Reserved(i))
    && (forall i :: i in s'.counted && i !in s.counted ==> PcOf(s, t) == Flagged(i))
    && forall u :: u != t ==> PcOf(s', u) == PcOf(s, u)
  }

  lemma StepGrows(s: State, t: nat, a: Action, s': State)
    requires Step(s, t, a, s')
    ensures Grows(s, t, s')
  {
  }

  /** A thread that holds an index publishes it with its next step. */
  lemma HolderPublishes(s: State, t: nat, a: Action, s': State)
    requires PcOf(s, t).Reserved? && Step(s, t, a, s')
    ensures PcOf(s, t).idx in s'.ready
  {
  }

  /** At most one index is handed out, and the thread that gets it holds it. */
  lemma HandsOutOne(s: State, t: nat, a: Action, s': State)
    requires Step(s, t, a, s') && |s.given| == Valid(s)
    ensures s'.given == s.given || (s'.given == s.given + [t] && PcOf(s', t) == Reserved(|s.given|))
  {
  }

  lemma StepKeepsGiven(s: State, t: nat, a: Action, s': State)
    requires GivenOk(s) && Step(s, t, a, s') && |s.given| == Valid(s)
    ensures GivenOk(s')
  {
    StepGrows(s, t, a, s');
    HandsOutOne(s, t, a, s');
    if PcOf(s, t).Reserved? {
      HolderPublishes(s, t, a, s');
    }
    forall i | 0 <= i < |s'.given| ensures i in s'.ready || PcOf(s', s'.given[i]) == Reserved(i) {
      if i < |s.given| {
        assert i in s.ready || PcOf(s, s.given[i]) == Reserved(i);
      }
    }
  }

  lemma StepKeepsOther(s: State, t: nat, s': State, u: nat)
    requires Inv(s) && Grows(s, t, s') && u != t
    ensures PcOk(s', u)
  {
    assert PcOk(s, u) && PcOk(s, t);
  }

  lemma StepKeepsInv(s: State, t: nat, a: Action, s': State)
    requires Inv(s) && Step(s, t, a, s')
    ensures Inv(s')
  {
    assert PcOk(s, t);
    StepKeepsCounts(s, t, a, s');
    StepKeepsGiven(s, t, a, s');
    StepGrows(s, t, a, s');
    forall u ensures PcOk(s', u) {
      if u == t {
        StepKeepsOwn(s, t, a, s');
      } else {
        StepKeepsOther(s, t, s', u);
      }
    }
  }

  lemma RunStepKeepsInv(run: seq<State>, i: nat)
    requires IsPath(run) && i + 1 < |run| && Inv(run[i])
    ensures Inv(run[i + 1])
  {
    assert StepAt(run, i);
    var t, a :| Step(run[i], t, a, run[i + 1]);
    StepKeepsInv(run[i], t, a, run[i + 1]);
  }

  lemma {:induction false} PathKeepsInv(run: seq<State>, i: nat)
    requires IsPath(run) && Inv(run[0]) && i < |run|
    ensures Inv(run[i])
  {
    if i > 0 {
      PathKeepsInv(run, i - 1);
      RunStepKeepsInv(run, i - 1);
    }
  }

  lemma RunKeepsInv(run: seq<State>, i: nat)
    requires IsRun(run) && i < |run|
    ensures Inv(run[i])
  {
    PathKeepsInv(run, i);
  }

  /* ---- Reservations and the wait for publication ---- */

  /** Two threads never work on the same row, and every row lies below capacity. */
  lemma RowsAreExclusive(run: seq<State>, i: nat, t: nat, u: nat)
    requires IsRun(run) && i < |run| && t != u
    requires PcOf(run[i], t).Reserved? || PcOf(run[i], t).Flagged? || PcOf(run[i], t).Counted?
    requires PcOf(run[i], u).Reserved? || PcOf(run[i], u).Flagged? || PcOf(run[i], u).Counted?
    ensures PcOf(run[i], t).idx != PcOf(run[i], u).idx && PcOf(run[i], t).idx < run[i].cap
  {
    RunKeepsInv(run, i);
    assert PcOk(run[i], t) && PcOk(run[i], u);
  }

  lemma PathStepGrows(run: seq<State>, i: nat)
    requires IsPath(run) && i + 1 < |run|
    ensures run[i].given <= run[i + 1].given && run[i].ready <= run[i + 1].ready && run[i].cap == run[i + 1].cap
    ensures run[i].sealed ==> run[i + 1].sealed
  {
    assert StepAt(run, i);
    var t, a :| Step(run[i], t, a, run[i + 1]);
    StepGrows(run[i], t, a, run[i + 1]);
  }

  /** An index, once handed out, belongs to the same thread for good, and a published row stays published. */
  lemma {:induction false} HandedOutOnce(run: seq<State>, i: nat, j: nat)
    requires IsPath(run) && i <= j < |run|
    ensures run[i].given <= run[j].given && run[i].ready <= run[j].ready && run[i].cap == run[j].cap
    ensures run[i].sealed ==> run[j].sealed
    decreases j
  {
    if i < j {
      HandedOutOnce(run, i, j - 1);
      PathStepGrows(run, j - 1);
    }
  }

  /** The flush worker never sees more rows counted than are valid, so the wait never errs. */
  lemma WaitNeverErrs(run: seq<State>, i: nat, t: nat)
    requires IsRun(run) && i < |run|
    ensures !PcOf(run[i], t).WaitFailed? && run[i].readyCnt <= Valid(run[i])
  {
    RunKeepsInv(run, i);
    assert PcOk(run[i], t);
    CountedFits(run[i]);
  }

  /** When the wait returns, every valid row is published, and nobody gets another row ever after. */
  lemma WaitIsFinal(run: seq<State>, i: nat, j: nat, t: nat)
    requires IsRun(run) && i <= j < |run| && PcOf(run[i], t).Waited?
    ensures PcOf(run[i], t).valid == run[j].cap == |run[j].given| && AllReady(run[j], run[j].cap)
    ensures run[j].given == run[i].given && forall u :: !PcOf(run[j], u).Reserved?
  {
    RunKeepsInv(run, i);
    RunKeepsInv(run, j);
    HandedOutOnce(run, i, j);
    assert PcOk(run[i], t);
    forall u ensures !PcOf(run[j], u).Reserved? {
      assert PcOk(run[j], u);
    }
  }

  /* ---- The contiguous ready range ---- */

  ghost predicate MaxAtMost(a: Option<nat>, b: Option<nat>) {
    a.Some? ==> b.Some? && a.value <= b.value
  }

  lemma StepRaisesMax(s: State, t: nat, a: Action, s': State)
    requires PcOk(s, t) && Step(s, t, a, s')
    ensures MaxAtMost(s.maxReady, s'.maxReady)
  {
  }

  lemma PathStepRaisesMax(run: seq<State>, i: nat)
    requires IsPath(run) && i + 1 < |run| && Inv(run[i])
    ensures MaxAtMost(run[i].maxReady, run[i + 1].maxReady)
  {
    assert StepAt(run, i);
    var t, a :| Step(run[i], t, a, run[i + 1]);
    assert PcOk(run[i], t);
    StepRaisesMax(run[i], t, a, run[i + 1]);
  }

  /** `max_ready_id` only grows, and every row at or below it is ready. */
  lemma {:induction false} MaxReadyIsSafe(run: seq<State>, i: nat, j: nat)
    requires IsRun(run) && i <= j < |run|
    ensures MaxAtMost(run[i].maxReady, run[j].maxReady)
    ensures run[j].maxReady.Some? ==> AllReady(run[j], run[j].maxReady.value + 1) && run[j].maxReady.value < run[j].cap
    decreases j
  {
    RunKeepsInv(run, j);
    if run[j].maxReady.Some? {
      assert run[j].maxReady.value in run[j].ready;
    }
    if i < j {
      MaxReadyIsSafe(run, i, j - 1);
      RunKeepsInv(run, j - 1);
      PathStepRaisesMax(run, j - 1);
    }
  }

  /** No thread at all can move `max_ready_id` past `m` any more. */
  ghost predicate CannotRaise(s: State, t: nat, m: nat) {
    match PcOf(s, t)
    case Reserved(i) => i != m + 1
    case Flagged(i) => i != m + 1
    case Counted(i) => i != m + 1
    case Scanning(_, _) => false
    case Swapping(_, _) => false
    case _ => true
  }

  ghost predicate Stuck(s: State, m: nat) {
    s.maxReady == Some(m) && m + 1 < s.size && forall t :: CannotRaise(s, t, m)
  }

  lemma StuckStep(s: State, t: nat, a: Action, s': State, m: nat)
    requires Stuck(s, m) && Step(s, t, a, s')
    ensures Stuck(s', m)
  {
    assert CannotRaise(s, t, m);
    forall u ensures CannotRaise(s', u, m) {
      assert CannotRaise(s, u, m);
    }
  }

  lemma StuckPathStep(run: seq<State>, i: nat, m: nat)
    requires IsPath(run) && i + 1 < |run| && Stuck(run[i], m)
    ensures Stuck(run[i + 1], m)
  {
    assert StepAt(run, i);
    var t, a :| Step(run[i], t, a, run[i + 1]);
    StuckStep(run[i], t, a, run[i + 1], m);
  }

  /** Once the successor's publisher has come and gone, `max_ready_id` lags for the rest of time. */
  lemma {:induction false} LagsForever(run: seq<State>, m: nat, j: nat)
    requires IsPath(run) && Stuck(run[0], m) && j < |run|
    ensures Stuck(run[j], m) && run[j].maxReady == Some(m)
  {
    if j > 0 {
      LagsForever(run, m, j - 1);
      StuckPathStep(run, j - 1, m);
    }
  }

  /**
    With nobody in flight, `max_ready_id` is the last ready row exactly when no row follows it;
    otherwise it is stuck, although all rows are ready.
   */
  lemma QuiescentMax(run: seq<State>, i: nat, m: nat)
    requires IsRun(run) && i < |run| && run[i].maxReady == Some(m) && forall t :: PcOf(run[i], t) == Idle
    ensures AllReady(run[i], Valid(run[i])) && m < Valid(run[i])
    ensures m + 1 < Valid(run[i]) ==> Stuck(run[i], m)
    ensures m + 1 == Valid(run[i]) <==> m + 1 !in run[i].ready
  {
    RunKeepsInv(run, i);
    var s := run[i];
    assert m in s.ready;
    forall j | 0 <= j < Valid(s) ensures j in s.ready {
      assert PcOf(s, s.given[j]) == Idle;
    }
  }

  lemma ExtendRun(run: seq<State>, t: nat, a: Action, s': State)
    requires IsRun(run) && Step(run[|run| - 1], t, a, s')
    ensures IsRun(run + [s'])
  {
    var more := run + [s'];
    forall i | 0 <= i < |more| - 1 ensures StepAt(more, i) {
      if i < |run| - 1 {
        assert StepAt(run, i);
      }
    }
  }

  function TwoReserved(cap: nat): State {
    State(cap, 2, false, {}, 0, {}, None, [0, 1], map[0 := Reserved(0), 1 := Reserved(1)])
  }

  lemma ReserveTwo(cap: nat) returns (run: seq<State>)
    requires cap >= 2
    ensures IsRun(run) && run[|run| - 1] == TwoReserved(cap)
  {
    var s := State(cap, 0, false, {}, 0, {}, None, [], map[]);
    run := [s];
    var s1 := Goto(s, 0, Saw);
    ExtendRun(run, 0, ReadSealed, s1);
    run := run + [s1];
    var s2 := Goto(s1, 0, Reserved(0)).(size := 1, given := [0]);
    ExtendRun(run, 0, FetchAdd, s2);
    run := run + [s2];
    var s3 := Goto(s2, 1, Saw);
    ExtendRun(run, 1, ReadSealed, s3);
    run := run + [s3];
    var s4 := Goto(s3, 1, Reserved(1)).(size := 2, given := [0, 1]);
    ExtendRun(run, 1, FetchAdd, s4);
    run := run + [s4];
    assert s4.pcs == TwoReserved(cap).pcs;
  }

  /** Thread `t` publishes row `i` while the ready range is still empty. */
  lemma PublishEarly(before: seq<State>, t: nat, i: nat) returns (run: seq<State>)
    requires IsRun(before) && PcOf(before[|before| - 1], t) == Reserved(i) && before[|before| - 1].maxReady == None
    ensures IsRun(run)
    ensures var s, s' := before[|before| - 1], run[|run| - 1];
      s' == Goto(s, t, Idle).(ready := s.ready + {i}, readyCnt := s.readyCnt + 1, counted := s.counted + {i},
                              maxReady := if i == 0 then Some(0) else None)
  {
    var s := before[|before| - 1];
    var s1 := Goto(s, t, Flagged(i)).(ready := s.ready + {i});
    ExtendRun(before, t, SetReady, s1);
    run := before + [s1];
    var s2 := Goto(s1, t, Counted(i)).(readyCnt := s.readyCnt + 1, counted := s.counted + {i});
    ExtendRun(run, t, AddReadyCnt, s2);
    run := run + [s2];
    var s3 := Goto(s2, t, if i == 0 then FirstSwap else Idle);
    ExtendRun(run, t, ReadMax, s3);
    run := run + [s3];
    if i == 0 {
      var s4 := Goto(s3, t, Idle).(maxReady := Some(0));
      ExtendRun(run, t, SwapFirst, s4);
      run := run + [s4];
    }
    assert run[|run| - 1].pcs == s.pcs[t := Idle];
  }

  /**
    The lag is real: two inserters whose rows are published in the opposite order leave every row
    ready and `max_ready_id` at the first one for good.
   */
  lemma LagHappens(cap: nat) returns (run: seq<State>)
    requires cap >= 2
    ensures IsRun(run)
    ensures var s := run[|run| - 1];
      s.cap == cap && Stuck(s, 0) && AllReady(s, 2) && s.size == 2 && forall t :: PcOf(s, t) == Idle
  {
    run := ReserveTwo(cap);
    run := PublishEarly(run, 1, 1);
    run := PublishEarly(run, 0, 0);
  }

  /* ---- Publications that do not overlap ---- */

  /** The thread has a row and is not done with it. */
  predicate Active(pc: Pc) {
    pc.Reserved? || pc.Flagged? || pc.Counted? || pc.FirstSwap? || pc.Scanning? || pc.Swapping?
  }

  ghost predicate OneAtATime(s: State) {
    forall t, u :: Active(PcOf(s, t)) && Active(PcOf(s, u)) ==> t == u
  }

  function LastOf(n: nat): Option<nat> {
    if n == 0 then None else Some(n - 1)
  }

  ghost predicate ReadyBelow(s: State, n: nat) {
    forall j: nat :: j in s.ready <==> j < n
  }

  /** All of the first `n` rows are published and nobody has another. */
  ghost predicate Settled(s: State, n: nat) {
    ReadyBelow(s, n) && |s.given| == n && s.maxReady == LastOf(n) && forall t :: !Active(PcOf(s, t))
  }

  /** Thread `t` is on its way with the next row, or with the last of the first `n`. */
  ghost predicate Busy(s: State, n: nat, t: nat) {
    && ReadyBelow(s, n) && (forall u :: u != t ==> !Active(PcOf(s, u)))
    && match PcOf(s, t)
       case Reserved(i) => i == n && |s.given| == n + 1 && s.maxReady == LastOf(n)
       case Flagged(i) => i + 1 == n == |s.given| && s.maxReady == LastOf(i)
       case Counted(i) => i + 1 == n == |s.given| && s.maxReady == LastOf(i)
       case FirstSwap => 1 == n == |s.given| && s.maxReady == None
       case Scanning(cur, probe) => cur + 2 == n == |s.given| && s.maxReady == Some(cur) && cur + 1 <= probe <= n
       case Swapping(cur, target) => cur + 2 == target + 1 == n == |s.given| && s.maxReady == Some(cur)
       case _ => false
  }

  ghost predicate InOrder(s: State) {
    (exists n :: Settled(s, n)) || exists n, t :: Busy(s, n, t)
  }

  lemma SettledStep(s: State, t: nat, a: Action, s': State, n: nat)
    requires Inv(s) && Settled(s, n) && Step(s, t, a, s')
    ensures Settled(s', n) || Busy(s', n, t)
  {
    StepGrows(s, t, a, s');
    assert !Active(PcOf(s, t));
    if Active(PcOf(s', t)) {
      assert Busy(s', n, t);
    }
  }

  lemma BusyOwnStep(s: State, t: nat, a: Action, s': State, n: nat)
    requires Inv(s) && Busy(s, n, t) && Step(s, t, a, s')
    ensures Settled(s', n) || Busy(s', n, t) || Busy(s', n + 1, t)
  {
    StepGrows(s, t, a, s');
    if PcOf(s, t).Reserved? {
      assert Busy(s', n + 1, t);
    } else if Active(PcOf(s', t)) {
      assert Busy(s', n, t);
    } else {
      assert Settled(s', n);
    }
  }

  lemma BusyOtherStep(s: State, t: nat, u: nat, a: Action, s': State, n: nat)
    requires Inv(s) && Busy(s, n, t) && Step(s, u, a, s') && u != t && OneAtATime(s')
    ensures Busy(s', n, t)
  {
    StepGrows(s, u, a, s');
    assert !Active(PcOf(s, u)) && Active(PcOf(s', t));
    assert !Active(PcOf(s', u));
  }

  lemma NextKeepsOrder(s: State, s': State)
    requires Inv(s) && InOrder(s) && Next(s, s') && OneAtATime(s')
    ensures InOrder(s')
  {
    var u, a :| Step(s, u, a, s');
    if n :| Settled(s, n) {
      SettledStep(s, u, a, s', n);
    } else {
      var n, t :| Busy(s, n, t);
      if u == t {
        BusyOwnStep(s, t, a, s', n);
      } else {
        BusyOtherStep(s, t, u, a, s', n);
      }
    }
  }

  lemma {:induction false} RunKeepsOrder(run: seq<State>, i: nat)
    requires IsRun(run) && i < |run| && forall k :: 0 <= k < |run| ==> OneAtATime(run[k])
    ensures InOrder(run[i])
  {
    if i == 0 {
      assert run[0].pcs == map[] && run[0].ready == {} && run[0].given == [];
      assert Settled(run[0], 0);
    } else {
      RunKeepsOrder(run, i - 1);
      RunKeepsInv(run, i - 1);
      assert StepAt(run, i - 1);
      NextKeepsOrder(run[i - 1], run[i]);
    }
  }

  /** If no thread reserves a row before another is done with its own, `max_ready_id` is the last row whenever nobody has one. */
  lemma NoLagWithoutOverlap(run: seq<State>, i: nat)
    requires IsRun(run) && i < |run| && forall k :: 0 <= k < |run| ==> OneAtATime(run[k])
    requires forall t :: !Active(PcOf(run[i], t))
    ensures AllReady(run[i], Valid(run[i]))
    ensures run[i].maxReady == if Valid(run[i]) == 0 then None else Some(Valid(run[i]) - 1)
  {
    RunKeepsOrder(run, i);
    RunKeepsInv(run, i);
    var n :| Settled(run[i], n);
  }

  /* ---- Sealing ---- */

  /** An index beyond capacity has been handed out: the memtable is sealed, or the thread that got one is about to seal it. */
  ghost predicate SealedWhenOver(s: State) {
    s.size > s.cap ==> s.sealed || exists t :: PcOf(s, t).Over?
  }

  lemma StepSealsWhenOver(s: State, t: nat, a: Action, s': State)
    requires SealedWhenOver(s) && Step(s, t, a, s')
    ensures SealedWhenOver(s') && (PcOf(s, t).Over? ==> s'.sealed)
  {
    if s'.size > s'.cap && !s'.sealed {
      if u :| PcOf(s, u).Over? {
        assert PcOf(s', u).Over?;
      } else {
        assert PcOf(s', t).Over?;
      }
    }
  }

  /** A memtable that is overfull is sealed once the threads that found it so have taken their next step. */
  lemma {:induction false} OverfullIsSealed(run: seq<State>, i: nat)
    requires IsRun(run) && i < |run|
    ensures run[i].size > run[i].cap ==> run[i].sealed || exists t :: PcOf(run[i], t).Over?
    ensures i + 1 < |run| ==> forall t :: PcOf(run[i], t).Over? && !PcOf(run[i + 1], t).Over? ==> run[i + 1].sealed
  {
    if i > 0 {
      OverfullIsSealed(run, i - 1);
      assert StepAt(run, i - 1);
      var t, a :| Step(run[i - 1], t, a, run[i]);
      StepSealsWhenOver(run[i - 1], t, a, run[i]);
    }
    if i + 1 < |run| {
      assert StepAt(run, i);
      var t, a :| Step(run[i], t, a, run[i + 1]);
      StepSealsWhenOver(run[i], t, a, run[i + 1]);
      StepGrows(run[i], t, a, run[i + 1]);
    }
  }

  /* ---- Progress ---- */

  ghost predicate CanMove(s: State, t: nat) {
    exists a, s' :: Step(s, t, a, s')
  }

  lemma Moves(s: State, t: nat, a: Action, s': State)
    requires Step(s, t, a, s')
    ensures CanMove(s, t)
  {
  }

  /** No thread ever waits for another inside a reservation or publication, or while polling: it can always take its next step. */
  lemma NobodyBlocks(s: State, t: nat)
    requires !PcOf(s, t).Waited? && !PcOf(s, t).WaitFailed?
    ensures CanMove(s, t)
  {
    match PcOf(s, t) {
      case Idle => Moves(s, t, ReadSealed, Goto(s, t, if s.sealed then Idle else Saw));
      case Saw =>
        if s.size < s.cap {
          Moves(s, t, FetchAdd, Goto(s, t, Reserved(s.size)).(size := s.size + 1, given := s.given + [t]));
        } else {
          Moves(s, t, FetchAdd, Goto(s, t, Over).(size := s.size + 1));
        }
      case Over => Moves(s, t, Seal, Goto(s, t, Idle).(sealed := true));
      case Reserved(i) => Moves(s, t, SetReady, Goto(s, t, Flagged(i)).(ready := s.ready + {i}));
      case Flagged(i) => Moves(s, t, AddReadyCnt, Goto(s, t, Counted(i)).(readyCnt := s.readyCnt + 1, counted := s.counted + {i}));
      case Counted(i) => Moves(s, t, ReadMax, Goto(s, t,
        if s.maxReady == None then (if i == 0 then FirstSwap else Idle)
        else if i == s.maxReady.value + 1 then Scanning(s.maxReady.value, i) else Idle));
      case FirstSwap => Moves(s, t, SwapFirst, Goto(s, t, Idle).(maxReady := if s.maxReady == None then Some(0) else s.maxReady));
      case Scanning(cur, probe) => Moves(s, t, Probe, Goto(s, t,
        if probe < s.cap && probe in s.ready then Scanning(cur, probe + 1)
        else if probe > cur + 1 then Swapping(cur, probe - 1) else Idle));
      case Swapping(cur, target) => SwapMoves(s, t);
      case WaitSize => Moves(s, t, ReadSize, Goto(s, t, WaitCount(Valid(s))));
      case WaitCount(v) => Moves(s, t, ReadCount, Goto(s, t,
        if s.readyCnt > v then WaitFailed else if s.readyCnt == v then Waited(v) else WaitSize));
    }
  }

  lemma SwapMoves(s: State, t: nat)
    requires PcOf(s, t).Swapping?
    ensures CanMove(s, t)
  {
    var p := PcOf(s, t);
    if s.maxReady == Some(p.cur) {
      Moves(s, t, Swap, Goto(s, t, Idle).(maxReady := Some(p.target)));
    } else if s.maxReady == None || s.maxReady.value >= p.target {
      Moves(s, t, Swap, Goto(s, t, Idle));
    } else {
      Moves(s, t, Swap, Goto(s, t, Swapping(s.maxReady.value, p.target)));
    }
  }
}
