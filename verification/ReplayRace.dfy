/**
  One tombstone replay racing one adoption whose cover holds the replayed memtable. Both run in
  small steps; a step that needs a lock it cannot have is not enabled.
 */
module ReplayRace {
  const MAX_VACUUM_REDO_RETRIES: nat := 4

  datatype Thread = Fetcher | Replayer

  /** A reader-writer lock by its holders. */
  datatype Lock = Lock(shared: set<Thread>, exclusive: set<Thread>) {
    predicate CanShare() {
      exclusive == {}
    }

    predicate CanExclude() {
      exclusive == {} && shared == {}
    }
  }

  /** Where the fetcher is: each value names what it does next. */
  datatype FetcherPc =
    | ScanCover          // take mt_lock shared and scan the memtables
    | LockCover          // take the cover memtable's vacuum_lock shared
    | EndScan            // release mt_lock
    | Collect            // copy the deletions into a group
    | Load               // load the new segment's latest bitmap
    | Commit             // union and install
    | LockRelease        // take mt_lock exclusive
    | Unlist             // drop the covered memtable from the list, release mt_lock
    | UnlockCover        // release vacuum_lock
    | FetcherDone

  datatype ReplayerPc =
    | Locate             // take mt_lock shared and look for the memtable
    | EndLocate          // release mt_lock
    | LockMemtable       // take vacuum_lock exclusive
    | ApplyMemtable      // set the bits, release vacuum_lock
    | ReadDisk           // load the latest bitmap of the segment that holds the sid
    | WriteDisk          // write it back with the bits set
    | Refresh            // have the worker refresh the pool, or be told to retry
    | ReplayerDone

  /** Bitmaps are the sets of masked row ids of the replayed sid. */
  datatype State = State(
    f: FetcherPc, r: ReplayerPc, mtLock: Lock, vacuumLock: Lock,
    listed: bool, memtable: set<int>, disk: set<int>,
    groups: set<int>, loaded: set<int>, displaced: set<int>, installed: bool, pool: set<int>,
    found: bool, scratch: set<int>, attempts: nat)

  ghost predicate Init(s: State) {
    && s.f == ScanCover && s.r == Locate && s.mtLock == Lock({}, {}) && s.vacuumLock == Lock({}, {})
    && s.listed && !s.installed && s.attempts == 0
  }

  ghost predicate FetcherStep(s: State, s': State) {
    match s.f
    case ScanCover =>
      s.mtLock.CanShare() && s' == s.(f := LockCover, mtLock := s.mtLock.(shared := s.mtLock.shared + {Fetcher}))
    case LockCover =>
      s.vacuumLock.CanShare() && s' == s.(f := EndScan, vacuumLock := s.vacuumLock.(shared := s.vacuumLock.shared + {Fetcher}))
    case EndScan =>
      s' == s.(f := Collect, mtLock := s.mtLock.(shared := s.mtLock.shared - {Fetcher}))
    case Collect =>
      s' == s.(f := Load, groups := s.memtable)
    case Load =>
      s' == s.(f := Commit, loaded := s.disk)
    case Commit =>
      s' == s.(f := LockRelease, installed := true, pool := s.loaded + s.displaced + s.groups)
    case LockRelease =>
      s.mtLock.CanExclude() && s' == s.(f := Unlist, mtLock := s.mtLock.(exclusive := {Fetcher}))
    case Unlist =>
      s' == s.(f := UnlockCover, listed := false, mtLock := s.mtLock.(exclusive := {}))
    case UnlockCover =>
      s' == s.(f := FetcherDone, vacuumLock := s.vacuumLock.(shared := s.vacuumLock.shared - {Fetcher}))
    case FetcherDone => false
  }

  ghost predicate ReplayerStep(s: State, s': State, tids: set<int>) {
    match s.r
    case Locate =>
      s.mtLock.CanShare()
      && s' == s.(r := EndLocate, found := s.listed, mtLock := s.mtLock.(shared := s.mtLock.shared + {Replayer}))
    case EndLocate =>
      s' == s.(r := if s.found then LockMemtable else ReadDisk, mtLock := s.mtLock.(shared := s.mtLock.shared - {Replayer}))
    case LockMemtable =>
      s.vacuumLock.CanExclude() && s' == s.(r := ApplyMemtable, vacuumLock := s.vacuumLock.(exclusive := {Replayer}))
    case ApplyMemtable =>
      s' == s.(r := ReadDisk, memtable := s.memtable + tids, vacuumLock := s.vacuumLock.(exclusive := {}))
    case ReadDisk =>
      s' == s.(r := WriteDisk, scratch := s.disk)
    case WriteDisk =>
      s' == s.(r := Refresh, disk := s.scratch + tids)
    case Refresh =>
      if s.installed then s' == s.(r := ReplayerDone, pool := s.pool + s.disk)
      else s' == s.(r := if s.attempts + 1 < MAX_VACUUM_REDO_RETRIES then ReadDisk else ReplayerDone, attempts := s.attempts + 1)
    case ReplayerDone => false
  }

  ghost predicate Step(s: State, s': State, tids: set<int>) {
    FetcherStep(s, s') || ReplayerStep(s, s', tids)
  }

  ghost predicate StepAt(run: seq<State>, i: nat, tids: set<int>)
    requires i + 1 < |run|
  {
    Step(run[i], run[i + 1], tids)
  }

  ghost predicate IsRun(run: seq<State>, tids: set<int>) {
    |run| > 0 && Init(run[0]) && forall i :: 0 <= i < |run| - 1 ==> StepAt(run, i, tids)
  }

  /* ---- What every run keeps ---- */

  predicate BeforeCollect(f: FetcherPc) {
    f == ScanCover || f == LockCover || f == EndScan || f == Collect
  }

  predicate HoldsCover(f: FetcherPc) {
    f != ScanCover && f != LockCover && f != FetcherDone
  }

  predicate PastMemtable(r: ReplayerPc) {
    r == ReadDisk || r == WriteDisk || r == Refresh || r == ReplayerDone
  }

  predicate HasInstalled(f: FetcherPc) {
    f == LockRelease || f == Unlist || f == UnlockCover || f == FetcherDone
  }

  /** Every lock is held by exactly the threads that have taken and not released it. */
  ghost predicate LocksMatch(s: State) {
    && (Fetcher in s.mtLock.shared <==> s.f == LockCover || s.f == EndScan)
    && (Fetcher in s.mtLock.exclusive <==> s.f == Unlist)
    && (Replayer in s.mtLock.shared <==> s.r == EndLocate)
    && Replayer !in s.mtLock.exclusive
    && (Fetcher in s.vacuumLock.shared <==> HoldsCover(s.f))
    && Fetcher !in s.vacuumLock.exclusive
    && (Replayer in s.vacuumLock.exclusive <==> s.r == ApplyMemtable)
    && Replayer !in s.vacuumLock.shared
    && (s.r == ApplyMemtable ==> !HoldsCover(s.f))
  }

  /** The replayed rows are, or will be, in the fetcher's group. */
  ghost predicate InGroup(s: State, tids: set<int>) {
    if BeforeCollect(s.f) then tids <= s.memtable else tids <= s.groups
  }

  ghost predicate Inv(s: State, tids: set<int>) {
    && LocksMatch(s)
    && (s.installed <==> HasInstalled(s.f))
    && (s.listed <==> s.f != UnlockCover && s.f != FetcherDone)
    && (s.r == EndLocate && !s.found ==> s.installed)
    && (HoldsCover(s.f) && !BeforeCollect(s.f) ==> s.groups == s.memtable)
    && (s.installed ==> s.groups <= s.pool)
    && (s.r == Refresh ==> tids <= s.disk)
    && (PastMemtable(s.r) && !s.installed ==> InGroup(s, tids))
    && (s.r == ReplayerDone ==> InGroup(s, tids) || (s.installed && tids <= s.pool))
    && (s.r != ReplayerDone ==> s.attempts < MAX_VACUUM_REDO_RETRIES)
    && (s.r == ReplayerDone ==> s.attempts == MAX_VACUUM_REDO_RETRIES || (s.installed && s.disk <= s.pool))
  }

  lemma FetcherKeepsInv(s: State, s': State, tids: set<int>)
    requires Inv(s, tids) && FetcherStep(s, s')
    ensures Inv(s', tids)
  {
  }

  lemma ReplayerKeepsInv(s: State, s': State, tids: set<int>)
    requires Inv(s, tids) && ReplayerStep(s, s', tids)
    ensures Inv(s', tids)
  {
  }

  lemma {:induction false} RunKeepsInv(run: seq<State>, k: nat, tids: set<int>)
    requires IsRun(run, tids) && k < |run|
    ensures Inv(run[k], tids)
  {
    if k > 0 {
      RunKeepsInv(run, k - 1, tids);
      assert StepAt(run, k - 1, tids);
      if FetcherStep(run[k - 1], run[k]) {
        FetcherKeepsInv(run[k - 1], run[k], tids);
      } else {
        ReplayerKeepsInv(run[k - 1], run[k], tids);
      }
    }
  }

  /* ---- What becomes of the masks there were ---- */

  /** `now` is what was masked, perhaps with the replayed rows. */
  ghost predicate Within(was: set<int>, now: set<int>, tids: set<int>) {
    was <= now <= was + tids
  }

  /** All that was masked before: on disk, in the memtable and in the displaced segment. */
  function MaskedAtFirst(s0: State): set<int> {
    s0.disk + s0.memtable + s0.displaced
  }

  ghost predicate Carried(s0: State, s: State, tids: set<int>) {
    && s.displaced == s0.displaced && Within(s0.disk, s.disk, tids) && Within(s0.memtable, s.memtable, tids)
    && (s.r == WriteDisk ==> s.scratch == s.disk)
    && (s.r == Refresh || s.r == ReplayerDone ==> tids <= s.disk)
    && (!BeforeCollect(s.f) ==> Within(s0.memtable, s.groups, tids))
    && (!BeforeCollect(s.f) && s.f != Load ==> Within(s0.disk, s.loaded, tids))
    && (s.installed ==> Within(MaskedAtFirst(s0), s.pool, tids))
  }

  lemma FetcherCarries(s0: State, s: State, s': State, tids: set<int>)
    requires Inv(s, tids) && Carried(s0, s, tids) && FetcherStep(s, s')
    ensures Carried(s0, s', tids) && s'.disk == s.disk && s'.memtable == s.memtable && (s.installed ==> s'.pool == s.pool)
  {
  }

  lemma ReplayerCarries(s0: State, s: State, s': State, tids: set<int>)
    requires Inv(s, tids) && Carried(s0, s, tids) && ReplayerStep(s, s', tids)
    ensures Carried(s0, s', tids) && s.disk <= s'.disk && s.memtable <= s'.memtable && (s.installed ==> s.pool <= s'.pool)
  {
  }

  lemma {:induction false} RunCarries(run: seq<State>, k: nat, tids: set<int>)
    requires IsRun(run, tids) && k < |run|
    ensures Carried(run[0], run[k], tids)
  {
    if k > 0 {
      RunCarries(run, k - 1, tids);
      RunKeepsInv(run, k - 1, tids);
      assert StepAt(run, k - 1, tids);
      if FetcherStep(run[k - 1], run[k]) {
        FetcherCarries(run[0], run[k - 1], run[k], tids);
      } else {
        ReplayerCarries(run[0], run[k - 1], run[k], tids);
      }
    }
  }

  /* ---- Main results ---- */

  /**
    However the two interleave, once both have finished the installed segment masks exactly the rows
    that were masked before, on disk, in the memtable or in the displaced segment, and the replayed
    ones; so does the file on disk, without what only memory knew. The memtable is off the list, and no
    lock is held.
   */
  lemma ReplayIsNotLost(run: seq<State>, k: nat, tids: set<int>)
    requires IsRun(run, tids) && k < |run| && run[k].f == FetcherDone && run[k].r == ReplayerDone
    ensures run[k].installed && !run[k].listed
    ensures run[k].pool == run[0].disk + run[0].memtable + run[0].displaced + tids
    ensures run[k].disk == run[0].disk + tids
    ensures run[k].mtLock.CanExclude() && run[k].vacuumLock.CanExclude()
  {
    RunKeepsInv(run, k, tids);
    RunCarries(run, k, tids);
    LocksHeldByTwo(run, k, tids);
  }

  /** No step takes a bit from the disk, the memtable or the installed segment. */
  lemma NoBitIsLost(run: seq<State>, k: nat, tids: set<int>)
    requires IsRun(run, tids) && k + 1 < |run|
    ensures run[k].disk <= run[k + 1].disk && run[k].memtable <= run[k + 1].memtable
    ensures run[k].installed ==> run[k + 1].installed && run[k].pool <= run[k + 1].pool
  {
    RunKeepsInv(run, k, tids);
    RunCarries(run, k, tids);
    assert StepAt(run, k, tids);
    if FetcherStep(run[k], run[k + 1]) {
      FetcherCarries(run[0], run[k], run[k + 1], tids);
    } else {
      ReplayerCarries(run[0], run[k], run[k + 1], tids);
    }
  }

  /** The memtable is off the list, and the replay has not found it. */
  ghost predicate TooLate(s: State) {
    !s.listed && (s.r == Locate || (!s.found && s.r != LockMemtable && s.r != ApplyMemtable))
  }

  lemma StepStaysTooLate(s: State, s': State, tids: set<int>)
    requires Inv(s, tids) && TooLate(s) && Step(s, s', tids)
    ensures TooLate(s') && s'.memtable == s.memtable
  {
  }

  /** A replay that comes after the memtable has left the list does not touch it. */
  lemma {:induction false} LateReplaySparesMemtable(run: seq<State>, i: nat, k: nat, tids: set<int>)
    requires IsRun(run, tids) && i <= k < |run| && run[i].r == Locate && !run[i].listed
    ensures TooLate(run[k]) && run[k].memtable == run[i].memtable
    decreases k
  {
    if i < k {
      LateReplaySparesMemtable(run, i, k - 1, tids);
      RunKeepsInv(run, k - 1, tids);
      assert StepAt(run, k - 1, tids);
      StepStaysTooLate(run[k - 1], run[k], tids);
    }
  }

  /** The replay ends with the pool refreshed from disk, or after it was told to retry four times. */
  lemma RefreshedOrTriedFourTimes(run: seq<State>, k: nat, tids: set<int>)
    requires IsRun(run, tids) && k < |run| && run[k].r == ReplayerDone
    ensures run[k].attempts == 4 || (run[k].installed && run[k].disk <= run[k].pool)
  {
    RunKeepsInv(run, k, tids);
  }

  /** From the copy of the deletions to the release of the cover, the memtable's bitmap is the copy. */
  lemma GroupStaysCurrent(run: seq<State>, k: nat, tids: set<int>)
    requires IsRun(run, tids) && k < |run| && HoldsCover(run[k].f) && !BeforeCollect(run[k].f)
    ensures run[k].groups == run[k].memtable
  {
    RunKeepsInv(run, k, tids);
  }

  /** The two never wait for each other: unless both have finished, some step is enabled. */
  lemma NeverStuck(run: seq<State>, k: nat, tids: set<int>) returns (s': State)
    requires IsRun(run, tids) && k < |run| && !(run[k].f == FetcherDone && run[k].r == ReplayerDone)
    ensures Step(run[k], s', tids)
  {
    RunKeepsInv(run, k, tids);
    LocksHeldByTwo(run, k, tids);
    var s := run[k];
    match s.f {
      case ScanCover => s' := s.(f := LockCover, mtLock := s.mtLock.(shared := s.mtLock.shared + {Fetcher}));
      case LockCover =>
        s' := if s.r == ApplyMemtable
              then s.(r := ReadDisk, memtable := s.memtable + tids, vacuumLock := s.vacuumLock.(exclusive := {}))
              else s.(f := EndScan, vacuumLock := s.vacuumLock.(shared := s.vacuumLock.shared + {Fetcher}));
      case EndScan => s' := s.(f := Collect, mtLock := s.mtLock.(shared := s.mtLock.shared - {Fetcher}));
      case Collect => s' := s.(f := Load, groups := s.memtable);
      case Load => s' := s.(f := Commit, loaded := s.disk);
      case Commit => s' := s.(f := LockRelease, installed := true, pool := s.loaded + s.displaced + s.groups);
      case LockRelease =>
        s' := if s.r == EndLocate
              then s.(r := if s.found then LockMemtable else ReadDisk, mtLock := s.mtLock.(shared := s.mtLock.shared - {Replayer}))
              else s.(f := Unlist, mtLock := s.mtLock.(exclusive := {Fetcher}));
      case Unlist => s' := s.(f := UnlockCover, listed := false, mtLock := s.mtLock.(exclusive := {}));
      case UnlockCover => s' := s.(f := FetcherDone, vacuumLock := s.vacuumLock.(shared := s.vacuumLock.shared - {Fetcher}));
      case FetcherDone => s' := ReplayerMove(s, tids);
    }
  }

  /** The replayer's move when nobody else holds a lock. */
  lemma ReplayerMove(s: State, tids: set<int>) returns (s': State)
    requires s.r != ReplayerDone
    requires s.r == Locate ==> s.mtLock.CanShare()
    requires s.r == LockMemtable ==> s.vacuumLock.CanExclude()
    ensures ReplayerStep(s, s', tids)
  {
    match s.r {
      case Locate => s' := s.(r := EndLocate, found := s.listed, mtLock := s.mtLock.(shared := s.mtLock.shared + {Replayer}));
      case EndLocate => s' := s.(r := if s.found then LockMemtable else ReadDisk, mtLock := s.mtLock.(shared := s.mtLock.shared - {Replayer}));
      case LockMemtable => s' := s.(r := ApplyMemtable, vacuumLock := s.vacuumLock.(exclusive := {Replayer}));
      case ApplyMemtable => s' := s.(r := ReadDisk, memtable := s.memtable + tids, vacuumLock := s.vacuumLock.(exclusive := {}));
      case ReadDisk => s' := s.(r := WriteDisk, scratch := s.disk);
      case WriteDisk => s' := s.(r := Refresh, disk := s.scratch + tids);
      case Refresh =>
        s' := if s.installed then s.(r := ReplayerDone, pool := s.pool + s.disk)
              else s.(r := if s.attempts + 1 < MAX_VACUUM_REDO_RETRIES then ReadDisk else ReplayerDone, attempts := s.attempts + 1);
    }
  }

  /** Only the two threads ever hold the locks. */
  lemma LocksHeldByTwo(run: seq<State>, k: nat, tids: set<int>)
    requires IsRun(run, tids) && k < |run|
    ensures var s := run[k];
      && (s.mtLock.CanShare() <==> s.f != Unlist)
      && (s.mtLock.CanExclude() <==> s.f != Unlist && s.f != LockCover && s.f != EndScan && s.r != EndLocate)
      && (s.vacuumLock.CanShare() <==> s.r != ApplyMemtable)
      && (s.vacuumLock.CanExclude() <==> s.r != ApplyMemtable && !HoldsCover(s.f))
  {
    RunKeepsInv(run, k, tids);
    var s := run[k];
    EmptyIff(s.mtLock.shared);
    EmptyIff(s.mtLock.exclusive);
    EmptyIff(s.vacuumLock.shared);
    EmptyIff(s.vacuumLock.exclusive);
  }

  lemma EmptyIff(threads: set<Thread>)
    ensures threads == {} <==> Fetcher !in threads && Replayer !in threads
  {
    if t :| t in threads {
      assert t == Fetcher || t == Replayer;
    }
  }

  function FetcherStepsLeft(f: FetcherPc): nat {
    match f
    case ScanCover => 9 case LockCover => 8 case EndScan => 7 case Collect => 6 case Load => 5
    case Commit => 4 case LockRelease => 3 case Unlist => 2 case UnlockCover => 1 case FetcherDone => 0
  }

  function ReplayerStepsLeft(r: ReplayerPc, attempts: nat): int {
    match r
    case Locate => 16 case EndLocate => 15 case LockMemtable => 14 case ApplyMemtable => 13
    case ReadDisk => 3 * (MAX_VACUUM_REDO_RETRIES - attempts)
    case WriteDisk => 3 * (MAX_VACUUM_REDO_RETRIES - attempts) - 1
    case Refresh => 3 * (MAX_VACUUM_REDO_RETRIES - attempts) - 2
    case ReplayerDone => 0
  }

  function StepsLeft(s: State): int {
    FetcherStepsLeft(s.f) + ReplayerStepsLeft(s.r, s.attempts)
  }

  lemma FetcherAdvances(s: State, s': State)
    requires FetcherStep(s, s')
    ensures FetcherStepsLeft(s'.f) < FetcherStepsLeft(s.f) && s'.r == s.r && s'.attempts == s.attempts
  {
  }

  lemma ReplayerAdvances(s: State, s': State, tids: set<int>)
    requires ReplayerStep(s, s', tids) && s.attempts < MAX_VACUUM_REDO_RETRIES
    ensures 0 <= ReplayerStepsLeft(s'.r, s'.attempts) < ReplayerStepsLeft(s.r, s.attempts) && s'.f == s.f
  {
  }

  /** Every run ends: there are never more than 25 steps, so one that cannot be extended has finished both. */
  lemma {:induction false} RunsEnd(run: seq<State>, k: nat, tids: set<int>)
    requires IsRun(run, tids) && k < |run|
    ensures 0 <= ReplayerStepsLeft(run[k].r, run[k].attempts) && StepsLeft(run[k]) <= 25 - k
    decreases k
  {
    if k > 0 {
      RunsEnd(run, k - 1, tids);
      RunKeepsInv(run, k - 1, tids);
      assert StepAt(run, k - 1, tids);
      if FetcherStep(run[k - 1], run[k]) {
        FetcherAdvances(run[k - 1], run[k]);
      } else {
        ReplayerAdvances(run[k - 1], run[k], tids);
      }
    }
  }
}
