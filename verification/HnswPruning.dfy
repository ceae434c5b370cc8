/**
  Neighbor selection of the HNSW graph with cached `closer` flags.

  The flag of a candidate is visible through every list the candidate is on; `closer` is the set
  of candidates whose flag is on. Lists are kept in descending order and consumed from the back,
  so the part of a list that has been consumed is always a suffix of it.
 */
module HnswPruning {

  datatype Candidate = Candidate(element: nat, distance: real)

  ghost predicate DistinctElements(c: seq<Candidate>) {
    forall i, j :: 0 <= i < j < |c| ==> c[i].element != c[j].element
  }

  lemma HeadAndTail<T>(s: seq<T>)
    requires s != []
    ensures s[0] in s && forall y :: y in s <==> y == s[0] || y in s[1..]
  {
    assert s == [s[0]] + s[1..];
  }

  /* ---- Deterministic order ---- */

  /** `a` is listed before `b`: farther first, ties by the larger element. */
  predicate Before(a: Candidate, b: Candidate) {
    a.distance > b.distance || (a.distance == b.distance && a.element > b.element)
  }

  ghost predicate Descending(s: seq<Candidate>) {
    forall i, j :: 0 <= i < j < |s| ==> Before(s[i], s[j])
  }

  function InsertCandidate(x: Candidate, s: seq<Candidate>): (r: seq<Candidate>)
    ensures |r| == |s| + 1
  {
    if s == [] || Before(x, s[0]) then [x] + s else [s[0]] + InsertCandidate(x, s[1..])
  }

  /** The list sort; elements are distinct, so the order is total and the result unique. */
  function SortDescending(s: seq<Candidate>): (r: seq<Candidate>)
    ensures |r| == |s|
  {
    if s == [] then [] else InsertCandidate(s[0], SortDescending(s[1..]))
  }

  lemma {:induction false} InsertIsDescending(x: Candidate, s: seq<Candidate>)
    requires Descending(s) && forall y :: y in s ==> y.element != x.element
    ensures Descending(InsertCandidate(x, s))
    ensures forall y :: y in InsertCandidate(x, s) <==> y == x || y in s
  {
    if s != [] && !Before(x, s[0]) {
      HeadAndTail(s);
      InsertIsDescending(x, s[1..]);
      forall y | y in s[1..] ensures Before(s[0], y) {
        var k :| 0 <= k < |s[1..]| && s[1..][k] == y;
        assert s[k + 1] == y;
      }
    }
  }

  lemma {:induction false} SortIsDescending(s: seq<Candidate>)
    requires DistinctElements(s)
    ensures Descending(SortDescending(s))
    ensures forall y :: y in SortDescending(s) <==> y in s
  {
    if s != [] {
      SortIsDescending(s[1..]);
      HeadAndTail(s);
      InsertIsDescending(s[0], SortDescending(s[1..]));
    }
  }

  lemma DistinctAfterSort(c: seq<Candidate>)
    requires DistinctElements(c)
    ensures DistinctElements(SortDescending(c))
  {
    SortIsDescending(c);
    var s := SortDescending(c);
    forall i, j | 0 <= i < j < |s| ensures s[i].element != s[j].element {
      assert Before(s[i], s[j]) && s[i] in c && s[j] in c;
    }
  }

  /** A descending list is determined by its members. */
  lemma {:induction false} DescendingIsUnique(a: seq<Candidate>, b: seq<Candidate>)
    requires Descending(a) && Descending(b) && forall y :: y in a <==> y in b
    ensures a == b
  {
    if b != [] {
      HeadAndTail(b);
    }
    if a != [] {
      assert a[0] in b && b[0] in a;
      assert a[0] == b[0];
      HeadAndTail(a);
      DescendingIsUnique(a[1..], b[1..]);
    }
  }

  /* ---- Recomputing every flag ---- */

  /** No member of `r` is as close to `e` as the query is. */
  predicate Closer(d: (nat, nat) -> real, e: Candidate, r: seq<Candidate>) {
    forall y | y in r :: d(e.element, y.element) > e.distance
  }

  /** What is kept after consuming all of `s`, every flag computed from scratch. */
  function Kept(d: (nat, nat) -> real, s: seq<Candidate>): seq<Candidate> {
    if s == [] then [] else
      var r := Kept(d, s[1..]);
      if Closer(d, s[0], r) then r + [s[0]] else r
  }

  function Dropped(d: (nat, nat) -> real, s: seq<Candidate>): seq<Candidate> {
    if s == [] then [] else
      var wd := Dropped(d, s[1..]);
      if Closer(d, s[0], Kept(d, s[1..])) then wd else wd + [s[0]]
  }

  /** How much of `w` is left when the loop stops: nothing, or as soon as `lm` are kept. */
  function Unconsumed(d: (nat, nat) -> real, w: seq<Candidate>, n: nat, lm: nat): (m: nat)
    requires n <= |w|
    ensures m <= n
  {
    if n == 0 || |Kept(d, w[n..])| == lm then n else Unconsumed(d, w, n - 1, lm)
  }

  lemma {:induction false} KeptAndDropped(d: (nat, nat) -> real, s: seq<Candidate>)
    ensures |Kept(d, s)| + |Dropped(d, s)| == |s|
    ensures forall y :: y in s <==> y in Kept(d, s) || y in Dropped(d, s)
  {
    if s != [] {
      HeadAndTail(s);
      KeptAndDropped(d, s[1..]);
    }
  }

  datatype Selection = Selection(neighbors: seq<Candidate>, pruned: Candidate)

  /** Selection with no cache at all. */
  function SelectAfresh(d: (nat, nat) -> real, w: seq<Candidate>, lm: nat): Selection
    requires lm < |w|
  {
    var n := Unconsumed(d, w, |w|, lm);
    var r, wd := Kept(d, w[n..]), Dropped(d, w[n..]);
    var fill := if lm < |r| then 0 else if lm - |r| < |wd| then lm - |r| else |wd|;
    Selection(r + wd[..fill], if fill < |wd| then wd[fill] else w[0])
  }

  /** Every flag is the one that recomputing all flags in this order would give. */
  ghost predicate FlagsCurrent(d: (nat, nat) -> real, s: seq<Candidate>, closer: set<Candidate>) {
    s == [] || ((s[0] in closer <==> Closer(d, s[0], Kept(d, s[1..]))) && FlagsCurrent(d, s[1..], closer))
  }

  lemma {:induction false} OtherFlagsDoNotMatter(d: (nat, nat) -> real, s: seq<Candidate>, a: set<Candidate>, b: set<Candidate>)
    requires FlagsCurrent(d, s, a) && forall y :: y in s ==> (y in a <==> y in b)
    ensures FlagsCurrent(d, s, b)
  {
    if s != [] {
      OtherFlagsDoNotMatter(d, s[1..], a, b);
    }
  }

  /* ---- Leaving one candidate out ---- */

  function Without(s: seq<Candidate>, x: Candidate): seq<Candidate> {
    if s == [] then [] else if s[0] == x then Without(s[1..], x) else [s[0]] + Without(s[1..], x)
  }

  lemma {:induction false} WithoutKeepsDescending(s: seq<Candidate>, x: Candidate)
    requires Descending(s)
    ensures Descending(Without(s, x))
    ensures forall y :: y in Without(s, x) <==> y in s && y != x
  {
    if s != [] {
      HeadAndTail(s);
      WithoutKeepsDescending(s[1..], x);
      forall y | y in s[1..] ensures Before(s[0], y) {
        var k :| 0 <= k < |s[1..]| && s[1..][k] == y;
        assert s[k + 1] == y;
      }
    }
  }

  lemma {:induction false} WithoutAbsent(s: seq<Candidate>, x: Candidate)
    requires x !in s
    ensures Without(s, x) == s
  {
    if s != [] {
      HeadAndTail(s);
      WithoutAbsent(s[1..], x);
    }
  }

  /** Sorting with a candidate and leaving it out again is sorting without it. */
  lemma SortThenLeaveOut(c: seq<Candidate>, rest: seq<Candidate>, x: Candidate)
    requires DistinctElements(c) && DistinctElements(rest)
    requires forall y :: y in rest <==> y in c && y != x
    ensures Without(SortDescending(c), x) == SortDescending(rest)
  {
    SortIsDescending(c);
    SortIsDescending(rest);
    WithoutKeepsDescending(SortDescending(c), x);
    DescendingIsUnique(Without(SortDescending(c), x), SortDescending(rest));
  }

  /**
    The cached flags, seen from a list that already contains the new candidate `x`: each other
    candidate carries the flag it had when `x` was not there.
   */
  ghost predicate CacheValid(d: (nat, nat) -> real, s: seq<Candidate>, x: Candidate, closer: set<Candidate>) {
    s == [] ||
    (&& (s[0] != x ==> (s[0] in closer <==> Closer(d, s[0], Kept(d, Without(s[1..], x)))))
     && CacheValid(d, s[1..], x, closer))
  }

  lemma {:induction false} CacheAt(d: (nat, nat) -> real, s: seq<Candidate>, x: Candidate, closer: set<Candidate>, i: nat)
    requires CacheValid(d, s, x, closer) && i < |s| && s[i] != x
    ensures s[i] in closer <==> Closer(d, s[i], Kept(d, Without(s[i + 1..], x)))
  {
    if i > 0 {
      assert s[1..][i..] == s[i + 1..];
      CacheAt(d, s[1..], x, closer, i - 1);
    }
  }

  /** Flags current without `x` are a valid cache for the list with `x`. */
  lemma {:induction false} CurrentFlagsAreCache(d: (nat, nat) -> real, s: seq<Candidate>, x: Candidate, closer: set<Candidate>)
    requires FlagsCurrent(d, Without(s, x), closer)
    ensures CacheValid(d, s, x, closer)
  {
    if s != [] {
      if s[0] != x {
        assert ([s[0]] + Without(s[1..], x))[1..] == Without(s[1..], x);
      }
      CurrentFlagsAreCache(d, s[1..], x, closer);
    }
  }

  /** A candidate that was not kept influences no other flag, so leaving it out keeps them current. */
  lemma {:induction false} DroppingKeepsFlags(d: (nat, nat) -> real, s: seq<Candidate>, x: Candidate, closer: set<Candidate>)
    requires FlagsCurrent(d, s, closer) && x !in closer
    ensures Kept(d, Without(s, x)) == Kept(d, s) && FlagsCurrent(d, Without(s, x), closer)
  {
    if s != [] {
      DroppingKeepsFlags(d, s[1..], x, closer);
      if s[0] != x {
        assert ([s[0]] + Without(s[1..], x))[1..] == Without(s[1..], x);
      }
    }
  }

  /* ---- The cached selection ---- */

  /**
    How the list kept so far differs from the list that was kept when `x` was not there: only
    candidates in `added` are new, and none is missing unless `removedAny` says so.
   */
  ghost predicate CacheStep(d: (nat, nat) -> real, done: seq<Candidate>, x: Candidate,
                            added: seq<Candidate>, removedAny: bool) {
    var now, before := Kept(d, done), Kept(d, Without(done, x));
    && (forall e :: e in now ==> e in before || e in added)
    && (forall e :: e in added ==> e in now)
    && (!removedAny ==> forall e :: e in before ==> e in now)
    && (added == [] ==> !removedAny)
    && (added != [] ==> x in done)
  }

  function SetFlag(closer: set<Candidate>, e: Candidate, flag: bool): set<Candidate> {
    if flag then closer + {e} else closer - {e}
  }

  /** Settles the flag of the next candidate, recomputing only what the cache cannot answer. */
  method SettleFlag(d: (nat, nat) -> real, e: Candidate, ghost done: seq<Candidate>, r: seq<Candidate>,
                    mustCalculate: bool, newCandidate: Candidate, closer: set<Candidate>,
                    added: seq<Candidate>, removedAny: bool)
    returns (closer': set<Candidate>, added': seq<Candidate>, removedAny': bool)
    requires r == Kept(d, done) && e !in done
    requires !mustCalculate ==> CacheStep(d, done, newCandidate, added, removedAny)
    requires !mustCalculate && e != newCandidate ==>
      (e in closer <==> Closer(d, e, Kept(d, Without(done, newCandidate))))
    ensures e in closer' <==> Closer(d, e, r)
    ensures forall y :: y != e ==> (y in closer' <==> y in closer)
    ensures !mustCalculate ==> CacheStep(d, [e] + done, newCandidate, added', removedAny')
  {
    closer', added', removedAny' := closer, added, removedAny;
    assert ([e] + done)[1..] == done;
    if mustCalculate {
      closer' := SetFlag(closer, e, Closer(d, e, r));
    } else if |added| > 0 {
      if e in closer {
        closer' := SetFlag(closer, e, Closer(d, e, added));
        if e !in closer' {
          removedAny' := true;
        }
      } else if removedAny {
        closer' := SetFlag(closer, e, Closer(d, e, r));
        if e in closer' {
          added' := added + [e];
        }
      }
    } else if e == newCandidate {
      closer' := SetFlag(closer, e, Closer(d, e, r));
      if e in closer' {
        added' := added + [e];
      }
    }
  }

  /** "Keep pruned connections": tops `kept` up to `lm` from the front of `wd`. */
  method KeepPruned(kept: seq<Candidate>, wd: seq<Candidate>, lm: nat) returns (r: seq<Candidate>, wdoff: nat)
    requires |kept| <= lm
    ensures wdoff == (if lm - |kept| < |wd| then lm - |kept| else |wd|) && r == kept + wd[..wdoff]
  {
    r, wdoff := kept, 0;
    while wdoff < |wd| && |r| < lm
      invariant wdoff <= |wd| && r == kept + wd[..wdoff] && |r| <= lm
    {
      r := r + [wd[wdoff]];
      wdoff := wdoff + 1;
    }
  }

  /** `w + done` splits the list where the selection stops consuming it. */
  ghost predicate StopsAt(d: (nat, nat) -> real, w: seq<Candidate>, done: seq<Candidate>, lm: nat) {
    && |Kept(d, done)| <= lm
    && (w == [] || |Kept(d, done)| == lm)
    && (done != [] ==> |Kept(d, done[1..])| < lm)
  }

  lemma {:induction false} StoppingPoint(d: (nat, nat) -> real, w: seq<Candidate>, done: seq<Candidate>, lm: nat, n: nat)
    requires StopsAt(d, w, done, lm) && |w| <= n <= |w + done|
    ensures Unconsumed(d, w + done, n, lm) == |w|
    decreases n
  {
    var k := n - |w|;
    assert (w + done)[n..] == done[k..];
    if k > 0 {
      FewerKept(d, done[1..], k - 1);
      assert done[1..][k - 1..] == done[k..];
      StoppingPoint(d, w, done, lm, n - 1);
    }
  }

  lemma {:induction false} FewerKept(d: (nat, nat) -> real, s: seq<Candidate>, k: nat)
    requires k <= |s|
    ensures |Kept(d, s[k..])| <= |Kept(d, s)|
  {
    if k > 0 {
      FewerKept(d, s[1..], k - 1);
      assert s[1..][k - 1..] == s[k..];
    }
  }

  lemma TakeFromBack<T>(s: seq<T>, n: nat)
    requires n < |s|
    ensures s[n..] == [s[n]] + s[n + 1..] && s[n..][1..] == s[n + 1..] && s[..n + 1][..n] == s[..n]
  {
  }

  /** The main loop: consumes candidates until `lm` are kept, and returns what is left of the list. */
  method Consume(d: (nat, nat) -> real, order: seq<Candidate>, lm: nat, closerSet: bool,
                 newCandidate: Candidate, flags: set<Candidate>)
    returns (r: seq<Candidate>, wd: seq<Candidate>, w: seq<Candidate>, closer: set<Candidate>)
    requires DistinctElements(order)
    requires closerSet ==> CacheValid(d, order, newCandidate, flags)
    ensures w <= order && StopsAt(d, w, order[|w|..], lm)
    ensures r == Kept(d, order[|w|..]) && wd == Dropped(d, order[|w|..]) && FlagsCurrent(d, order[|w|..], closer)
  {
    w, r, wd, closer := order, [], [], flags;
    ghost var done: seq<Candidate> := [];
    var added: seq<Candidate> := [];
    var removedAny := false;
    while |w| > 0 && |r| < lm
      invariant w == order[..|w|] && done == order[|w|..]
      invariant r == Kept(d, done) && wd == Dropped(d, done) && FlagsCurrent(d, done, closer) && |r| <= lm
      invariant done != [] ==> |Kept(d, done[1..])| < lm
      invariant forall i :: 0 <= i < |w| ==> (order[i] in closer <==> order[i] in flags)
      invariant closerSet ==> CacheStep(d, done, newCandidate, added, removedAny)
      decreases |w|
    {
      var n := |w| - 1;
      var e := w[n];
      TakeFromBack(order, n);
      assert e == order[n] && e !in done;
      if closerSet && e != newCandidate {
        CacheAt(d, order, newCandidate, flags, n);
      }
      w := w[..n];
      ghost var before := closer;
      closer, added, removedAny := SettleFlag(d, e, done, r, !closerSet, newCandidate, closer, added, removedAny);
      OtherFlagsDoNotMatter(d, done, before, closer);
      if e in closer {
        r := r + [e];
      } else {
        wd := wd + [e];
      }
      done := [e] + done;
    }
  }

  /* ---- What a selection is, told by positions ---- */

  ghost predicate PositionsFall(order: seq<Candidate>, at: seq<nat>, n: nat) {
    && (forall i :: 0 <= i < |at| ==> n <= at[i] < |order|)
    && (forall i, j :: 0 <= i < j < |at| ==> at[i] > at[j])
  }

  /** The candidate at `p` is farther from the one at `q` than from the query. */
  ghost predicate Apart(d: (nat, nat) -> real, order: seq<Candidate>, p: nat, q: nat) {
    p < |order| && q < |order| && d(order[p].element, order[q].element) > order[p].distance
  }

  ghost predicate ApartFromAll(d: (nat, nat) -> real, order: seq<Candidate>, p: nat, kept: seq<nat>, n: nat)
    requires n <= |kept|
  {
    forall i :: 0 <= i < n ==> Apart(d, order, p, kept[i])
  }

  /** A kept candidate, taken before the one at `p`, is at least as close to it as the query. */
  ghost predicate Crowded(d: (nat, nat) -> real, order: seq<Candidate>, p: nat, kept: seq<nat>) {
    exists i :: 0 <= i < |kept| && p < kept[i] < |order| && d(order[p].element, order[kept[i]].element) <= order[p].distance
  }

  /**
    The candidates behind position `n`, taken from the last one on, are kept or dropped: one is kept
    if each one kept before it is farther from it than the query is, and dropped if one is not.
   */
  ghost predicate IsSplit(d: (nat, nat) -> real, order: seq<Candidate>, n: nat, kept: seq<nat>, dropped: seq<nat>) {
    && PositionsFall(order, kept, n) && PositionsFall(order, dropped, n)
    && (forall p: nat :: n <= p < |order| ==> p in kept || p in dropped)
    && (forall j :: 0 <= j < |kept| ==> ApartFromAll(d, order, kept[j], kept, j))
    && (forall j :: 0 <= j < |dropped| ==> Crowded(d, order, dropped[j], kept))
  }

  ghost predicate ListsAt(order: seq<Candidate>, at: seq<nat>, s: seq<Candidate>) {
    |at| == |s| && forall i :: 0 <= i < |s| ==> at[i] < |order| && s[i] == order[at[i]]
  }

  /**
    Taking stops with the `lm`th kept candidate, or when none is left. The neighbors are the kept
    candidates, topped up with those dropped first; the pruned one is the next of the dropped, or,
    if there is none, the first of the list.
   */
  ghost predicate IsSelection(d: (nat, nat) -> real, order: seq<Candidate>, lm: nat, r: seq<Candidate>, pruned: Candidate,
                              n: nat, kept: seq<nat>, dropped: seq<nat>)
  {
    && lm < |order| && n <= |order| && IsSplit(d, order, n, kept, dropped)
    && (if |kept| < lm then n == 0 else |kept| == lm && n == if lm == 0 then |order| else kept[lm - 1])
    && lm - |kept| <= |dropped| && ListsAt(order, kept + dropped[..lm - |kept|], r)
    && pruned == order[if lm - |kept| < |dropped| then dropped[lm - |kept|] else 0]
  }

  ghost predicate Selects(d: (nat, nat) -> real, order: seq<Candidate>, lm: nat, r: seq<Candidate>, pruned: Candidate) {
    exists n, kept, dropped :: IsSelection(d, order, lm, r, pruned, n, kept, dropped)
  }

  /** `order` lists the same candidates, the farthest first and of two equally far the one with the larger element. */
  ghost predicate FarthestFirst(c: seq<Candidate>, order: seq<Candidate>) {
    && |order| == |c| && (forall x :: x in order <==> x in c)
    && forall i, j :: 0 <= i < j < |order| ==>
         order[i].distance > order[j].distance
         || (order[i].distance == order[j].distance && order[i].element > order[j].element)
  }

  lemma SortIsFarthestFirst(c: seq<Candidate>)
    requires DistinctElements(c)
    ensures FarthestFirst(c, SortDescending(c))
  {
    SortIsDescending(c);
    var s := SortDescending(c);
    forall i, j | 0 <= i < j < |s|
      ensures s[i].distance > s[j].distance || (s[i].distance == s[j].distance && s[i].element > s[j].element)
    {
      assert Before(s[i], s[j]);
    }
  }

  lemma KeepOne(d: (nat, nat) -> real, order: seq<Candidate>, n: nat, kept: seq<nat>, dropped: seq<nat>)
    requires n < |order| && IsSplit(d, order, n + 1, kept, dropped) && ApartFromAll(d, order, n, kept, |kept|)
    ensures IsSplit(d, order, n, kept + [n], dropped)
  {
    var now := kept + [n];
    forall p: nat | n <= p < |order| ensures p in now || p in dropped {
      assert p == n ==> now[|kept|] == p;
    }
    forall j | 0 <= j < |now| ensures ApartFromAll(d, order, now[j], now, j) {
      assert j < |kept| ==> ApartFromAll(d, order, kept[j], kept, j);
    }
    forall j | 0 <= j < |dropped| ensures Crowded(d, order, dropped[j], now) {
      assert Crowded(d, order, dropped[j], kept);
      var i :| 0 <= i < |kept| && dropped[j] < kept[i] < |order|
               && d(order[dropped[j]].element, order[kept[i]].element) <= order[dropped[j]].distance;
      assert now[i] == kept[i];
    }
  }

  lemma DropOne(d: (nat, nat) -> real, order: seq<Candidate>, n: nat, kept: seq<nat>, dropped: seq<nat>)
    requires n < |order| && IsSplit(d, order, n + 1, kept, dropped) && Crowded(d, order, n, kept)
    ensures IsSplit(d, order, n, kept, dropped + [n])
  {
    forall p: nat | n <= p < |order| ensures p in kept || p in dropped + [n] {
      assert p == n ==> (dropped + [n])[|dropped|] == p;
    }
  }

  lemma ListsOneMore(order: seq<Candidate>, at: seq<nat>, s: seq<Candidate>, n: nat)
    requires ListsAt(order, at, s) && n < |order|
    ensures ListsAt(order, at + [n], s + [order[n]])
  {
  }

  lemma ListsBoth(order: seq<Candidate>, a: seq<nat>, s: seq<Candidate>, b: seq<nat>, t: seq<Candidate>, n: nat)
    requires ListsAt(order, a, s) && ListsAt(order, b, t) && n <= |b|
    ensures ListsAt(order, a + b[..n], s + t[..n])
  {
  }

  /** Recomputing every flag splits the candidates that way. */
  lemma {:induction false} SplitOf(d: (nat, nat) -> real, order: seq<Candidate>, n: nat) returns (kept: seq<nat>, dropped: seq<nat>)
    requires n <= |order|
    ensures IsSplit(d, order, n, kept, dropped)
    ensures ListsAt(order, kept, Kept(d, order[n..])) && ListsAt(order, dropped, Dropped(d, order[n..]))
    ensures n < |order| && |Kept(d, order[n + 1..])| < |kept| ==> kept[|kept| - 1] == n
    decreases |order| - n
  {
    kept, dropped := [], [];
    if n < |order| {
      var e, r, wd := order[n], Kept(d, order[n + 1..]), Dropped(d, order[n + 1..]);
      TakeFromBack(order, n);
      kept, dropped := SplitOf(d, order, n + 1);
      if Closer(d, e, r) {
        AllApart(d, order, n, kept, r);
        KeepOne(d, order, n, kept, dropped);
        ListsOneMore(order, kept, r, n);
        kept := kept + [n];
      } else {
        SomeCrowds(d, order, n, kept, r);
        DropOne(d, order, n, kept, dropped);
        ListsOneMore(order, dropped, wd, n);
        dropped := dropped + [n];
      }
    }
  }

  lemma AllApart(d: (nat, nat) -> real, order: seq<Candidate>, n: nat, kept: seq<nat>, r: seq<Candidate>)
    requires n < |order| && ListsAt(order, kept, r) && Closer(d, order[n], r)
    ensures ApartFromAll(d, order, n, kept, |kept|)
  {
    forall i | 0 <= i < |kept| ensures Apart(d, order, n, kept[i]) {
      assert r[i] in r;
    }
  }

  lemma SomeCrowds(d: (nat, nat) -> real, order: seq<Candidate>, n: nat, kept: seq<nat>, r: seq<Candidate>)
    requires n < |order| && ListsAt(order, kept, r) && PositionsFall(order, kept, n + 1) && !Closer(d, order[n], r)
    ensures Crowded(d, order, n, kept)
  {
    var y :| y in r && d(order[n].element, y.element) <= order[n].distance;
    var i :| 0 <= i < |r| && r[i] == y;
    assert order[kept[i]] == y;
  }

  lemma SelectionOf(d: (nat, nat) -> real, order: seq<Candidate>, lm: nat, n: nat, r: seq<Candidate>, pruned: Candidate)
    requires lm < |order| && n <= |order| && StopsAt(d, order[..n], order[n..], lm)
    requires var k, wd := Kept(d, order[n..]), Dropped(d, order[n..]);
      && lm - |k| <= |wd| && r == k + wd[..lm - |k|]
      && pruned == if lm - |k| < |wd| then wd[lm - |k|] else order[0]
    ensures Selects(d, order, lm, r, pruned)
  {
    var kept, dropped := SplitOf(d, order, n);
    ListsBoth(order, kept, Kept(d, order[n..]), dropped, Dropped(d, order[n..]), lm - |kept|);
    if n < |order| {
      TakeFromBack(order, n);
    }
    assert IsSelection(d, order, lm, r, pruned, n, kept, dropped);
  }

  /** The selection from `c`, sorted first if asked for. */
  ghost predicate IsOutcome(d: (nat, nat) -> real, c: seq<Candidate>, sortCandidates: bool, lm: nat, r: seq<Candidate>, pruned: Candidate) {
    exists order :: (if sortCandidates then FarthestFirst(c, order) else order == c) && Selects(d, order, lm, r, pruned)
  }

  /** The order in which candidates are consumed, from the back. */
  function Order(c: seq<Candidate>, sortCandidates: bool): seq<Candidate> {
    if sortCandidates then SortDescending(c) else c
  }

  lemma OutcomeOf(d: (nat, nat) -> real, c: seq<Candidate>, sortCandidates: bool, lm: nat, r: seq<Candidate>, pruned: Candidate)
    requires DistinctElements(c) && Selects(d, Order(c, sortCandidates), lm, r, pruned)
    ensures IsOutcome(d, c, sortCandidates, lm, r, pruned)
  {
    if sortCandidates {
      SortIsFarthestFirst(c);
      assert FarthestFirst(c, SortDescending(c));
    }
  }

  /* ---- The rule leaves one outcome ---- */

  lemma FallsTail(order: seq<Candidate>, at: seq<nat>, n: nat) returns (tail: seq<nat>)
    requires n < |order| && PositionsFall(order, at, n)
    ensures PositionsFall(order, tail, n + 1)
    ensures at == if n in at then tail + [n] else tail
  {
    tail := at;
    if n in at {
      var i :| 0 <= i < |at| && at[i] == n;
      var last := |at| - 1;
      assert at[last] >= n && i == last;
      tail := at[..i];
    }
    forall i | 0 <= i < |tail| ensures n + 1 <= tail[i] {
      assert tail[i] == at[i];
    }
  }

  /** The last kept candidate is not crowded by one kept before it. */
  lemma LastIsApart(d: (nat, nat) -> real, order: seq<Candidate>, n: nat, kept: seq<nat>, dropped: seq<nat>, k: seq<nat>)
    requires IsSplit(d, order, n, kept, dropped) && kept == k + [n]
    ensures ApartFromAll(d, order, n, k, |k|) && n !in dropped
  {
    assert ApartFromAll(d, order, kept[|k|], kept, |k|);
    forall i | 0 <= i < |k| ensures Apart(d, order, n, k[i]) {
      assert Apart(d, order, n, kept[i]);
    }
    forall j | 0 <= j < |dropped| ensures dropped[j] != n {
      assert Crowded(d, order, dropped[j], kept);
    }
  }

  /** Taking the candidate at `n` is the last step of a split: it is kept exactly if no kept one crowds it. */
  lemma SplitTail(d: (nat, nat) -> real, order: seq<Candidate>, n: nat, kept: seq<nat>, dropped: seq<nat>)
    returns (k: seq<nat>, g: seq<nat>)
    requires n < |order| && IsSplit(d, order, n, kept, dropped)
    ensures IsSplit(d, order, n + 1, k, g)
    ensures if ApartFromAll(d, order, n, k, |k|) then kept == k + [n] && dropped == g else kept == k && dropped == g + [n]
  {
    k := FallsTail(order, kept, n);
    g := FallsTail(order, dropped, n);
    if n in kept {
      LastIsApart(d, order, n, kept, dropped, k);
    } else {
      assert Crowded(d, order, dropped[|g|], kept);
      CrowdedIsNotApart(d, order, n, k);
    }
    TailIsSplit(d, order, n, kept, dropped, k, g);
  }

  lemma CrowdedIsNotApart(d: (nat, nat) -> real, order: seq<Candidate>, n: nat, k: seq<nat>)
    requires Crowded(d, order, n, k)
    ensures !ApartFromAll(d, order, n, k, |k|)
  {
    var i :| 0 <= i < |k| && n < k[i] < |order| && d(order[n].element, order[k[i]].element) <= order[n].distance;
    assert !Apart(d, order, n, k[i]);
  }

  lemma TailIsSplit(d: (nat, nat) -> real, order: seq<Candidate>, n: nat, kept: seq<nat>, dropped: seq<nat>, k: seq<nat>, g: seq<nat>)
    requires n < |order| && IsSplit(d, order, n, kept, dropped) && PositionsFall(order, k, n + 1) && PositionsFall(order, g, n + 1)
    requires (kept == k + [n] && dropped == g) || (kept == k && dropped == g + [n])
    ensures IsSplit(d, order, n + 1, k, g)
  {
    forall p: nat | n + 1 <= p < |order| ensures p in k || p in g {
      assert p in kept || p in dropped;
    }
    forall j | 0 <= j < |k| ensures ApartFromAll(d, order, k[j], k, j) {
      assert ApartFromAll(d, order, kept[j], kept, j);
      forall i | 0 <= i < j ensures Apart(d, order, k[j], k[i]) {
        assert Apart(d, order, kept[j], kept[i]);
      }
    }
    forall j | 0 <= j < |g| ensures Crowded(d, order, g[j], k) {
      assert Crowded(d, order, dropped[j], kept);
      var i :| 0 <= i < |kept| && g[j] < kept[i] < |order| && d(order[g[j]].element, order[kept[i]].element) <= order[g[j]].distance;
      assert kept[i] == k[i];
    }
  }

  lemma FirstPosition(order: seq<Candidate>, at: seq<nat>, n: nat)
    requires PositionsFall(order, at, n)
    ensures at == [] || n <= at[0] < |order|
  {
  }

  lemma {:induction false} SplitIsUnique(d: (nat, nat) -> real, order: seq<Candidate>, n: nat,
                                         kept: seq<nat>, dropped: seq<nat>, kept': seq<nat>, dropped': seq<nat>)
    requires n <= |order| && IsSplit(d, order, n, kept, dropped) && IsSplit(d, order, n, kept', dropped')
    ensures kept == kept' && dropped == dropped'
    decreases |order| - n
  {
    if n < |order| {
      var k, g := SplitTail(d, order, n, kept, dropped);
      var k', g' := SplitTail(d, order, n, kept', dropped');
      SplitIsUnique(d, order, n + 1, k, g, k', g');
    } else {
      FirstPosition(order, kept, n);
      FirstPosition(order, kept', n);
      FirstPosition(order, dropped, n);
      FirstPosition(order, dropped', n);
    }
  }

  /** A split from `n` on is one from any later position, with the same first candidates. */
  lemma {:induction false} LaterSplit(d: (nat, nat) -> real, order: seq<Candidate>, n: nat, m: nat, kept: seq<nat>, dropped: seq<nat>)
    returns (k: seq<nat>, g: seq<nat>)
    requires n <= m <= |order| && IsSplit(d, order, n, kept, dropped)
    ensures IsSplit(d, order, m, k, g) && k <= kept
    decreases m - n
  {
    k, g := kept, dropped;
    if n < m {
      k, g := SplitTail(d, order, n, kept, dropped);
      k, g := LaterSplit(d, order, n + 1, m, k, g);
    }
  }

  lemma SameStop(d: (nat, nat) -> real, order: seq<Candidate>, lm: nat, r: seq<Candidate>, pruned: Candidate, n: nat, kept: seq<nat>,
                 dropped: seq<nat>, r': seq<Candidate>, pruned': Candidate, n': nat, kept': seq<nat>, dropped': seq<nat>)
    requires IsSelection(d, order, lm, r, pruned, n, kept, dropped) && IsSelection(d, order, lm, r', pruned', n', kept', dropped')
    ensures n' <= n
  {
    if n < n' {
      var k, g := LaterSplit(d, order, n, n', kept, dropped);
      SplitIsUnique(d, order, n', k, g, kept', dropped');
    }
  }

  /** The rule leaves no choice: neighbors and pruned candidate are determined. */
  lemma SelectionIsUnique(d: (nat, nat) -> real, order: seq<Candidate>, lm: nat, r: seq<Candidate>, pruned: Candidate,
                          r': seq<Candidate>, pruned': Candidate)
    requires Selects(d, order, lm, r, pruned) && Selects(d, order, lm, r', pruned')
    ensures r == r' && pruned == pruned'
  {
    var n, kept, dropped :| IsSelection(d, order, lm, r, pruned, n, kept, dropped);
    var n', kept', dropped' :| IsSelection(d, order, lm, r', pruned', n', kept', dropped');
    SameStop(d, order, lm, r, pruned, n, kept, dropped, r', pruned', n', kept', dropped');
    SameStop(d, order, lm, r', pruned', n', kept', dropped', r, pruned, n, kept, dropped);
    SplitIsUnique(d, order, n, kept, dropped, kept', dropped');
  }

  datatype Option<+T> = None | Some(value: T)

  /**
    Algorithm 4 with the closer cache. When `closerSet` holds, all flags except `newCandidate`'s are
    cached from the previous call. The outcome and the flags are those of a run that computes every
    flag; the flags may serve as a cache later only if the order was the deterministic one.
   */
  method SelectNeighbors(d: (nat, nat) -> real, c: seq<Candidate>, lm: nat, closerSet: bool,
                         newCandidate: Candidate, flags: set<Candidate>, sortCandidates: bool)
    returns (r: seq<Candidate>, pruned: Option<Candidate>, closerSet': bool, closer: set<Candidate>)
    requires DistinctElements(c)
    requires closerSet && lm < |c| ==> CacheValid(d, Order(c, sortCandidates), newCandidate, flags)
    ensures |c| <= lm ==> r == c && pruned == None && closerSet' == closerSet && closer == flags
    ensures lm < |c| ==> pruned.Some? && closerSet' == sortCandidates
    ensures lm < |c| ==> IsOutcome(d, c, sortCandidates, lm, r, pruned.value)
    ensures lm < |c| ==> Selection(r, pruned.value) == SelectAfresh(d, Order(c, sortCandidates), lm)
    ensures lm < |c| ==> var order := Order(c, sortCandidates);
      FlagsCurrent(d, order[Unconsumed(d, order, |order|, lm)..], closer)
  {
    if |c| <= lm {
      return c, None, closerSet, flags;
    }
    var order := Order(c, sortCandidates);
    DistinctAfterSort(c);
    var kept, wd, w, closer' := Consume(d, order, lm, closerSet, newCandidate, flags);
    closerSet', closer := sortCandidates, closer';
    ghost var done := order[|w|..];
    assert w + done == order;
    StoppingPoint(d, w, done, lm, |order|);
    KeptAndDropped(d, done);
    var wdoff;
    r, wdoff := KeepPruned(kept, wd, lm);
    pruned := Some(if wdoff < |wd| then wd[wdoff] else w[0]);
    SelectionOf(d, order, lm, |w|, r, pruned.value);
    OutcomeOf(d, c, sortCandidates, lm, r, pruned.value);
  }

  /* ---- Neighbor arrays ---- */

  lemma {:induction false} DroppedAreNotCloser(d: (nat, nat) -> real, s: seq<Candidate>, closer: set<Candidate>)
    requires FlagsCurrent(d, s, closer)
    ensures forall e :: e in Dropped(d, s) ==> e !in closer
  {
    if s != [] {
      DroppedAreNotCloser(d, s[1..], closer);
    }
  }

  lemma {:induction false} UnconsumedStops(d: (nat, nat) -> real, w: seq<Candidate>, n: nat, lm: nat)
    requires n <= |w| && |Kept(d, w[n..])| <= lm
    ensures var m := Unconsumed(d, w, n, lm);
      |Kept(d, w[m..])| <= lm && (m == 0 || |Kept(d, w[m..])| == lm)
  {
    if n > 0 && |Kept(d, w[n..])| < lm {
      TakeFromBack(w, n - 1);
      UnconsumedStops(d, w, n - 1, lm);
    }
  }

  /** After a selection with one candidate too many, everything but the pruned one has a current flag. */
  lemma FlagsAfterSelection(d: (nat, nat) -> real, order: seq<Candidate>, lm: nat, closer: set<Candidate>)
    requires |order| == lm + 1 && DistinctElements(order)
    requires FlagsCurrent(d, order[Unconsumed(d, order, |order|, lm)..], closer)
    ensures FlagsCurrent(d, Without(order, SelectAfresh(d, order, lm).pruned), closer)
    ensures SelectAfresh(d, order, lm).pruned in order
  {
    var n := Unconsumed(d, order, |order|, lm);
    var done := order[n..];
    KeptAndDropped(d, done);
    UnconsumedStops(d, order, |order|, lm);
    if n == 0 {
      assert done == order;
      DroppedAreNotCloser(d, order, closer);
      DroppingKeepsFlags(d, order, SelectAfresh(d, order, lm).pruned, closer);
    } else {
      assert n == 1;
      WithoutAbsent(order[1..], order[0]);
    }
  }

  function Replace(s: seq<Candidate>, p: Candidate, x: Candidate): seq<Candidate> {
    if s == [] then [] else if s[0] == p then [x] + s[1..] else [s[0]] + Replace(s[1..], p, x)
  }

  lemma {:induction false} ReplaceAt(s: seq<Candidate>, p: Candidate, x: Candidate, i: nat)
    requires i <= |s| && (i < |s| ==> s[i] == p) && forall j :: 0 <= j < i ==> s[j] != p
    ensures Replace(s, p, x) == if i < |s| then s[i := x] else s
  {
    if i > 0 {
      ReplaceAt(s[1..], p, x, i - 1);
    }
  }

  /** The array after offering it `x`, with no cache involved. */
  function Updated(d: (nat, nat) -> real, items: seq<Candidate>, x: Candidate, lm: nat): seq<Candidate>
    requires |items| <= lm
  {
    if |items| < lm then items + [x] else
      Replace(items, SelectAfresh(d, SortDescending(items + [x]), lm).pruned, x)
  }

  ghost predicate Fresh(items: seq<Candidate>, x: Candidate) {
    DistinctElements(items) && forall i :: 0 <= i < |items| ==> items[i].element != x.element
  }

  /** The cached flags of the array serve the selection that includes the new candidate. */
  lemma OfferKeepsCache(d: (nat, nat) -> real, items: seq<Candidate>, x: Candidate, closer: set<Candidate>)
    requires Fresh(items, x)
    ensures DistinctElements(items + [x])
    ensures FlagsCurrent(d, SortDescending(items), closer) ==> CacheValid(d, SortDescending(items + [x]), x, closer)
  {
    if FlagsCurrent(d, SortDescending(items), closer) {
      SortThenLeaveOut(items + [x], items, x);
      CurrentFlagsAreCache(d, SortDescending(items + [x]), x, closer);
    }
  }

  lemma OverwriteMembers(items: seq<Candidate>, x: Candidate, idx: nat)
    requires Fresh(items, x) && idx < |items|
    ensures DistinctElements(items[idx := x])
    ensures forall y :: y in items[idx := x] <==> y == x || (y in items && y != items[idx])
  {
    var now := items[idx := x];
    forall y | y in items && y != items[idx] ensures y in now {
      var k :| 0 <= k < |items| && items[k] == y;
      assert now[k] == y;
    }
    assert now[idx] == x;
  }

  lemma FoundEntry(items: seq<Candidate>, x: Candidate, p: Candidate, idx: nat)
    requires Fresh(items, x) && p in items + [x] && idx < |items| && items[idx].element == p.element
    ensures items[idx] == p && p != x
  {
    var k :| 0 <= k < |items| + 1 && (items + [x])[k] == p;
  }

  /** What the update does, told by the index at which the pruned element's entry was found. */
  lemma UpdatedAt(items: seq<Candidate>, x: Candidate, p: Candidate, idx: nat)
    requires Fresh(items, x) && p in items + [x] && idx <= |items|
    requires idx < |items| ==> items[idx].element == p.element
    requires forall i :: 0 <= i < idx ==> items[i].element != p.element
    ensures var now := if idx < |items| then items[idx := x] else items;
      && Replace(items, p, x) == now && DistinctElements(now)
      && (forall y :: y in now <==> y in items + [x] && y != p)
  {
    if idx < |items| {
      FoundEntry(items, x, p, idx);
      OverwriteMembers(items, x, idx);
    } else {
      assert p == x;
    }
    ReplaceAt(items, p, x, idx);
  }

  /** Nothing changes, if `p` is the new candidate; else `x` stands where `p` stood. */
  ghost predicate Exchanged(items: seq<Candidate>, p: Candidate, x: Candidate, now: seq<Candidate>) {
    (p == x && now == items) || exists i :: 0 <= i < |items| && items[i] == p && now == items[i := x]
  }

  /** A full array gives up the candidate that is pruned when one more is offered. */
  ghost predicate FollowsRule(d: (nat, nat) -> real, items: seq<Candidate>, x: Candidate, lm: nat, now: seq<Candidate>) {
    if |items| < lm then now == items + [x] else
      exists r, pruned :: IsOutcome(d, items + [x], true, lm, r, pruned) && Exchanged(items, pruned, x, now)
  }

  class NeighborArray {
    const lm: nat
    var items: seq<Candidate>
    var closer: set<Candidate>
    var closerSet: bool

    constructor (lm: nat)
      ensures this.lm == lm && items == [] && !closerSet
    {
      this.lm, items, closer, closerSet := lm, [], {}, false;
    }

    /** `closerSet` promises that every cached flag is the one recomputation would give. */
    ghost predicate Valid(d: (nat, nat) -> real)
      reads this
    {
      && |items| <= lm && DistinctElements(items)
      && (closerSet ==> |items| == lm && FlagsCurrent(d, SortDescending(items), closer))
    }

    method FindItem(p: Candidate) returns (idx: nat)
      ensures idx <= |items| && (idx < |items| ==> items[idx].element == p.element)
      ensures forall i :: 0 <= i < idx ==> items[i].element != p.element
    {
      for i := 0 to |items|
        invariant forall k :: 0 <= k < i ==> items[k].element != p.element
      {
        if items[i].element == p.element {
          return i;
        }
      }
      return |items|;
    }

    /**
      Offers a new element to the array. The outcome does not depend on the cache, and the cache
      is again correct afterwards. `updateIdx` is -2 for an append, -1 if nothing changed.
     */
    method UpdateConnection(d: (nat, nat) -> real, newElement: nat, distance: real) returns (updateIdx: int)
      requires Valid(d) && Fresh(items, Candidate(newElement, distance))
      modifies this
      ensures Valid(d)
      ensures items == Updated(d, old(items), Candidate(newElement, distance), lm)
      ensures FollowsRule(d, old(items), Candidate(newElement, distance), lm, items)
      ensures updateIdx == -2 <==> |old(items)| < lm
      ensures updateIdx == -1 ==> items == old(items)
      ensures updateIdx >= 0 ==> updateIdx < |old(items)| && items == old(items)[updateIdx := Candidate(newElement, distance)]
    {
      var newHc := Candidate(newElement, distance);
      if |items| < lm {
        items := items + [newHc];
        updateIdx := -2;
      } else {
        OfferKeepsCache(d, items, newHc, closer);
        var r, pruned, settled, flags := SelectNeighbors(d, items + [newHc], lm, closerSet, newHc, closer, true);
        DistinctAfterSort(items + [newHc]);
        FlagsAfterSelection(d, SortDescending(items + [newHc]), lm, flags);
        updateIdx := Overwrite(d, newHc, pruned.value, flags);
      }
    }

    /** Finds the pruned element's entry and overwrites it, if it is in the array. */
    method Overwrite(d: (nat, nat) -> real, newHc: Candidate, pruned: Candidate, flags: set<Candidate>) returns (updateIdx: int)
      requires Valid(d) && |items| == lm && Fresh(items, newHc)
      requires pruned in SortDescending(items + [newHc])
      requires FlagsCurrent(d, Without(SortDescending(items + [newHc]), pruned), flags)
      modifies this
      ensures Valid(d) && closerSet && closer == flags
      ensures items == Replace(old(items), pruned, newHc) && Exchanged(old(items), pruned, newHc, items)
      ensures -1 <= updateIdx < lm && items == if updateIdx < 0 then old(items) else old(items)[updateIdx := newHc]
    {
      ghost var was := items;
      SortIsDescending(was + [newHc]);
      closer, closerSet := flags, true;
      var i := FindItem(pruned);
      UpdatedAt(was, newHc, pruned, i);
      updateIdx := -1;
      if i < |items| {
        items := items[i := newHc];
        updateIdx := i;
      }
      SortThenLeaveOut(was + [newHc], items, pruned);
    }
  }
}
