/**
  Status pages: chains of pages that record, for every unflushed memtable, the row ids it holds.
  Array pages list the memtables, tuple pages their rows; released pages are kept in a free list.
  Each operation is taken as one step.
 */
module StatusPages {
  const NIL := -1
  const STATUS_MEMTABLE_ARRAY_BLKNO: nat := 2

  /** A memtable's entry on an array page. */
  datatype Entry = Entry(head: nat, insert: nat, sid: nat)

  /** One page: its link, the row ids of a tuple page, the entries of an array page. */
  datatype Page = Page(next: int, tids: seq<int>, entries: seq<Entry>)

  const EmptyPage := Page(NIL, [], [])

  /** Which chain a block is on; `Loose` is a page that has been taken but not linked yet. */
  datatype Owner = Array | Free | Loose | Of(sid: nat)

  type Chains = map<Owner, seq<nat>>

  /* ---- The shape of the file ---- */

  ghost function NextOf(list: seq<nat>, i: nat): int
    requires i < |list|
  {
    if i + 1 < |list| then list[i + 1] else NIL
  }

  ghost predicate NodeOk(pages: seq<Page>, owner: seq<Owner>, o: Owner, list: seq<nat>, i: nat)
    requires |owner| == |pages| && i < |list|
  {
    && 2 <= list[i] < |pages| && owner[list[i]] == o
    && pages[list[i]].next == NextOf(list, i)
  }

  ghost predicate Differ(list: seq<nat>, i: nat, j: nat)
    requires i < |list| && j < |list|
  {
    list[i] != list[j]
  }

  /** Following `next` from the first block visits the list, each block once, and ends. */
  ghost predicate ChainOk(pages: seq<Page>, owner: seq<Owner>, o: Owner, list: seq<nat>)
    requires |owner| == |pages|
  {
    && (forall i :: 0 <= i < |list| ==> NodeOk(pages, owner, o, list, i))
    && (forall i, j :: 0 <= i < j < |list| ==> Differ(list, i, j))
  }

  ghost predicate OnItsChain(ch: Chains, owner: seq<Owner>, b: nat)
    requires b < |owner|
  {
    owner[b] in ch && b in ch[owner[b]]
  }

  /** The chains are acyclic and together hold every block from the first array page on exactly once. */
  ghost predicate LayoutOk(pages: seq<Page>, ch: Chains, owner: seq<Owner>) {
    && |owner| == |pages| > 2
    && Array in ch && Free in ch && Loose in ch
    && |ch[Array]| > 0 && ch[Array][0] == STATUS_MEMTABLE_ARRAY_BLKNO
    && (forall o :: o in ch ==> ChainOk(pages, owner, o, ch[o]))
    && (forall b {:trigger OnItsChain(ch, owner, b)} :: 2 <= b < |pages| ==> OnItsChain(ch, owner, b))
  }

  lemma Distinct(list: seq<nat>, i: nat)
    requires i < |list| && forall i, j :: 0 <= i < j < |list| ==> Differ(list, i, j)
    ensures forall j :: 0 <= j < |list| && j != i ==> list[j] != list[i]
  {
    forall j | 0 <= j < |list| && j != i ensures list[j] != list[i] {
      assert j < i ==> Differ(list, j, i);
      assert i < j ==> Differ(list, i, j);
    }
  }

  /** The list owner of a block on a chain. */
  lemma OwnerOnChain(pages: seq<Page>, ch: Chains, owner: seq<Owner>, o: Owner, i: nat)
    requires LayoutOk(pages, ch, owner) && o in ch && i < |ch[o]|
    ensures 2 <= ch[o][i] < |pages| && owner[ch[o][i]] == o
  {
    assert ChainOk(pages, owner, o, ch[o]);
    assert NodeOk(pages, owner, o, ch[o], i);
  }

  /** Every block from the first array page on is at exactly one place of exactly one chain. */
  lemma BlocksArePartitioned(pages: seq<Page>, ch: Chains, owner: seq<Owner>, b: nat) returns (o: Owner, i: nat)
    requires LayoutOk(pages, ch, owner) && 2 <= b < |pages|
    ensures o in ch && i < |ch[o]| && ch[o][i] == b
    ensures forall p: Owner, j: nat :: p in ch && j < |ch[p]| && ch[p][j] == b ==> p == o && j == i
  {
    assert OnItsChain(ch, owner, b);
    o := owner[b];
    i :| i < |ch[o]| && ch[o][i] == b;
    forall p: Owner, j: nat | p in ch && j < |ch[p]| && ch[p][j] == b ensures p == o && j == i {
      OwnerOnChain(pages, ch, owner, p, j);
      assert ChainOk(pages, owner, o, ch[o]);
      Distinct(ch[o], i);
    }
  }

  /** Following the links from a chain's first block visits the chain and ends. */
  function Follow(pages: seq<Page>, from: int, steps: nat): seq<int>
    decreases steps
  {
    if steps == 0 || !(0 <= from < |pages|) then [] else [from] + Follow(pages, pages[from].next, steps - 1)
  }

  lemma {:induction false} FollowSpellsChain(pages: seq<Page>, ch: Chains, owner: seq<Owner>, o: Owner, i: nat, steps: nat)
    requires LayoutOk(pages, ch, owner) && o in ch && i <= |ch[o]| <= i + steps
    ensures Follow(pages, if i < |ch[o]| then ch[o][i] else NIL, steps) == ch[o][i..]
    decreases steps
  {
    if i < |ch[o]| {
      assert ChainOk(pages, owner, o, ch[o]) && NodeOk(pages, owner, o, ch[o], i);
      FollowSpellsChain(pages, ch, owner, o, i + 1, steps - 1);
      assert ch[o][i..] == [ch[o][i]] + ch[o][i + 1..];
    }
  }

  /** A chain all of whose blocks keep link and owner is still a chain. */
  lemma ChainKept(pages: seq<Page>, owner: seq<Owner>, pages': seq<Page>, owner': seq<Owner>, o: Owner, list: seq<nat>)
    requires |owner| == |pages| <= |pages'| == |owner'| && ChainOk(pages, owner, o, list)
    requires forall b :: 2 <= b < |pages| && owner[b] == o ==> owner'[b] == o && pages'[b].next == pages[b].next
    ensures ChainOk(pages', owner', o, list)
  {
    forall i | 0 <= i < |list| ensures NodeOk(pages', owner', o, list, i) {
      assert NodeOk(pages, owner, o, list, i);
    }
  }

  /* ---- Moving blocks between chains ---- */

  /** Taking the first free page: it becomes the loose page, emptied. */
  lemma TakeFree(pages: seq<Page>, ch: Chains, owner: seq<Owner>)
    requires LayoutOk(pages, ch, owner) && ch[Free] != [] && ch[Loose] == []
    ensures var b := ch[Free][0];
      b < |pages| && LayoutOk(pages[b := EmptyPage], ch[Free := ch[Free][1..]][Loose := [b]], owner[b := Loose])
  {
    OwnerOnChain(pages, ch, owner, Free, 0);
    var b := ch[Free][0];
    var pages', ch', owner' := pages[b := EmptyPage], ch[Free := ch[Free][1..]][Loose := [b]], owner[b := Loose];
    assert ChainOk(pages, owner, Free, ch[Free]);
    Distinct(ch[Free], 0);
    forall o | o in ch' ensures ChainOk(pages', owner', o, ch'[o]) {
      if o == Free {
        TailChain(pages, owner, pages', owner', ch[Free]);
      } else if o != Loose {
        assert ChainOk(pages, owner, o, ch[o]);
        ChainKept(pages, owner, pages', owner', o, ch[o]);
      }
    }
    forall x | 2 <= x < |pages'| ensures OnItsChain(ch', owner', x) {
      assert OnItsChain(ch, owner, x);
      if x != b && owner[x] == Free {
        var i :| 0 <= i < |ch[Free]| && ch[Free][i] == x;
        assert ch'[Free][i - 1] == x;
      }
    }
  }

  lemma TailChain(pages: seq<Page>, owner: seq<Owner>, pages': seq<Page>, owner': seq<Owner>, list: seq<nat>)
    requires |owner| == |pages| == |pages'| == |owner'| && list != [] && ChainOk(pages, owner, Free, list)
    requires forall x :: 0 <= x < |pages| && x != list[0] ==> owner'[x] == owner[x] && pages'[x] == pages[x]
    ensures ChainOk(pages', owner', Free, list[1..])
  {
    var rest := list[1..];
    Distinct(list, 0);
    forall i | 0 <= i < |rest| ensures NodeOk(pages', owner', Free, rest, i) {
      assert NodeOk(pages, owner, Free, list, i + 1);
    }
    forall i, j | 0 <= i < j < |rest| ensures Differ(rest, i, j) {
      assert Differ(list, i + 1, j + 1);
    }
  }

  /** Extending the file: the new block is the loose page. */
  lemma ExtendFile(pages: seq<Page>, ch: Chains, owner: seq<Owner>)
    requires LayoutOk(pages, ch, owner) && ch[Loose] == []
    ensures LayoutOk(pages + [EmptyPage], ch[Loose := [|pages|]], owner + [Loose])
  {
    var pages', ch', owner' := pages + [EmptyPage], ch[Loose := [|pages|]], owner + [Loose];
    forall o | o in ch' ensures ChainOk(pages', owner', o, ch'[o]) {
      if o != Loose {
        assert ChainOk(pages, owner, o, ch[o]);
        ChainKept(pages, owner, pages', owner', o, ch[o]);
      }
    }
    forall x | 2 <= x < |pages'| ensures OnItsChain(ch', owner', x) {
      if x < |pages| {
        assert OnItsChain(ch, owner, x);
        assert owner[x] != Loose;
      }
    }
  }

  /** Linking the loose page behind the last page of a chain. */
  lemma LinkLoose(pages: seq<Page>, ch: Chains, owner: seq<Owner>, o: Owner)
    requires LayoutOk(pages, ch, owner) && o in ch && o != Loose && ch[o] != [] && |ch[Loose]| == 1
    ensures var b, t := ch[Loose][0], ch[o][|ch[o]| - 1];
      && b < |pages| && t < |pages| && b != t
      && LayoutOk(pages[t := pages[t].(next := b)], ch[o := ch[o] + [b]][Loose := []], owner[b := o])
  {
    var b, t := ch[Loose][0], ch[o][|ch[o]| - 1];
    OwnerOnChain(pages, ch, owner, Loose, 0);
    OwnerOnChain(pages, ch, owner, o, |ch[o]| - 1);
    assert ChainOk(pages, owner, Loose, ch[Loose]) && NodeOk(pages, owner, Loose, ch[Loose], 0);
    assert ChainOk(pages, owner, o, ch[o]);
    var pages', ch', owner' := pages[t := pages[t].(next := b)], ch[o := ch[o] + [b]][Loose := []], owner[b := o];
    AppendedChain(pages, owner, o, ch[o], b);
    forall p | p in ch' ensures ChainOk(pages', owner', p, ch'[p]) {
      if p != o && p != Loose {
        assert ChainOk(pages, owner, p, ch[p]);
        ChainKept(pages, owner, pages', owner', p, ch[p]);
      }
    }
    forall x | 2 <= x < |pages'| ensures OnItsChain(ch', owner', x) {
      assert OnItsChain(ch, owner, x);
      if x == b {
        assert ch'[o][|ch[o]|] == b;
      } else if owner[x] == o {
        var i :| 0 <= i < |ch[o]| && ch[o][i] == x;
        assert ch'[o][i] == x;
      }
    }
  }

  lemma AppendedChain(pages: seq<Page>, owner: seq<Owner>, o: Owner, list: seq<nat>, b: nat)
    requires |owner| == |pages| && ChainOk(pages, owner, o, list) && list != []
    requires 2 <= b < |pages| && owner[b] != o && pages[b].next == NIL
    ensures var t := list[|list| - 1];
      t < |pages| && ChainOk(pages[t := pages[t].(next := b)], owner[b := o], o, list + [b])
  {
    var t := list[|list| - 1];
    assert NodeOk(pages, owner, o, list, |list| - 1);
    var pages', owner', now := pages[t := pages[t].(next := b)], owner[b := o], list + [b];
    Distinct(list, |list| - 1);
    forall i | 0 <= i < |now| ensures NodeOk(pages', owner', o, now, i) {
      if i < |list| {
        assert NodeOk(pages, owner, o, list, i);
      }
    }
    forall i, j | 0 <= i < j < |now| ensures Differ(now, i, j) {
      if j < |list| {
        assert Differ(list, i, j);
      } else {
        assert NodeOk(pages, owner, o, list, i);
      }
    }
  }

  /** The loose page becomes the first page of a new memtable. */
  lemma FoundChain(pages: seq<Page>, ch: Chains, owner: seq<Owner>, sid: nat)
    requires LayoutOk(pages, ch, owner) && Of(sid) !in ch && |ch[Loose]| == 1
    ensures var b := ch[Loose][0];
      b < |pages| && LayoutOk(pages, ch[Of(sid) := [b]][Loose := []], owner[b := Of(sid)])
  {
    var b := ch[Loose][0];
    OwnerOnChain(pages, ch, owner, Loose, 0);
    assert ChainOk(pages, owner, Loose, ch[Loose]) && NodeOk(pages, owner, Loose, ch[Loose], 0);
    var ch', owner' := ch[Of(sid) := [b]][Loose := []], owner[b := Of(sid)];
    forall p | p in ch' ensures ChainOk(pages, owner', p, ch'[p]) {
      if p != Of(sid) && p != Loose {
        assert ChainOk(pages, owner, p, ch[p]);
        ChainKept(pages, owner, pages, owner', p, ch[p]);
      }
    }
    forall x | 2 <= x < |pages| ensures OnItsChain(ch', owner', x) {
      assert OnItsChain(ch, owner, x);
    }
  }

  ghost function Freed(owner: seq<Owner>, sid: nat): (r: seq<Owner>)
    ensures |r| == |owner| && forall b :: 0 <= b < |owner| ==> r[b] == if owner[b] == Of(sid) then Free else owner[b]
  {
    seq(|owner|, b requires 0 <= b < |owner| => if owner[b] == Of(sid) then Free else owner[b])
  }

  ghost function Relinked(pages: seq<Page>, free: seq<nat>, head: int): (r: seq<Page>)
    requires free != [] ==> free[|free| - 1] < |pages|
    ensures |r| == |pages|
  {
    if free == [] then pages else
      var t := free[|free| - 1];
      pages[t := pages[t].(next := head)]
  }

  /** Releasing a memtable: its whole chain goes behind the free list. */
  lemma FreeChain(pages: seq<Page>, ch: Chains, owner: seq<Owner>, sid: nat)
    requires LayoutOk(pages, ch, owner) && Of(sid) in ch && ch[Of(sid)] != []
    ensures ch[Free] != [] ==> ch[Free][|ch[Free]| - 1] < |pages|
    ensures LayoutOk(Relinked(pages, ch[Free], ch[Of(sid)][0]), (ch - {Of(sid)})[Free := ch[Free] + ch[Of(sid)]], Freed(owner, sid))
  {
    var list, free := ch[Of(sid)], ch[Free];
    assert ChainOk(pages, owner, Of(sid), list) && ChainOk(pages, owner, Free, free);
    if free != [] {
      OwnerOnChain(pages, ch, owner, Free, |free| - 1);
    }
    var pages', ch', owner' := Relinked(pages, free, list[0]), (ch - {Of(sid)})[Free := free + list], Freed(owner, sid);
    JoinedChain(pages, owner, free, list, sid);
    forall p | p in ch' ensures ChainOk(pages', owner', p, ch'[p]) {
      if p != Free {
        assert ChainOk(pages, owner, p, ch[p]);
        ChainKept(pages, owner, pages', owner', p, ch[p]);
      }
    }
    forall x | 2 <= x < |pages'| ensures OnItsChain(ch', owner', x) {
      assert OnItsChain(ch, owner, x);
    }
  }

  lemma JoinedChain(pages: seq<Page>, owner: seq<Owner>, free: seq<nat>, list: seq<nat>, sid: nat)
    requires |owner| == |pages| && list != [] && ChainOk(pages, owner, Of(sid), list) && ChainOk(pages, owner, Free, free)
    requires free != [] ==> free[|free| - 1] < |pages|
    ensures ChainOk(Relinked(pages, free, list[0]), Freed(owner, sid), Free, free + list)
  {
    var pages', owner', now := Relinked(pages, free, list[0]), Freed(owner, sid), free + list;
    if free != [] {
      Distinct(free, |free| - 1);
      assert NodeOk(pages, owner, Free, free, |free| - 1);
    }
    forall i | 0 <= i < |now| ensures NodeOk(pages', owner', Free, now, i) {
      if i < |free| {
        assert NodeOk(pages, owner, Free, free, i);
      } else {
        assert NodeOk(pages, owner, Of(sid), list, i - |free|);
      }
    }
    forall i, j | 0 <= i < j < |now| ensures Differ(now, i, j) {
      if j < |free| {
        assert Differ(free, i, j);
      } else if i < |free| {
        assert NodeOk(pages, owner, Free, free, i) && NodeOk(pages, owner, Of(sid), list, j - |free|);
      } else {
        assert Differ(list, i - |free|, j - |free|);
      }
    }
  }

  /** Changing what is on a page, but not its link, changes no chain. */
  lemma RewritePage(pages: seq<Page>, ch: Chains, owner: seq<Owner>, b: nat, page: Page)
    requires LayoutOk(pages, ch, owner) && b < |pages| && page.next == pages[b].next
    ensures LayoutOk(pages[b := page], ch, owner)
  {
    forall p | p in ch ensures ChainOk(pages[b := page], owner, p, ch[p]) {
      assert ChainOk(pages, owner, p, ch[p]);
      ChainKept(pages, owner, pages[b := page], owner, p, ch[p]);
    }
    forall x | 2 <= x < |pages| ensures OnItsChain(ch, owner, x) {
      assert OnItsChain(ch, owner, x);
    }
  }

  /* ---- The directory of memtables ---- */

  /** An entry's chain starts at its head, and its insert page lies on that chain. */
  ghost predicate EntryOk(pages: seq<Page>, ch: Chains, home: map<nat, nat>, b: nat, j: nat)
    requires b < |pages| && j < |pages[b].entries|
  {
    var e := pages[b].entries[j];
    && e.sid in home && home[e.sid] == b
    && Of(e.sid) in ch && ch[Of(e.sid)] != [] && e.head == ch[Of(e.sid)][0] && e.insert in ch[Of(e.sid)]
  }

  ghost predicate SidsDiffer(page: Page, j: nat, k: nat)
    requires j < |page.entries| && k < |page.entries|
  {
    page.entries[j].sid != page.entries[k].sid
  }

  ghost predicate HasEntry(page: Page, sid: nat) {
    exists j :: 0 <= j < |page.entries| && page.entries[j].sid == sid
  }

  ghost predicate PageOk(pages: seq<Page>, ch: Chains, home: map<nat, nat>, b: nat) {
    && b < |pages|
    && (forall j :: 0 <= j < |pages[b].entries| ==> EntryOk(pages, ch, home, b, j))
    && (forall j, k :: 0 <= j < k < |pages[b].entries| ==> SidsDiffer(pages[b], j, k))
  }

  ghost predicate IsHome(pages: seq<Page>, ch: Chains, home: map<nat, nat>, sid: nat)
    requires sid in home && Array in ch
  {
    && Of(sid) in ch && ch[Of(sid)] != []
    && home[sid] in ch[Array] && home[sid] < |pages| && HasEntry(pages[home[sid]], sid)
  }

  /** `home` says on which array page each memtable has its one entry. */
  ghost predicate DirOk(pages: seq<Page>, ch: Chains, home: map<nat, nat>) {
    && Array in ch
    && (forall b {:trigger PageOk(pages, ch, home, b)} :: b in ch[Array] ==> PageOk(pages, ch, home, b))
    && (forall sid {:trigger IsHome(pages, ch, home, sid)} :: sid in home ==> IsHome(pages, ch, home, sid))
    && (forall sid :: Of(sid) in ch ==> sid in home)
  }

  ghost predicate FreeOk(ch: Chains, freeHead: int, freeTail: int)
    requires Free in ch
  {
    && freeHead == (if ch[Free] == [] then NIL else ch[Free][0])
    && freeTail == (if ch[Free] == [] then NIL else ch[Free][|ch[Free]| - 1])
  }

  /** Array pages keep their entries, or come in empty; memtable chains only grow at the end. */
  ghost predicate DirFrame(pages: seq<Page>, ch: Chains, pages': seq<Page>, ch': Chains)
    requires Array in ch
  {
    && |pages| <= |pages'| && Array in ch'
    && (forall b :: b in ch[Array] && b < |pages| ==> b in ch'[Array] && pages'[b].entries == pages[b].entries)
    && (forall b :: b in ch'[Array] && b !in ch[Array] ==> b < |pages'| && pages'[b].entries == [])
    && (forall sid :: Of(sid) in ch <==> Of(sid) in ch')
    && (forall sid :: Of(sid) in ch ==> ch[Of(sid)] <= ch'[Of(sid)])
  }

  lemma DirKept(pages: seq<Page>, ch: Chains, pages': seq<Page>, ch': Chains, home: map<nat, nat>)
    requires DirOk(pages, ch, home) && DirFrame(pages, ch, pages', ch')
    ensures DirOk(pages', ch', home)
  {
    forall b | b in ch'[Array] ensures PageOk(pages', ch', home, b) {
      if b in ch[Array] {
        assert PageOk(pages, ch, home, b);
        forall j | 0 <= j < |pages'[b].entries| ensures EntryOk(pages', ch', home, b, j) {
          assert EntryOk(pages, ch, home, b, j);
        }
        forall j, k | 0 <= j < k < |pages'[b].entries| ensures SidsDiffer(pages'[b], j, k) {
          assert SidsDiffer(pages[b], j, k);
        }
      }
    }
    forall sid | sid in home ensures IsHome(pages', ch', home, sid) {
      assert IsHome(pages, ch, home, sid);
    }
  }

  /* ---- The rows a chain holds ---- */

  ghost predicate InFile(pages: seq<Page>, list: seq<nat>) {
    forall i :: 0 <= i < |list| ==> list[i] < |pages|
  }

  /** The row ids on the first `n` pages of a chain. */
  ghost function Bag(pages: seq<Page>, list: seq<nat>, n: nat): multiset<int>
    requires n <= |list| && InFile(pages, list)
  {
    if n == 0 then multiset{} else Bag(pages, list, n - 1) + multiset(pages[list[n - 1]].tids)
  }

  lemma {:induction false} BagSame(pages: seq<Page>, list: seq<nat>, pages': seq<Page>, list': seq<nat>, n: nat)
    requires n <= |list| && n <= |list'| && InFile(pages, list) && InFile(pages', list')
    requires forall i :: 0 <= i < n ==> list'[i] == list[i] && pages'[list[i]].tids == pages[list[i]].tids
    ensures Bag(pages', list', n) == Bag(pages, list, n)
  {
    if n > 0 {
      BagSame(pages, list, pages', list', n - 1);
    }
  }

  lemma ReplaceEarlier(a: multiset<int>, m: multiset<int>, n: multiset<int>, k: multiset<int>)
    requires m <= a
    ensures (a - m + n) + k == (a + k) - m + n && m <= a + k
  {
  }

  lemma ReplaceLast(a: multiset<int>, m: multiset<int>, n: multiset<int>)
    ensures a + n == (a + m) - m + n && m <= a + m
  {
  }

  /** Rewriting the row ids of one page of a chain. */
  lemma {:induction false} BagRewritten(pages: seq<Page>, list: seq<nat>, n: nat, i: nat, page: Page)
    requires i < n <= |list| && InFile(pages, list)
    requires forall j :: 0 <= j < |list| && j != i ==> list[j] != list[i]
    ensures multiset(pages[list[i]].tids) <= Bag(pages, list, n)
    ensures Bag(pages[list[i] := page], list, n) == Bag(pages, list, n) - multiset(pages[list[i]].tids) + multiset(page.tids)
  {
    var pages' := pages[list[i] := page];
    if i == n - 1 {
      BagSame(pages, list, pages', list, i);
      ReplaceLast(Bag(pages, list, i), multiset(pages[list[i]].tids), multiset(page.tids));
    } else {
      BagRewritten(pages, list, n - 1, i, page);
      ReplaceEarlier(Bag(pages, list, n - 1), multiset(pages[list[i]].tids), multiset(page.tids), multiset(pages[list[n - 1]].tids));
    }
  }

  /** The rows of a memtable. */
  ghost function RowsOf(pages: seq<Page>, ch: Chains, sid: nat): multiset<int> {
    if Of(sid) in ch && InFile(pages, ch[Of(sid)]) then Bag(pages, ch[Of(sid)], |ch[Of(sid)]|) else multiset{}
  }

  ghost predicate SameRows(pages: seq<Page>, ch: Chains, pages': seq<Page>, ch': Chains, sid: nat) {
    RowsOf(pages', ch', sid) == RowsOf(pages, ch, sid)
  }

  /** No memtable but `sid` gains or loses a row; with `NIL`, none at all. */
  ghost predicate OtherRowsSame(pages: seq<Page>, ch: Chains, pages': seq<Page>, ch': Chains, sid: int) {
    forall s: nat {:trigger SameRows(pages, ch, pages', ch', s)} :: s != sid ==> SameRows(pages, ch, pages', ch', s)
  }

  lemma ChainInFile(pages: seq<Page>, ch: Chains, owner: seq<Owner>, o: Owner)
    requires LayoutOk(pages, ch, owner) && o in ch
    ensures InFile(pages, ch[o])
  {
    forall i | 0 <= i < |ch[o]| ensures ch[o][i] < |pages| {
      OwnerOnChain(pages, ch, owner, o, i);
    }
  }

  /** The pages of a memtable hold the same row ids, and its chain is the same but for an empty page at its end. */
  ghost predicate RowsFrame(pages: seq<Page>, ch: Chains, owner: seq<Owner>, pages': seq<Page>, ch': Chains, sid: nat)
    requires |owner| == |pages|
  {
    && |pages| <= |pages'| && (Of(sid) in ch <==> Of(sid) in ch')
    && (Of(sid) in ch ==>
         || ch'[Of(sid)] == ch[Of(sid)]
         || exists b: nat :: b < |pages'| && pages'[b].tids == [] && ch'[Of(sid)] == ch[Of(sid)] + [b])
    && (forall x :: 0 <= x < |pages| && owner[x] == Of(sid) ==> pages'[x].tids == pages[x].tids)
  }

  lemma RowsKept(pages: seq<Page>, ch: Chains, owner: seq<Owner>, pages': seq<Page>, ch': Chains, sid: nat)
    requires LayoutOk(pages, ch, owner) && RowsFrame(pages, ch, owner, pages', ch', sid)
    ensures SameRows(pages, ch, pages', ch', sid)
  {
    if Of(sid) in ch {
      var list, n := ch[Of(sid)], |ch[Of(sid)]|;
      forall i | 0 <= i < n ensures list[i] < |pages| && pages'[list[i]].tids == pages[list[i]].tids {
        OwnerOnChain(pages, ch, owner, Of(sid), i);
      }
      assert InFile(pages', ch'[Of(sid)]);
      BagSame(pages, list, pages', ch'[Of(sid)], n);
      if ch'[Of(sid)] != list {
        assert multiset(pages'[ch'[Of(sid)][n]].tids) == multiset{};
      }
    }
  }

  /* ---- Taking a page ---- */

  /** A page has been taken: it is empty and on no chain, and nothing else that anyone can see has changed. */
  ghost predicate Taken(pages: seq<Page>, ch: Chains, owner: seq<Owner>, pages': seq<Page>, ch': Chains, owner': seq<Owner>, b: nat) {
    && |pages| == |owner| <= |pages'| == |owner'| && b < |pages'| && pages'[b] == EmptyPage
    && Loose in ch' && ch'[Loose] == [b] && owner'[b] == Loose
    && (forall o :: o != Free && o != Loose ==> (o in ch <==> o in ch') && (o in ch ==> ch'[o] == ch[o]))
    && (forall x :: 0 <= x < |pages| && owner[x] != Free ==> x != b && pages'[x] == pages[x] && owner'[x] == owner[x])
  }

  lemma TakenKeeps(pages: seq<Page>, ch: Chains, owner: seq<Owner>, pages': seq<Page>, ch': Chains, owner': seq<Owner>, b: nat,
                   home: map<nat, nat>)
    requires LayoutOk(pages, ch, owner) && DirOk(pages, ch, home) && Taken(pages, ch, owner, pages', ch', owner', b)
    ensures DirOk(pages', ch', home) && OtherRowsSame(pages, ch, pages', ch', NIL)
  {
    forall x | x in ch[Array] ensures x < |pages| && owner[x] == Array {
      var i :| 0 <= i < |ch[Array]| && ch[Array][i] == x;
      OwnerOnChain(pages, ch, owner, Array, i);
    }
    DirKept(pages, ch, pages', ch', home);
    forall s: nat ensures SameRows(pages, ch, pages', ch', s) {
      RowsKept(pages, ch, owner, pages', ch', s);
    }
  }

  /* ---- Rewriting a page ---- */

  lemma OnArrayChain(pages: seq<Page>, ch: Chains, owner: seq<Owner>, b: nat)
    requires LayoutOk(pages, ch, owner) && b in ch[Array]
    ensures 2 <= b < |pages| && owner[b] == Array
  {
    var i :| 0 <= i < |ch[Array]| && ch[Array][i] == b;
    OwnerOnChain(pages, ch, owner, Array, i);
  }

  /** New row ids on a page of one memtable. */
  lemma RewriteRows(pages: seq<Page>, ch: Chains, owner: seq<Owner>, home: map<nat, nat>, sid: nat, i: nat, tids: seq<int>)
    requires LayoutOk(pages, ch, owner) && DirOk(pages, ch, home) && Of(sid) in ch && i < |ch[Of(sid)]|
    ensures var b := ch[Of(sid)][i];
      && b < |pages|
      && LayoutOk(pages[b := pages[b].(tids := tids)], ch, owner) && DirOk(pages[b := pages[b].(tids := tids)], ch, home)
      && multiset(pages[b].tids) <= RowsOf(pages, ch, sid)
      && RowsOf(pages[b := pages[b].(tids := tids)], ch, sid) == RowsOf(pages, ch, sid) - multiset(pages[b].tids) + multiset(tids)
      && OtherRowsSame(pages, ch, pages[b := pages[b].(tids := tids)], ch, sid)
  {
    OwnerOnChain(pages, ch, owner, Of(sid), i);
    var b := ch[Of(sid)][i];
    var pages' := pages[b := pages[b].(tids := tids)];
    RewritePage(pages, ch, owner, b, pages[b].(tids := tids));
    DirKept(pages, ch, pages', ch, home);
    ChainInFile(pages, ch, owner, Of(sid));
    assert InFile(pages', ch[Of(sid)]);
    assert ChainOk(pages, owner, Of(sid), ch[Of(sid)]);
    Distinct(ch[Of(sid)], i);
    BagRewritten(pages, ch[Of(sid)], |ch[Of(sid)]|, i, pages[b].(tids := tids));
    forall s: nat | s != sid ensures SameRows(pages, ch, pages', ch, s) {
      RowsKept(pages, ch, owner, pages', ch, s);
    }
  }

  /** New entries on an array page leave every memtable's rows alone. */
  lemma RewriteEntries(pages: seq<Page>, ch: Chains, owner: seq<Owner>, b: nat, entries: seq<Entry>)
    requires LayoutOk(pages, ch, owner) && b < |pages|
    ensures LayoutOk(pages[b := pages[b].(entries := entries)], ch, owner)
    ensures OtherRowsSame(pages, ch, pages[b := pages[b].(entries := entries)], ch, NIL)
  {
    var pages' := pages[b := pages[b].(entries := entries)];
    RewritePage(pages, ch, owner, b, pages[b].(entries := entries));
    forall s: nat ensures SameRows(pages, ch, pages', ch, s) {
      RowsKept(pages, ch, owner, pages', ch, s);
    }
  }

  /** Moving an entry's insert page along its chain. */
  lemma MoveInsert(pages: seq<Page>, ch: Chains, owner: seq<Owner>, home: map<nat, nat>, b: nat, j: nat, insert: nat)
    requires LayoutOk(pages, ch, owner) && DirOk(pages, ch, home) && b in ch[Array] && b < |pages| && j < |pages[b].entries|
    requires Of(pages[b].entries[j].sid) in ch && insert in ch[Of(pages[b].entries[j].sid)]
    ensures DirOk(pages[b := pages[b].(entries := pages[b].entries[j := pages[b].entries[j].(insert := insert)])], ch, home)
  {
    var page' := pages[b].(entries := pages[b].entries[j := pages[b].entries[j].(insert := insert)]);
    var pages' := pages[b := page'];
    forall x | x in ch[Array] ensures PageOk(pages', ch, home, x) {
      assert PageOk(pages, ch, home, x);
      forall k | 0 <= k < |pages'[x].entries| ensures EntryOk(pages', ch, home, x, k) {
        assert EntryOk(pages, ch, home, x, k);
      }
      forall k, l | 0 <= k < l < |pages'[x].entries| ensures SidsDiffer(pages'[x], k, l) {
        assert SidsDiffer(pages[x], k, l);
      }
    }
    forall sid | sid in home ensures IsHome(pages', ch, home, sid) {
      assert IsHome(pages, ch, home, sid);
      if home[sid] == b {
        var k :| 0 <= k < |pages[b].entries| && pages[b].entries[k].sid == sid;
        assert page'.entries[k].sid == sid;
      }
    }
  }

  /** A new memtable: a chain of one page, and an entry for it on array page `a`. */
  lemma RegisterEntry(pages: seq<Page>, ch: Chains, owner: seq<Owner>, home: map<nat, nat>, a: nat, b: nat, sid: nat)
    requires LayoutOk(pages, ch, owner) && DirOk(pages, ch, home) && a in ch[Array] && a < |pages| && sid !in home && Of(sid) !in ch
    ensures DirOk(pages[a := pages[a].(entries := pages[a].entries + [Entry(b, b, sid)])], ch[Of(sid) := [b]][Loose := []], home[sid := a])
  {
    var page' := pages[a].(entries := pages[a].entries + [Entry(b, b, sid)]);
    var pages', ch', home' := pages[a := page'], ch[Of(sid) := [b]][Loose := []], home[sid := a];
    forall x | x in ch'[Array] ensures PageOk(pages', ch', home', x) {
      assert PageOk(pages, ch, home, x);
      forall k | 0 <= k < |pages'[x].entries| ensures EntryOk(pages', ch', home', x, k) {
        if k < |pages[x].entries| {
          assert EntryOk(pages, ch, home, x, k);
        }
      }
      forall k, l | 0 <= k < l < |pages'[x].entries| ensures SidsDiffer(pages'[x], k, l) {
        assert EntryOk(pages, ch, home, x, k);
        if l < |pages[x].entries| {
          assert SidsDiffer(pages[x], k, l);
        }
      }
    }
    forall s | s in home' ensures IsHome(pages', ch', home', s) {
      if s == sid {
        assert page'.entries[|pages[a].entries|].sid == sid;
      } else {
        assert IsHome(pages, ch, home, s);
        if home[s] == a {
          var k :| 0 <= k < |pages[a].entries| && pages[a].entries[k].sid == s;
          assert page'.entries[k].sid == s;
        }
      }
    }
  }

  /** The entries without the one at `j`. */
  function Deleted(entries: seq<Entry>, j: nat): (r: seq<Entry>)
    requires j < |entries|
    ensures |r| == |entries| - 1 && forall k :: 0 <= k < |r| ==> r[k] == entries[if k < j then k else k + 1]
  {
    entries[..j] + entries[j + 1..]
  }

  /** The chain of `sid` has gone, and its entry from page `a`; otherwise the directory is as it was. */
  ghost predicate EntryDeleted(pages: seq<Page>, ch: Chains, pages': seq<Page>, ch': Chains, a: nat, j: nat, sid: nat) {
    && Array in ch && Array in ch' && ch'[Array] == ch[Array]
    && a < |pages| == |pages'| && j < |pages[a].entries| && pages[a].entries[j].sid == sid
    && (forall s :: Of(s) in ch' <==> Of(s) in ch && s != sid)
    && (forall s :: Of(s) in ch' ==> ch'[Of(s)] == ch[Of(s)])
    && (forall x :: x in ch[Array] && x < |pages| && x != a ==> pages'[x].entries == pages[x].entries)
    && pages'[a].entries == Deleted(pages[a].entries, j)
  }

  lemma DeletedPageOk(pages: seq<Page>, ch: Chains, pages': seq<Page>, ch': Chains, home: map<nat, nat>, a: nat, j: nat, sid: nat)
    requires EntryDeleted(pages, ch, pages', ch', a, j, sid) && PageOk(pages, ch, home, a)
    ensures PageOk(pages', ch', home - {sid}, a)
  {
    var home' := home - {sid};
    forall k | 0 <= k < |pages'[a].entries| ensures EntryOk(pages', ch', home', a, k) {
      assert EntryOk(pages, ch, home, a, if k >= j then k + 1 else k);
      assert if k < j then SidsDiffer(pages[a], k, j) else SidsDiffer(pages[a], j, k + 1);
    }
    forall k, l | 0 <= k < l < |pages'[a].entries| ensures SidsDiffer(pages'[a], k, l) {
      assert SidsDiffer(pages[a], if k >= j then k + 1 else k, if l >= j then l + 1 else l);
    }
  }

  lemma OtherPageOk(pages: seq<Page>, ch: Chains, pages': seq<Page>, ch': Chains, home: map<nat, nat>, a: nat, j: nat, sid: nat, x: nat)
    requires EntryDeleted(pages, ch, pages', ch', a, j, sid) && PageOk(pages, ch, home, x)
    requires x in ch[Array] && x != a && sid in home && home[sid] == a
    ensures PageOk(pages', ch', home - {sid}, x)
  {
    forall k | 0 <= k < |pages'[x].entries| ensures EntryOk(pages', ch', home - {sid}, x, k) {
      assert EntryOk(pages, ch, home, x, k);
    }
    forall k, l | 0 <= k < l < |pages'[x].entries| ensures SidsDiffer(pages'[x], k, l) {
      assert SidsDiffer(pages[x], k, l);
    }
  }

  /** Deleting a memtable's entry, when its chain has gone. */
  lemma DeleteEntry(pages: seq<Page>, ch: Chains, home: map<nat, nat>, pages': seq<Page>, ch': Chains, a: nat, j: nat, sid: nat)
    requires DirOk(pages, ch, home) && sid in home && home[sid] == a
    requires EntryDeleted(pages, ch, pages', ch', a, j, sid)
    ensures DirOk(pages', ch', home - {sid})
  {
    forall x | x in ch'[Array] ensures PageOk(pages', ch', home - {sid}, x) {
      assert PageOk(pages, ch, home, x);
      if x == a {
        DeletedPageOk(pages, ch, pages', ch', home, a, j, sid);
      } else {
        OtherPageOk(pages, ch, pages', ch', home, a, j, sid, x);
      }
    }
    forall s | s in home - {sid} ensures IsHome(pages', ch', home - {sid}, s) {
      assert IsHome(pages, ch, home, s);
      if home[s] == a {
        var k :| 0 <= k < |pages[a].entries| && pages[a].entries[k].sid == s;
        assert pages'[a].entries[if k < j then k else k - 1].sid == s;
      }
    }
  }

  class StatusFile {
    var pages: seq<Page>
    var freeHead: int
    var freeTail: int
    var maxSid: nat
    /** How many items fit on a page, by what MAXALIGN leaves of it. */
    const tupleCapacity: nat
    const entryCapacity: nat
    ghost var ch: Chains
    ghost var owner: seq<Owner>
    ghost var home: map<nat, nat>

    ghost predicate Structure()
      reads this
    {
      && tupleCapacity > 0 && entryCapacity > 0
      && LayoutOk(pages, ch, owner) && DirOk(pages, ch, home) && FreeOk(ch, freeHead, freeTail)
    }

    ghost predicate Valid()
      reads this
    {
      Structure() && ch[Loose] == []
    }

    /** The rows recorded for a memtable. */
    ghost function Rows(sid: nat): multiset<int>
      reads this
    {
      RowsOf(pages, ch, sid)
    }

    constructor (tupleCapacity: nat, entryCapacity: nat)
      requires tupleCapacity > 0 && entryCapacity > 0
      ensures Valid() && home == map[] && maxSid == 0
    {
      this.tupleCapacity, this.entryCapacity := tupleCapacity, entryCapacity;
      freeHead, freeTail, maxSid := NIL, NIL, 0;
      pages := [EmptyPage, EmptyPage, EmptyPage];
      ch := map[Array := [STATUS_MEMTABLE_ARRAY_BLKNO], Free := [], Loose := []];
      owner := [Loose, Loose, Array];
      home := map[];
      new;
      assert NodeOk(pages, owner, Array, ch[Array], 0);
      assert ChainOk(pages, owner, Array, ch[Array]) && ChainOk(pages, owner, Free, []) && ChainOk(pages, owner, Loose, []);
      assert ch[Array][0] == 2;
    }

    /** Pops the first free page, emptied; fails if there is none. */
    method GetFreePage() returns (ok: bool, b: nat)
      requires Valid()
      modifies this`pages, this`freeHead, this`freeTail, this`ch, this`owner
      ensures Structure() && (ok <==> old(ch)[Free] != [])
      ensures !ok ==> Valid() && pages == old(pages) && ch == old(ch) && owner == old(owner)
      ensures ok ==> Taken(old(pages), old(ch), old(owner), pages, ch, owner, b)
      ensures OtherRowsSame(old(pages), old(ch), pages, ch, NIL)
    {
      ok, b := false, 0;
      if freeHead == NIL {
        return;
      }
      OwnerOnChain(pages, ch, owner, Free, 0);
      TakeFree(pages, ch, owner);
      FreeChainFacts(pages, ch, owner);
      ok, b := true, freeHead;
      freeHead := pages[b].next;
      if freeHead == NIL {
        freeTail := NIL;
      }
      pages := pages[b := EmptyPage];
      ch := ch[Free := ch[Free][1..]][Loose := [b]];
      owner := owner[b := Loose];
      TakenKeeps(old(pages), old(ch), old(owner), pages, ch, owner, b, home);
    }

    /** A free page if there is one, else a new one at the end of the file. */
    method AllocatePage() returns (b: nat)
      requires Valid()
      modifies this`pages, this`freeHead, this`freeTail, this`ch, this`owner
      ensures Structure() && Taken(old(pages), old(ch), old(owner), pages, ch, owner, b)
      ensures OtherRowsSame(old(pages), old(ch), pages, ch, NIL)
    {
      var ok;
      ok, b := GetFreePage();
      if !ok {
        b := ExtendByOne();
      }
    }

    method ExtendByOne() returns (b: nat)
      requires Valid()
      modifies this`pages, this`ch, this`owner
      ensures Structure() && Taken(old(pages), old(ch), old(owner), pages, ch, owner, b)
      ensures OtherRowsSame(old(pages), old(ch), pages, ch, NIL)
    {
      ExtendFile(pages, ch, owner);
      b := |pages|;
      pages := pages + [EmptyPage];
      ch := ch[Loose := [b]];
      owner := owner + [Loose];
      TakenKeeps(old(pages), old(ch), old(owner), pages, ch, owner, b, home);
    }

    /* ---- Finding ---- */

    method FindOnPage(page: Page, sid: nat) returns (off: nat)
      ensures off <= |page.entries| && (off < |page.entries| ==> page.entries[off].sid == sid)
      ensures off == |page.entries| ==> !HasEntry(page, sid)
    {
      off := 0;
      while off < |page.entries| && page.entries[off].sid != sid
        invariant off <= |page.entries| && forall k :: 0 <= k < off ==> page.entries[k].sid != sid
      {
        off := off + 1;
      }
    }

    /** Walks the array pages to a memtable's entry. */
    method FindEntry(sid: nat) returns (found: bool, blk: nat, off: nat)
      requires Structure()
      ensures found <==> sid in home
      ensures found ==> blk < |pages| && home[sid] == blk && blk in ch[Array] && off < |pages[blk].entries|
      ensures found ==> pages[blk].entries[off].sid == sid && EntryOk(pages, ch, home, blk, off)
    {
      var b: int := STATUS_MEMTABLE_ARRAY_BLKNO;
      ghost var list, k := ch[Array], 0;
      assert ChainOk(pages, owner, Array, list);
      while b != NIL
        invariant k <= |list| && b == if k < |list| then list[k] else NIL
        invariant forall i :: 0 <= i < k ==> list[i] < |pages| && !HasEntry(pages[list[i]], sid)
        decreases |list| - k
      {
        assert NodeOk(pages, owner, Array, list, k) && PageOk(pages, ch, home, list[k]);
        off := FindOnPage(pages[b], sid);
        if off < |pages[b].entries| {
          assert EntryOk(pages, ch, home, list[k], off);
          return true, b, off;
        }
        b := pages[b].next;
        k := k + 1;
      }
      assert sid in home ==> IsHome(pages, ch, home, sid);
      return false, 0, 0;
    }

    /* ---- Linking ---- */

    /** Links the loose page `b` behind the last page of a chain. */
    method LinkBehind(t: nat, b: nat, ghost o: Owner)
      requires Structure() && ch[Loose] == [b] && b < |pages| && pages[b] == EmptyPage
      requires o in ch && (o == Array || o.Of?) && ch[o] != [] && t == ch[o][|ch[o]| - 1]
      modifies this`pages, this`ch, this`owner
      ensures Valid() && t < |old(pages)| && pages == old(pages)[t := old(pages)[t].(next := b)]
      ensures ch == old(ch)[o := old(ch)[o] + [b]][Loose := []] && owner == old(owner)[b := o]
      ensures OtherRowsSame(old(pages), old(ch), pages, ch, NIL)
    {
      LinkLoose(pages, ch, owner, o);
      LinkFrame(pages, ch, owner, o, t, b, home);
      pages := pages[t := pages[t].(next := b)];
      ch := ch[o := ch[o] + [b]][Loose := []];
      owner := owner[b := o];
    }

    /** An array page with room for an entry; the file is extended if there is none. */
    method FindArrayPage() returns (a: nat)
      requires Valid()
      modifies this`pages, this`ch, this`owner
      ensures Valid() && a in ch[Array] && a < |pages| && |pages[a].entries| < entryCapacity
      ensures forall sid :: Of(sid) in ch <==> Of(sid) in old(ch)
      ensures OtherRowsSame(old(pages), old(ch), pages, ch, NIL)
    {
      a := STATUS_MEMTABLE_ARRAY_BLKNO;
      ghost var list, k := ch[Array], 0;
      assert ChainOk(pages, owner, Array, list);
      assert NodeOk(pages, owner, Array, list, 0);
      while |pages[a].entries| >= entryCapacity && pages[a].next != NIL
        invariant k < |list| && a == list[k] && a < |pages|
        decreases |list| - k
      {
        assert NodeOk(pages, owner, Array, list, k) && NodeOk(pages, owner, Array, list, k + 1);
        a := pages[a].next;
        k := k + 1;
      }
      assert NodeOk(pages, owner, Array, list, k);
      if |pages[a].entries| >= entryCapacity {
        var b := ExtendByOne();
        ghost var taken, tch := pages, ch;
        LinkBehind(a, b, Array);
        SameRowsTrans(old(pages), old(ch), taken, tch, pages, ch, NIL);
        assert b == ch[Array][|list|];
        a := b;
      }
    }

    /** Walks from `start` to the first page of the chain with room, adding a page if there is none. */
    method FindTuplePage(sid: nat, start: nat) returns (cur: nat)
      requires Valid() && Of(sid) in ch && start in ch[Of(sid)]
      modifies this`pages, this`freeHead, this`freeTail, this`ch, this`owner
      ensures Valid() && Of(sid) in ch && cur in ch[Of(sid)] && cur < |pages| && |pages[cur].tids| < tupleCapacity
      ensures ch[Array] == old(ch)[Array]
      ensures forall x :: x in ch[Array] ==> x < |old(pages)| <= |pages| && pages[x].entries == old(pages)[x].entries
      ensures OtherRowsSame(old(pages), old(ch), pages, ch, NIL)
    {
      cur := start;
      ghost var list := ch[Of(sid)];
      ghost var k :| 0 <= k < |list| && list[k] == start;
      assert ChainOk(pages, owner, Of(sid), list) && NodeOk(pages, owner, Of(sid), list, k);
      while |pages[cur].tids| >= tupleCapacity && pages[cur].next != NIL
        invariant k < |list| && cur == list[k] && cur < |pages|
        decreases |list| - k
      {
        assert NodeOk(pages, owner, Of(sid), list, k) && NodeOk(pages, owner, Of(sid), list, k + 1);
        cur := pages[cur].next;
        k := k + 1;
      }
      assert NodeOk(pages, owner, Of(sid), list, k);
      forall x | x in ch[Array] ensures x < |pages| && owner[x] == Array {
        OnArrayChain(pages, ch, owner, x);
      }
      if |pages[cur].tids| >= tupleCapacity {
        var b := AllocatePage();
        ghost var taken, tch := pages, ch;
        LinkBehind(cur, b, Of(sid));
        SameRowsTrans(old(pages), old(ch), taken, tch, pages, ch, NIL);
        assert b == ch[Of(sid)][|list|];
        cur := b;
      }
    }

    /* ---- Operations ---- */

    /** An array page with room for an entry, and a page for the new memtable's rows. */
    method MakeRoom() returns (a: nat, b: nat)
      requires Valid()
      modifies this`pages, this`freeHead, this`freeTail, this`ch, this`owner
      ensures Structure() && a in ch[Array] && a < |pages|
      ensures ch[Loose] == [b] && b < |pages| && pages[b] == EmptyPage
      ensures OtherRowsSame(old(pages), old(ch), pages, ch, NIL)
    {
      a := FindArrayPage();
      OnArrayChain(pages, ch, owner, a);
      ghost var p1, c1 := pages, ch;
      b := AllocatePage();
      SameRowsTrans(old(pages), old(ch), p1, c1, pages, ch, NIL);
    }

    /** Records a new memtable without rows; a recycled page brings none of its old rows along. */
    method Register(sid: nat)
      requires Valid() && sid !in home
      modifies this
      ensures Valid() && maxSid == sid
      ensures home.Keys == old(home).Keys + {sid} && Rows(sid) == multiset{}
      ensures OtherRowsSame(old(pages), old(ch), pages, ch, sid)
    {
      maxSid := sid;
      var a, b := MakeRoom();
      ghost var p1, c1 := pages, ch;
      RegisterKeeps(pages, ch, owner, home, a, b, sid);
      pages := pages[a := pages[a].(entries := pages[a].entries + [Entry(b, b, sid)])];
      ch := ch[Of(sid) := [b]][Loose := []];
      owner := owner[b := Of(sid)];
      home := home[sid := a];
      SameRowsWeaken(old(pages), old(ch), p1, c1, sid);
      SameRowsTrans(old(pages), old(ch), p1, c1, pages, ch, sid);
    }

    /** Writes a row to a page of the memtable's chain. */
    method WriteRow(sid: nat, cur: nat, tid: int)
      requires Valid() && Of(sid) in ch && cur in ch[Of(sid)] && cur < |pages|
      modifies this`pages
      ensures Valid() && Rows(sid) == old(Rows(sid)) + multiset{tid}
      ensures |pages| == |old(pages)| && forall x :: 0 <= x < |pages| ==> pages[x].entries == old(pages)[x].entries
      ensures OtherRowsSame(old(pages), ch, pages, ch, sid)
    {
      ghost var i :| 0 <= i < |ch[Of(sid)]| && ch[Of(sid)][i] == cur;
      RewriteRows(pages, ch, owner, home, sid, i, pages[cur].tids + [tid]);
      AddedRow(RowsOf(pages, ch, sid), pages[cur].tids, tid);
      pages := pages[cur := pages[cur].(tids := pages[cur].tids + [tid])];
    }

    /** Finds room on the memtable's chain and writes the row there. */
    method AppendRow(sid: nat, insertPage: nat, tid: int) returns (cur: nat)
      requires Valid() && Of(sid) in ch && insertPage in ch[Of(sid)]
      modifies this`pages, this`freeHead, this`freeTail, this`ch, this`owner
      ensures Valid() && Of(sid) in ch && cur in ch[Of(sid)]
      ensures ch[Array] == old(ch)[Array]
      ensures forall x :: x in ch[Array] ==> x < |old(pages)| <= |pages| && pages[x].entries == old(pages)[x].entries
      ensures Rows(sid) == old(Rows(sid)) + multiset{tid}
      ensures OtherRowsSame(old(pages), old(ch), pages, ch, sid)
    {
      cur := FindTuplePage(sid, insertPage);
      ghost var p1, c1 := pages, ch;
      assert SameRows(old(pages), old(ch), p1, c1, sid);
      WriteRow(sid, cur, tid);
      SameRowsWeaken(old(pages), old(ch), p1, c1, sid);
      SameRowsTrans(old(pages), old(ch), p1, c1, pages, ch, sid);
    }

    /** Records a row of a memtable; fails if the memtable is unknown. */
    method Add(sid: nat, tid: int) returns (ok: bool)
      requires Valid()
      modifies this`pages, this`freeHead, this`freeTail, this`ch, this`owner
      ensures Valid() && (ok <==> sid in home)
      ensures ok ==> Rows(sid) == old(Rows(sid)) + multiset{tid}
      ensures !ok ==> pages == old(pages) && ch == old(ch)
      ensures OtherRowsSame(old(pages), old(ch), pages, ch, sid)
    {
      var blk, off;
      ok, blk, off := FindEntry(sid);
      if !ok {
        return;
      }
      var insertPage := pages[blk].entries[off].insert;
      var cur := AppendRow(sid, insertPage, tid);
      if cur != insertPage {
        ghost var p1 := pages;
        UpdateInsertPage(blk, off, cur);
        assert SameRows(p1, ch, pages, ch, sid);
        SameRowsWeaken(p1, ch, pages, ch, sid);
        SameRowsTrans(old(pages), old(ch), p1, ch, pages, ch, sid);
      }
    }

    /** Remembers where the next row goes. */
    method UpdateInsertPage(blk: nat, off: nat, insertPage: nat)
      requires Valid() && blk in ch[Array] && blk < |pages| && off < |pages[blk].entries|
      requires Of(pages[blk].entries[off].sid) in ch && insertPage in ch[Of(pages[blk].entries[off].sid)]
      modifies this`pages
      ensures Valid() && OtherRowsSame(old(pages), ch, pages, ch, NIL)
      ensures blk < |pages| && off < |pages[blk].entries| && pages[blk].entries[off] == old(pages[blk].entries[off]).(insert := insertPage)
    {
      var entries := pages[blk].entries[off := pages[blk].entries[off].(insert := insertPage)];
      MoveInsert(pages, ch, owner, home, blk, off, insertPage);
      RewriteEntries(pages, ch, owner, blk, entries);
      pages := pages[blk := pages[blk].(entries := entries)];
    }

    /** The rows of a memtable, page by page. */
    method GetTids(sid: nat) returns (found: bool, tids: seq<int>)
      requires Valid()
      ensures found <==> sid in home
      ensures multiset(tids) == if found then Rows(sid) else multiset{}
    {
      tids := [];
      var blk, off;
      found, blk, off := FindEntry(sid);
      if !found {
        return;
      }
      ghost var list, k := ch[Of(sid)], 0;
      ChainInFile(pages, ch, owner, Of(sid));
      assert ChainOk(pages, owner, Of(sid), list);
      var cur: int := pages[blk].entries[off].head;
      while cur != NIL
        invariant k <= |list| && cur == if k < |list| then list[k] else NIL
        invariant multiset(tids) == Bag(pages, list, k)
        decreases |list| - k
      {
        assert NodeOk(pages, owner, Of(sid), list, k);
        tids := tids + pages[cur].tids;
        cur := pages[cur].next;
        k := k + 1;
      }
    }

    /** Deletes the first occurrence of a row from a page of the memtable's chain. */
    method EraseRow(sid: nat, cur: nat, tid: int, ghost k: nat)
      requires Valid() && Of(sid) in ch && k < |ch[Of(sid)]| && ch[Of(sid)][k] == cur < |pages| && tid in pages[cur].tids
      modifies this`pages
      ensures Valid() && tid in old(Rows(sid)) && Rows(sid) == old(Rows(sid)) - multiset{tid}
      ensures OtherRowsSame(old(pages), ch, pages, ch, sid)
    {
      var tids := pages[cur].tids;
      var j := 0;
      while tids[j] != tid
        invariant j < |tids| && tid in tids[j..]
        decreases |tids| - j
      {
        j := j + 1;
      }
      RewriteRows(pages, ch, owner, home, sid, k, tids[..j] + tids[j + 1..]);
      RemovedRow(RowsOf(pages, ch, sid), tids, j);
      pages := pages[cur := pages[cur].(tids := tids[..j] + tids[j + 1..])];
    }

    /** Removes one record of a row, if there is one. */
    method Remove(sid: nat, tid: int) returns (found: bool)
      requires Valid()
      modifies this`pages
      ensures Valid() && (found <==> sid in home && tid in old(Rows(sid)))
      ensures found ==> Rows(sid) == old(Rows(sid)) - multiset{tid}
      ensures !found ==> pages == old(pages)
      ensures OtherRowsSame(old(pages), old(ch), pages, ch, sid)
    {
      var blk, off;
      found, blk, off := FindEntry(sid);
      if !found {
        return;
      }
      ghost var list, k := ch[Of(sid)], 0;
      ChainInFile(pages, ch, owner, Of(sid));
      assert ChainOk(pages, owner, Of(sid), list);
      var cur: int := pages[blk].entries[off].head;
      while cur != NIL
        invariant k <= |list| && cur == if k < |list| then list[k] else NIL
        invariant tid !in Bag(pages, list, k)
        decreases |list| - k
      {
        assert NodeOk(pages, owner, Of(sid), list, k);
        if tid in pages[cur].tids {
          EraseRow(sid, cur, tid, k);
          return true;
        }
        cur := pages[cur].next;
        k := k + 1;
      }
      return false;
    }

    /** The last page of a memtable's chain, reached from any page of it. */
    method FindTail(sid: nat, start: nat) returns (t: nat)
      requires Valid() && Of(sid) in ch && start in ch[Of(sid)]
      ensures t == ch[Of(sid)][|ch[Of(sid)]| - 1] && t < |pages|
    {
      t := start;
      ghost var list := ch[Of(sid)];
      ghost var k :| 0 <= k < |list| && list[k] == start;
      assert ChainOk(pages, owner, Of(sid), list) && NodeOk(pages, owner, Of(sid), list, k);
      while pages[t].next != NIL
        invariant k < |list| && t == list[k] && t < |pages|
        decreases |list| - k
      {
        assert NodeOk(pages, owner, Of(sid), list, k) && NodeOk(pages, owner, Of(sid), list, k + 1);
        t := pages[t].next;
        k := k + 1;
      }
      assert NodeOk(pages, owner, Of(sid), list, k);
    }

    /** Forgets a memtable: its pages go to the end of the free list, its entry is deleted. */
    method Release(sid: nat) returns (found: bool)
      requires Valid()
      modifies this`pages, this`freeHead, this`freeTail, this`ch, this`owner, this`home
      ensures Valid() && (found <==> sid in old(home)) && home.Keys == old(home).Keys - {sid}
      ensures !found ==> pages == old(pages) && ch == old(ch)
      ensures Rows(sid) == multiset{}
      ensures OtherRowsSame(old(pages), old(ch), pages, ch, sid)
    {
      var blk, off;
      found, blk, off := FindEntry(sid);
      if !found {
        assert Of(sid) !in ch;
        return;
      }
      var mt := pages[blk].entries[off];
      var t := FindTail(sid, mt.insert);
      ReleaseKeeps(pages, ch, owner, home, blk, off, sid);
      if freeHead == NIL {
        freeHead := mt.head;
      } else {
        pages := pages[freeTail := pages[freeTail].(next := mt.head)];
      }
      freeTail := t;
      pages := pages[blk := pages[blk].(entries := Deleted(pages[blk].entries, off))];
      owner := Freed(owner, sid);
      ch := (ch - {Of(sid)})[Free := ch[Free] + ch[Of(sid)]];
      home := home - {sid};
    }
  }

  lemma SameRowsWeaken(p0: seq<Page>, c0: Chains, p1: seq<Page>, c1: Chains, sid: int)
    requires OtherRowsSame(p0, c0, p1, c1, NIL)
    ensures OtherRowsSame(p0, c0, p1, c1, sid)
  {
    forall s: nat | s != sid ensures SameRows(p0, c0, p1, c1, s) {
      assert SameRows(p0, c0, p1, c1, s);
    }
  }

  lemma AddedRow(rows: multiset<int>, tids: seq<int>, tid: int)
    requires multiset(tids) <= rows
    ensures rows - multiset(tids) + multiset(tids + [tid]) == rows + multiset{tid}
  {
    assert multiset(tids + [tid]) == multiset(tids) + multiset{tid};
  }

  lemma RemovedRow(rows: multiset<int>, tids: seq<int>, j: nat)
    requires j < |tids| && multiset(tids) <= rows
    ensures rows - multiset(tids) + multiset(tids[..j] + tids[j + 1..]) == rows - multiset{tids[j]}
    ensures tids[j] in rows
  {
    assert tids == tids[..j] + [tids[j]] + tids[j + 1..];
    assert multiset(tids) == multiset(tids[..j] + tids[j + 1..]) + multiset{tids[j]};
  }

  lemma RegisterKeeps(pages: seq<Page>, ch: Chains, owner: seq<Owner>, home: map<nat, nat>, a: nat, b: nat, sid: nat)
    requires LayoutOk(pages, ch, owner) && DirOk(pages, ch, home) && a in ch[Array] && a < |pages| && sid !in home
    requires ch[Loose] == [b] && b < |pages| && pages[b] == EmptyPage
    ensures var pages' := pages[a := pages[a].(entries := pages[a].entries + [Entry(b, b, sid)])];
      var ch' := ch[Of(sid) := [b]][Loose := []];
      && LayoutOk(pages', ch', owner[b := Of(sid)]) && DirOk(pages', ch', home[sid := a])
      && OtherRowsSame(pages, ch, pages', ch', sid) && RowsOf(pages', ch', sid) == multiset{}
  {
    var entries := pages[a].entries + [Entry(b, b, sid)];
    var pages' := pages[a := pages[a].(entries := entries)];
    var ch' := ch[Of(sid) := [b]][Loose := []];
    assert Of(sid) !in ch;
    OwnerOnChain(pages, ch, owner, Loose, 0);
    OnArrayChain(pages, ch, owner, a);
    FoundChain(pages, ch, owner, sid);
    RewriteEntries(pages, ch', owner[b := Of(sid)], a, entries);
    RegisterEntry(pages, ch, owner, home, a, b, sid);
    forall s: nat | s != sid ensures SameRows(pages, ch, pages', ch', s) {
      RowsKept(pages, ch, owner, pages', ch', s);
    }
    assert Bag(pages', [b], 1) == Bag(pages', [b], 0) + multiset(pages'[b].tids);
  }

  lemma ReleaseKeeps(pages: seq<Page>, ch: Chains, owner: seq<Owner>, home: map<nat, nat>, a: nat, j: nat, sid: nat)
    requires LayoutOk(pages, ch, owner) && DirOk(pages, ch, home) && sid in home && home[sid] == a
    requires a in ch[Array] && a < |pages| && j < |pages[a].entries| && pages[a].entries[j].sid == sid
    requires Of(sid) in ch && ch[Of(sid)] != []
    ensures ch[Free] != [] ==> ch[Free][|ch[Free]| - 1] < |pages| && ch[Free][|ch[Free]| - 1] != a
    ensures var linked := Relinked(pages, ch[Free], ch[Of(sid)][0]);
      var pages' := linked[a := linked[a].(entries := Deleted(linked[a].entries, j))];
      var ch' := (ch - {Of(sid)})[Free := ch[Free] + ch[Of(sid)]];
      && linked[a].entries == pages[a].entries
      && LayoutOk(pages', ch', Freed(owner, sid)) && DirOk(pages', ch', home - {sid})
      && OtherRowsSame(pages, ch, pages', ch', sid)
  {
    FreeChain(pages, ch, owner, sid);
    OnArrayChain(pages, ch, owner, a);
    if ch[Free] != [] {
      OwnerOnChain(pages, ch, owner, Free, |ch[Free]| - 1);
    }
    var linked := Relinked(pages, ch[Free], ch[Of(sid)][0]);
    var ch' := (ch - {Of(sid)})[Free := ch[Free] + ch[Of(sid)]];
    var pages' := linked[a := linked[a].(entries := Deleted(linked[a].entries, j))];
    RewritePage(linked, ch', Freed(owner, sid), a, linked[a].(entries := Deleted(linked[a].entries, j)));
    DeleteEntry(pages, ch, home, pages', ch', a, j, sid);
    forall s: nat | s != sid ensures SameRows(pages, ch, pages', ch', s) {
      RowsKept(pages, ch, owner, pages', ch', s);
    }
  }

  lemma SameRowsTrans(p0: seq<Page>, c0: Chains, p1: seq<Page>, c1: Chains, p2: seq<Page>, c2: Chains, sid: int)
    requires OtherRowsSame(p0, c0, p1, c1, sid) && OtherRowsSame(p1, c1, p2, c2, sid)
    ensures OtherRowsSame(p0, c0, p2, c2, sid)
  {
    forall s: nat | s != sid ensures SameRows(p0, c0, p2, c2, s) {
      assert SameRows(p0, c0, p1, c1, s) && SameRows(p1, c1, p2, c2, s);
    }
  }

  /** Linking an empty page keeps the directory and everybody's rows. */
  lemma LinkFrame(pages: seq<Page>, ch: Chains, owner: seq<Owner>, o: Owner, t: nat, b: nat, home: map<nat, nat>)
    requires LayoutOk(pages, ch, owner) && DirOk(pages, ch, home)
    requires ch[Loose] == [b] && b < |pages| && pages[b] == EmptyPage
    requires o in ch && (o == Array || o.Of?) && ch[o] != [] && t == ch[o][|ch[o]| - 1] && t < |pages| && t != b
    ensures var pages', ch' := pages[t := pages[t].(next := b)], ch[o := ch[o] + [b]][Loose := []];
      DirOk(pages', ch', home) && OtherRowsSame(pages, ch, pages', ch', NIL)
  {
    var pages', ch' := pages[t := pages[t].(next := b)], ch[o := ch[o] + [b]][Loose := []];
    OwnerOnChain(pages, ch, owner, Loose, 0);
    DirKept(pages, ch, pages', ch', home);
    forall s: nat ensures SameRows(pages, ch, pages', ch', s) {
      RowsKept(pages, ch, owner, pages', ch', s);
    }
  }

  /** The first free page links to the rest, which ends in the tail. */
  lemma FreeChainFacts(pages: seq<Page>, ch: Chains, owner: seq<Owner>)
    requires LayoutOk(pages, ch, owner) && ch[Free] != []
    ensures ch[Free][0] < |pages| && pages[ch[Free][0]].next == (if |ch[Free]| > 1 then ch[Free][1] else NIL)
    ensures owner[ch[Free][0]] == Free
  {
    assert ChainOk(pages, owner, Free, ch[Free]) && NodeOk(pages, owner, Free, ch[Free], 0);
  }
}
