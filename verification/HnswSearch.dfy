/**
  Best-first search on one layer of the HNSW graph, in memory: the candidate heap C, the result
  heap W of at most ef elements, and the visited table.
 */
module HnswSearch {
  import opened FiniteSets

  /** The layer: each element's neighbors and its level. */
  datatype Layer = Layer(neighbors: seq<seq<nat>>, levels: seq<nat>, lc: nat) {
    ghost predicate Ok() {
      |neighbors| == |levels| && forall e, i :: 0 <= e < |neighbors| && 0 <= i < |neighbors[e]| ==> neighbors[e][i] < |neighbors|
    }
  }

  /** Entry points count whatever their level; others must reach the layer. */
  ghost predicate Eligible(g: Layer, ep: seq<nat>, x: nat) {
    x in ep || (x < |g.levels| && g.levels[x] >= g.lc)
  }

  ghost predicate NotCloser(d: nat -> real, x: nat, w: set<nat>) {
    forall y :: y in w ==> d(y) <= d(x)
  }

  ghost predicate Expanded(g: Layer, x: nat, visited: set<nat>) {
    x < |g.neighbors| && forall i :: 0 <= i < |g.neighbors[x]| ==> g.neighbors[x][i] in visited
  }

  /** W holds the nearest of the eligible elements seen: all of them, or ef with none outside strictly closer. */
  ghost predicate NearestSeen(g: Layer, d: nat -> real, ep: seq<nat>, ef: nat, seen: set<nat>, w: set<nat>) {
    && w <= seen && |w| <= ef
    && (forall x :: x in w ==> Eligible(g, ep, x))
    && (forall x {:trigger Eligible(g, ep, x)} :: x in seen && Eligible(g, ep, x) && x !in w ==> |w| == ef && NotCloser(d, x, w))
  }

  /* ---- Heaps ---- */

  method Nearest(c: set<nat>, d: nat -> real) returns (x: nat)
    requires c != {}
    ensures x in c && forall y :: y in c ==> d(x) <= d(y)
  {
    x :| x in c;
    var rest := c - {x};
    while rest != {}
      invariant rest <= c && x in c && forall y :: y in c - rest ==> d(x) <= d(y)
      decreases rest
    {
      var y :| y in rest;
      if d(y) < d(x) {
        x := y;
      }
      rest := rest - {y};
    }
  }

  method Furthest(w: set<nat>, d: nat -> real) returns (x: nat)
    requires w != {}
    ensures x in w && NotCloser(d, x, w)
  {
    x :| x in w;
    var rest := w - {x};
    while rest != {}
      invariant rest <= w && x in w && forall y :: y in w - rest ==> d(y) <= d(x)
      decreases rest
    {
      var y :| y in rest;
      if d(y) > d(x) {
        x := y;
      }
      rest := rest - {y};
    }
  }

  /* ---- One element ---- */

  lemma SkipFar(g: Layer, d: nat -> real, ep: seq<nat>, ef: nat, seen: set<nat>, w: set<nat>, e: nat)
    requires NearestSeen(g, d, ep, ef, seen, w) && e !in seen
    requires !Eligible(g, ep, e) || (|w| == ef && NotCloser(d, e, w))
    ensures NearestSeen(g, d, ep, ef, seen + {e}, w)
  {
    forall x | x in seen + {e} && Eligible(g, ep, x) && x !in w ensures |w| == ef && NotCloser(d, x, w) {
    }
  }

  lemma AddRoom(g: Layer, d: nat -> real, ep: seq<nat>, ef: nat, seen: set<nat>, w: set<nat>, e: nat)
    requires NearestSeen(g, d, ep, ef, seen, w) && e !in seen && Eligible(g, ep, e) && |w| < ef
    ensures NearestSeen(g, d, ep, ef, seen + {e}, w + {e})
  {
    forall x | x in seen + {e} && Eligible(g, ep, x) ensures x in w + {e} {
    }
  }

  /** Adding to a full W and dropping the furthest. */
  lemma AddAndDrop(g: Layer, d: nat -> real, ep: seq<nat>, ef: nat, seen: set<nat>, w: set<nat>, e: nat, f: nat, drop: nat)
    requires NearestSeen(g, d, ep, ef, seen, w) && e !in seen && Eligible(g, ep, e) && |w| == ef
    requires f in w && d(e) < d(f) && drop in w + {e} && NotCloser(d, drop, w + {e})
    ensures NearestSeen(g, d, ep, ef, seen + {e}, w + {e} - {drop})
  {
    var now := w + {e} - {drop};
    assert |w + {e}| == ef + 1;
    forall x | x in seen + {e} && Eligible(g, ep, x) && x !in now ensures |now| == ef && NotCloser(d, x, now) {
      if x != drop {
        assert NotCloser(d, x, w);
        assert d(e) < d(f) <= d(x);
      }
    }
  }

  /** Decides about one unvisited element; `wlen` stops counting exactly once W is full. */
  method Consider(g: Layer, d: nat -> real, ghost ep: seq<nat>, ef: nat, ghost seen: set<nat>, e: nat, c: set<nat>, w: set<nat>, wlen: nat)
    returns (c': set<nat>, w': set<nat>, wlen': nat)
    requires g.Ok() && e < |g.levels| && e !in seen && e !in ep && w != {} && ef > 0
    requires NearestSeen(g, d, ep, ef, seen, w) && c <= seen
    requires if wlen <= ef then wlen == |w| else |w| == ef
    ensures NearestSeen(g, d, ep, ef, seen + {e}, w') && w' != {}
    ensures c' == c || c' == c + {e}
    ensures w' <= w + {e} && (e in w' ==> e in c')
    ensures if wlen' <= ef then wlen' == |w'| else |w'| == ef
  {
    c', w', wlen' := c, w, wlen;
    var alwaysAdd := wlen < ef;
    var f := Furthest(w, d);
    if !(d(e) < d(f) || alwaysAdd) {
      SkipFar(g, d, ep, ef, seen, w, e);
      return;
    }
    if g.levels[e] < g.lc {
      SkipFar(g, d, ep, ef, seen, w, e);
      return;
    }
    c', w', wlen' := c + {e}, w + {e}, wlen + 1;
    if wlen' > ef {
      var drop := Furthest(w', d);
      AddAndDrop(g, d, ep, ef, seen, w, e, f, drop);
      assert |w + {e}| == ef + 1;
      w' := w' - {drop};
      assert |w'| == ef;
    } else {
      AddRoom(g, d, ep, ef, seen, w, e);
    }
  }

  /* ---- The search ---- */

  /** The neighbors of an element that have not been visited, which now are. */
  method LoadUnvisited(g: Layer, e: nat, visited: set<nat>) returns (unvisited: seq<nat>, visited': set<nat>)
    requires g.Ok() && e < |g.neighbors|
    ensures visited' == visited + Elements(unvisited) && Expanded(g, e, visited')
    ensures forall i :: 0 <= i < |unvisited| ==> unvisited[i] < |g.neighbors| && unvisited[i] !in visited
    ensures forall i, j :: 0 <= i < j < |unvisited| ==> unvisited[i] != unvisited[j]
  {
    unvisited, visited' := [], visited;
    for i := 0 to |g.neighbors[e]|
      invariant visited' == visited + Elements(unvisited)
      invariant forall k :: 0 <= k < i ==> g.neighbors[e][k] in visited'
      invariant forall k :: 0 <= k < |unvisited| ==> unvisited[k] < |g.neighbors| && unvisited[k] !in visited
      invariant forall k, l :: 0 <= k < l < |unvisited| ==> unvisited[k] != unvisited[l]
    {
      var x := g.neighbors[e][i];
      if x !in visited' {
        ghost var before := unvisited;
        unvisited := unvisited + [x];
        assert Elements(unvisited) == Elements(before) + {x};
        visited' := visited' + {x};
      }
    }
  }

  function Elements(s: seq<nat>): set<nat> {
    set x | x in s
  }

  /** Every result has been expanded or is still to be. */
  ghost predicate Pending(g: Layer, visited: set<nat>, c: set<nat>, w: set<nat>) {
    forall x :: x in w ==> x in c || Expanded(g, x, visited)
  }

  method ConsiderAll(g: Layer, d: nat -> real, ghost ep: seq<nat>, ef: nat, ghost seen: set<nat>, unvisited: seq<nat>,
                     c: set<nat>, w: set<nat>, wlen: nat, ghost visited: set<nat>)
    returns (c': set<nat>, w': set<nat>, wlen': nat)
    requires g.Ok() && w != {} && ef > 0 && visited == seen + Elements(unvisited)
    requires forall i :: 0 <= i < |unvisited| ==> unvisited[i] < |g.neighbors| && unvisited[i] !in seen && unvisited[i] !in ep
    requires forall i, j :: 0 <= i < j < |unvisited| ==> unvisited[i] != unvisited[j]
    requires NearestSeen(g, d, ep, ef, seen, w) && c <= seen && Pending(g, visited, c, w)
    requires if wlen <= ef then wlen == |w| else |w| == ef
    ensures NearestSeen(g, d, ep, ef, visited, w') && w' != {} && c' <= visited && Pending(g, visited, c', w')
    ensures c' <= c + Elements(unvisited)
    ensures if wlen' <= ef then wlen' == |w'| else |w'| == ef
  {
    c', w', wlen' := c, w, wlen;
    ghost var done := seen;
    for i := 0 to |unvisited|
      invariant done == seen + Elements(unvisited[..i])
      invariant NearestSeen(g, d, ep, ef, done, w') && w' != {} && c' <= done && Pending(g, visited, c', w')
      invariant c' <= c + Elements(unvisited)
      invariant if wlen' <= ef then wlen' == |w'| else |w'| == ef
    {
      var e := unvisited[i];
      assert e !in unvisited[..i];
      assert unvisited[..i + 1] == unvisited[..i] + [e];
      c', w', wlen' := Consider(g, d, ep, ef, done, e, c', w', wlen');
      done := done + {e};
    }
    assert unvisited[..|unvisited|] == unvisited;
  }

  ghost predicate NotAfter(d: nat -> real, out: seq<nat>, i: nat, j: nat)
    requires i < |out| && j < |out|
  {
    d(out[i]) >= d(out[j])
  }

  ghost predicate FarthestFirst(d: nat -> real, out: seq<nat>) {
    forall i, j :: 0 <= i < j < |out| ==> NotAfter(d, out, i, j)
  }

  /** Takes the elements out of W, farthest first. */
  method Drain(w: set<nat>, d: nat -> real) returns (out: seq<nat>)
    ensures Elements(out) == w && |out| == |w| && FarthestFirst(d, out)
  {
    out := [];
    var rest := w;
    while rest != {}
      invariant Elements(out) + rest == w && |out| + |rest| == |w| && FarthestFirst(d, out)
      invariant out != [] ==> forall y :: y in rest ==> d(y) <= d(out[|out| - 1])
      decreases rest
    {
      var x := Furthest(rest, d);
      DrainStep(d, out, x);
      Moved(Elements(out), rest, x);
      out := out + [x];
      rest := rest - {x};
    }
  }

  lemma Moved(a: set<nat>, b: set<nat>, x: nat)
    requires x in b
    ensures (a + {x}) + (b - {x}) == a + b && |b - {x}| == |b| - 1
  {
  }

  lemma DrainStep(d: nat -> real, out: seq<nat>, x: nat)
    requires FarthestFirst(d, out) && (out != [] ==> d(x) <= d(out[|out| - 1]))
    ensures FarthestFirst(d, out + [x]) && Elements(out + [x]) == Elements(out) + {x}
  {
    forall i, j | 0 <= i < j < |out + [x]| ensures NotAfter(d, out + [x], i, j) {
      if j < |out| {
        assert NotAfter(d, out, i, j);
      } else {
        assert i < |out| - 1 ==> NotAfter(d, out, i, |out| - 1);
      }
    }
  }

  lemma MoreVisited(g: Layer, visited: set<nat>, visited': set<nat>, c: set<nat>, c': set<nat>, w: set<nat>, x: nat)
    requires Pending(g, visited, c, w) && visited <= visited' && c' == c - {x} && Expanded(g, x, visited')
    ensures Pending(g, visited', c', w)
  {
    forall y | y in w ensures y in c' || Expanded(g, y, visited') {
    }
  }

  /** When even the nearest candidate is farther than every result, all results have been expanded. */
  lemma NoneLeft(g: Layer, d: nat -> real, visited: set<nat>, c: set<nat>, w: set<nat>, x: nat, f: nat)
    requires Pending(g, visited, c, w) && (forall y :: y in c ==> d(x) <= d(y)) && NotCloser(d, f, w) && d(x) > d(f)
    ensures forall y :: y in w ==> Expanded(g, y, visited)
  {
    forall y | y in w ensures y !in c {
    }
  }

  /** A layer search's result, against everything it visited. */
  ghost predicate LayerResult(g: Layer, d: nat -> real, ep: seq<nat>, ef: nat, visited: set<nat>, out: seq<nat>) {
    && FarthestFirst(d, out) && |Elements(out)| == |out|
    && Elements(ep) <= visited && NearestSeen(g, d, ep, ef, visited, Elements(out))
    && (forall x {:trigger Expanded(g, x, visited)} :: x in out ==> Expanded(g, x, visited))
  }

  ghost predicate SearchResult(g: Layer, d: nat -> real, ep: seq<nat>, ef: nat, out: seq<nat>) {
    exists visited :: LayerResult(g, d, ep, ef, visited, out)
  }

  /**
    Best-first search: the result is the ef nearest of all visited elements, farthest first, and the
    neighbors of every result have been visited.
   */
  method SearchLayer(g: Layer, d: nat -> real, ep: seq<nat>, ef: nat) returns (out: seq<nat>)
    requires g.Ok() && 0 < ef && |ep| <= ef
    requires forall i :: 0 <= i < |ep| ==> ep[i] < |g.neighbors|
    requires forall i, j :: 0 <= i < j < |ep| ==> ep[i] != ep[j]
    ensures SearchResult(g, d, ep, ef, out)
  {
    var v, c, w, wlen := Enter(g, d, ep, ef);
    var more := true;
    while more && c != {}
      invariant SearchInv(g, d, ep, ef, v, c, w, wlen)
      invariant !more ==> forall y {:trigger Expanded(g, y, v)} :: y in w ==> Expanded(g, y, v)
      decreases Below(|g.neighbors|) - v, c, more
    {
      more, v, c, w, wlen := ExpandNearest(g, d, ep, ef, v, c, w, wlen);
    }
    out := Drain(w, d);
    assert LayerResult(g, d, ep, ef, v, out);
  }

  ghost predicate SearchInv(g: Layer, d: nat -> real, ep: seq<nat>, ef: nat, v: set<nat>, c: set<nat>, w: set<nat>, wlen: nat) {
    && Elements(ep) <= v && c <= v && v <= Below(|g.neighbors|) && (w == {} ==> c == {})
    && NearestSeen(g, d, ep, ef, v, w) && Pending(g, v, c, w)
    && if wlen <= ef then wlen == |w| else |w| == ef
  }

  /** One turn of the loop: stops, or expands the nearest candidate. */
  method ExpandNearest(g: Layer, d: nat -> real, ghost ep: seq<nat>, ef: nat, v: set<nat>, c: set<nat>, w: set<nat>, wlen: nat)
    returns (more: bool, v': set<nat>, c': set<nat>, w': set<nat>, wlen': nat)
    requires g.Ok() && ef > 0 && c != {} && SearchInv(g, d, ep, ef, v, c, w, wlen)
    ensures SearchInv(g, d, ep, ef, v', c', w', wlen')
    ensures if more then v < v' || (v == v' && c' < c) else v' == v && c' == c
    ensures !more ==> forall y {:trigger Expanded(g, y, v')} :: y in w' ==> Expanded(g, y, v')
  {
    var x := Nearest(c, d);
    var f := Furthest(w, d);
    if d(x) > d(f) {
      NoneLeft(g, d, v, c, w, x, f);
      return false, v, c, w, wlen;
    }
    var unvisited;
    unvisited, v' := LoadUnvisited(g, x, v);
    MoreVisited(g, v, v', c, c - {x}, w, x);
    forall y | y in ep ensures y in v {
      assert y in Elements(ep);
    }
    c', w', wlen' := ConsiderAll(g, d, ep, ef, v, unvisited, c - {x}, w, wlen, v');
    more := true;
    if unvisited != [] {
      assert unvisited[0] in v' && unvisited[0] !in v;
    }
  }

  /** Entry points are visited, candidates and results. */
  method Enter(g: Layer, d: nat -> real, ep: seq<nat>, ef: nat) returns (v: set<nat>, c: set<nat>, w: set<nat>, wlen: nat)
    requires g.Ok() && |ep| <= ef
    requires forall i :: 0 <= i < |ep| ==> ep[i] < |g.neighbors|
    requires forall i, j :: 0 <= i < j < |ep| ==> ep[i] != ep[j]
    ensures v == c == w == Elements(ep) && wlen == |w| == |ep| && v <= Below(|g.neighbors|)
    ensures NearestSeen(g, d, ep, ef, v, w)
  {
    v, c, w, wlen := {}, {}, {}, 0;
    for i := 0 to |ep|
      invariant v == c == w == Elements(ep[..i]) && wlen == |w| == i
    {
      assert ep[i] !in ep[..i] && ep[..i + 1] == ep[..i] + [ep[i]];
      v, c, w, wlen := v + {ep[i]}, c + {ep[i]}, w + {ep[i]}, wlen + 1;
      assert Elements(ep[..i + 1]) == Elements(ep[..i]) + {ep[i]};
    }
    assert ep[..|ep|] == ep;
  }

  /** The result is a local optimum: no eligible neighbor of a result is closer than the farthest result, unless returned. */
  lemma ResultIsLocallyBest(g: Layer, d: nat -> real, ep: seq<nat>, ef: nat, out: seq<nat>, x: nat, i: nat)
    requires g.Ok() && SearchResult(g, d, ep, ef, out)
    requires x in out && x < |g.neighbors| && i < |g.neighbors[x]| && Eligible(g, ep, g.neighbors[x][i])
    ensures g.neighbors[x][i] in out || (|out| == ef && d(out[0]) <= d(g.neighbors[x][i]))
  {
    var visited :| LayerResult(g, d, ep, ef, visited, out);
    assert Expanded(g, x, visited);
    var y := g.neighbors[x][i];
    if y !in out {
      assert y !in Elements(out) && NotCloser(d, y, Elements(out));
      assert out[0] in Elements(out);
    }
  }
}
