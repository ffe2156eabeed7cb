/** Directed graphs as adjacency maps, the vocabulary shared by the traversals,
    the path searches and the social graph: paths, reachability (optionally
    avoiding a set of vertices) and the facts about them that the searches use. */
module Digraphs {

  datatype Option<T> = None | Some(value: T)

  /** No element of `xs` occurs twice. */
  ghost predicate NoDup<T>(xs: seq<T>) {
    forall i, j :: 0 <= i < j < |xs| ==> xs[i] != xs[j]
  }

  /** `p` is a non-empty walk of `g`: every vertex but the last has an entry
      in `g`, and the entry holds the next vertex. */
  ghost predicate IsPath<V(!new)>(g: map<V, set<V>>, p: seq<V>) {
    |p| > 0 && forall i :: 0 <= i < |p| - 1 ==> p[i] in g && p[i + 1] in g[p[i]]
  }

  ghost predicate PathFromTo<V(!new)>(g: map<V, set<V>>, p: seq<V>, a: V, b: V) {
    IsPath(g, p) && p[0] == a && p[|p| - 1] == b
  }

  ghost predicate Avoids<V(!new)>(p: seq<V>, avoid: set<V>) {
    forall i :: 0 <= i < |p| ==> p[i] !in avoid
  }

  /** `b` can be reached from `a` by a walk none of whose vertices is in `avoid`. */
  ghost predicate ReachableAvoiding<V(!new)>(g: map<V, set<V>>, a: V, b: V, avoid: set<V>) {
    exists p :: PathFromTo(g, p, a, b) && Avoids(p, avoid)
  }

  ghost predicate Reachable<V(!new)>(g: map<V, set<V>>, a: V, b: V) {
    ReachableAvoiding(g, a, b, {})
  }

  /** Every vertex reachable from `s` has an adjacency entry: a traversal from
      `s` can look up the neighbours of everything it meets. */
  ghost predicate ReachClosed<V(!new)>(g: map<V, set<V>>, s: V) {
    forall u :: Reachable(g, s, u) ==> u in g
  }

  lemma ReachSelf<V(!new)>(g: map<V, set<V>>, a: V, avoid: set<V>)
    requires a !in avoid
    ensures ReachableAvoiding(g, a, a, avoid)
  {
    assert PathFromTo(g, [a], a, a) && Avoids([a], avoid);
  }

  /** Extending a walk by one edge at its end. */
  lemma ReachStep<V(!new)>(g: map<V, set<V>>, a: V, b: V, c: V, avoid: set<V>)
    requires ReachableAvoiding(g, a, b, avoid)
    requires b in g && c in g[b] && c !in avoid
    ensures ReachableAvoiding(g, a, c, avoid)
  {
    var p :| PathFromTo(g, p, a, b) && Avoids(p, avoid);
    var q := p + [c];
    assert forall i :: 0 <= i < |q| - 1 ==> q[i] == p[i] || (i == |p| - 1 && q[i] == b);
    assert PathFromTo(g, q, a, c) && Avoids(q, avoid);
  }

  /** Extending a walk by one edge at its start; the avoided set may shrink. */
  lemma ReachPrepend<V(!new)>(g: map<V, set<V>>, a: V, b: V, c: V, avoid: set<V>, avoid': set<V>)
    requires a in g && b in g[a] && a !in avoid
    requires avoid <= avoid' && ReachableAvoiding(g, b, c, avoid')
    ensures ReachableAvoiding(g, a, c, avoid)
  {
    var p :| PathFromTo(g, p, b, c) && Avoids(p, avoid');
    var q := [a] + p;
    assert forall i :: 1 <= i < |q| ==> q[i] == p[i - 1];
    assert PathFromTo(g, q, a, c) && Avoids(q, avoid);
  }

  /** Reachability from a vertex of a ReachClosed graph stays in the graph. */
  lemma ReachClosedStep<V(!new)>(g: map<V, set<V>>, s: V, u: V)
    requires ReachClosed(g, s) && Reachable(g, s, u)
    ensures u in g && forall n :: n in g[u] ==> Reachable(g, s, n)
  {
    forall n | n in g[u] ensures Reachable(g, s, n) {
      ReachStep(g, s, u, n, {});
    }
  }

  /** The end of a walk from `s` in a ReachClosed graph has an entry. */
  lemma PathEndInClosed<V(!new)>(g: map<V, set<V>>, s: V, p: seq<V>, k: V)
    requires ReachClosed(g, s) && PathFromTo(g, p, s, k)
    ensures k in g
  {
    assert Avoids(p, {});
  }

  /** A graph in which every edge ends at a vertex of the graph is ReachClosed
      from each of its vertices. */
  lemma EdgeClosedIsReachClosed<V(!new)>(g: map<V, set<V>>, s: V)
    requires s in g && forall u, n | u in g && n in g[u] :: n in g
    ensures ReachClosed(g, s)
  {
    forall u | Reachable(g, s, u) ensures u in g {
      var p :| PathFromTo(g, p, s, u) && Avoids(p, {});
      if |p| > 1 {
        assert p[|p| - 2] in g && p[|p| - 1] in g[p[|p| - 2]];
      }
    }
  }

  /** Every successor of a visited vertex is visited or waits in `frontier`:
      the invariant of a traversal that enqueues the successors of each
      vertex it visits. */
  ghost predicate Covered<V(!new)>(g: map<V, set<V>>, visited: set<V>, frontier: seq<V>) {
    forall u, n | u in visited && u in g && n in g[u] :: n in visited || n in frontier
  }

  /** One traversal step keeps `Covered`: whatever left the frontier is now
      visited, and every newly visited vertex has its successors visited or
      in the new frontier. */
  lemma CoveredStep<V(!new)>(g: map<V, set<V>>, visited: set<V>, frontier: seq<V>, visited': set<V>, frontier': seq<V>)
    requires Covered(g, visited, frontier)
    requires visited <= visited'
    requires forall x | x in frontier :: x in visited' || x in frontier'
    requires forall u, n | u in visited' && u !in visited && u in g && n in g[u] :: n in visited' || n in frontier'
    ensures Covered(g, visited', frontier')
  {
  }

  /** A set that holds the start of a walk, and that is closed under edges
      except for edges into `avoid`, holds every vertex of a walk avoiding
      `avoid`; in particular its last vertex. This is the completeness half of
      every traversal here. */
  lemma {:induction false} ClosedSetHoldsWalk<V(!new)>(g: map<V, set<V>>, S: set<V>, avoid: set<V>, p: seq<V>)
    requires IsPath(g, p) && p[0] in S && Avoids(p, avoid)
    requires forall u, n | u in S && u in g && n in g[u] :: n in S || n in avoid
    ensures p[|p| - 1] in S
    decreases |p|
  {
    if |p| > 1 {
      var q := p[..|p| - 1];
      assert IsPath(g, q) && Avoids(q, avoid);
      ClosedSetHoldsWalk(g, S, avoid, q);
      assert p[|p| - 2] in S && p[|p| - 2] in g && p[|p| - 1] in g[p[|p| - 2]];
    }
  }

  /** The expanded vertices `E` of a breadth-first search: each has an entry
      in `g` and a level in `L`, and each of its successors has a level at
      most one deeper. */
  ghost predicate Expanded<V(!new)>(g: map<V, set<V>>, L: map<V, int>, E: set<V>) {
    && (forall u | u in E :: u in g && u in L)
    && (forall u, n | u in E && u in g && n in g[u] :: n in L && L[n] <= L[u] + 1)
  }

  /** Expanding one more vertex, whose successors all got a level at most one
      deeper, while the levels already given stay as they were. */
  lemma ExpandedStep<V(!new)>(g: map<V, set<V>>, L: map<V, int>, L': map<V, int>, E: set<V>, u: V)
    requires Expanded(g, L, E)
    requires L.Keys <= L'.Keys && forall v | v in L :: L'[v] == L[v]
    requires u in g && u in L'
    requires forall n | n in g[u] :: n in L' && L'[n] <= L'[u] + 1
    ensures Expanded(g, L', E + {u})
  {
  }

  /** The level argument behind breadth-first search. `L` gives the level
      (edge count from `s`) of every discovered vertex; `E` is the set of
      expanded vertices, all of whose neighbours are discovered at most one
      level deeper; every discovered but unexpanded vertex sits at level `m`
      or deeper. Then every walk from `s` either ends at a discovered vertex
      whose level is at most the walk's edge count, or is longer than `m`. */
  lemma {:induction false} FrontierBound<V(!new)>(g: map<V, set<V>>, s: V, L: map<V, int>, E: set<V>, m: int, p: seq<V>)
    requires s in L && L[s] == 0
    requires Expanded(g, L, E)
    requires forall v | v in L && v !in E :: L[v] >= m
    requires IsPath(g, p) && p[0] == s
    ensures (p[|p| - 1] in L && L[p[|p| - 1]] <= |p| - 1) || |p| - 1 > m
    decreases |p|
  {
    if |p| > 1 {
      var q := p[..|p| - 1];
      assert IsPath(g, q);
      FrontierBound(g, s, L, E, m, q);
      var u := q[|q| - 1];
      assert u == p[|p| - 2] && u in g && p[|p| - 1] in g[u];
    }
  }

  /** The queue of a breadth-first search: its vertices are discovered at level `d` or `d + 1`. */
  ghost predicate InBand<V(!new)>(lv: map<V, int>, q: seq<V>, d: int) {
    forall x | x in q :: x in lv && d <= lv[x] <= d + 1
  }

  /** The queue's levels never decrease from front to back. */
  ghost predicate LevelSorted<V(!new)>(lv: map<V, int>, q: seq<V>) {
    forall i, j | 0 <= i < j < |q| && q[i] in lv && q[j] in lv :: lv[q[i]] <= lv[q[j]]
  }

  /** Appending vertices of level `d + 1` keeps a band-`d` sorted queue so. */
  lemma LayerAppend<V(!new)>(lv: map<V, int>, lv': map<V, int>, q: seq<V>, news: seq<V>, d: int)
    requires InBand(lv, q, d) && LevelSorted(lv, q)
    requires lv.Keys <= lv'.Keys && forall v | v in lv :: lv'[v] == lv[v]
    requires forall x | x in news :: x in lv' && lv'[x] == d + 1
    ensures InBand(lv', q + news, d) && LevelSorted(lv', q + news)
  {
    var q' := q + news;
    forall i, j | 0 <= i < j < |q'| && q'[i] in lv' && q'[j] in lv' ensures lv'[q'[i]] <= lv'[q'[j]] {
      if j < |q| {
        assert q'[i] == q[i] && q'[j] == q[j] && q[i] in q && q[j] in q;
      } else if i < |q| {
        assert q'[i] == q[i] && q[i] in q && q'[j] == news[j - |q|] && news[j - |q|] in news;
      } else {
        assert q'[i] == news[i - |q|] && news[i - |q|] in news && q'[j] == news[j - |q|] && news[j - |q|] in news;
      }
    }
  }

  /** Dequeuing the front of a band-`d` sorted queue leaves a queue in the
      band of the dequeued vertex's level, which is `d` or deeper. */
  lemma LayerPop<V(!new)>(lv: map<V, int>, q: seq<V>, d: int)
    requires InBand(lv, q, d) && LevelSorted(lv, q) && |q| > 0
    ensures q[0] in lv && d <= lv[q[0]]
    ensures InBand(lv, q[1..], lv[q[0]]) && LevelSorted(lv, q[1..])
  {
    assert q[0] in q;
    forall x | x in q[1..] ensures x in lv && lv[q[0]] <= lv[x] <= lv[q[0]] + 1 {
      var k :| 0 <= k < |q[1..]| && q[1..][k] == x;
      assert q[k + 1] == x && x in q;
    }
    forall i, j | 0 <= i < j < |q[1..]| && q[1..][i] in lv && q[1..][j] in lv
      ensures lv[q[1..][i]] <= lv[q[1..][j]]
    {
      assert q[1..][i] == q[i + 1] && q[1..][j] == q[j + 1];
    }
  }

  /** Dequeuing the front of a queue in the band of the front's level `d`,
      then appending vertices of level `d + 1`, keeps it sorted in band `d`. */
  lemma LayerPopAppend<V(!new)>(lv: map<V, int>, lv': map<V, int>, q: seq<V>, news: seq<V>, d: int)
    requires InBand(lv, q, d) && LevelSorted(lv, q) && |q| > 0 && q[0] in lv && lv[q[0]] == d
    requires lv.Keys <= lv'.Keys && forall v | v in lv :: lv'[v] == lv[v]
    requires forall x | x in news :: x in lv' && lv'[x] == d + 1
    ensures InBand(lv', q[1..] + news, d) && LevelSorted(lv', q[1..] + news)
  {
    LayerPop(lv, q, d);
    LayerAppend(lv, lv', q[1..], news, d);
  }

  /** A band-`d` sorted queue lies in the band of its front vertex's level. */
  lemma LayerRebase<V(!new)>(lv: map<V, int>, q: seq<V>, d: int)
    requires InBand(lv, q, d) && LevelSorted(lv, q) && |q| > 0
    ensures q[0] in lv && d <= lv[q[0]]
    ensures InBand(lv, q, lv[q[0]])
  {
    LayerPop(lv, q, d);
    assert forall x | x in q :: x == q[0] || x in q[1..];
  }

  /** Two sequences without repeats and without common elements concatenate
      to a sequence without repeats. */
  lemma NoDupConcat<T>(a: seq<T>, b: seq<T>)
    requires NoDup(a) && NoDup(b)
    requires forall x :: x in a ==> x !in b
    ensures NoDup(a + b)
  {
    forall i, j | 0 <= i < j < |a + b| ensures (a + b)[i] != (a + b)[j] {
      if j < |a| {
      } else if i >= |a| {
        assert (a + b)[i] == b[i - |a|] && (a + b)[j] == b[j - |a|];
      } else {
        assert (a + b)[i] == a[i] && (a + b)[j] == b[j - |a|];
        assert a[i] in a && b[j - |a|] in b;
      }
    }
  }

  /** A proper subset has fewer elements. */
  lemma CardStrict<T>(a: set<T>, b: set<T>)
    requires a < b
    ensures |a| < |b|
  {
    var x :| x in b && x !in a;
    assert a <= b - {x};
    assert |b - {x}| == |b| - 1;
    CardMono(a, b - {x});
  }

  lemma CardMono<T>(a: set<T>, b: set<T>)
    requires a <= b
    ensures |a| <= |b|
  {
    assert b == a + (b - a);
  }

  /** One iteration over a set, in an order the caller cannot rely on: each
      element once, in some order. It stands for Python's `for x in s`. */
  method Enumerate<V(==)>(s: set<V>) returns (xs: seq<V>)
    ensures NoDup(xs)
    ensures forall x :: x in xs <==> x in s
  {
    xs := [];
    var rest := s;
    while rest != {}
      invariant rest <= s
      invariant NoDup(xs)
      invariant forall x :: x in xs <==> x in s && x !in rest
      decreases |rest|
    {
      var x :| x in rest;
      xs := xs + [x];
      rest := rest - {x};
    }
  }
}
