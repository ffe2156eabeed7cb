/** The `Graph` class of projects/graph/graph.py: a directed graph stored as a
    map from each vertex to the set of its successors, three traversals that
    report the vertices they visit in the order they would print them, and a
    breadth-first path search. */
module Graphs {
  import opened Digraphs

  /** The parent recorded for `v` by the guarded bfs sits one level above it
      and has `v` as a successor. */
  ghost predicate ParentLink<V(!new)>(g: map<V, set<V>>, parents: map<V, V>, lv: map<V, int>, v: V)
    requires v in parents
  {
    parents[v] in lv && parents[v] in g && v in g[parents[v]] && v in lv && lv[v] == lv[parents[v]] + 1
  }

  /** The discovered vertices of the guarded bfs: the start (level 0) and
      every vertex with a recorded parent. */
  ghost predicate Discovered<V(!new)>(g: map<V, set<V>>, start: V, parents: map<V, V>, lv: map<V, int>) {
    && lv.Keys == parents.Keys + {start}
    && start !in parents
    && lv[start] == 0
    && (forall v | v in lv :: lv[v] >= 0)
    && (forall v {:trigger ParentLink(g, parents, lv, v)} | v in parents :: ParentLink(g, parents, lv, v))
  }

  /** The state of the guarded bfs at the head of its search loop: `lv` gives
      the level of every discovered vertex, `E` holds the vertices already
      expanded, `current` is about to be expanded and `q` waits, in level
      order, at most one level below `current`. */
  ghost predicate BfsInv<V(!new)>(g: map<V, set<V>>, start: V, dest: V, parents: map<V, V>, lv: map<V, int>, E: set<V>, current: V, q: seq<V>) {
    && Discovered(g, start, parents, lv)
    && (forall v | v in lv :: Reachable(g, start, v))
    && current in lv && E <= lv.Keys && dest !in E
    && (forall v | v in lv :: v in E || v == current || v in q)
    && Expanded(g, lv, E)
    && (forall u | u in E :: lv[u] <= lv[current])
    && InBand(lv, q, lv[current]) && LevelSorted(lv, q)
  }

  /** The effect of the `for neighbor in ...` loop of the guarded bfs on the
      search state, for `current` with successors `nbrs`: the discovered
      vertices only grow, `news` lists the ones met for the first time, each
      one level below `current`, appended to the queue, and afterwards every
      successor is discovered. */
  ghost predicate BfsRound<V(!new)>(g: map<V, set<V>>, start: V, current: V, nbrs: seq<V>,
                                    lv: map<V, int>, q: seq<V>,
                                    parents': map<V, V>, lv': map<V, int>, q': seq<V>, news: seq<V>)
    requires current in lv
  {
    && Discovered(g, start, parents', lv')
    && lv.Keys <= lv'.Keys && (forall v | v in lv :: lv'[v] == lv[v])
    && q' == q + news
    && (forall x | x in news :: x in nbrs && x !in lv && x in lv' && lv'[x] == lv[current] + 1)
    && (forall v | v in lv' && v !in lv :: v in news)
    && (forall n | n in nbrs :: n in lv')
  }

  /** One round of the search loop: after `current`'s successors are recorded
      (`news` are the ones met for the first time), an empty queue means
      `dest` is unreachable, and the termination measure drops. */
  lemma BfsExpand<V(!new)>(g: map<V, set<V>>, start: V, dest: V, parents: map<V, V>, lv: map<V, int>, E: set<V>, current: V, q: seq<V>,
                           nbrs: seq<V>, parents': map<V, V>, lv': map<V, int>, q': seq<V>, news: seq<V>)
    requires ReachClosed(g, start)
    requires BfsInv(g, start, dest, parents, lv, E, current, q) && current != dest
    requires current in g && forall n :: n in nbrs <==> n in g[current]
    requires BfsRound(g, start, current, nbrs, lv, q, parents', lv', q', news)
    ensures q' == [] ==> !Reachable(g, start, dest)
    ensures news != [] ==> |g.Keys - lv'.Keys| < |g.Keys - lv.Keys|
    ensures news == [] ==> lv'.Keys == lv.Keys && q' == q
  {
    BfsStepReach(g, start, dest, parents, lv, E, current, q, nbrs, parents', lv', q', news);
    if q' == [] {
      BfsStepLevels(g, start, dest, parents, lv, E, current, q, nbrs, parents', lv', q', news);
      BfsStepQueue(g, start, dest, parents, lv, E, current, q, nbrs, parents', lv', q', news);
      BfsDry(g, start, dest, lv', E + {current});
    }
  }

  /** After a round that leaves the queue non-empty, dequeuing its front
      restores the loop state. */
  lemma BfsAdvance<V(!new)>(g: map<V, set<V>>, start: V, dest: V, parents: map<V, V>, lv: map<V, int>, E: set<V>, current: V, q: seq<V>,
                            nbrs: seq<V>, parents': map<V, V>, lv': map<V, int>, q': seq<V>, news: seq<V>)
    requires ReachClosed(g, start)
    requires BfsInv(g, start, dest, parents, lv, E, current, q) && current != dest
    requires current in g && forall n :: n in nbrs <==> n in g[current]
    requires BfsRound(g, start, current, nbrs, lv, q, parents', lv', q', news)
    requires q' != []
    ensures BfsInv(g, start, dest, parents', lv', E + {current}, q'[0], q'[1..])
  {
    BfsStepReach(g, start, dest, parents, lv, E, current, q, nbrs, parents', lv', q', news);
    BfsStepLevels(g, start, dest, parents, lv, E, current, q, nbrs, parents', lv', q', news);
    BfsStepQueue(g, start, dest, parents, lv, E, current, q, nbrs, parents', lv', q', news);
    LayerPop(lv', q', lv[current]);
    assert forall x | x in q' :: x == q'[0] || x in q'[1..];
  }

  /** The reachability part of a round. */
  lemma BfsStepReach<V(!new)>(g: map<V, set<V>>, start: V, dest: V, parents: map<V, V>, lv: map<V, int>, E: set<V>, current: V, q: seq<V>,
                              nbrs: seq<V>, parents': map<V, V>, lv': map<V, int>, q': seq<V>, news: seq<V>)
    requires ReachClosed(g, start)
    requires BfsInv(g, start, dest, parents, lv, E, current, q)
    requires current in g && forall n :: n in nbrs <==> n in g[current]
    requires BfsRound(g, start, current, nbrs, lv, q, parents', lv', q', news)
    ensures forall v | v in lv' :: Reachable(g, start, v)
    ensures news != [] ==> |g.Keys - lv'.Keys| < |g.Keys - lv.Keys|
    ensures news == [] ==> lv'.Keys == lv.Keys
  {
    BfsExpandReach(g, start, lv, lv', current, nbrs, news);
  }

  /** The level part of a round: `current` is expanded. */
  lemma BfsStepLevels<V(!new)>(g: map<V, set<V>>, start: V, dest: V, parents: map<V, V>, lv: map<V, int>, E: set<V>, current: V, q: seq<V>,
                               nbrs: seq<V>, parents': map<V, V>, lv': map<V, int>, q': seq<V>, news: seq<V>)
    requires BfsInv(g, start, dest, parents, lv, E, current, q)
    requires current in g && forall n :: n in nbrs <==> n in g[current]
    requires BfsRound(g, start, current, nbrs, lv, q, parents', lv', q', news)
    ensures Expanded(g, lv', E + {current})
    ensures forall u | u in E + {current} :: lv'[u] <= lv[current]
  {
    BfsExpandLevels(g, lv, lv', E, current, q, nbrs, news);
  }

  /** The queue part of a round. */
  lemma BfsStepQueue<V(!new)>(g: map<V, set<V>>, start: V, dest: V, parents: map<V, V>, lv: map<V, int>, E: set<V>, current: V, q: seq<V>,
                              nbrs: seq<V>, parents': map<V, V>, lv': map<V, int>, q': seq<V>, news: seq<V>)
    requires BfsInv(g, start, dest, parents, lv, E, current, q)
    requires BfsRound(g, start, current, nbrs, lv, q, parents', lv', q', news)
    ensures InBand(lv', q', lv[current]) && LevelSorted(lv', q')
    ensures forall v | v in lv' :: v in E + {current} || v in q'
  {
    BfsExpandQueue(lv, lv', E, current, q, q', news);
  }

  /** When every discovered vertex is expanded and `dest` is not among them,
      `dest` is unreachable. */
  lemma BfsDry<V(!new)>(g: map<V, set<V>>, start: V, dest: V, lv: map<V, int>, E: set<V>)
    requires start in lv && lv[start] == 0 && Expanded(g, lv, E)
    requires lv.Keys <= E && dest !in E
    ensures !Reachable(g, start, dest)
  {
    forall p | PathFromTo(g, p, start, dest) && Avoids(p, {}) ensures false {
      FrontierBound(g, start, lv, E, |p|, p);
    }
  }

  /** The newly discovered vertices are successors of `current`, hence
      reachable; discovering any shrinks the undiscovered part of `g`. */
  lemma BfsExpandReach<V(!new)>(g: map<V, set<V>>, start: V, lv: map<V, int>, lv': map<V, int>, current: V, nbrs: seq<V>, news: seq<V>)
    requires ReachClosed(g, start)
    requires (forall v | v in lv :: Reachable(g, start, v)) && current in lv
    requires current in g && forall n :: n in nbrs <==> n in g[current]
    requires lv.Keys <= lv'.Keys
    requires forall x | x in news :: x in nbrs && x !in lv && x in lv'
    requires forall v | v in lv' && v !in lv :: v in news
    ensures forall v | v in lv' :: Reachable(g, start, v)
    ensures news != [] ==> |g.Keys - lv'.Keys| < |g.Keys - lv.Keys|
    ensures news == [] ==> lv'.Keys == lv.Keys
  {
    forall v | v in lv' ensures Reachable(g, start, v) {
      if v !in lv { ReachStep(g, start, current, v, {}); }
    }
    if news != [] {
      assert news[0] in g[current];
      ReachStep(g, start, current, news[0], {});
      assert news[0] in g.Keys - lv.Keys && news[0] !in g.Keys - lv'.Keys;
      CardStrict(g.Keys - lv'.Keys, g.Keys - lv.Keys);
    }
  }

  /** Expanding `current` keeps the level facts: its successors all lie at
      most one level deeper, and no expanded vertex lies deeper than it. */
  lemma BfsExpandLevels<V(!new)>(g: map<V, set<V>>, lv: map<V, int>, lv': map<V, int>, E: set<V>, current: V, q: seq<V>, nbrs: seq<V>, news: seq<V>)
    requires Expanded(g, lv, E) && current in lv && current in g
    requires forall v | v in lv :: v in E || v == current || v in q
    requires (forall u | u in E :: lv[u] <= lv[current]) && InBand(lv, q, lv[current])
    requires forall n :: n in nbrs <==> n in g[current]
    requires lv.Keys <= lv'.Keys && forall v | v in lv :: lv'[v] == lv[v]
    requires forall x | x in news :: x in lv' && lv'[x] == lv[current] + 1
    requires forall v | v in lv' && v !in lv :: v in news
    requires forall n | n in nbrs :: n in lv'
    ensures Expanded(g, lv', E + {current})
    ensures forall u | u in E + {current} :: lv'[u] <= lv[current]
  {
    forall n | n in g[current] ensures n in lv' && lv'[n] <= lv'[current] + 1 {
      assert n in nbrs;
      if n in lv {
        assert n in E || n == current || n in q;
      } else {
        assert n in news;
      }
    }
    ExpandedStep(g, lv, lv', E, current);
  }

  /** Appending the newly discovered vertices keeps the queue sorted within
      its band, and every discovered vertex is expanded or queued. */
  lemma BfsExpandQueue<V(!new)>(lv: map<V, int>, lv': map<V, int>, E: set<V>, current: V, q: seq<V>, q': seq<V>, news: seq<V>)
    requires current in lv && forall v | v in lv :: v in E || v == current || v in q
    requires InBand(lv, q, lv[current]) && LevelSorted(lv, q)
    requires lv.Keys <= lv'.Keys && forall v | v in lv :: lv'[v] == lv[v]
    requires q' == q + news
    requires forall x | x in news :: x in lv' && lv'[x] == lv[current] + 1
    requires forall v | v in lv' && v !in lv :: v in news
    ensures InBand(lv', q', lv[current]) && LevelSorted(lv', q')
    ensures forall v | v in lv' :: v in E + {current} || v in q'
  {
    LayerAppend(lv, lv', q, news, lv[current]);
    forall v | v in lv' ensures v in E + {current} || v in q' {
      if v in lv {
        assert v in E || v == current || v in q;
      } else {
        assert v in news;
      }
    }
  }

  /** When `dest` is dequeued, its level bounds every walk to it from below. */
  lemma BfsFound<V(!new)>(g: map<V, set<V>>, start: V, dest: V, parents: map<V, V>, lv: map<V, int>, E: set<V>, q: seq<V>)
    requires BfsInv(g, start, dest, parents, lv, E, dest, q)
    ensures forall p | PathFromTo(g, p, start, dest) :: lv[dest] <= |p| - 1
  {
    forall p | PathFromTo(g, p, start, dest) ensures lv[dest] <= |p| - 1 {
      FrontierBound(g, start, lv, E, lv[dest], p);
    }
  }

  /** Following recorded parents back from a discovered vertex `dest`
      reaches `start` and spells out a walk from `start` to `dest` with one
      edge per level. */
  method Reconstruct<V(!new)>(ghost g: map<V, set<V>>, start: V, dest: V, parents: map<V, V>, ghost lv: map<V, int>) returns (path: seq<V>)
    requires Discovered(g, start, parents, lv) && dest in lv
    ensures PathFromTo(g, path, start, dest) && Avoids(path, {})
    ensures |path| == lv[dest] + 1
    ensures start == dest ==> path == [start]
  {
    path := [dest];
    var c := dest;
    while c != start
      invariant c in lv && lv[c] >= 0
      invariant PathFromTo(g, path, c, dest)
      invariant |path| == lv[dest] - lv[c] + 1
      decreases lv[c]
    {
      assert ParentLink(g, parents, lv, c);
      PrependEdge(g, path, parents[c], dest);
      path := [parents[c]] + path;
      c := parents[c];
    }
  }

  lemma PrependEdge<V(!new)>(g: map<V, set<V>>, p: seq<V>, u: V, b: V)
    requires |p| > 0 && PathFromTo(g, p, p[0], b) && u in g && p[0] in g[u]
    ensures PathFromTo(g, [u] + p, u, b)
  {
    assert forall i | 1 <= i < |p| + 1 :: ([u] + p)[i] == p[i - 1];
  }

  class Graph<V(==,!new)> {
    var vertices: map<V, set<V>>

    constructor ()
      ensures vertices == map[]
    {
      vertices := map[];
    }

    /** add_vertex: `v` gets an empty edge set, replacing any edges it had;
        every other vertex keeps its entry. */
    method AddVertex(v: V)
      modifies this
      ensures vertices == old(vertices)[v := {}]
      ensures vertices.Keys == old(vertices).Keys + {v}
      ensures vertices[v] == {}
      ensures forall u | u in old(vertices) && u != v :: vertices[u] == old(vertices)[u]
    {
      vertices := vertices[v := {}];
    }

    /** add_edge: `v1` must already be a vertex (otherwise the lookup fails).
        Afterwards `v2` is one of its successors and nothing else changed;
        adding an edge that is already present changes nothing, so the call
        is idempotent. */
    method AddEdge(v1: V, v2: V)
      requires v1 in vertices
      modifies this
      ensures vertices == old(vertices)[v1 := old(vertices)[v1] + {v2}]
      ensures vertices.Keys == old(vertices).Keys
      ensures vertices[v1] == old(vertices)[v1] + {v2}
      ensures forall u | u in old(vertices) && u != v1 :: vertices[u] == old(vertices)[u]
      ensures v2 in old(vertices)[v1] ==> vertices == old(vertices)
    {
      if v2 in vertices[v1] {
        assert vertices[v1] + {v2} == vertices[v1];
      }
      vertices := vertices[v1 := vertices[v1] + {v2}];
    }

    /** bft: breadth-first traversal with a FIFO queue. A dequeued vertex that
        was not yet visited is marked, emitted, and all its successors are
        enqueued (visited or not). The emitted sequence starts at `s`, never
        repeats a vertex, and holds exactly the vertices reachable from `s`. */
    method Bft(s: V) returns (order: seq<V>)
      requires ReachClosed(vertices, s)
      ensures |order| > 0 && order[0] == s
      ensures NoDup(order)
      ensures forall u :: u in order <==> Reachable(vertices, s, u)
    {
      var g := vertices;
      ReachSelf(g, s, {});
      var q := [s];
      var visited: set<V> := {};
      order := [];
      while |q| > 0
        invariant forall u :: u in visited <==> u in order
        invariant NoDup(order)
        invariant order == [] ==> q == [s]
        invariant order != [] ==> order[0] == s
        invariant forall u | u in visited :: Reachable(g, s, u)
        invariant forall x | x in q :: Reachable(g, s, x)
        invariant visited <= g.Keys
        invariant Covered(g, visited, q)
        decreases |g.Keys - visited|, |q|
      {
        var v := q[0];
        ghost var q0 := q;
        q := q[1..];
        assert forall x :: x in q0 ==> x == v || x in q;
        ghost var visited0 := visited;
        if v !in visited {
          ReachClosedStep(g, s, v);
          CardStrict(g.Keys - (visited + {v}), g.Keys - visited);
          NoDupConcat(order, [v]);
          visited := visited + {v};
          order := order + [v];
          var nbrs := Enumerate(g[v]);
          ghost var q1 := q;
          q := q + nbrs;
          assert forall x :: x in q <==> x in q1 || x in nbrs;
        }
        CoveredStep(g, visited0, q0, visited, q);
      }
      forall u | Reachable(g, s, u) ensures u in visited {
        var p :| PathFromTo(g, p, s, u) && Avoids(p, {});
        assert Covered(g, visited, []);
        ClosedSetHoldsWalk(g, visited, {}, p);
      }
    }

    /** dft: the same loop with a LIFO stack: the last pushed vertex is
        popped first. Same guarantees as `Bft`. */
    method Dft(s: V) returns (order: seq<V>)
      requires ReachClosed(vertices, s)
      ensures |order| > 0 && order[0] == s
      ensures NoDup(order)
      ensures forall u :: u in order <==> Reachable(vertices, s, u)
    {
      var g := vertices;
      ReachSelf(g, s, {});
      var st := [s];
      var visited: set<V> := {};
      order := [];
      while |st| > 0
        invariant forall u :: u in visited <==> u in order
        invariant NoDup(order)
        invariant order == [] ==> st == [s]
        invariant order != [] ==> order[0] == s
        invariant forall u | u in visited :: Reachable(g, s, u)
        invariant forall x | x in st :: Reachable(g, s, x)
        invariant visited <= g.Keys
        invariant Covered(g, visited, st)
        decreases |g.Keys - visited|, |st|
      {
        var v := st[|st| - 1];
        ghost var st0 := st;
        st := st[..|st| - 1];
        assert forall x :: x in st0 ==> x == v || x in st;
        ghost var visited0 := visited;
        if v !in visited {
          ReachClosedStep(g, s, v);
          CardStrict(g.Keys - (visited + {v}), g.Keys - visited);
          NoDupConcat(order, [v]);
          visited := visited + {v};
          order := order + [v];
          var nbrs := Enumerate(g[v]);
          ghost var st1 := st;
          st := st + nbrs;
          assert forall x :: x in st <==> x in st1 || x in nbrs;
        }
        CoveredStep(g, visited0, st0, visited, st);
      }
      forall u | Reachable(g, s, u) ensures u in visited {
        var p :| PathFromTo(g, p, s, u) && Avoids(p, {});
        assert Covered(g, visited, []);
        ClosedSetHoldsWalk(g, visited, {}, p);
      }
    }

    /** dft_recursive called with a given visited set: emit and mark `v`, then
        recurse into every successor not yet visited, all calls sharing the
        one visited set (threaded through as `visited` in, `visited'` out).
        Afterwards the visited set has grown by exactly the vertices reachable
        from `v` through vertices that were not visited on entry, and the
        emitted sequence is `v` followed by those new vertices, each once. */
    method DftRecursiveFrom(v: V, visited: set<V>) returns (order: seq<V>, visited': set<V>)
      requires forall u :: ReachableAvoiding(vertices, v, u, visited - {v}) ==> u in vertices
      ensures |order| > 0 && order[0] == v
      ensures NoDup(order)
      ensures visited <= visited' && v in visited'
      ensures forall u :: u in visited' <==> u in visited || ReachableAvoiding(vertices, v, u, visited - {v})
      ensures forall u :: u in order <==> u == v || (u in visited' && u !in visited)
      decreases |vertices.Keys - visited|, if v in visited then 1 else 0
    {
      var g := vertices;
      ghost var A := visited - {v};
      ReachSelf(g, v, A);
      order := [v];
      visited' := visited + {v};
      var nbrs := Enumerate(g[v]);
      var i := 0;
      while i < |nbrs|
        invariant 0 <= i <= |nbrs|
        invariant visited + {v} <= visited'
        invariant |order| > 0 && order[0] == v && NoDup(order)
        invariant forall u :: u in order <==> u == v || (u in visited' && u !in visited)
        invariant forall u | u in visited' && u !in visited :: ReachableAvoiding(g, v, u, A)
        invariant forall k | 0 <= k < i :: nbrs[k] in visited'
        invariant forall u, n | u in visited' && u !in visited && u != v && u in g && n in g[u] :: n in visited'
      {
        var n := nbrs[i];
        if n !in visited' {
          forall u | ReachableAvoiding(g, n, u, visited' - {n}) ensures u in g {
            ReachPrepend(g, v, n, u, A, visited' - {n});
          }
          CardMono(g.Keys - visited', g.Keys - visited);
          if v !in visited {
            CardStrict(g.Keys - visited', g.Keys - visited);
          }
          var sub, after := DftRecursiveFrom(n, visited');
          assert visited' - {n} == visited';
          forall u | u in after && u !in visited'
            ensures ReachableAvoiding(g, v, u, A)
            ensures u in g && forall m | m in g[u] :: m in after
          {
            ReachPrepend(g, v, n, u, A, visited');
            forall m | m in g[u] ensures m in after {
              if m !in visited' {
                ReachStep(g, n, u, m, visited');
              }
            }
          }
          NoDupConcat(order, sub);
          order := order + sub;
          visited' := after;
        }
        i := i + 1;
      }
      forall u | ReachableAvoiding(g, v, u, A) ensures u in visited' {
        var p :| PathFromTo(g, p, v, u) && Avoids(p, A);
        ClosedSetHoldsWalk(g, visited' - A, A, p);
      }
    }

    /** dft_recursive(s) with no visited set: a fresh empty set is used, so the
        emitted sequence starts at `s`, never repeats, and holds exactly the
        vertices reachable from `s`. */
    method DftRecursive(s: V) returns (order: seq<V>)
      requires ReachClosed(vertices, s)
      ensures |order| > 0 && order[0] == s
      ensures NoDup(order)
      ensures forall u :: u in order <==> Reachable(vertices, s, u)
    {
      var visited: set<V> := {};
      assert visited - {s} == {};
      var after;
      order, after := DftRecursiveFrom(s, visited);
    }

    /** bfs with a first-discovery guard: a successor gets a parent, and is
        enqueued, only when it is met for the first time (and is not the
        start). When the queue runs dry before `dest` is dequeued the result
        is None. The result is a path exactly when `dest` is reachable, the
        path runs from `start` to `dest` along edges, and no walk from
        `start` to `dest` is shorter. `bfs(v, v)` is `[v]`. */
    method Bfs(start: V, dest: V) returns (r: Option<seq<V>>)
      requires ReachClosed(vertices, start)
      ensures start == dest ==> r == Some([start])
      ensures r.Some? <==> Reachable(vertices, start, dest)
      ensures r.Some? ==> PathFromTo(vertices, r.value, start, dest)
      ensures r.Some? ==> forall p :: PathFromTo(vertices, p, start, dest) ==> |r.value| <= |p|
    {
      var g := vertices;
      var parents: map<V, V> := map[];
      var q: seq<V> := [];
      ghost var lv: map<V, int> := map[start := 0];
      ghost var E: set<V> := {};
      var current := start;
      ReachSelf(g, start, {});
      assert forall v | v in lv :: v == start;
      while current != dest
        invariant BfsInv(g, start, dest, parents, lv, E, current, q)
        decreases |g.Keys - lv.Keys|, |q|
      {
        ReachClosedStep(g, start, current);
        var nbrs := Enumerate(g[current]);
        ghost var parents0, lv0, q0 := parents, lv, q;
        ghost var news;
        parents, q, lv, news := RecordParents(g, start, current, nbrs, parents, q, lv);
        BfsExpand(g, start, dest, parents0, lv0, E, current, q0, nbrs, parents, lv, q, news);
        if q == [] {
          return None;
        }
        BfsAdvance(g, start, dest, parents0, lv0, E, current, q0, nbrs, parents, lv, q, news);
        E := E + {current};
        current, q := q[0], q[1..];
      }
      BfsFound(g, start, dest, parents, lv, E, q);
      var path := Reconstruct(g, start, dest, parents, lv);
      assert start == dest ==> path == [start];
      r := Some(path);
    }

    /** The `for neighbor in self.vertices[current]` loop of the guarded bfs:
        each successor met for the first time is given `current` as parent,
        one level deeper, and is enqueued (`news` lists those, in order);
        parents recorded earlier are kept. */
    method RecordParents(ghost g: map<V, set<V>>, start: V, current: V, nbrs: seq<V>, parents: map<V, V>, q: seq<V>, ghost lv: map<V, int>)
      returns (parents': map<V, V>, q': seq<V>, ghost lv': map<V, int>, ghost news: seq<V>)
      requires Discovered(g, start, parents, lv) && current in lv && current in g
      requires forall n | n in nbrs :: n in g[current]
      ensures BfsRound(g, start, current, nbrs, lv, q, parents', lv', q', news)
      ensures forall v | v in parents :: v in parents' && parents'[v] == parents[v]
      ensures forall x | x in news :: x in parents' && parents'[x] == current
      ensures NoDup(news)
    {
      parents', q', lv', news := parents, q, lv, [];
      var i := 0;
      while i < |nbrs|
        invariant 0 <= i <= |nbrs|
        invariant Discovered(g, start, parents', lv')
        invariant lv.Keys <= lv'.Keys && forall v | v in lv :: lv'[v] == lv[v]
        invariant q' == q + news
        invariant forall x | x in news :: x in nbrs[..i] && x !in lv && x in lv' && lv'[x] == lv[current] + 1
        invariant forall v | v in lv' && v !in lv :: v in news
        invariant forall n | n in nbrs[..i] :: n in lv'
        invariant forall v | v in parents :: v in parents' && parents'[v] == parents[v]
        invariant forall x | x in news :: x in parents' && parents'[x] == current
        invariant NoDup(news)
      {
        var n := nbrs[i];
        assert nbrs[..i + 1] == nbrs[..i] + [n];
        if n !in parents' && n != start {
          ghost var p0, l0 := parents', lv';
          parents' := parents'[n := current];
          lv' := lv'[n := lv[current] + 1];
          q' := q' + [n];
          news := news + [n];
          forall v | v in parents' ensures ParentLink(g, parents', lv', v) {
            if v != n { assert ParentLink(g, p0, l0, v); }
          }
        }
        i := i + 1;
      }
      assert nbrs[..i] == nbrs;
    }
  }
}
