/** earliest_ancestor from projects/ancestor/ancestor.py: the child-to-parents
    map built from (parent, child) pairs, and the stack search over ancestry
    chains that picks the end of the longest chain, ties going to the
    smaller id. */
module Ancestry {
  import opened Digraphs

  /** The parents recorded for child `c`, in the order of the pairs, with
      repetitions kept. */
  function ParentsOf(pairs: seq<(int, int)>, c: int): seq<int> {
    if pairs == [] then []
    else
      var last := pairs[|pairs| - 1];
      ParentsOf(pairs[..|pairs| - 1], c) + (if last.1 == c then [last.0] else [])
  }

  /** The ids that occur as a child in some pair. */
  function Children(pairs: seq<(int, int)>): set<int> {
    set i | 0 <= i < |pairs| :: pairs[i].1
  }

  /** The map the first loop of earliest_ancestor builds: each child to the
      list of its parents. */
  function AncestorGraph(pairs: seq<(int, int)>): map<int, seq<int>> {
    map c | c in Children(pairs) :: ParentsOf(pairs, c)
  }

  /** `x` is listed as a parent of `c` exactly when `(x, c)` is one of the pairs. */
  lemma {:induction false} ParentsOfMember(pairs: seq<(int, int)>, c: int, x: int)
    ensures x in ParentsOf(pairs, c) <==> (x, c) in pairs
  {
    if pairs != [] {
      var init, last := pairs[..|pairs| - 1], pairs[|pairs| - 1];
      assert pairs == init + [last];
      ParentsOfMember(init, c, x);
    }
  }

  /** A child's parent list is non-empty exactly when it occurs as a child. */
  lemma {:induction false} ParentsOfEmpty(pairs: seq<(int, int)>, c: int)
    ensures ParentsOf(pairs, c) != [] <==> c in Children(pairs)
  {
    if pairs != [] {
      var init, last := pairs[..|pairs| - 1], pairs[|pairs| - 1];
      ParentsOfEmpty(init, c);
      assert Children(pairs) == Children(init) + {last.1} by {
        forall y | y in Children(pairs) ensures y in Children(init) + {last.1} {
          var i :| 0 <= i < |pairs| && pairs[i].1 == y;
          if i < |init| { assert init[i] == pairs[i]; }
        }
        forall y | y in Children(init) ensures y in Children(pairs) {
          var i :| 0 <= i < |init| && init[i].1 == y;
          assert pairs[i] == init[i];
        }
        assert pairs[|pairs| - 1].1 in Children(pairs);
      }
    }
  }

  /** Parent lists of a concatenation are concatenated: pair order and
      repetitions are kept. */
  lemma {:induction false} ParentsOfConcat(a: seq<(int, int)>, b: seq<(int, int)>, c: int)
    ensures ParentsOf(a + b, c) == ParentsOf(a, c) + ParentsOf(b, c)
  {
    if b == [] {
      assert a + b == a;
    } else {
      ParentsOfConcat(a, b[..|b| - 1], c);
      assert (a + b)[..|a + b| - 1] == a + b[..|b| - 1];
    }
  }

  /** The keys of the map are the ids occurring as a child, each mapped to a
      non-empty list; an id that is never a child has no entry. */
  lemma AncestorGraphKeys(pairs: seq<(int, int)>, c: int)
    ensures c in AncestorGraph(pairs) <==> exists x :: (x, c) in pairs
    ensures c in AncestorGraph(pairs) ==> |AncestorGraph(pairs)[c]| > 0
  {
    ParentsOfEmpty(pairs, c);
    if c in Children(pairs) {
      var i :| 0 <= i < |pairs| && pairs[i].1 == c;
      assert (pairs[i].0, c) == pairs[i] && pairs[i] in pairs;
      assert (pairs[i].0, c) in pairs;
    }
    if exists x :: (x, c) in pairs {
      var x :| (x, c) in pairs;
      var i :| 0 <= i < |pairs| && pairs[i] == (x, c);
      assert pairs[i].1 == c;
    }
  }

  /** One more pair appends its parent to its child's list, creating the
      list when the child is new. */
  lemma AncestorGraphSnoc(pairs: seq<(int, int)>, pr: (int, int))
    ensures var m := AncestorGraph(pairs);
            AncestorGraph(pairs + [pr]) == if pr.1 in m then m[pr.1 := m[pr.1] + [pr.0]] else m[pr.1 := [pr.0]]
  {
    var m, m' := AncestorGraph(pairs), AncestorGraph(pairs + [pr]);
    var e := if pr.1 in m then m[pr.1 := m[pr.1] + [pr.0]] else m[pr.1 := [pr.0]];
    forall c ensures c in m' <==> c in e {
      AncestorGraphKeys(pairs, c);
      AncestorGraphKeys(pairs + [pr], c);
      if c in e && c != pr.1 {
        var x :| (x, c) in pairs;
        assert (x, c) in pairs + [pr];
      }
      if c == pr.1 {
        assert (pr.0, c) in pairs + [pr];
      }
    }
    forall c | c in m' ensures m'[c] == e[c] {
      assert (pairs + [pr])[..|pairs|] == pairs;
      ParentsOfEmpty(pairs, c);
    }
  }

  /** The first loop of earliest_ancestor (lines 4-9): it builds exactly
      AncestorGraph(ancestors). */
  method BuildAncestorGraph(ancestors: seq<(int, int)>) returns (graph: map<int, seq<int>>)
    ensures graph == AncestorGraph(ancestors)
  {
    graph := map[];
    var i := 0;
    while i < |ancestors|
      invariant 0 <= i <= |ancestors|
      invariant graph == AncestorGraph(ancestors[..i])
    {
      var pair := ancestors[i];
      AncestorGraphSnoc(ancestors[..i], pair);
      assert ancestors[..i + 1] == ancestors[..i] + [pair];
      if pair.1 !in graph {
        graph := graph[pair.1 := [pair.0]];
      } else {
        graph := graph[pair.1 := graph[pair.1] + [pair.0]];
      }
      i := i + 1;
    }
    assert ancestors[..i] == ancestors;
  }

  /** `p` is an ancestry chain from `start`: it begins at `start` and each
      next id is a recorded parent of the one before. */
  ghost predicate Chain(m: map<int, seq<int>>, start: int, p: seq<int>) {
    && |p| > 0 && p[0] == start
    && forall i | 0 <= i < |p| - 1 :: p[i] in m && p[i + 1] in m[p[i]]
  }

  /** A chain that ends at an id with no recorded parents. */
  ghost predicate IsRootChain(m: map<int, seq<int>>, start: int, p: seq<int>) {
    Chain(m, start, p) && p[|p| - 1] !in m
  }

  /** The ancestry of `start` has no cycle: no chain repeats an id. */
  ghost predicate Acyclic(m: map<int, seq<int>>, start: int) {
    forall p | Chain(m, start, p) :: NoDup(p)
  }

  /** `a` wins against `q` in the source's selection: `q` is shorter, or as
      long and ends at an id no smaller than `a`'s. */
  ghost predicate Beats(a: seq<int>, q: seq<int>)
    requires |a| > 0 && |q| > 0
  {
    |q| < |a| || (|q| == |a| && a[|a| - 1] <= q[|q| - 1])
  }

  /** What earliest_ancestor promises when `start` has parents: `r` ends a
      root chain no other root chain beats, that is, a longest one, and the
      one with the smallest end among the longest. */
  ghost predicate IsEarliest(m: map<int, seq<int>>, start: int, r: int) {
    exists p | IsRootChain(m, start, p) && p[|p| - 1] == r ::
      forall q | IsRootChain(m, start, q) :: |q| < |p| || (|q| == |p| && r <= q[|q| - 1])
  }

  /** The earliest ancestor has no parents and is not the start. */
  lemma EarliestIsRoot(m: map<int, seq<int>>, start: int, r: int)
    requires start in m && IsEarliest(m, start, r)
    ensures r !in m && r != start
    ensures exists p :: Chain(m, start, p) && p[|p| - 1] == r
  {
    var p :| IsRootChain(m, start, p) && p[|p| - 1] == r && forall q | IsRootChain(m, start, q) :: |q| < |p| || (|q| == |p| && r <= q[|q| - 1]);
  }

  /** The earliest ancestor is determined by the map and the start: the
      order in which the stack is processed cannot change it. */
  lemma EarliestUnique(m: map<int, seq<int>>, start: int, r1: int, r2: int)
    requires IsEarliest(m, start, r1) && IsEarliest(m, start, r2)
    ensures r1 == r2
  {
    var p1 :| IsRootChain(m, start, p1) && p1[|p1| - 1] == r1 && forall q | IsRootChain(m, start, q) :: |q| < |p1| || (|q| == |p1| && r1 <= q[|q| - 1]);
    var p2 :| IsRootChain(m, start, p2) && p2[|p2| - 1] == r2 && forall q | IsRootChain(m, start, q) :: |q| < |p2| || (|q| == |p2| && r2 <= q[|q| - 1]);
    assert |p2| < |p1| || (|p2| == |p1| && r1 <= r2);
    assert |p1| < |p2| || (|p1| == |p2| && r2 <= r1);
  }

  /** Every id a chain can visit. */
  ghost function Universe(m: map<int, seq<int>>, start: int): set<int> {
    {start} + m.Keys + ParentIds(m)
  }

  /** Every id recorded as someone's parent. */
  ghost function ParentIds(m: map<int, seq<int>>): set<int> {
    set c, x | c in m && x in m[c] :: x
  }

  lemma ParentIdsMember(m: map<int, seq<int>>, c: int, y: int)
    requires c in m && y in m[c]
    ensures y in ParentIds(m)
  {
    assert exists c', x' :: c' in m && x' in m[c'] && x' == y;
  }

  /** A sequence without repetitions drawn from `S` is no longer than `S`. */
  lemma {:induction false} NoDupLength(p: seq<int>, S: set<int>)
    requires NoDup(p) && forall i | 0 <= i < |p| :: p[i] in S
    ensures |p| <= |S|
  {
    if p != [] {
      var x := p[|p| - 1];
      NoDupLength(p[..|p| - 1], S - {x});
    }
  }

  /** In an acyclic ancestry no chain is longer than the ids it can visit. */
  lemma ChainBound(m: map<int, seq<int>>, start: int, p: seq<int>)
    requires Acyclic(m, start) && Chain(m, start, p)
    ensures |p| <= |Universe(m, start)|
  {
    forall i | 0 <= i < |p| ensures p[i] in Universe(m, start) {
      if i > 0 {
        var c := p[i - 1];
        ParentIdsMember(m, c, p[i]);
      }
    }
    NoDupLength(p, Universe(m, start));
  }

  /** A chain extended by a parent of its end is a chain. */
  lemma ChainExtend(m: map<int, seq<int>>, start: int, p: seq<int>, x: int)
    requires Chain(m, start, p) && p[|p| - 1] in m && x in m[p[|p| - 1]]
    ensures Chain(m, start, p + [x])
  {
    var p' := p + [x];
    forall i | 0 <= i < |p'| - 1 ensures p'[i] in m && p'[i + 1] in m[p'[i]] {
      if i < |p| - 1 {
        assert p'[i] == p[i] && p'[i + 1] == p[i + 1];
      }
    }
  }

  /** The number of chains that extend `p`, counting `p`: the entries the
      search handles for `p`, itself included. */
  ghost function Size(m: map<int, seq<int>>, start: int, p: seq<int>): nat
    requires Acyclic(m, start) && Chain(m, start, p)
    decreases |Universe(m, start)| - |p|, 1, 0
  {
    ChainBound(m, start, p);
    if p[|p| - 1] in m then 1 + Sizes(m, start, p, m[p[|p| - 1]]) else 1
  }

  /** The sizes summed over the extensions of `p` by the parents `ps`. */
  ghost function Sizes(m: map<int, seq<int>>, start: int, p: seq<int>, ps: seq<int>): nat
    requires Acyclic(m, start) && Chain(m, start, p) && p[|p| - 1] in m
    requires forall k | 0 <= k < |ps| :: ps[k] in m[p[|p| - 1]]
    decreases |Universe(m, start)| - |p|, 0, |ps|
  {
    if ps == [] then 0
    else
      var x := ps[|ps| - 1];
      ChainExtend(m, start, p, x);
      ChainBound(m, start, p + [x]);
      Sizes(m, start, p, ps[..|ps| - 1]) + Size(m, start, p + [x])
  }

  /** Every stack entry is a chain from `start`. */
  ghost predicate Chains(m: map<int, seq<int>>, start: int, s: seq<seq<int>>) {
    forall i | 0 <= i < |s| :: Chain(m, start, s[i])
  }

  /** The work left on the stack: the search's measure. */
  ghost function SumStack(m: map<int, seq<int>>, start: int, s: seq<seq<int>>): nat
    requires Acyclic(m, start) && Chains(m, start, s)
  {
    if s == [] then 0 else SumStack(m, start, s[..|s| - 1]) + Size(m, start, s[|s| - 1])
  }

  /** `a` is a prefix of `q`. */
  ghost predicate IsPrefix(a: seq<int>, q: seq<int>) {
    |a| <= |q| && q[..|a|] == a
  }

  /** The search's coverage: each root chain still has a prefix on the stack,
      or `longest` already beats it. */
  ghost predicate Settled(m: map<int, seq<int>>, start: int, s: seq<seq<int>>, longest: seq<int>)
    requires |longest| > 0
  {
    forall q | IsRootChain(m, start, q) ::
      (exists i | 0 <= i < |s| :: IsPrefix(s[i], q)) || Beats(longest, q)
  }

  /** The inner loop (lines 22-25): a fresh copy of `ancestry` extended by
      each parent in turn is pushed, in the parents' order. */
  method PushParents(s: seq<seq<int>>, ancestry: seq<int>, parents: seq<int>) returns (t: seq<seq<int>>)
    ensures |t| == |s| + |parents| && t[..|s|] == s
    ensures forall k | 0 <= k < |parents| :: t[|s| + k] == ancestry + [parents[k]]
  {
    t := s;
    for j := 0 to |parents|
      invariant |t| == |s| + j && t[..|s|] == s
      invariant forall k | 0 <= k < j :: t[|s| + k] == ancestry + [parents[k]]
    {
      var newAncestry := ancestry + [parents[j]];
      t := t + [newAncestry];
    }
  }

  /** Pushing the extensions of `p` by `ps` adds their sizes to the measure. */
  lemma {:induction false} PushMeasure(m: map<int, seq<int>>, start: int, s: seq<seq<int>>, p: seq<int>, ps: seq<int>, t: seq<seq<int>>)
    requires Acyclic(m, start) && Chains(m, start, s) && Chain(m, start, p) && p[|p| - 1] in m
    requires forall k | 0 <= k < |ps| :: ps[k] in m[p[|p| - 1]]
    requires |t| == |s| + |ps| && t[..|s|] == s
    requires forall k | 0 <= k < |ps| :: t[|s| + k] == p + [ps[k]]
    ensures Chains(m, start, t)
    ensures SumStack(m, start, t) == SumStack(m, start, s) + Sizes(m, start, p, ps)
  {
    if ps == [] {
      assert t == s;
    } else {
      var n := |ps|;
      var t', init := t[..|t| - 1], ps[..n - 1];
      assert t'[..|s|] == s;
      forall k | 0 <= k < n - 1 ensures t'[|s| + k] == p + [init[k]] {
        assert t[|s| + k] == p + [ps[k]];
      }
      PushMeasure(m, start, s, p, init, t');
      assert t[|t| - 1] == p + [ps[n - 1]];
      ChainExtend(m, start, p, ps[n - 1]);
      forall i | 0 <= i < |t| ensures Chain(m, start, t[i]) {
        if i < |t| - 1 { assert t[i] == t'[i]; }
      }
    }
  }

  /** Replacing a chain whose end has parents by its extensions keeps every
      root chain covered. */
  lemma SettledExpand(m: map<int, seq<int>>, start: int, s: seq<seq<int>>, p: seq<int>, ps: seq<int>, t: seq<seq<int>>, longest: seq<int>)
    requires |longest| > 0 && Settled(m, start, s + [p], longest)
    requires Chain(m, start, p) && p[|p| - 1] in m && ps == m[p[|p| - 1]]
    requires |t| == |s| + |ps| && t[..|s|] == s
    requires forall k | 0 <= k < |ps| :: t[|s| + k] == p + [ps[k]]
    ensures Settled(m, start, t, longest)
  {
    forall q | IsRootChain(m, start, q) && !Beats(longest, q) ensures exists i | 0 <= i < |t| :: IsPrefix(t[i], q) {
      var i :| 0 <= i < |s + [p]| && IsPrefix((s + [p])[i], q);
      if i < |s| {
        assert t[i] == s[i];
      } else {
        assert IsPrefix(p, q);
        assert q[|p| - 1] == p[|p| - 1] && q[|q| - 1] !in m;
        var x := q[|p|];
        assert q[|p| - 1] == p[|p| - 1];
        assert x in ps;
        var k :| 0 <= k < |ps| && ps[k] == x;
        assert t[|s| + k] == p + [x];
        assert q[..|p| + 1] == q[..|p|] + [x];
        assert IsPrefix(t[|s| + k], q);
      }
    }
  }

  /** Settling a root chain `p` popped from the stack: a `longest` that beats
      it and the previous `longest` keeps every root chain covered. */
  lemma SettledRoot(m: map<int, seq<int>>, start: int, s: seq<seq<int>>, p: seq<int>, longest: seq<int>, longest': seq<int>)
    requires |longest| > 0 && |longest'| > 0 && Settled(m, start, s + [p], longest)
    requires IsRootChain(m, start, p) && Beats(longest', p) && Beats(longest', longest)
    ensures Settled(m, start, s, longest')
  {
    forall q | IsRootChain(m, start, q) && !Beats(longest', q) ensures exists i | 0 <= i < |s| :: IsPrefix(s[i], q) {
      var i :| 0 <= i < |s + [p]| && IsPrefix((s + [p])[i], q);
      PrefixOfRoot(m, start, p, q);
      assert s[i] == (s + [p])[i];
    }
  }

  /** A chain that a root chain is a prefix of is that root chain. */
  lemma PrefixOfRoot(m: map<int, seq<int>>, start: int, p: seq<int>, q: seq<int>)
    requires IsRootChain(m, start, p) && Chain(m, start, q)
    ensures IsPrefix(p, q) ==> q == p
  {
    if IsPrefix(p, q) {
      assert q[|p| - 1] == p[|p| - 1];
      assert q == q[..|p|];
    }
  }

  /** Below a chain from an id with parents there is a root chain, each
      recorded list being non-empty. */
  lemma RootChainExists(m: map<int, seq<int>>, start: int, p: seq<int>)
    requires Acyclic(m, start) && Chain(m, start, p)
    requires forall c | c in m :: |m[c]| > 0
    ensures exists q :: IsRootChain(m, start, q)
    decreases |Universe(m, start)| - |p|
  {
    ChainBound(m, start, p);
    if p[|p| - 1] in m {
      var c := p[|p| - 1];
      assert |m[c]| > 0;
      var x := m[c][0];
      ChainExtend(m, start, p, x);
      ChainBound(m, start, p + [x]);
      RootChainExists(m, start, p + [x]);
    } else {
      assert IsRootChain(m, start, p);
    }
  }

  /** The search over `graph` once the stack is empty: `longest` is a root
      chain beating every root chain. */
  lemma SearchResult(graph: map<int, seq<int>>, start: int, longest: seq<int>)
    requires start in graph && Acyclic(graph, start) && forall c | c in graph :: |graph[c]| > 0
    requires longest == [start] || IsRootChain(graph, start, longest)
    requires Settled(graph, start, [], longest)
    ensures IsEarliest(graph, start, longest[|longest| - 1])
  {
    RootChainExists(graph, start, [start]);
    var q :| IsRootChain(graph, start, q);
    assert Beats(longest, q);
    assert q[0] == start && q[|q| - 1] !in graph;
    assert |longest| >= 2;
    assert IsRootChain(graph, start, longest);
  }

  /** earliest_ancestor: -1 when `startingNode` has no recorded parents,
      otherwise the end of the longest ancestry chain, ties going to the
      smaller id. The ancestry of the start must be acyclic, or the search
      never ends. */
  method EarliestAncestor(ancestors: seq<(int, int)>, startingNode: int) returns (r: int)
    requires Acyclic(AncestorGraph(ancestors), startingNode)
    ensures startingNode !in AncestorGraph(ancestors) ==> r == -1
    ensures startingNode in AncestorGraph(ancestors) ==> IsEarliest(AncestorGraph(ancestors), startingNode, r)
  {
    var graph := BuildAncestorGraph(ancestors);
    if startingNode !in graph {
      return -1;
    }
    forall c | c in graph ensures |graph[c]| > 0 {
      AncestorGraphKeys(ancestors, c);
    }
    var longest := [startingNode];
    var s := [longest];
    assert Settled(graph, startingNode, s, longest) by {
      forall q | IsRootChain(graph, startingNode, q) ensures IsPrefix(s[0], q) { }
    }
    while |s| > 0
      invariant Chains(graph, startingNode, s)
      invariant |longest| > 0
      invariant longest == [startingNode] || IsRootChain(graph, startingNode, longest)
      invariant Settled(graph, startingNode, s, longest)
      decreases SumStack(graph, startingNode, s)
    {
      ghost var s0 := s;
      var ancestry := s[|s| - 1];
      s := s[..|s| - 1];
      assert s0 == s + [ancestry];
      var child := ancestry[|ancestry| - 1];
      if child in graph {
        s := PushParents(s, ancestry, graph[child]);
        PushMeasure(graph, startingNode, s0[..|s0| - 1], ancestry, graph[child], s);
        SettledExpand(graph, startingNode, s0[..|s0| - 1], ancestry, graph[child], s, longest);
      } else {
        ghost var longest0 := longest;
        if |ancestry| > |longest| {
          longest := ancestry;
        } else if |ancestry| == |longest| {
          if ancestry[|ancestry| - 1] < longest[|longest| - 1] {
            longest := ancestry;
          }
        }
        SettledRoot(graph, startingNode, s, ancestry, longest0, longest);
      }
    }
    SearchResult(graph, startingNode, longest);
    r := longest[|longest| - 1];
  }

  /** The one-generation example: 3 has parents 1 and 2, both without
      parents; the tie between the chains [3, 1] and [3, 2] goes to 1. */
  lemma TieExample()
    ensures AncestorGraph([(1, 3), (2, 3)]) == map[3 := [1, 2]]
    ensures Acyclic(map[3 := [1, 2]], 3)
    ensures IsEarliest(map[3 := [1, 2]], 3, 1)
  {
    var pairs := [(1, 3), (2, 3)];
    assert Children(pairs) == {3} by {
      assert pairs[0].1 == 3;
    }
    assert pairs[..1] == [(1, 3)] && [(1, 3)][..0] == [];
    assert ParentsOf(pairs, 3) == [1, 2];
    var m := map[3 := [1, 2]];
    forall p | Chain(m, 3, p) ensures |p| <= 2 && (|p| == 2 ==> p[1] == 1 || p[1] == 2) {
      if |p| >= 2 {
        assert p[1] in m[3];
      }
    }
    var w := [3, 1];
    assert IsRootChain(m, 3, w);
    forall q | IsRootChain(m, 3, q) ensures |q| < |w| || (|q| == |w| && 1 <= q[|q| - 1]) {
      assert |q| != 1;
    }
  }

  /** A chain that repeats an id can be pumped: chains of every length exist,
      so the search would never empty its stack. */
  lemma CycleUnbounded(m: map<int, seq<int>>, start: int, p: seq<int>, n: nat)
    requires Chain(m, start, p) && !NoDup(p)
    ensures exists q :: Chain(m, start, q) && |q| >= n
  {
    var i, j :| 0 <= i < j < |p| && p[i] == p[j];
    var c := p[i + 1..j + 1];
    var q := p[..j + 1];
    assert Chain(m, start, q);
    while |q| < n
      invariant Chain(m, start, q) && q[|q| - 1] == p[i]
      decreases n - |q|
    {
      CyclePump(m, start, q, c, p, i, j);
      q := q + c;
    }
  }

  /** Appending the cycle `p[i+1..j+1]` to a chain ending at `p[i]` gives a
      chain ending there again. */
  lemma CyclePump(m: map<int, seq<int>>, start: int, q: seq<int>, c: seq<int>, p: seq<int>, i: int, j: int)
    requires Chain(m, start, p) && 0 <= i < j < |p| && p[i] == p[j] && c == p[i + 1..j + 1]
    requires Chain(m, start, q) && q[|q| - 1] == p[i]
    ensures Chain(m, start, q + c) && (q + c)[|q + c| - 1] == p[i]
  {
    var r := q + c;
    forall t | 0 <= t < |r| - 1 ensures r[t] in m && r[t + 1] in m[r[t]] {
      if t < |q| - 1 {
        assert r[t] == q[t] && r[t + 1] == q[t + 1];
      } else if t == |q| - 1 {
        assert r[t] == p[i] && r[t + 1] == p[i + 1];
      } else {
        var u := t - |q|;
        assert r[t] == p[i + 1 + u] && r[t + 1] == p[i + 2 + u];
      }
    }
  }
}
