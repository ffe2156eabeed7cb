/** `Graph.bfs` of projects/graph/graph.py exactly as written: every successor
    of the dequeued vertex gets the dequeued vertex as its parent, whether or
    not it already had one, and is enqueued again. The neighbour order is made
    explicit (`adj` lists each vertex's successors in the order the loop meets
    them) so that single runs can be computed; `fuel` bounds the number of
    loop rounds, and None stands for "no result": the loop is still running
    when the fuel is spent, a lookup misses, or the queue runs dry. */
module GraphsAsWritten {
  import opened Digraphs

  /** The successor sets that an explicit neighbour order lists. */
  function Edges<V(!new)>(adj: map<V, seq<V>>): (g: map<V, set<V>>)
    ensures g.Keys == adj.Keys
    ensures forall k, x | k in adj :: x in g[k] <==> x in adj[k]
  {
    map k | k in adj :: (set x | x in adj[k])
  }

  /** One duplicate-free listing of a finite set, in an arbitrary order. */
  ghost function Listing<V(!new)>(s: set<V>): (xs: seq<V>)
    ensures NoDup(xs) && forall x :: x in xs <==> x in s
    decreases |s|
  {
    if s == {} then []
    else
      var x :| x in s;
      var rest := Listing(s - {x});
      assert forall i | 0 < i < |[x] + rest| :: ([x] + rest)[i] == rest[i - 1];
      [x] + rest
  }

  /** Explicit neighbour orders cover every graph: each successor map is
      listed by some map of duplicate-free orders, so the as-written results
      below, taken over all `adj`, speak about every graph and every order in
      which Python may iterate its successor sets. */
  lemma EdgesCover<V(!new)>(g: map<V, set<V>>)
    ensures exists adj: map<V, seq<V>> :: Edges(adj) == g && forall k | k in adj :: NoDup(adj[k])
  {
    var adj := map k | k in g :: Listing(g[k]);
    forall k | k in g ensures Edges(adj)[k] == g[k] {
      assert forall x :: x in Edges(adj)[k] <==> x in Listing(g[k]);
    }
    assert Edges(adj) == g;
  }

  /** The inner `for neighbor in self.vertices[current]` loop, unguarded:
      every neighbour is enqueued and gets `current` as parent, whatever it
      had before; the other parents stay. */
  function RecordAll<V(!new)>(parents: map<V, V>, q: seq<V>, current: V, nbrs: seq<V>): (r: (map<V, V>, seq<V>))
    ensures r.1 == q + nbrs
    ensures forall v :: v in r.0 <==> v in parents || v in nbrs
    ensures forall v | v in nbrs :: r.0[v] == current
    ensures forall v | v in parents && v !in nbrs :: r.0[v] == parents[v]
    decreases |nbrs|
  {
    if nbrs == [] then (parents, q)
    else
      assert q + [nbrs[0]] + nbrs[1..] == q + nbrs;
      assert forall v :: v in nbrs <==> v == nbrs[0] || v in nbrs[1..];
      RecordAll(parents[nbrs[0] := current], q + [nbrs[0]], current, nbrs[1..])
  }

  /** The search loop: expand `current` unless it is the destination, then
      dequeue the next vertex. */
  function Search<V(!new)>(adj: map<V, seq<V>>, dest: V, current: V, q: seq<V>, parents: map<V, V>, fuel: nat): (r: Option<map<V, V>>)
    ensures current == dest ==> r == Some(parents)
    ensures r.Some? ==> parents.Keys <= r.value.Keys
    ensures current != dest && (fuel == 0 || current !in adj) ==> r == None
    ensures current != dest && current in adj && q == [] && adj[current] == [] ==> r == None
    decreases fuel
  {
    if current == dest then Some(parents)
    else if fuel == 0 || current !in adj then None
    else
      var (parents', q') := RecordAll(parents, q, current, adj[current]);
      if q' == [] then None
      else Search(adj, dest, q'[0], q'[1..], parents', fuel - 1)
  }

  /** The reconstruction loop: prepend the parent of `current` until the
      start is met. */
  function Reconstruct<V(!new)>(parents: map<V, V>, start: V, current: V, path: seq<V>, fuel: nat): (r: Option<seq<V>>)
    ensures r.Some? && |path| > 0 ==> |path| <= |r.value| && r.value[|r.value| - 1] == path[|path| - 1]
    ensures r.Some? && |path| > 0 && path[0] == current ==> r.value[0] == start
    ensures current != start && (fuel == 0 || current !in parents) ==> r == None
    decreases fuel
  {
    if current == start then Some(path)
    else if fuel == 0 || current !in parents then None
    else
      var path' := [parents[current]] + path;
      assert path'[1..] == path;
      Reconstruct(parents, start, parents[current], path', fuel - 1)
  }

  /** The whole of `bfs(start, dest)`, both loops given the same fuel. */
  function BfsAsWritten<V(!new)>(adj: map<V, seq<V>>, start: V, dest: V, fuel: nat): (r: Option<seq<V>>)
    ensures r.Some? ==> |r.value| > 0 && r.value[0] == start && r.value[|r.value| - 1] == dest
    ensures start == dest ==> r == Some([start])
  {
    match Search(adj, dest, start, [], map[], fuel)
    case None => None
    case Some(parents) => Reconstruct(parents, start, dest, [dest], fuel)
  }

  /** The inner loop over a single neighbour `n`. */
  lemma RecordOne<V(!new)>(parents: map<V, V>, q: seq<V>, current: V, n: V)
    ensures RecordAll(parents, q, current, [n]).0 == parents[n := current]
    ensures RecordAll(parents, q, current, [n]).1 == q + [n]
  {
    assert [n][1..] == [];
  }

  /** The inner loop over two neighbours `a`, then `b`. */
  lemma RecordTwo<V(!new)>(parents: map<V, V>, q: seq<V>, current: V, a: V, b: V)
    ensures RecordAll(parents, q, current, [a, b]) == (parents[a := current][b := current], q + [a, b])
  {
    assert [a, b][1..] == [b];
    RecordOne(parents[a := current], q + [a], current, b);
    assert q + [a] + [b] == q + [a, b];
  }

  /** One round of the search loop, for computing concrete runs. */
  lemma SearchUnfold<V(!new)>(adj: map<V, seq<V>>, dest: V, current: V, q: seq<V>, parents: map<V, V>, fuel: nat,
                              parents': map<V, V>, q': seq<V>)
    requires current != dest && fuel > 0 && current in adj
    requires RecordAll(parents, q, current, adj[current]) == (parents', q') && q' != []
    ensures Search(adj, dest, current, q, parents, fuel) == Search(adj, dest, q'[0], q'[1..], parents', fuel - 1)
  {
  }

  /** A finished search hands its parents to the reconstruction. */
  lemma BfsAsWrittenUnfold<V(!new)>(adj: map<V, seq<V>>, start: V, dest: V, fuel: nat, parents: map<V, V>)
    requires Search(adj, dest, start, [], map[], fuel) == Some(parents)
    ensures BfsAsWritten(adj, start, dest, fuel) == Reconstruct(parents, start, dest, [dest], fuel)
  {
  }

  /** One round of the reconstruction loop, for computing concrete runs. */
  lemma ReconstructUnfold<V(!new)>(parents: map<V, V>, start: V, current: V, path: seq<V>, fuel: nat)
    requires current != start && fuel > 0 && current in parents
    ensures Reconstruct(parents, start, current, path, fuel) == Reconstruct(parents, start, parents[current], [parents[current]] + path, fuel - 1)
  {
  }

  /** Every recorded parent has the child as a successor. */
  ghost predicate ParentEdges<V(!new)>(g: map<V, set<V>>, parents: map<V, V>) {
    forall v | v in parents :: parents[v] in g && v in g[parents[v]]
  }

  lemma {:induction false} RecordAllEdges<V(!new)>(g: map<V, set<V>>, parents: map<V, V>, q: seq<V>, current: V, nbrs: seq<V>)
    requires ParentEdges(g, parents) && current in g
    requires forall n | n in nbrs :: n in g[current]
    ensures ParentEdges(g, RecordAll(parents, q, current, nbrs).0)
    decreases |nbrs|
  {
    if nbrs != [] {
      var p' := parents[nbrs[0] := current];
      assert nbrs[0] in nbrs;
      assert ParentEdges(g, p');
      assert forall n | n in nbrs[1..] :: n in nbrs;
      RecordAllEdges(g, p', q + [nbrs[0]], current, nbrs[1..]);
    }
  }

  /** Overwriting or not, the search only ever records edges as parent links. */
  lemma {:induction false} SearchEdges<V(!new)>(adj: map<V, seq<V>>, dest: V, current: V, q: seq<V>, parents: map<V, V>, fuel: nat)
    requires ParentEdges(Edges(adj), parents)
    ensures Search(adj, dest, current, q, parents, fuel).Some? ==>
              ParentEdges(Edges(adj), Search(adj, dest, current, q, parents, fuel).value)
    decreases fuel
  {
    if current != dest && fuel != 0 && current in adj {
      RecordAllEdges(Edges(adj), parents, q, current, adj[current]);
      var (parents', q') := RecordAll(parents, q, current, adj[current]);
      if q' != [] {
        SearchEdges(adj, dest, q'[0], q'[1..], parents', fuel - 1);
      }
    }
  }

  /** Following edge-valued parent links back from a walk's start extends the
      walk; a finished reconstruction is a walk from `start`. */
  lemma {:induction false} ReconstructWalk<V(!new)>(g: map<V, set<V>>, parents: map<V, V>, start: V, current: V, dest: V, path: seq<V>, fuel: nat)
    requires ParentEdges(g, parents) && PathFromTo(g, path, current, dest)
    ensures Reconstruct(parents, start, current, path, fuel).Some? ==>
              PathFromTo(g, Reconstruct(parents, start, current, path, fuel).value, start, dest)
    decreases fuel
  {
    if current != start && fuel != 0 && current in parents {
      var u := parents[current];
      var path' := [u] + path;
      assert forall i | 1 <= i < |path'| :: path'[i] == path[i - 1];
      assert PathFromTo(g, path', u, dest);
      ReconstructWalk(g, parents, start, u, dest, path', fuel - 1);
    }
  }

  /** What the unguarded bfs gets right: a path it returns runs from `start`
      to `dest` along edges, so `dest` is reachable; and `bfs(v, v)` is `[v]`. */
  lemma AsWrittenValid<V(!new)>(adj: map<V, seq<V>>, start: V, dest: V, fuel: nat)
    ensures BfsAsWritten(adj, start, dest, fuel).Some? ==>
              PathFromTo(Edges(adj), BfsAsWritten(adj, start, dest, fuel).value, start, dest)
    ensures BfsAsWritten(adj, start, dest, fuel).Some? ==> Reachable(Edges(adj), start, dest)
    ensures BfsAsWritten(adj, start, start, fuel) == Some([start])
  {
    var g := Edges(adj);
    SearchEdges(adj, dest, start, [], map[], fuel);
    var s := Search(adj, dest, start, [], map[], fuel);
    if s.Some? {
      assert PathFromTo(g, [dest], dest, dest);
      ReconstructWalk(g, s.value, start, dest, dest, [dest], fuel);
      var r := BfsAsWritten(adj, start, dest, fuel);
      if r.Some? {
        var p := r.value;
        assert Avoids(p, {});
      }
    }
  }

  /** The graph 1→2, 2→3, 2→4, 3→2, with 3 met before 4. */
  function CycleAdj(): map<int, seq<int>> {
    map[1 := [2], 2 := [3, 4], 3 := [2], 4 := []]
  }

  /** The parents the unguarded search leaves behind on `CycleAdj` when it
      dequeues 4: expanding 3 overwrote the parent of 2 with 3. */
  function CycleParents(): map<int, int> {
    map[2 := 3, 3 := 2, 4 := 2]
  }

  /** Between 2 and 3 the reconstruction goes round forever. */
  lemma {:induction false} CycleNeverEnds(path: seq<int>, fuel: nat)
    ensures Reconstruct(CycleParents(), 1, 2, path, fuel) == None
    ensures Reconstruct(CycleParents(), 1, 3, path, fuel) == None
    decreases fuel
  {
    if fuel > 0 {
      CycleNeverEnds([3] + path, fuel - 1);
      CycleNeverEnds([2] + path, fuel - 1);
    }
  }

  /** The search loop on `CycleAdj`, round by round, until 4 is dequeued:
      expanding 3 (before 4) makes 3 the parent of 2. */
  lemma CycleSearch(fuel: nat)
    requires fuel >= 3
    ensures Search(CycleAdj(), 4, 1, [], map[], fuel) == Some(CycleParents())
  {
    var adj := CycleAdj();
    assert adj[1] == [2] && adj[2] == [3, 4] && adj[3] == [2];
    var p1: map<int, int> := map[2 := 1];
    var p2 := p1[3 := 2][4 := 2];
    var p3 := p2[2 := 3];
    assert p3 == CycleParents();
    RecordOne<int>(map[], [], 1, 2);
    assert map[][2 := 1] == p1 && [] + [2] == [2];
    RecordTwo<int>(p1, [], 2, 3, 4);
    assert [] + [3, 4] == [3, 4];
    RecordOne<int>(p2, [4], 3, 2);
    assert [4] + [2] == [4, 2];
    assert [2][1..] == [] && [3, 4][1..] == [4] && [4, 2][1..] == [2];
    assert Search(adj, 4, 4, [2], p3, fuel - 3) == Some(p3);
    assert Search(adj, 4, 3, [4], p2, fuel - 2) == Some(p3);
    assert Search(adj, 4, 2, [], p1, fuel - 1) == Some(p3);
  }

  /** With fewer than three rounds the search stops before 4 is dequeued. */
  lemma CycleSearchShort(fuel: nat)
    requires fuel < 3
    ensures Search(CycleAdj(), 4, 1, [], map[], fuel) == None
  {
    var adj := CycleAdj();
    assert adj[1] == [2] && adj[2] == [3, 4];
    RecordOne<int>(map[], [], 1, 2);
    assert map[][2 := 1] == map[2 := 1] && [] + [2] == [2] && [2][1..] == [];
    if fuel == 2 {
      RecordTwo<int>(map[2 := 1], [], 2, 3, 4);
      assert [] + [3, 4] == [3, 4] && [3, 4][1..] == [4];
      assert Search(adj, 4, 3, [4], map[2 := 1][3 := 2][4 := 2], 0) == None;
    }
    if fuel > 0 {
      assert Search(adj, 4, 2, [], map[2 := 1], fuel - 1) == None;
    }
  }

  /** 4 is reachable from 1 in `CycleAdj`, along 1, 2, 4. */
  lemma CycleReachable()
    ensures Reachable(Edges(CycleAdj()), 1, 4)
  {
    var g := Edges(CycleAdj());
    assert 2 in g[1] && 4 in g[2];
    assert PathFromTo(g, [1, 2, 4], 1, 4) && Avoids([1, 2, 4], {});
  }

  /** The overwriting bug: 4 is reachable from 1 (along 1, 2, 4), yet
      `bfs(1, 4)` as written never returns, whatever the fuel. */
  lemma OverwriteLoops(fuel: nat)
    ensures Reachable(Edges(CycleAdj()), 1, 4)
    ensures BfsAsWritten(CycleAdj(), 1, 4, fuel) == None
  {
    CycleReachable();
    if fuel >= 3 {
      CycleSearch(fuel);
      assert CycleParents()[4] == 2 && [2] + [4] == [2, 4];
      CycleNeverEnds([2, 4], fuel - 1);
      assert Reconstruct(CycleParents(), 1, 4, [4], fuel) == None;
    } else {
      CycleSearchShort(fuel);
    }
  }

  /** A vertex with only a self-loop, and an unreachable destination. */
  function LoopAdj(): map<int, seq<int>> {
    map[1 := [1], 2 := []]
  }

  lemma {:induction false} SelfLoopSearch(fuel: nat)
    ensures Search(LoopAdj(), 2, 1, [], map[1 := 1], fuel) == None
    decreases fuel
  {
    if fuel > 0 {
      RecordOne<int>(map[1 := 1], [], 1, 1);
      assert map[1 := 1][1 := 1] == map[1 := 1];
      assert RecordAll<int>(map[1 := 1], [], 1, [1]).0 == map[1 := 1] && RecordAll<int>(map[1 := 1], [], 1, [1]).1 == [1];
      SelfLoopSearch(fuel - 1);
    }
  }

  /** The missing "no path" case: with 2 unreachable from 1, the search loop
      of `bfs(1, 2)` as written re-enqueues 1 forever and never returns. */
  lemma UnreachableLoops(fuel: nat)
    ensures !Reachable(Edges(LoopAdj()), 1, 2)
    ensures Search(LoopAdj(), 2, 1, [], map[], fuel) == None
  {
    var g := Edges(LoopAdj());
    forall p | PathFromTo(g, p, 1, 2) && Avoids(p, {}) ensures false {
      assert forall u, n | u in {1} && u in g && n in g[u] :: n in {1} || n in {};
      ClosedSetHoldsWalk(g, {1}, {}, p);
    }
    if fuel > 0 {
      RecordOne<int>(map[], [], 1, 1);
      assert map[][1 := 1] == map[1 := 1];
      assert RecordAll<int>(map[], [], 1, [1]).0 == map[1 := 1] && RecordAll<int>(map[], [], 1, [1]).1 == [1];
      SelfLoopSearch(fuel - 1);
    }
  }
}
