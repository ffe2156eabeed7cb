/** The demonstration at the end of projects/graph/graph.py: the seven-vertex
    graph it builds and the outcomes its comments announce. */
module GraphDemo {
  import opened Digraphs
  import opened Graphs
  import GraphsAsWritten

  /** The adjacency the demonstration prints after its edges are added. */
  function DemoGraph(): map<int, set<int>> {
    map[1 := {2}, 2 := {3, 4}, 3 := {5}, 4 := {6, 7}, 5 := {3}, 6 := {3}, 7 := {1, 6}]
  }

  /** Every vertex of the demonstration graph is reachable from 1. */
  lemma DemoAllReachable(u: int)
    requires 1 <= u <= 7
    ensures Reachable(DemoGraph(), 1, u)
  {
    var g := DemoGraph();
    ReachSelf(g, 1, {});
    ReachStep(g, 1, 1, 2, {});
    ReachStep(g, 1, 2, 3, {});
    ReachStep(g, 1, 2, 4, {});
    ReachStep(g, 1, 3, 5, {});
    ReachStep(g, 1, 4, 6, {});
    ReachStep(g, 1, 4, 7, {});
  }

  /** [1, 2, 4, 6] is the one shortest walk from 1 to 6: no walk of at most
      four vertices other than it gets there. */
  lemma DemoShortest(p: seq<int>)
    requires PathFromTo(DemoGraph(), p, 1, 6) && |p| <= 4
    ensures p == [1, 2, 4, 6]
  {
    var g := DemoGraph();
    assert p[0] == 1;
    if |p| > 1 {
      assert p[1] in g[1];
    }
    if |p| > 2 {
      assert p[2] in g[2];
    }
    if |p| == 4 {
      assert p[3] in g[p[2]];
    }
  }

  /** Seven add_vertex calls and the ten add_edge calls of the
      demonstration, as map updates. */
  function DemoAdds(): map<int, set<int>> {
    var m0: map<int, set<int>> := map[1 := {}, 2 := {}, 3 := {}, 4 := {}, 5 := {}, 6 := {}, 7 := {}];
    var m1 := m0[5 := m0[5] + {3}];
    var m2 := m1[6 := m1[6] + {3}];
    var m3 := m2[7 := m2[7] + {1}];
    var m4 := m3[4 := m3[4] + {7}];
    var m5 := m4[1 := m4[1] + {2}];
    var m6 := m5[7 := m5[7] + {6}];
    var m7 := m6[2 := m6[2] + {4}];
    var m8 := m7[3 := m7[3] + {5}];
    var m9 := m8[2 := m8[2] + {3}];
    var m10 := m9[4 := m9[4] + {6}];
    m10
  }

  /** The adjacency the demonstration's calls add up to. */
  lemma DemoBuildMap()
    ensures DemoAdds() == DemoGraph()
  {
    var m := DemoAdds();
    assert m.Keys == DemoGraph().Keys;
    var d := DemoGraph();
    assert m[1] == d[1] && m[3] == d[3] && m[5] == d[5] && m[6] == d[6];
    assert m[2] == {4} + {3} == d[2];
    assert m[4] == {7} + {6} == d[4];
    assert m[7] == {1} + {6} == d[7];
    assert forall k | k in m :: m[k] == d[k];
  }

  /** The demonstration's add_vertex and add_edge calls, in its order, give
      the adjacency it prints. */
  method BuildDemo() returns (graph: Graph<int>)
    ensures fresh(graph) && graph.vertices == DemoGraph()
  {
    graph := new Graph<int>();
    ghost var m: map<int, set<int>> := map[];
    graph.AddVertex(1);
    m := m[1 := {}];
    graph.AddVertex(2);
    m := m[2 := {}];
    graph.AddVertex(3);
    m := m[3 := {}];
    graph.AddVertex(4);
    m := m[4 := {}];
    graph.AddVertex(5);
    m := m[5 := {}];
    graph.AddVertex(6);
    m := m[6 := {}];
    graph.AddVertex(7);
    m := m[7 := {}];
    graph.AddEdge(5, 3);
    m := m[5 := m[5] + {3}];
    graph.AddEdge(6, 3);
    m := m[6 := m[6] + {3}];
    graph.AddEdge(7, 1);
    m := m[7 := m[7] + {1}];
    graph.AddEdge(4, 7);
    m := m[4 := m[4] + {7}];
    graph.AddEdge(1, 2);
    m := m[1 := m[1] + {2}];
    graph.AddEdge(7, 6);
    m := m[7 := m[7] + {6}];
    graph.AddEdge(2, 4);
    m := m[2 := m[2] + {4}];
    graph.AddEdge(3, 5);
    m := m[3 := m[3] + {5}];
    graph.AddEdge(2, 3);
    m := m[2 := m[2] + {3}];
    graph.AddEdge(4, 6);
    m := m[4 := m[4] + {6}];
    assert m == DemoAdds();
    DemoBuildMap();
  }

  /** Traverse the demonstration graph from 1 and search a path from 1 to 6:
      each traversal starts at 1 and emits each of the seven vertices exactly
      once; the path is [1, 2, 4, 6]. */
  method Demo() returns (bft: seq<int>, dft: seq<int>, rec: seq<int>, path: Option<seq<int>>)
    ensures |bft| > 0 && bft[0] == 1 && NoDup(bft) && forall u :: u in bft <==> 1 <= u <= 7
    ensures |dft| > 0 && dft[0] == 1 && NoDup(dft) && forall u :: u in dft <==> 1 <= u <= 7
    ensures |rec| > 0 && rec[0] == 1 && NoDup(rec) && forall u :: u in rec <==> 1 <= u <= 7
    ensures path == Some([1, 2, 4, 6])
  {
    var graph := BuildDemo();
    var g := DemoGraph();
    EdgeClosedIsReachClosed(g, 1);
    forall u ensures Reachable(g, 1, u) <==> 1 <= u <= 7 {
      if 1 <= u <= 7 { DemoAllReachable(u); }
    }
    bft := graph.Bft(1);
    dft := graph.Dft(1);
    rec := graph.DftRecursive(1);
    path := graph.Bfs(1, 6);
    DemoAllReachable(6);
    var p := [1, 2, 4, 6];
    assert PathFromTo(g, p, 1, 6);
    DemoShortest(path.value);
  }

  /** The demonstration graph with vertex 4's successors met as 7, then 6. */
  function DetourAdj(): map<int, seq<int>> {
    map[1 := [2], 2 := [3, 4], 3 := [5], 4 := [7, 6], 5 := [3], 6 := [3], 7 := [1, 6]]
  }

  /** The parents the unguarded search has recorded when it dequeues 6:
      expanding 7 overwrote the parent of 6 (first 4) with 7. */
  function DetourParents(): map<int, int> {
    map[1 := 7, 2 := 1, 3 := 5, 4 := 2, 5 := 3, 6 := 7, 7 := 4]
  }

  /** The explicit order lists the demonstration graph. */
  lemma DetourEdges()
    ensures GraphsAsWritten.Edges(DetourAdj()) == DemoGraph()
  {
    var adj, g := DetourAdj(), DemoGraph();
    forall k | k in adj ensures GraphsAsWritten.Edges(adj)[k] == g[k] {
      assert forall x :: x in GraphsAsWritten.Edges(adj)[k] <==> x in adj[k];
    }
  }

  /** The parents after 1, 2 and 3 are expanded, with 4 and 5 queued. */
  function DetourHalfway(): map<int, int> {
    map[2 := 1, 3 := 2, 4 := 2, 5 := 3]
  }

  /** The first three rounds: 1, 2 and 3 are expanded, 4 is dequeued. */
  lemma DetourSearchHead(fuel: nat)
    requires fuel >= 3
    ensures GraphsAsWritten.Search(DetourAdj(), 6, 1, [], map[], fuel)
         == GraphsAsWritten.Search(DetourAdj(), 6, 4, [5], DetourHalfway(), fuel - 3)
  {
    var adj := DetourAdj();
    assert adj[1] == [2] && adj[2] == [3, 4] && adj[3] == [5];
    var p1: map<int, int> := map[2 := 1];
    var p2 := p1[3 := 2][4 := 2];
    var p3 := p2[5 := 3];
    assert p3 == DetourHalfway();
    GraphsAsWritten.RecordOne<int>(map[], [], 1, 2);
    assert map[][2 := 1] == p1 && [] + [2] == [2] && [2][1..] == [];
    GraphsAsWritten.SearchUnfold(adj, 6, 1, [], map[], fuel, p1, [2]);
    GraphsAsWritten.RecordTwo<int>(p1, [], 2, 3, 4);
    assert [] + [3, 4] == [3, 4] && [3, 4][1..] == [4];
    GraphsAsWritten.SearchUnfold(adj, 6, 2, [], p1, fuel - 1, p2, [3, 4]);
    GraphsAsWritten.RecordOne<int>(p2, [4], 3, 5);
    assert [4] + [5] == [4, 5] && [4, 5][1..] == [5];
    GraphsAsWritten.SearchUnfold(adj, 6, 3, [4], p2, fuel - 2, p3, [4, 5]);
  }

  /** The next three rounds: 4, 5 and 7 are expanded, 6 is dequeued. */
  lemma DetourSearchTail(fuel: nat)
    requires fuel >= 3
    ensures GraphsAsWritten.Search(DetourAdj(), 6, 4, [5], DetourHalfway(), fuel) == Some(DetourParents())
  {
    var adj := DetourAdj();
    assert adj[4] == [7, 6] && adj[5] == [3] && adj[7] == [1, 6];
    var p3 := DetourHalfway();
    var p4 := p3[7 := 4][6 := 4];
    var p5 := p4[3 := 5];
    var p6 := p5[1 := 7][6 := 7];
    assert p6 == DetourParents();
    GraphsAsWritten.RecordTwo<int>(p3, [5], 4, 7, 6);
    assert [5] + [7, 6] == [5, 7, 6] && [5, 7, 6][1..] == [7, 6];
    GraphsAsWritten.SearchUnfold(adj, 6, 4, [5], p3, fuel, p4, [5, 7, 6]);
    GraphsAsWritten.RecordOne<int>(p4, [7, 6], 5, 3);
    assert [7, 6] + [3] == [7, 6, 3] && [7, 6, 3][1..] == [6, 3];
    GraphsAsWritten.SearchUnfold(adj, 6, 5, [7, 6], p4, fuel - 1, p5, [7, 6, 3]);
    GraphsAsWritten.RecordTwo<int>(p5, [6, 3], 7, 1, 6);
    assert [6, 3] + [1, 6] == [6, 3, 1, 6] && [6, 3, 1, 6][1..] == [3, 1, 6];
    GraphsAsWritten.SearchUnfold(adj, 6, 7, [6, 3], p5, fuel - 2, p6, [6, 3, 1, 6]);
  }

  /** Following the recorded parents back from 6 goes through 7. */
  lemma DetourReconstruct(fuel: nat)
    requires fuel >= 4
    ensures GraphsAsWritten.Reconstruct(DetourParents(), 1, 6, [6], fuel) == Some([1, 2, 4, 7, 6])
  {
    var p := DetourParents();
    assert p[6] == 7 && p[7] == 4 && p[4] == 2 && p[2] == 1;
    assert [7] + [6] == [7, 6] && [4] + [7, 6] == [4, 7, 6] && [2] + [4, 7, 6] == [2, 4, 7, 6] && [1] + [2, 4, 7, 6] == [1, 2, 4, 7, 6];
    GraphsAsWritten.ReconstructUnfold(p, 1, 6, [6], fuel);
    GraphsAsWritten.ReconstructUnfold(p, 1, 7, [7, 6], fuel - 1);
    GraphsAsWritten.ReconstructUnfold(p, 1, 4, [4, 7, 6], fuel - 2);
    GraphsAsWritten.ReconstructUnfold(p, 1, 2, [2, 4, 7, 6], fuel - 3);
    assert GraphsAsWritten.Reconstruct(p, 1, 1, [1, 2, 4, 7, 6], fuel - 4) == Some([1, 2, 4, 7, 6]);
  }

  /** The search, then the reconstruction, of the as-written `bfs(1, 6)`. */
  lemma DetourRun(fuel: nat)
    requires fuel >= 6
    ensures GraphsAsWritten.BfsAsWritten(DetourAdj(), 1, 6, fuel) == Some([1, 2, 4, 7, 6])
  {
    DetourSearchHead(fuel);
    DetourSearchTail(fuel - 3);
    GraphsAsWritten.BfsAsWrittenUnfold(DetourAdj(), 1, 6, fuel, DetourParents());
    DetourReconstruct(fuel);
  }

  /** [1, 2, 4, 6] is a walk of the demonstration graph. */
  lemma DemoShortWalk()
    ensures PathFromTo(DemoGraph(), [1, 2, 4, 6], 1, 6)
  {
    var g := DemoGraph();
    assert 2 in g[1] && 4 in g[2] && 6 in g[4];
  }

  /** On the demonstration graph the bfs as written returns [1, 2, 4, 7, 6]
      for `bfs(1, 6)` when 4's successors come as 7, then 6: a walk one edge
      longer than the shortest one, [1, 2, 4, 6]. */
  lemma DemoDetour(fuel: nat)
    requires fuel >= 6
    ensures GraphsAsWritten.Edges(DetourAdj()) == DemoGraph()
    ensures GraphsAsWritten.BfsAsWritten(DetourAdj(), 1, 6, fuel) == Some([1, 2, 4, 7, 6])
    ensures PathFromTo(DemoGraph(), [1, 2, 4, 6], 1, 6)
  {
    DetourEdges();
    DetourRun(fuel);
    DemoShortWalk();
  }
}
