# Graphs: a verified model of three small graph algorithms

This project models the three graph programs of the kjohna/Graphs repository and proves
what they promise.

- **`Graph`** (projects/graph/graph.py) is a directed graph kept as a map from each vertex
  to its set of successors. It has:
  - `add_vertex` and `add_edge`;
  - three traversals: breadth-first `bft`, depth-first `dft` with a stack, and
    `dft_recursive`;
  - `bfs`, a path search that records a parent for each vertex and then follows the
    parents back from the destination.
- **`SocialGraph`** (projects/social/social.py) keeps users with sequential ids and a
  mutual friendship relation. `getAllSocialPaths` runs a breadth-first search that maps
  every user in a user's extended network to a shortest friendship path.
- **`earliest_ancestor`** (projects/ancestor/ancestor.py) takes (parent, child) pairs,
  builds a child-to-parents map and searches every ancestry chain with a stack. It
  returns the end of the longest chain, with ties going to the smaller id, or -1 when
  the start has no parents.

## Files and modules

- `digraphs.dfy` (`Digraphs`) holds what the modules share:
  - walks, reachability and the lemmas about them;
  - the level argument both breadth-first searches rely on: an expanded vertex's
    successors lie at most one level deeper, so no walk undercuts a vertex's level;
  - `Enumerate`, which lists a set in an unspecified order, as Python iterates a set.
- `graph.dfy` (`Graphs`) holds the class `Graph<V>`:
  - its `vertices` field is the adjacency map, and its methods update it in place;
  - traversals return the sequence of vertices they would print;
  - `Bfs` is the search with a first-discovery guard (see Findings).
- `bfs_as_written.dfy` (`GraphsAsWritten`) models `bfs` as written, over an explicit
  neighbour order, as fuel-bounded functions, with concrete inputs on which it never
  returns.
- `graph_demo.dfy` (`GraphDemo`) models the demonstration at the end of graph.py: the
  seven-vertex graph it builds, the outcomes its comments announce, and one run of the
  as-written `bfs` on it that returns a path that is not a shortest one.
- `social.dfy` (`Social`) holds the class `SocialGraph` with fields `lastID`, `users` and
  `friendships`. Two things are stated as pure definitions over the friend map:
  - the invariant that friendship is mutual and irreflexive;
  - the result specification of the social path search.
- `ancestor.dfy` (`Ancestry`) models `earliest_ancestor`:
  - the map-building loop, proved to build a reference map defined by comprehension;
  - the stack search, proved against the specification "longest root chain, smallest end
    among the longest".

## Model

| member | source | states |
|---|---|---|
| Digraphs.Enumerate | projects/graph/graph.py:49-50 | iterating a set visits each of its elements exactly once, in an unspecified order |
| Graphs.Graph.constructor | projects/graph/graph.py:10-11 | a new graph has no vertices |
| Graphs.Graph.AddVertex | projects/graph/graph.py:13-17 | the vertex gets an empty successor set, replacing any previous one; every other entry is unchanged |
| Graphs.Graph.AddEdge | projects/graph/graph.py:19-23 | `v1` must be a vertex; afterwards `v2` is a successor of `v1`, nothing else changed, and re-adding an existing edge changes nothing |
| Graphs.Graph.Bft | projects/graph/graph.py:25-50 | the emitted sequence starts at the start vertex, never repeats a vertex, and holds exactly the vertices reachable from the start |
| Graphs.Graph.Dft | projects/graph/graph.py:52-76 | the same three guarantees for the stack-based traversal |
| Graphs.Graph.DftRecursiveFrom | projects/graph/graph.py:81-95 | with a visited set passed in: the visited set only grows, by exactly the vertices reachable through vertices unvisited on entry; the output is the start followed by those new vertices, each once |
| Graphs.Graph.DftRecursive | projects/graph/graph.py:87-95 | with a fresh visited set: the output starts at the start, never repeats, and holds exactly the reachable vertices |
| Graphs.Graph.Bfs | projects/graph/graph.py:97-121 | `bfs(v, v)` is `[v]`; a path is returned exactly when the destination is reachable; the path is a walk from start to destination with no walk shorter |
| Graphs.Graph.RecordParents | projects/graph/graph.py:111-113 | the neighbour loop with the first-discovery guard: each successor met for the first time gets `current` as parent one level deeper and is enqueued, once; parents recorded earlier are kept; afterwards every successor is discovered |
| Graphs.Reconstruct | projects/graph/graph.py:116-121 | following parents back from a discovered vertex reaches the start and spells a walk from start to destination with one edge per level |
| Graphs.BfsExpand | projects/graph/graph.py:108-114 | after one round, an empty queue implies the destination is unreachable, and the termination measure drops |
| Graphs.BfsAdvance | projects/graph/graph.py:108-114 | after one round with a non-empty queue, dequeuing its front restores the loop invariant (levels, queue order, reachability) |
| Graphs.BfsDry | projects/graph/graph.py:108-114 | when every discovered vertex is expanded and the destination is not among them, the destination is unreachable |
| Graphs.BfsFound | projects/graph/graph.py:109 | when the destination is dequeued, no walk to it has fewer edges than its level |
| GraphsAsWritten.EdgesCover | projects/graph/graph.py:111 | every successor map is listed by some map of duplicate-free neighbour orders, so the as-written results, stated for every `adj`, cover every graph and every order in which the loop may meet a set's elements |
| GraphsAsWritten.RecordAll | projects/graph/graph.py:111-113 | the unguarded neighbour loop: every neighbour is appended to the queue and has `current` as parent afterwards, whatever it had before; every other parent is kept |
| GraphsAsWritten.Search | projects/graph/graph.py:108-114 | the search loop: when `current` is the destination the parents are returned as they are; otherwise `current` is expanded and the queue's front dequeued; the parents only gain keys; no result when the fuel runs out before the destination is dequeued, when `current` is not a vertex, or when the queue is empty and `current` has no successors |
| GraphsAsWritten.Reconstruct | projects/graph/graph.py:116-121 | the reconstruction loop never shortens the path and keeps its last vertex, and a finished one starts at the start vertex; no result when the fuel runs out before the start is met or a vertex on the way has no parent |
| GraphsAsWritten.BfsAsWritten | projects/graph/graph.py:97-121 | the whole of `bfs` as written: a result is a non-empty path from the start to the destination, and `bfs(v, v)` is `[v]` |
| GraphsAsWritten.RecordOne | projects/graph/graph.py:111-113 | one unguarded neighbour step overwrites the neighbour's parent with `current` and enqueues it |
| GraphsAsWritten.RecordAllEdges | projects/graph/graph.py:111-113 | even when overwritten, every recorded parent has its child as a successor |
| GraphsAsWritten.SearchEdges | projects/graph/graph.py:108-114 | the parent map the as-written search ends with keeps that edge property |
| GraphsAsWritten.ReconstructWalk | projects/graph/graph.py:116-121 | a reconstruction that ends yields a walk from the start to the destination |
| GraphsAsWritten.AsWrittenValid | projects/graph/graph.py:97-121 | when the as-written `bfs` returns, it returns a walk from start to destination, so the destination is reachable; `bfs(v, v)` is `[v]` |
| GraphsAsWritten.CycleNeverEnds | projects/graph/graph.py:118-120 | with parents 2→3 and 3→2 the reconstruction loop never reaches the start |
| GraphDemo.DemoDetour | projects/graph/graph.py:111-113 | on the demonstration graph, with 4's successors met as 7 then 6, the as-written `bfs(1, 6)` returns [1, 2, 4, 7, 6] although [1, 2, 4, 6] is a walk one vertex shorter |
| GraphsAsWritten.OverwriteLoops | projects/graph/graph.py:111-113 | on edges 1→2, 2→3, 2→4, 3→2 with 3 visited before 4, `bfs(1, 4)` never returns although 4 is reachable |
| GraphsAsWritten.SelfLoopSearch | projects/graph/graph.py:109-114 | with a self-loop at 1 the search keeps re-enqueuing 1 |
| GraphsAsWritten.UnreachableLoops | projects/graph/graph.py:109-114 | on edges 1→1 with vertex 2, `bfs(1, 2)` searches forever for the unreachable 2 |
| GraphDemo.DemoBuildMap | projects/graph/graph.py:135-155 | the demonstration's seven vertices and ten edges add up to the adjacency its comment prints |
| GraphDemo.BuildDemo | projects/graph/graph.py:133-157 | the `add_vertex`/`add_edge` calls, in order, build that adjacency in the graph object |
| GraphDemo.DemoAllReachable | projects/graph/graph.py:159-195 | every vertex 1..7 is reachable from 1, as each listed valid traversal order shows |
| GraphDemo.DemoShortest | projects/graph/graph.py:197-202 | [1, 2, 4, 6] is the only walk of at most four vertices from 1 to 6 |
| GraphDemo.Demo | projects/graph/graph.py:159-202 | on the demonstration graph, each traversal from 1 starts at 1 and emits each of 1..7 once, and `bfs(1, 6)` is [1, 2, 4, 6] |
| Social.SocialGraph.constructor | projects/social/social.py:14-17 | a new graph has last id 0, no users, no friendships, and is wellformed |
| Social.SocialGraph.AddUser | projects/social/social.py:31-37 | the last id goes up by one; the new id is named and given an empty friend set; other entries are unchanged; a wellformed graph stays wellformed and the id was unused |
| Social.AddUserWellformed | projects/social/social.py:31-37 | allocating the next id keeps ids 1..lastID in use, and keeps friendship mutual and irreflexive |
| Social.SocialGraph.AddFriendship | projects/social/social.py:19-29 | a self friendship, or one existing in either direction, changes nothing; otherwise the two users become friends both ways, and no other friend set changes; the invariant is kept |
| Social.BefriendWellformed | projects/social/social.py:19-29 | befriending keeps friendship mutual and irreflexive, and two distinct users end up friends both ways |
| Social.BefriendIdempotent | projects/social/social.py:25-26 | repeating `addFriendship` for the same pair, in either order, changes nothing |
| Social.BefriendSymmetric | projects/social/social.py:19-29 | `addFriendship(u, f)` and `addFriendship(f, u)` have the same effect |
| Social.WellformedReachClosed | projects/social/social.py:89-90 | in a wellformed graph every user reachable from a user is a user, so the friend-set lookup never fails |
| Social.SocialGraph.GetAllSocialPaths | projects/social/social.py:73-100 | the result maps the user to `[user]`; its keys are exactly the reachable users; each value is a friendship path to its key that no other path undercuts; every path minus its last user is the stored path of the user before it |
| Social.SocialGraph.VisitFriends | projects/social/social.py:90-98 | the friend loop: each friend not yet visited is enqueued, once, and gets the current user's path extended by itself; every friend ends up visited; earlier entries are kept |
| Social.TreeAdd | projects/social/social.py:96-98 | the copied and extended path of a newly found friend keeps the stored paths a breadth-first tree |
| Social.SearchStep | projects/social/social.py:88-98 | one round of the search keeps the tree, level and queue invariant, and lowers the termination measure |
| Social.SearchDone | projects/social/social.py:88-100 | with the queue used up, the stored paths meet the result specification |
| Ancestry.BuildAncestorGraph | projects/ancestor/ancestor.py:4-9 | the first loop builds exactly the reference child-to-parents map |
| Ancestry.ParentsOfMember | projects/ancestor/ancestor.py:5-9 | `x` is listed as a parent of `c` exactly when `(x, c)` is one of the pairs |
| Ancestry.ParentsOfEmpty | projects/ancestor/ancestor.py:6-7 | a child's parent list is non-empty exactly when the child occurs in some pair |
| Ancestry.ParentsOfConcat | projects/ancestor/ancestor.py:5-9 | parent lists follow the order of the pairs and keep repetitions |
| Ancestry.AncestorGraphKeys | projects/ancestor/ancestor.py:4-9 | the map has an entry exactly for the ids that are some pair's child, and each entry is non-empty |
| Ancestry.AncestorGraphSnoc | projects/ancestor/ancestor.py:6-9 | one more pair appends its parent to its child's list, or creates the list when the child is new |
| Ancestry.PushParents | projects/ancestor/ancestor.py:22-25 | a fresh copy of the popped chain, extended by each parent in turn, is pushed in the parents' order |
| Ancestry.PushMeasure | projects/ancestor/ancestor.py:18-25 | the pushed entries are chains from the start, and they add exactly their subtree sizes to the remaining work, so each pop lowers it by one |
| Ancestry.ChainBound | projects/ancestor/ancestor.py:18-25 | in acyclic ancestry no chain is longer than the number of ids, so the search ends |
| Ancestry.SettledExpand | projects/ancestor/ancestor.py:21-25 | replacing a chain whose end has parents by its extensions keeps every root chain covered |
| Ancestry.SettledRoot | projects/ancestor/ancestor.py:26-32 | the longer-or-smaller-end update keeps the best chain seen so far at least as good as every settled root chain |
| Ancestry.RootChainExists | projects/ancestor/ancestor.py:18-33 | when the start has parents, some ancestry chain ends at an id without parents |
| Ancestry.SearchResult | projects/ancestor/ancestor.py:18-33 | with the stack empty, the kept chain ends at the earliest ancestor |
| Ancestry.EarliestAncestor | projects/ancestor/ancestor.py:2-33 | -1 when the start is no pair's child; otherwise the end of a longest root chain from the start, the smallest such end on a tie |
| Ancestry.EarliestIsRoot | projects/ancestor/ancestor.py:26-33 | the earliest ancestor has no recorded parents, is not the start, and is reached from the start by parent links |
| Ancestry.EarliestUnique | projects/ancestor/ancestor.py:28-32 | the earliest ancestor is determined by the pairs and the start, whatever order the stack is processed in |
| Ancestry.TieExample | projects/ancestor/ancestor.py:30-32 | for pairs (1, 3) and (2, 3) the chains [3, 1] and [3, 2] tie, and the result for 3 is 1 |
| Ancestry.CycleUnbounded | projects/ancestor/ancestor.py:18-25 | a chain that repeats an id can be pumped into chains of every length, so with a cycle there is no bound on the chains the stack search may push |

## Left out

- Printing: each traversal returns the sequence it would print. The warnings of
  `addFriendship` (social.py:24, 26) are no-ops.
- `util.Stack`, `util.Queue` and `queue.Queue`: the util module is not part of this model.
  The stacks and queues are sequences. `queue.Queue`'s thread safety does not matter to a
  single thread.
- Python set iteration order is left abstract (`Digraphs.Enumerate`). No contract of the
  `Graph` or `SocialGraph` methods depends on it. The `GraphsAsWritten` lemmas are stated
  for every explicit neighbour order `adj` (`EdgesCover`), except the concrete runs
  (`OverwriteLoops`, `UnreachableLoops`, `GraphDemo.DemoDetour`), which fix one order each;
  the Findings rows name it.
- Graphs.Graph.Bft: the order is not stated to be breadth-first, level by level. Only the
  first vertex, the absence of repeats and the vertex set are stated.
- Graphs.Graph.Dft: the order is not stated to be depth-first. The same three facts as for
  `Bft` are stated.
- Graphs.Graph.DftRecursive: the order is not stated to be depth-first. The same three
  facts are stated.
- The insertion count in `bft`/`dft` (at most one plus the sum of the out-degrees) is not
  stated. Termination is proved by the loops' measures.
- GraphDemo.Demo: which of the listed valid orders a traversal prints depends on set
  order, so it is not stated. The printed adjacency (graph.py:157) is stated as
  `BuildDemo`'s result.
- Graphs.Graph.Bfs: `ReachClosed` asks more than the source looks up. The source only
  looks up the vertices it expands before it dequeues the destination, so `bfs(v, v)`
  with `v` never added returns `[v]`, and on edges 1→2, 2→3 with 3 never added `bfs(1, 2)`
  returns `[1, 2]`. Such graphs, with an edge to a vertex that is not a key, are ill-formed;
  the model requires every reachable vertex to be a key.
- Graphs.Graph.DftRecursiveFrom: CPython stops with a RecursionError after about 1000
  nested calls, so on a long enough chain of vertices the source fails where the model
  returns. The recursion depth is not modelled.
- `Graph.dfs` (graph.py:123-129) is an unimplemented stub. It has no behaviour to model.
- `Graph.bfs` is modelled twice: corrected as `Graphs.Graph.Bfs` and as written in
  `GraphsAsWritten` (see Findings). The as-written functions take a fuel bound, and
  running out of fuel stands for a loop that does not end. The same bound covers the
  `dequeue` from an empty `util.Queue`, whose behaviour is not part of this model.
- KeyErrors are preconditions: a lookup of a missing key raises in Python, and here every
  vertex reachable from the start must be a key (`ReachClosed`).
  - This applies to the traversals, `Bfs` and `GetAllSocialPaths`, and likewise to
    `AddEdge` (`v1` must be a vertex, graph.py:23) and `AddFriendship` (social.py:25). For
    `AddFriendship` nothing is needed when the two ids are equal; otherwise `userID` must
    be a key, and `friendID` too unless it is already in `userID`'s friend set, as the
    short-circuit `or` of line 25 looks it up only then.
  - For `GetAllSocialPaths` on a wellformed graph it always holds
    (`Social.WellformedReachClosed`).
  - The exception path itself is not modelled.
- `User` and `__repr__` (social.py:5-10): a user is modelled by its name string.
- `populateGraph` (social.py:39-71): it depends on `random.shuffle`.
- The two `__main__` blocks: only their expected values are modelled (`GraphDemo`). The
  social one is random and left out.
- Ancestry.EarliestAncestor: nontermination on cyclic ancestry is a precondition, not a
  behaviour. `CycleUnbounded` shows what a cycle causes.
- Ancestry.CycleUnbounded: it shows only that a cycle yields ancestry chains of every
  length. That the loop of `EarliestAncestor` then never ends is not proved, because the
  loop's invariant speaks of root chains only.
- Ancestry.EarliestAncestor: the sentinel -1 is not told apart from an ancestor whose id
  is -1. The contract states both cases, so the caller can tell them apart only by
  whether the start has parents.
- Ancestry.EarliestAncestor: pairs are modelled as integer tuples. Python allows any
  comparable ids and two-element lists.

## Findings

| source | as written | input that shows it | evidently intended | confidence | as-written member | corrected member |
|---|---|---|---|---|---|---|
| projects/graph/graph.py:111-113 | every neighbour of the dequeued vertex gets it as parent, which overwrites earlier parents | edges 1→2, 2→3, 2→4, 3→2 with 3 iterated before 4; `bfs(1, 4)` leaves parents 4→2, 2→3, 3→2, and the reconstruction cycles between 2 and 3 forever | a parent is recorded only on first discovery, so the parents form a tree and the path is a shortest one, as the docstring says | high (not executed) | GraphsAsWritten.OverwriteLoops | Graphs.Graph.Bfs |
| projects/graph/graph.py:111-113 | the last parent written wins, so a vertex reached again later takes the later, deeper vertex as parent | the demonstration graph with 4's successors met as 7, then 6; `bfs(1, 6)` records 6's parent as 4 and then as 7 and returns [1, 2, 4, 7, 6], while [1, 2, 4, 6] is shorter | a shortest path, as the docstring (graph.py:98-101) says | high (not executed) | GraphDemo.DemoDetour | Graphs.Graph.Bfs |
| projects/graph/graph.py:108-114 | the search loop runs until the destination is dequeued, with no check for an empty queue or an already expanded vertex | edge 1→1 and an isolated vertex 2; `bfs(1, 2)` re-enqueues 1 forever | report that no path exists when the queue runs dry | high (not executed) | GraphsAsWritten.UnreachableLoops | Graphs.Graph.Bfs |
