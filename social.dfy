/** The `SocialGraph` class of projects/social/social.py: users with
    sequential integer ids, an undirected friendship relation stored as a map
    from each id to the set of its friends, and a breadth-first search that
    finds a shortest friendship path to every user in one's extended network. */
module Social {
  import opened Digraphs

  /** Friendship is mutual: every friend of a user is a user who has that
      user as a friend. */
  ghost predicate Symmetric(fs: map<int, set<int>>) {
    forall u, f | u in fs && f in fs[u] :: f in fs && u in fs[f]
  }

  /** Nobody is their own friend. */
  ghost predicate Irreflexive(fs: map<int, set<int>>) {
    forall u | u in fs :: u !in fs[u]
  }

  /** The state every sequence of `addUser` and `addFriendship` calls from a
      fresh graph keeps: the ids in use are exactly 1..lastID, each with a
      name and a friend set, and friendship is mutual and irreflexive. */
  ghost predicate Wellformed(lastID: int, users: map<int, string>, fs: map<int, set<int>>) {
    && lastID >= 0
    && users.Keys == fs.Keys
    && (forall k :: k in fs <==> 1 <= k <= lastID)
    && Symmetric(fs)
    && Irreflexive(fs)
  }

  /** addUser on a wellformed graph allocates an id not yet in use and
      keeps the graph wellformed. */
  lemma AddUserWellformed(lastID: int, users: map<int, string>, fs: map<int, set<int>>, name: string)
    requires Wellformed(lastID, users, fs)
    ensures lastID + 1 !in fs
    ensures Wellformed(lastID + 1, users[lastID + 1 := name], fs[lastID + 1 := {}])
  {
    var fs' := fs[lastID + 1 := {}];
    forall u, f | u in fs' && f in fs'[u] ensures f in fs' && u in fs'[f] {
      assert u in fs && f in fs[u];
      assert f in fs && u in fs[f];
      assert f != lastID + 1;
    }
  }

  /** The friend sets after addFriendship(u, f): unchanged for a self
      friendship or one that already exists in either direction, otherwise
      each gains the other. */
  function Befriend(fs: map<int, set<int>>, u: int, f: int): map<int, set<int>>
    requires u != f ==> u in fs && (f !in fs[u] ==> f in fs)
  {
    if u == f then fs
    else if f in fs[u] || u in fs[f] then fs
    else fs[u := fs[u] + {f}][f := fs[f] + {u}]
  }

  /** addFriendship keeps the friendship relation mutual and irreflexive,
      and afterwards two distinct users are friends both ways. */
  lemma BefriendWellformed(lastID: int, users: map<int, string>, fs: map<int, set<int>>, u: int, f: int)
    requires Wellformed(lastID, users, fs)
    requires u != f ==> u in fs && (f !in fs[u] ==> f in fs)
    ensures Wellformed(lastID, users, Befriend(fs, u, f))
    ensures u != f ==> f in Befriend(fs, u, f)[u] && u in Befriend(fs, u, f)[f]
  {
    var fs' := Befriend(fs, u, f);
    assert fs'.Keys == fs.Keys;
    forall a, b | a in fs' && b in fs'[a] ensures b in fs' && a in fs'[b] {
      if u != f && !(f in fs[u] || u in fs[f]) {
        if !(a == u && b == f) && !(a == f && b == u) {
          assert b in fs[a];
        }
      }
    }
  }

  /** A second addFriendship of the same pair, in either order, changes
      nothing. */
  lemma BefriendIdempotent(lastID: int, users: map<int, string>, fs: map<int, set<int>>, u: int, f: int)
    requires Wellformed(lastID, users, fs)
    requires u != f ==> u in fs && (f !in fs[u] ==> f in fs)
    ensures Befriend(Befriend(fs, u, f), u, f) == Befriend(fs, u, f)
    ensures Befriend(Befriend(fs, u, f), f, u) == Befriend(fs, u, f)
  {
    BefriendWellformed(lastID, users, fs, u, f);
  }

  /** addFriendship(u, f) and addFriendship(f, u) have the same effect. */
  lemma BefriendSymmetric(lastID: int, users: map<int, string>, fs: map<int, set<int>>, u: int, f: int)
    requires Wellformed(lastID, users, fs)
    requires u != f ==> u in fs && (f !in fs[u] ==> f in fs)
    ensures f != u ==> f in fs && (u !in fs[f] ==> u in fs)
    ensures Befriend(fs, u, f) == Befriend(fs, f, u)
  {
    if u != f && !(f in fs[u] || u in fs[f]) {
      assert Befriend(fs, u, f)[f] == Befriend(fs, f, u)[f];
    }
  }

  /** In a wellformed graph every user's extended network consists of users,
      so the search from any user never looks up a missing id. */
  lemma WellformedReachClosed(lastID: int, users: map<int, string>, fs: map<int, set<int>>, u: int)
    requires Wellformed(lastID, users, fs) && u in fs
    ensures ReachClosed(fs, u)
  {
    forall a, n | a in fs && n in fs[a] ensures n in fs {
      assert n in fs && a in fs[n];
    }
    EdgeClosedIsReachClosed(fs, u);
  }

  /** The stored path of `k` minus its last user is the stored path of the
      user before `k`. */
  ghost predicate PrefixLink<V(!new)>(visited: map<V, seq<V>>, k: V)
    requires k in visited
  {
    var p := visited[k];
    |p| >= 2 && p[|p| - 2] in visited && visited[p[|p| - 2]] == p[..|p| - 1]
  }

  /** What getAllSocialPaths promises of its result `paths` for user `s`:
      `s` maps to `[s]`; the keys are exactly the users reachable from `s`;
      each key maps to a friendship path from `s` to it that no friendship
      path undercuts; and the paths form a tree, each one minus its last
      user being the path stored for the user before it. */
  ghost predicate ShortestPaths<V(!new)>(g: map<V, set<V>>, s: V, paths: map<V, seq<V>>) {
    && s in paths && paths[s] == [s]
    && (forall k :: k in paths <==> Reachable(g, s, k))
    && (forall k | k in paths :: PathFromTo(g, paths[k], s, k))
    && (forall k, p | k in paths && PathFromTo(g, p, s, k) :: |paths[k]| <= |p|)
    && (forall k | k in paths && k != s :: PrefixLink(paths, k))
  }

  /** One entry of the search result: a friendship path from `s` to `k` whose
      edge count is `k`'s level, and, unless `k` is `s`, one more step than
      the stored path of the user before it. */
  ghost predicate TreeEntry<V(!new)>(g: map<V, set<V>>, s: V, visited: map<V, seq<V>>, lv: map<V, int>, k: V)
    requires k in visited
  {
    && PathFromTo(g, visited[k], s, k)
    && k in lv && lv[k] == |visited[k]| - 1
    && (k != s ==> PrefixLink(visited, k))
  }

  /** The paths found so far form a breadth-first tree rooted at `s`. */
  ghost predicate Tree<V(!new)>(g: map<V, set<V>>, s: V, visited: map<V, seq<V>>, lv: map<V, int>) {
    && s in visited && visited[s] == [s]
    && lv.Keys == visited.Keys
    && (forall k {:trigger TreeEntry(g, s, visited, lv, k)} | k in visited :: TreeEntry(g, s, visited, lv, k))
  }

  /** The state of the search at the head of its `while` loop: the tree so
      far, the expanded users `E`, and the queue in level order with no user
      deeper than one level below its front. */
  ghost predicate SearchInv<V(!new)>(g: map<V, set<V>>, s: V, visited: map<V, seq<V>>, lv: map<V, int>, E: set<V>, q: seq<V>) {
    && Tree(g, s, visited, lv)
    && visited.Keys <= g.Keys
    && E <= visited.Keys
    && (forall v | v in visited :: v in E || v in q)
    && Expanded(g, lv, E)
    && LevelSorted(lv, q)
    && (q != [] ==> q[0] in lv && InBand(lv, q, lv[q[0]]) && forall u | u in E :: lv[u] <= lv[q[0]])
  }

  /** Extending the tree by a friend `f` of a tree user `usr`. */
  lemma TreeAdd<V(!new)>(g: map<V, set<V>>, s: V, visited: map<V, seq<V>>, lv: map<V, int>, usr: V, f: V)
    requires Tree(g, s, visited, lv) && usr in visited && f !in visited
    requires usr in g && f in g[usr]
    ensures Tree(g, s, visited[f := visited[usr] + [f]], lv[f := lv[usr] + 1])
  {
    var visited', lv' := visited[f := visited[usr] + [f]], lv[f := lv[usr] + 1];
    assert TreeEntry(g, s, visited, lv, usr);
    var p := visited[usr] + [f];
    assert p[..|p| - 1] == visited[usr];
    assert forall i | 0 <= i < |p| - 1 :: p[i] == visited[usr][i];
    assert TreeEntry(g, s, visited', lv', f);
    forall k | k in visited' ensures TreeEntry(g, s, visited', lv', k) {
      if k != f {
        assert TreeEntry(g, s, visited, lv, k);
      }
    }
  }

  /** With the queue used up, every user reachable from `s` has a stored path,
      and no friendship path to it is shorter. */
  lemma SearchDone<V(!new)>(g: map<V, set<V>>, s: V, visited: map<V, seq<V>>, lv: map<V, int>, E: set<V>)
    requires SearchInv(g, s, visited, lv, E, [])
    ensures ShortestPaths(g, s, visited)
  {
    assert TreeEntry(g, s, visited, lv, s);
    assert forall v | v in lv :: v in E;
    forall k ensures k in visited <==> Reachable(g, s, k) {
      if k in visited {
        assert TreeEntry(g, s, visited, lv, k);
        assert Avoids(visited[k], {});
      }
      if Reachable(g, s, k) {
        var p :| PathFromTo(g, p, s, k) && Avoids(p, {});
        FrontierBound(g, s, lv, E, |p|, p);
      }
    }
    forall k, p | k in visited && PathFromTo(g, p, s, k) ensures |visited[k]| <= |p| {
      assert TreeEntry(g, s, visited, lv, k);
      FrontierBound(g, s, lv, E, |p|, p);
    }
    forall k | k in visited ensures PathFromTo(g, visited[k], s, k) && (k != s ==> PrefixLink(visited, k)) {
      assert TreeEntry(g, s, visited, lv, k);
    }
  }

  /** The effect of the inner `for friend in ...` loop on the search state,
      for dequeued user `usr` with friends `friends`: the tree only grows,
      `news` lists the newly discovered friends, each one level below `usr`,
      appended to the queue, and afterwards every friend is discovered. */
  ghost predicate Round<V(!new)>(g: map<V, set<V>>, s: V, usr: V, friends: seq<V>,
                                 visited: map<V, seq<V>>, lv: map<V, int>, q: seq<V>,
                                 visited': map<V, seq<V>>, lv': map<V, int>, q': seq<V>, news: seq<V>)
    requires usr in lv
  {
    && Tree(g, s, visited', lv')
    && visited.Keys <= visited'.Keys
    && (forall k | k in visited :: visited'[k] == visited[k])
    && (forall k | k in visited :: k in lv' && k in lv && lv'[k] == lv[k])
    && q' == q + news
    && (forall x | x in news :: x in friends && x !in visited && x in visited' && x in lv' && lv'[x] == lv[usr] + 1)
    && (forall k | k in visited' && k !in visited :: k in news)
    && (forall n | n in friends :: n in visited')
  }

  class SocialGraph {
    var lastID: int
    var users: map<int, string>
    var friendships: map<int, set<int>>

    ghost predicate Valid()
      reads this
    {
      Wellformed(lastID, users, friendships)
    }

    /** A fresh graph: no users, no friendships, last id 0. */
    constructor ()
      ensures lastID == 0 && users == map[] && friendships == map[]
      ensures Valid()
    {
      lastID := 0;
      users := map[];
      friendships := map[];
    }

    /** addUser: the next sequential id is allocated, named, and given an
        empty friend set; every other user is untouched. The class state
        stays wellformed. */
    method AddUser(name: string)
      modifies this
      ensures lastID == old(lastID) + 1
      ensures users == old(users)[lastID := name]
      ensures friendships == old(friendships)[lastID := {}]
      ensures old(Valid()) ==> Valid() && lastID !in old(friendships)
    {
      if Valid() {
        AddUserWellformed(lastID, users, friendships, name);
      }
      lastID := lastID + 1;
      users := users[lastID := name];
      friendships := friendships[lastID := {}];
    }

    /** addFriendship: a self friendship or one already present in either
        direction is refused (the warning it prints is not modelled) and
        changes nothing; otherwise each user becomes the other's friend and
        no other entry changes. The lookups demand that `userID` is a user,
        and `friendID` too unless it is already `userID`'s friend. */
    method AddFriendship(userID: int, friendID: int)
      requires userID != friendID ==> userID in friendships && (friendID !in friendships[userID] ==> friendID in friendships)
      modifies this
      ensures friendships == Befriend(old(friendships), userID, friendID)
      ensures lastID == old(lastID) && users == old(users)
      ensures userID == friendID ==> friendships == old(friendships)
      ensures userID != friendID && (friendID in old(friendships)[userID] || userID in old(friendships)[friendID]) ==>
                friendships == old(friendships)
      ensures old(Valid()) && userID != friendID ==> friendID in friendships[userID] && userID in friendships[friendID]
      ensures forall k | k in old(friendships) && k != userID && k != friendID :: friendships[k] == old(friendships)[k]
      ensures old(Valid()) ==> Valid()
    {
      if userID == friendID {
      } else if friendID in friendships[userID] || userID in friendships[friendID] {
        if old(Valid()) {
          assert userID in friendships[friendID] ==> friendID in friendships[userID];
        }
      } else {
        friendships := friendships[userID := friendships[userID] + {friendID}];
        friendships := friendships[friendID := friendships[friendID] + {userID}];
      }
      if old(Valid()) {
        BefriendWellformed(lastID, users, old(friendships), userID, friendID);
      }
    }

    /** getAllSocialPaths: breadth-first search from `userID` that gives each
        user, on first discovery, the path of the user it was discovered from
        extended by itself. The result maps `userID` to `[userID]`, has a key
        for exactly the users reachable from `userID`, maps each key to a
        friendship path from `userID` to it that no other friendship path
        undercuts, and is a tree: every path minus its last user is the
        stored path of the user before it. The one lookup the source makes,
        of each dequeued user's friends, needs every reachable user to have
        an entry, which a wellformed graph guarantees. */
    method GetAllSocialPaths(userID: int) returns (visited: map<int, seq<int>>)
      requires ReachClosed(friendships, userID)
      ensures ShortestPaths(friendships, userID, visited)
    {
      var g := friendships;
      visited := map[userID := [userID]];
      ghost var lv: map<int, int> := map[userID := 0];
      ghost var E: set<int> := {};
      var q := [userID];
      assert TreeEntry(g, userID, visited, lv, userID);
      while q != []
        invariant SearchInv(g, userID, visited, lv, E, q)
        decreases |g.Keys - visited.Keys|, |q|
      {
        var usr := q[0];
        ghost var visited0, lv0, q0 := visited, lv, q;
        q := q[1..];
        assert usr in visited;
        var friends := Enumerate(g[usr]);
        ghost var news;
        visited, q, lv, news := VisitFriends(g, userID, usr, friends, visited, q, lv);
        SearchStep(g, userID, visited0, lv0, E, q0, friends, visited, lv, q, news);
        E := E + {usr};
      }
      SearchDone(g, userID, visited, lv, E);
    }

    /** The `for friend in self.friendships[usr]` loop: each friend not yet
        visited is enqueued and gets `usr`'s path extended by itself. */
    method VisitFriends(ghost g: map<int, set<int>>, s: int, usr: int, friends: seq<int>,
                        visited: map<int, seq<int>>, q: seq<int>, ghost lv: map<int, int>)
      returns (visited': map<int, seq<int>>, q': seq<int>, ghost lv': map<int, int>, ghost news: seq<int>)
      requires Tree(g, s, visited, lv) && usr in visited && usr in g
      requires forall n | n in friends :: n in g[usr]
      ensures usr in lv && Round(g, s, usr, friends, visited, lv, q, visited', lv', q', news)
      ensures forall x | x in news :: x in visited' && visited'[x] == visited[usr] + [x]
      ensures NoDup(news)
    {
      visited', q', lv', news := visited, q, lv, [];
      var i := 0;
      while i < |friends|
        invariant 0 <= i <= |friends|
        invariant Tree(g, s, visited', lv')
        invariant visited.Keys <= visited'.Keys
        invariant forall k | k in visited :: visited'[k] == visited[k]
        invariant forall k | k in visited :: lv'[k] == lv[k]
        invariant q' == q + news
        invariant forall x | x in news :: x in friends[..i] && x !in visited && x in visited' && lv'[x] == lv[usr] + 1
        invariant forall k | k in visited' && k !in visited :: k in news
        invariant forall n | n in friends[..i] :: n in visited'
        invariant forall x | x in news :: x in visited' && visited'[x] == visited[usr] + [x]
        invariant NoDup(news)
      {
        var friend := friends[i];
        assert friends[..i + 1] == friends[..i] + [friend];
        if friend !in visited' {
          TreeAdd(g, s, visited', lv', usr, friend);
          q' := q' + [friend];
          var tmp := visited'[usr] + [friend];
          visited' := visited'[friend := tmp];
          lv' := lv'[friend := lv'[usr] + 1];
          news := news + [friend];
        }
        i := i + 1;
      }
      assert friends[..i] == friends;
    }
  }

  /** One round of the search loop keeps its state and lowers its measure. */
  lemma SearchStep<V(!new)>(g: map<V, set<V>>, s: V, visited: map<V, seq<V>>, lv: map<V, int>, E: set<V>, q: seq<V>,
                   friends: seq<V>, visited': map<V, seq<V>>, lv': map<V, int>, q': seq<V>, news: seq<V>)
    requires ReachClosed(g, s)
    requires SearchInv(g, s, visited, lv, E, q) && q != []
    requires forall n :: n in friends <==> n in g[q[0]]
    requires Round(g, s, q[0], friends, visited, lv, q[1..], visited', lv', q', news)
    ensures SearchInv(g, s, visited', lv', E + {q[0]}, q')
    ensures news != [] ==> |g.Keys - visited'.Keys| < |g.Keys - visited.Keys|
    ensures news == [] ==> visited'.Keys == visited.Keys && |q'| < |q|
  {
    SearchStepReach(g, s, visited, lv, E, q, friends, visited', lv', q', news);
    SearchStepLevels(g, s, visited, lv, E, q, friends, visited', lv', q', news);
    SearchStepQueue(g, s, visited, lv, E, q, friends, visited', lv', q', news);
  }

  /** The reachability part of a round. */
  lemma SearchStepReach<V(!new)>(g: map<V, set<V>>, s: V, visited: map<V, seq<V>>, lv: map<V, int>, E: set<V>, q: seq<V>,
                   friends: seq<V>, visited': map<V, seq<V>>, lv': map<V, int>, q': seq<V>, news: seq<V>)
    requires ReachClosed(g, s)
    requires SearchInv(g, s, visited, lv, E, q) && q != []
    requires Round(g, s, q[0], friends, visited, lv, q[1..], visited', lv', q', news)
    ensures visited'.Keys <= g.Keys && E + {q[0]} <= visited'.Keys
    ensures news != [] ==> |g.Keys - visited'.Keys| < |g.Keys - visited.Keys|
    ensures news == [] ==> visited'.Keys == visited.Keys
  {
    RoundInGraph(g, s, visited, visited', lv', news);
  }

  /** The level part of a round: the front is expanded. */
  lemma SearchStepLevels<V(!new)>(g: map<V, set<V>>, s: V, visited: map<V, seq<V>>, lv: map<V, int>, E: set<V>, q: seq<V>,
                   friends: seq<V>, visited': map<V, seq<V>>, lv': map<V, int>, q': seq<V>, news: seq<V>)
    requires SearchInv(g, s, visited, lv, E, q) && q != []
    requires forall n :: n in friends <==> n in g[q[0]]
    requires Round(g, s, q[0], friends, visited, lv, q[1..], visited', lv', q', news)
    ensures Expanded(g, lv', E + {q[0]})
  {
    RoundLevels(g, lv, lv', E, q, friends, news);
  }

  /** The queue part of a round. */
  lemma SearchStepQueue<V(!new)>(g: map<V, set<V>>, s: V, visited: map<V, seq<V>>, lv: map<V, int>, E: set<V>, q: seq<V>,
                   friends: seq<V>, visited': map<V, seq<V>>, lv': map<V, int>, q': seq<V>, news: seq<V>)
    requires SearchInv(g, s, visited, lv, E, q) && q != []
    requires Round(g, s, q[0], friends, visited, lv, q[1..], visited', lv', q', news)
    ensures LevelSorted(lv', q')
    ensures forall v | v in visited' :: v in E + {q[0]} || v in q'
    ensures q' != [] ==> q'[0] in lv' && InBand(lv', q', lv'[q'[0]]) && forall u | u in E + {q[0]} :: lv'[u] <= lv'[q'[0]]
  {
    RoundQueue(lv, lv', E, q, q', news);
  }

  /** The users discovered in a round have entries, being ends of friendship
      paths from `s`; discovering any shrinks the undiscovered part. */
  lemma RoundInGraph<V(!new)>(g: map<V, set<V>>, s: V, visited: map<V, seq<V>>, visited': map<V, seq<V>>, lv': map<V, int>, news: seq<V>)
    requires ReachClosed(g, s) && Tree(g, s, visited', lv')
    requires forall k | k in visited :: k in g
    requires visited.Keys <= visited'.Keys
    requires forall x | x in news :: x !in visited && x in visited'
    requires forall k | k in visited' && k !in visited :: k in news
    ensures forall k | k in visited' :: k in g
    ensures news != [] ==> |g.Keys - visited'.Keys| < |g.Keys - visited.Keys|
    ensures news == [] ==> visited'.Keys == visited.Keys
  {
    forall k | k in visited' ensures k in g {
      assert TreeEntry(g, s, visited', lv', k);
      PathEndInClosed(g, s, visited'[k], k);
    }
    if news != [] {
      var x := news[0];
      assert x in news;
      assert x in g.Keys - visited.Keys && x !in g.Keys - visited'.Keys;
      CardStrict(g.Keys - visited'.Keys, g.Keys - visited.Keys);
    }
  }

  /** Expanding the front `q[0]` keeps the level facts. */
  lemma RoundLevels<V(!new)>(g: map<V, set<V>>, lv: map<V, int>, lv': map<V, int>, E: set<V>, q: seq<V>, friends: seq<V>, news: seq<V>)
    requires Expanded(g, lv, E) && q != [] && q[0] in lv && q[0] in g
    requires forall v | v in lv :: v in E || v in q
    requires InBand(lv, q, lv[q[0]])
    requires forall n :: n in friends <==> n in g[q[0]]
    requires lv.Keys <= lv'.Keys && forall v | v in lv :: lv'[v] == lv[v]
    requires forall x | x in news :: x in lv' && lv'[x] == lv[q[0]] + 1
    requires forall v | v in lv' && v !in lv :: v in news
    requires forall n | n in friends :: n in lv'
    requires forall u | u in E :: lv[u] <= lv[q[0]]
    ensures Expanded(g, lv', E + {q[0]})
  {
    SuccessorLevels(g, lv, lv', E, q, friends, news);
    ExpandedStep(g, lv, lv', E, q[0]);
  }

  /** Every friend of the front `q[0]` is discovered at most one level below it. */
  lemma SuccessorLevels<V(!new)>(g: map<V, set<V>>, lv: map<V, int>, lv': map<V, int>, E: set<V>, q: seq<V>, friends: seq<V>, news: seq<V>)
    requires Expanded(g, lv, E) && q != [] && q[0] in lv && q[0] in g
    requires forall v | v in lv :: v in E || v in q
    requires InBand(lv, q, lv[q[0]])
    requires forall n :: n in friends <==> n in g[q[0]]
    requires lv.Keys <= lv'.Keys && forall v | v in lv :: lv'[v] == lv[v]
    requires forall x | x in news :: x in lv' && lv'[x] == lv[q[0]] + 1
    requires forall v | v in lv' && v !in lv :: v in news
    requires forall n | n in friends :: n in lv'
    requires forall u | u in E :: lv[u] <= lv[q[0]]
    ensures forall n | n in g[q[0]] :: n in lv' && lv'[n] <= lv'[q[0]] + 1
  {
    forall n | n in g[q[0]] ensures n in lv' && lv'[n] <= lv'[q[0]] + 1 {
      assert n in friends;
      if n in lv {
        assert n in E || n in q;
      } else {
        assert n in news;
      }
    }
  }

  /** Dequeuing the front and appending the newly discovered users keeps the
      queue sorted in its band; every discovered user is expanded or queued. */
  lemma RoundQueue<V(!new)>(lv: map<V, int>, lv': map<V, int>, E: set<V>, q: seq<V>, q': seq<V>, news: seq<V>)
    requires q != [] && q[0] in lv && InBand(lv, q, lv[q[0]]) && LevelSorted(lv, q)
    requires E <= lv.Keys && forall v | v in lv :: v in E || v in q
    requires forall u | u in E :: lv[u] <= lv[q[0]]
    requires lv.Keys <= lv'.Keys && forall v | v in lv :: lv'[v] == lv[v]
    requires q' == q[1..] + news
    requires forall x | x in news :: x in lv' && lv'[x] == lv[q[0]] + 1
    requires forall v | v in lv' && v !in lv :: v in news
    ensures LevelSorted(lv', q')
    ensures forall v | v in lv' :: v in E + {q[0]} || v in q'
    ensures q' != [] ==> q'[0] in lv' && InBand(lv', q', lv'[q'[0]]) && forall u | u in E + {q[0]} :: lv'[u] <= lv'[q'[0]]
  {
    var d := lv[q[0]];
    LayerPopAppend(lv, lv', q, news, d);
    forall v | v in lv' ensures v in E + {q[0]} || v in q' {
      if v in lv {
        assert v in E || v in q;
        assert v in q ==> v == q[0] || v in q[1..];
      } else {
        assert v in news;
      }
    }
    if q' != [] {
      LayerRebase(lv', q', d);
      forall u | u in E + {q[0]} ensures lv'[u] <= lv'[q'[0]] {
        if u in E { assert lv[u] <= d; }
      }
    }
  }
}
