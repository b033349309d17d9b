/** `bfs` of ged2dot.py: a breadth-first walk from a root node that stops
    at the first dequeued node deeper than `2 * familydepth + 1`.

    The queue of the source is always the unprocessed tail of its `visited`
    list, so the model keeps one `visited` sequence and the index `head`
    of the next node to dequeue: `visited[..head]` is what has been
    returned so far, `visited[head..]` is the queue. Depths are kept in a
    separate sequence indexed by handle and written back into the graph at
    the end, which is the in-place `set_depth` of the source.

    The walk only ever asks a node for its neighbour list, so the reasoning
    below is about the adjacency lists of the graph (`Adjacency`). */
module Traversal {
  import opened Graph

  // ---------------------------------------------------------------------
  // sequences of handles
  // ---------------------------------------------------------------------

  predicate NoDup(s: seq<nat>) {
    forall i, j | 0 <= i < j < |s| :: s[i] != s[j]
  }

  predicate InRange(s: seq<nat>, n: nat) {
    forall i | 0 <= i < |s| :: s[i] < n
  }

  /** Distinct handles below `n` are at most `n` many, which is why the walk
      terminates on cyclic graphs. */
  lemma {:induction false} Pigeonhole(s: seq<nat>, n: nat)
    requires NoDup(s) && InRange(s, n)
    ensures |s| <= n
    decreases n
  {
    if |s| > 0 {
      assert s[0] < n;
      if n - 1 in s {
        var i :| 0 <= i < |s| && s[i] == n - 1;
        var t := s[..i] + s[i + 1..];
        assert forall j | 0 <= j < |t| :: t[j] == (if j < i then s[j] else s[j + 1]);
        assert InRange(t, n - 1);
        Pigeonhole(t, n - 1);
      } else {
        assert InRange(s, n - 1);
        Pigeonhole(s, n - 1);
      }
    }
  }

  // ---------------------------------------------------------------------
  // adjacency lists
  // ---------------------------------------------------------------------

  /** Every node's `get_neighbours(direction)`, indexed by handle. */
  function Adjacency(g: seq<Node>, direction: string): (adj: seq<seq<nat>>)
    ensures |adj| == |g| && forall u | 0 <= u < |g| :: adj[u] == Neighbours(g[u], direction)
  {
    seq(|g|, u requires 0 <= u < |g| => Neighbours(g[u], direction))
  }

  /** Every neighbour is a node of the graph. */
  predicate AdjClosed(adj: seq<seq<nat>>) {
    forall u | 0 <= u < |adj| :: InRange(adj[u], |adj|)
  }

  /** In a closed graph the neighbour lists stay in the graph, in any
      direction. */
  lemma AdjacencyClosed(g: seq<Node>, direction: string)
    requires Closed(g)
    ensures AdjClosed(Adjacency(g, direction))
  {
    var adj := Adjacency(g, direction);
    forall u | 0 <= u < |g| ensures InRange(adj[u], |g|) {
      NeighboursWithinBoth(g[u], direction);
      forall i | 0 <= i < |adj[u]| ensures adj[u][i] < |g| {
        assert adj[u][i] in Neighbours(g[u], "both");
      }
    }
  }

  // ---------------------------------------------------------------------
  // distance from the root
  // ---------------------------------------------------------------------

  /** `v` is at most `k` edges away from `root`: it is the root, or it is
      at most `k - 1` edges away or a neighbour of a node that is. */
  ghost predicate Reach(adj: seq<seq<nat>>, root: nat, v: nat, k: nat)
    decreases k
  {
    if k == 0 then v == root
    else exists u: nat {:trigger Edge(adj, u, v)} :: Reach(adj, root, u, k - 1) && Edge(adj, u, v)
  }

  /** `v` is `u` itself or one of its neighbours. */
  predicate Edge(adj: seq<seq<nat>>, u: nat, v: nat) {
    u == v || (u < |adj| && v in adj[u])
  }

  /** `v` is at most `k` edges away from `root`, for any integer `k`. */
  ghost predicate Within(adj: seq<seq<nat>>, root: nat, v: nat, k: int) {
    k >= 0 && Reach(adj, root, v, k)
  }

  /** `k` is the length of a shortest path from `root` to `v`. */
  ghost predicate IsDistance(adj: seq<seq<nat>>, root: nat, v: nat, k: int) {
    Within(adj, root, v, k) && forall j: nat | j < k :: !Reach(adj, root, v, j)
  }

  /** One more edge: a neighbour of a node at most `k - 1` edges away is at
      most `k` edges away, and so is the node itself. */
  lemma ReachStep(adj: seq<seq<nat>>, root: nat, u: nat, v: nat, k: nat)
    requires k > 0 && Reach(adj, root, u, k - 1) && Edge(adj, u, v)
    ensures Reach(adj, root, v, k)
  {
  }

  /** A node at most `k > 0` edges away is one edge past a node at most
      `k - 1` edges away. */
  lemma ReachBack(adj: seq<seq<nat>>, root: nat, v: nat, k: nat) returns (u: nat)
    requires k > 0 && Reach(adj, root, v, k)
    ensures Reach(adj, root, u, k - 1) && Edge(adj, u, v)
  {
    u :| Reach(adj, root, u, k - 1) && Edge(adj, u, v);
  }

  lemma {:induction false} ReachGrows(adj: seq<seq<nat>>, root: nat, v: nat, j: nat, k: nat)
    requires j <= k && Reach(adj, root, v, j)
    ensures Reach(adj, root, v, k)
    decreases k
  {
    if j < k {
      ReachGrows(adj, root, v, j, k - 1);
      ReachStep(adj, root, v, v, k);
    }
  }

  // ---------------------------------------------------------------------
  // the functional reference
  // ---------------------------------------------------------------------

  /** The inner loop of `bfs`: every neighbour not yet visited is appended
      to `visited` with depth `depth`. */
  function Discover(nbs: seq<nat>, visited: seq<nat>, d: seq<int>, depth: int): (r: (seq<nat>, seq<int>))
    requires InRange(nbs, |d|)
    ensures |r.1| == |d| && |r.0| >= |visited| && r.0[..|visited|] == visited
    ensures NoDup(visited) ==> NoDup(r.0)
    ensures InRange(visited, |d|) ==> InRange(r.0, |d|)
    decreases |nbs|
  {
    if |nbs| == 0 then (visited, d)
    else if nbs[0] in visited then Discover(nbs[1..], visited, d, depth)
    else
      var r := Discover(nbs[1..], visited + [nbs[0]], d[nbs[0] := depth], depth);
      assert r.0[..|visited|] == (visited + [nbs[0]])[..|visited|];
      r
  }

  /** What the inner loop of `bfs` leaves: `visited'` is `visited` followed
      by the neighbours in `nbs` it did not hold, without repetition, and
      those (and only those) get depth `depth`. */
  predicate Discovered(nbs: seq<nat>, visited: seq<nat>, d: seq<int>, depth: int, visited': seq<nat>, d': seq<int>)
    requires InRange(visited, |d|)
  {
    && |d'| == |d| && NoDup(visited') && InRange(visited', |d|)
    && |visited'| >= |visited| && visited'[..|visited|] == visited
    && (forall j | 0 <= j < |visited| :: d'[visited[j]] == d[visited[j]])
    && (forall j | |visited| <= j < |visited'| :: visited'[j] in nbs && d'[visited'[j]] == depth)
    && (forall x | 0 <= x < |d| && x !in visited' :: d'[x] == d[x])
    && (forall w | w in nbs :: w in visited')
  }

  /** `Discover` leaves what `Discovered` describes. */
  lemma {:induction false} DiscoverDiscovered(nbs: seq<nat>, visited: seq<nat>, d: seq<int>, depth: int)
    requires InRange(nbs, |d|) && NoDup(visited) && InRange(visited, |d|)
    ensures Discovered(nbs, visited, d, depth, Discover(nbs, visited, d, depth).0, Discover(nbs, visited, d, depth).1)
    decreases |nbs|
  {
    var r := Discover(nbs, visited, d, depth);
    if |nbs| == 0 {
    } else if nbs[0] in visited {
      DiscoverDiscovered(nbs[1..], visited, d, depth);
      assert forall w | w in nbs :: w == nbs[0] || w in nbs[1..];
      var j :| 0 <= j < |visited| && visited[j] == nbs[0];
      assert r.0[j] == nbs[0];
    } else {
      var x := nbs[0];
      var visited1, d1 := visited + [x], d[x := depth];
      assert NoDup(visited1);
      DiscoverDiscovered(nbs[1..], visited1, d1, depth);
      assert r.0[..|visited1|] == visited1;
      assert forall j | 0 <= j < |visited1| :: r.0[j] == visited1[j];
      assert r.0[|visited|] == x;
      forall j | 0 <= j < |visited| ensures r.1[visited[j]] == d[visited[j]] {
        assert visited1[j] == visited[j];
      }
      forall j | |visited| <= j < |r.0| ensures r.0[j] in nbs && r.1[r.0[j]] == depth {
        if j == |visited| {
          assert r.1[visited1[j]] == d1[visited1[j]];
        }
      }
      forall y | 0 <= y < |d| && y !in r.0 ensures r.1[y] == d[y] {
        assert y != x;
      }
      forall w | w in nbs ensures w in r.0 {
        if w != x {
          assert w in nbs[1..];
        }
      }
    }
  }

  /** The result of a walk: the returned nodes and every node's depth. */
  datatype Traversal = Traversal(order: seq<nat>, depths: seq<int>)

  /** The state of a walk that `Walk` can continue. */
  predicate WalkState(adj: seq<seq<nat>>, visited: seq<nat>, head: nat, d: seq<int>) {
    AdjClosed(adj) && |d| == |adj| && head <= |visited| && NoDup(visited) && InRange(visited, |adj|)
  }

  /** The outer loop of `bfs` from a given state, as a function. */
  function Walk(adj: seq<seq<nat>>, cutoff: int, visited: seq<nat>, head: nat, d: seq<int>): (r: Traversal)
    requires WalkState(adj, visited, head, d)
    ensures |r.depths| == |adj|
    decreases |adj| - head
  {
    Pigeonhole(visited, |adj|);
    if head == |visited| || d[visited[head]] > cutoff then Traversal(visited[..head], d)
    else
      var u := visited[head];
      var (visited', d') := Discover(adj[u], visited, d, d[u] + 1);
      Walk(adj, cutoff, visited', head + 1, d')
  }

  /** One round of the outer loop, as `Walk` unfolds it. */
  lemma WalkStep(adj: seq<seq<nat>>, cutoff: int, visited: seq<nat>, head: nat, d: seq<int>, visited': seq<nat>, d': seq<int>)
    requires WalkState(adj, visited, head, d) && head < |visited| && d[visited[head]] <= cutoff
    requires (visited', d') == Discover(adj[visited[head]], visited, d, d[visited[head]] + 1)
    ensures WalkState(adj, visited', head + 1, d')
    ensures Walk(adj, cutoff, visited, head, d) == Walk(adj, cutoff, visited', head + 1, d')
  {
  }

  /** The depths stored in the graph. */
  function Depths(g: seq<Node>): (d: seq<int>)
    ensures |d| == |g| && forall k | 0 <= k < |g| :: d[k] == g[k].depth
  {
    seq(|g|, k requires 0 <= k < |g| => g[k].depth)
  }

  /** The graph with its depths replaced. */
  function WithDepths(g: seq<Node>, d: seq<int>): (r: seq<Node>)
    requires |d| == |g|
    ensures |r| == |g| && forall k | 0 <= k < |g| :: r[k] == g[k].(depth := d[k])
  {
    seq(|g|, k requires 0 <= k < |g| => g[k].(depth := d[k]))
  }

  /** The walk `bfs` performs from `root`. */
  function BfsWalk(g: seq<Node>, root: nat, cutoff: int, direction: string): Traversal
    requires root < |g| && Closed(g)
  {
    AdjacencyClosed(g, direction);
    Walk(Adjacency(g, direction), cutoff, [root], 0, Depths(g))
  }

  // ---------------------------------------------------------------------
  // the invariant of the walk
  // ---------------------------------------------------------------------

  /** The root comes first and keeps its depth `d0`; until the root is
      processed nothing else is visited. */
  predicate Rooted(root: nat, d0: int, visited: seq<nat>, head: nat, d: seq<int>)
    requires InRange(visited, |d|)
  {
    |visited| >= 1 && visited[0] == root && d[visited[0]] == d0 && (head == 0 ==> |visited| == 1)
  }

  /** Depths never decrease along `visited`, and the queue spans at most one
      level past the last processed node. */
  predicate Layered(visited: seq<nat>, head: nat, d: seq<int>)
    requires InRange(visited, |d|) && head <= |visited|
  {
    && (forall i, j | 0 <= i <= j < |visited| :: d[visited[i]] <= d[visited[j]])
    && (head > 0 ==> forall j | 0 <= j < |visited| :: d[visited[j]] <= d[visited[head - 1]] + 1)
  }

  /** Every neighbour of `u` is visited, at most one level below `u`. */
  predicate Covered(adj: seq<seq<nat>>, visited: seq<nat>, d: seq<int>, u: nat)
    requires |d| == |adj| && u < |adj|
  {
    forall w | w in adj[u] :: w in visited && w < |d| && d[w] <= d[u] + 1
  }

  /** The processed node `visited[i]` lies within the cutoff and has all
      its neighbours visited, at most one level deeper. */
  predicate SettledAt(adj: seq<seq<nat>>, cutoff: int, visited: seq<nat>, d: seq<int>, i: nat)
    requires |d| == |adj| && InRange(visited, |adj|) && i < |visited|
  {
    d[visited[i]] <= cutoff && Covered(adj, visited, d, visited[i])
  }

  predicate Settled(adj: seq<seq<nat>>, cutoff: int, visited: seq<nat>, head: nat, d: seq<int>)
    requires |d| == |adj| && InRange(visited, |adj|) && head <= |visited|
  {
    forall i | 0 <= i < head :: SettledAt(adj, cutoff, visited, d, i)
  }

  /** `visited[j]` was discovered from a processed node, one level deeper. */
  predicate HasParent(adj: seq<seq<nat>>, visited: seq<nat>, head: nat, d: seq<int>, j: nat)
    requires |d| == |adj| && InRange(visited, |adj|) && j < |visited| && head <= |visited|
  {
    exists i | 0 <= i < head :: visited[j] in adj[visited[i]] && d[visited[j]] == d[visited[i]] + 1
  }

  /** `visited[j]` lies within its depth (minus `d0`) of the root. */
  ghost predicate ReachedAt(adj: seq<seq<nat>>, root: nat, d0: int, visited: seq<nat>, d: seq<int>, j: nat)
    requires InRange(visited, |d|) && j < |visited|
  {
    Within(adj, root, visited[j], d[visited[j]] - d0)
  }

  /** Each visited node other than the root was discovered from a processed
      node, and each lies within its depth (minus `d0`) of the root. */
  ghost predicate Justified(adj: seq<seq<nat>>, root: nat, d0: int, visited: seq<nat>, head: nat, d: seq<int>)
    requires |d| == |adj| && InRange(visited, |adj|) && head <= |visited|
  {
    && (forall j | 1 <= j < |visited| :: HasParent(adj, visited, head, d, j))
    && (forall j | 0 <= j < |visited| :: ReachedAt(adj, root, d0, visited, d, j))
  }

  /** The invariant of the walk after `head` nodes have been processed. */
  ghost predicate BfsInvariant(adj: seq<seq<nat>>, cutoff: int, root: nat, d0: int,
                               visited: seq<nat>, head: nat, d: seq<int>)
    requires |d| == |adj| && InRange(visited, |adj|) && head <= |visited|
  {
    && Rooted(root, d0, visited, head, d)
    && Layered(visited, head, d)
    && Settled(adj, cutoff, visited, head, d)
    && Justified(adj, root, d0, visited, head, d)
  }

  // ---------------------------------------------------------------------
  // one step keeps the invariant
  // ---------------------------------------------------------------------

  /** The facts about one step of the outer loop: `visited'` and `d'` are
      what processing `visited[head]` produced. */
  predicate StepResult(adj: seq<seq<nat>>, visited: seq<nat>, head: nat, d: seq<int>, visited': seq<nat>, d': seq<int>)
    requires |d| == |adj| && InRange(visited, |adj|) && head < |visited|
  {
    Discovered(adj[visited[head]], visited, d, d[visited[head]] + 1, visited', d')
  }

  /** Before a step, every visited node is at most one level below the node
      being processed. */
  lemma QueueSpread(root: nat, d0: int, visited: seq<nat>, head: nat, d: seq<int>)
    requires InRange(visited, |d|) && head < |visited|
    requires Rooted(root, d0, visited, head, d) && Layered(visited, head, d)
    ensures forall j | 0 <= j < |visited| :: d[visited[j]] <= d[visited[head]] + 1
  {
    if head > 0 {
      assert d[visited[head - 1]] <= d[visited[head]];
    }
  }

  lemma StepLayered(adj: seq<seq<nat>>, root: nat, d0: int, visited: seq<nat>, head: nat, d: seq<int>, visited': seq<nat>, d': seq<int>)
    requires |d| == |adj| && InRange(visited, |adj|) && head < |visited|
    requires Rooted(root, d0, visited, head, d) && Layered(visited, head, d)
    requires StepResult(adj, visited, head, d, visited', d')
    ensures Rooted(root, d0, visited', head + 1, d') && Layered(visited', head + 1, d')
  {
    assert forall j | 0 <= j < |visited| :: visited'[j] == visited[j];
    QueueSpread(root, d0, visited, head, d);
    forall i, j | 0 <= i <= j < |visited'| ensures d'[visited'[i]] <= d'[visited'[j]] {
      if j < |visited| {
        assert d[visited[i]] <= d[visited[j]];
      }
    }
  }

  lemma StepSettled(adj: seq<seq<nat>>, cutoff: int, root: nat, d0: int,
                    visited: seq<nat>, head: nat, d: seq<int>, visited': seq<nat>, d': seq<int>)
    requires |d| == |adj| && InRange(visited, |adj|) && head < |visited|
    requires Rooted(root, d0, visited, head, d) && Layered(visited, head, d)
    requires Settled(adj, cutoff, visited, head, d) && d[visited[head]] <= cutoff
    requires StepResult(adj, visited, head, d, visited', d')
    ensures Settled(adj, cutoff, visited', head + 1, d')
  {
    forall i | 0 <= i < head + 1 ensures SettledAt(adj, cutoff, visited', d', i) {
      var x := visited'[i];
      assert x == visited[i];
      if i < head {
        assert SettledAt(adj, cutoff, visited, d, i);
        forall w | w in adj[x] ensures w in visited' && w < |d'| && d'[w] <= d'[x] + 1 {
          var j :| 0 <= j < |visited| && visited[j] == w;
          assert visited'[j] == w;
        }
      } else {
        QueueSpread(root, d0, visited, head, d);
        forall w | w in adj[x] ensures w in visited' && w < |d'| && d'[w] <= d'[x] + 1 {
          var j :| 0 <= j < |visited'| && visited'[j] == w;
          if j < |visited| {
            assert visited[j] == w;
          }
        }
      }
    }
  }

  lemma StepJustified(adj: seq<seq<nat>>, root: nat, d0: int, visited: seq<nat>, head: nat, d: seq<int>, visited': seq<nat>, d': seq<int>)
    requires |d| == |adj| && InRange(visited, |adj|) && head < |visited|
    requires Justified(adj, root, d0, visited, head, d)
    requires StepResult(adj, visited, head, d, visited', d')
    ensures Justified(adj, root, d0, visited', head + 1, d')
  {
    var u := visited[head];
    var head' := head + 1;
    assert forall j | 0 <= j < |visited| :: visited'[j] == visited[j];
    forall j | 1 <= j < |visited'| ensures HasParent(adj, visited', head', d', j) {
      if j < |visited| {
        assert HasParent(adj, visited, head, d, j);
        var i :| 0 <= i < head && visited[j] in adj[visited[i]] && d[visited[j]] == d[visited[i]] + 1;
        assert visited'[i] == visited[i];
      } else {
        assert visited'[head] == u;
      }
    }
    forall j | 0 <= j < |visited'| ensures ReachedAt(adj, root, d0, visited', d', j) {
      if j < |visited| {
        assert ReachedAt(adj, root, d0, visited, d, j);
      } else {
        assert ReachedAt(adj, root, d0, visited, d, head);
        ReachStep(adj, root, u, visited'[j], d[u] - d0 + 1);
      }
    }
  }

  /** Processing the node at `head` — discovering its unvisited neighbours
      one level deeper — keeps the invariant. */
  lemma BfsStepKeepsInvariant(adj: seq<seq<nat>>, cutoff: int, root: nat, d0: int,
                              visited: seq<nat>, head: nat, d: seq<int>, visited': seq<nat>, d': seq<int>)
    requires WalkState(adj, visited, head, d) && head < |visited|
    requires BfsInvariant(adj, cutoff, root, d0, visited, head, d)
    requires d[visited[head]] <= cutoff
    requires StepResult(adj, visited, head, d, visited', d')
    ensures BfsInvariant(adj, cutoff, root, d0, visited', head + 1, d')
  {
    StepLayered(adj, root, d0, visited, head, d, visited', d');
    StepSettled(adj, cutoff, root, d0, visited, head, d, visited', d');
    StepJustified(adj, root, d0, visited, head, d, visited', d');
  }

  // ---------------------------------------------------------------------
  // when the walk stops
  // ---------------------------------------------------------------------

  /** When the walk stops — empty queue, or a dequeued node past the
      cutoff — a visited node within the cutoff has been processed. */
  lemma ExitProcessed(visited: seq<nat>, head: nat, d: seq<int>, cutoff: int, j: nat)
    requires InRange(visited, |d|) && head <= |visited| && Layered(visited, head, d)
    requires head == |visited| || d[visited[head]] > cutoff
    requires j < |visited| && d[visited[j]] <= cutoff
    ensures j < head
  {
  }

  /** When the walk stops, a neighbour of a processed node that is still
      within the cutoff has been processed as well. */
  lemma ExitNeighbour(adj: seq<seq<nat>>, cutoff: int, visited: seq<nat>, head: nat, d: seq<int>, iu: nat, v: nat)
    returns (j: nat)
    requires |d| == |adj| && InRange(visited, |adj|) && head <= |visited|
    requires Layered(visited, head, d) && Settled(adj, cutoff, visited, head, d)
    requires head == |visited| || d[visited[head]] > cutoff
    requires iu < head && v in adj[visited[iu]] && d[visited[iu]] + 1 <= cutoff
    ensures j < head && visited[j] == v
    ensures v < |d| && d[v] <= d[visited[iu]] + 1
  {
    assert SettledAt(adj, cutoff, visited, d, iu);
    j :| 0 <= j < |visited| && visited[j] == v;
    ExitProcessed(visited, head, d, cutoff, j);
  }

  /** The walk has stopped — empty queue, or a dequeued node past the
      cutoff — in a state where the ordering facts of the invariant hold. */
  predicate Stopped(adj: seq<seq<nat>>, cutoff: int, root: nat, d0: int, visited: seq<nat>, head: nat, d: seq<int>) {
    && |d| == |adj| && InRange(visited, |adj|) && head <= |visited|
    && Rooted(root, d0, visited, head, d) && Layered(visited, head, d)
    && Settled(adj, cutoff, visited, head, d)
    && (head == |visited| || d[visited[head]] > cutoff)
  }

  /** When the walk stops, every node within `k <= cutoff - d0` edges has
      been processed, at depth at most `d0 + k`. */
  lemma {:induction false} ExitComplete(adj: seq<seq<nat>>, cutoff: int, root: nat, d0: int,
                                        visited: seq<nat>, head: nat, d: seq<int>, v: nat, k: nat)
    returns (i: nat)
    requires Stopped(adj, cutoff, root, d0, visited, head, d)
    requires k <= cutoff - d0 && Reach(adj, root, v, k)
    ensures i < head && visited[i] == v
    ensures v < |d| && d[v] <= d0 + k
    decreases k
  {
    if k == 0 {
      ExitProcessed(visited, head, d, cutoff, 0);
      i := 0;
    } else {
      var u := ReachBack(adj, root, v, k);
      var iu := ExitComplete(adj, cutoff, root, d0, visited, head, d, u, k - 1);
      if u == v {
        i := iu;
      } else {
        i := ExitNeighbour(adj, cutoff, visited, head, d, iu, v);
      }
    }
  }

  /** What the walk has returned when it stops: exactly the nodes within
      `cutoff - d0` edges of the root, each at its distance from the root
      (offset by the root's depth). */
  lemma ExitCharacterization(adj: seq<seq<nat>>, cutoff: int, root: nat, d0: int,
                             visited: seq<nat>, head: nat, d: seq<int>)
    requires |d| == |adj| && InRange(visited, |adj|) && head <= |visited|
    requires BfsInvariant(adj, cutoff, root, d0, visited, head, d)
    requires head == |visited| || d[visited[head]] > cutoff
    ensures forall v: nat :: v in visited[..head] <==> Within(adj, root, v, cutoff - d0)
    ensures forall v | v in visited[..head] :: IsDistance(adj, root, v, d[v] - d0)
  {
    assert Stopped(adj, cutoff, root, d0, visited, head, d);
    forall v: nat | v in visited[..head]
      ensures Within(adj, root, v, cutoff - d0) && IsDistance(adj, root, v, d[v] - d0)
    {
      var i :| 0 <= i < head && visited[i] == v;
      assert ReachedAt(adj, root, d0, visited, d, i);
      assert SettledAt(adj, cutoff, visited, d, i);
      ReachGrows(adj, root, v, d[v] - d0, cutoff - d0);
      forall j: nat | j < d[v] - d0 ensures !Reach(adj, root, v, j) {
        if Reach(adj, root, v, j) {
          var _ := ExitComplete(adj, cutoff, root, d0, visited, head, d, v, j);
        }
      }
    }
    forall v: nat | Within(adj, root, v, cutoff - d0) ensures v in visited[..head] {
      var i := ExitComplete(adj, cutoff, root, d0, visited, head, d, v, cutoff - d0);
      assert visited[..head][i] == v;
    }
  }

  // ---------------------------------------------------------------------
  // bfs
  // ---------------------------------------------------------------------

  /** The inner loop of `bfs`: each neighbour not yet visited is appended
      to `visited` and gets depth `depth`; nothing else changes. */
  method VisitNeighbours(nbs: seq<nat>, visited: seq<nat>, d: seq<int>, depth: int) returns (visited': seq<nat>, d': seq<int>)
    requires InRange(nbs, |d|) && NoDup(visited) && InRange(visited, |d|)
    ensures (visited', d') == Discover(nbs, visited, d, depth)
    ensures Discovered(nbs, visited, d, depth, visited', d')
  {
    visited', d' := visited, d;
    var k := 0;
    while k < |nbs|
      invariant 0 <= k <= |nbs|
      invariant |d'| == |d| && NoDup(visited') && InRange(visited', |d|)
      invariant |visited'| >= |visited| && visited'[..|visited|] == visited
      invariant forall j | 0 <= j < |visited| :: d'[visited[j]] == d[visited[j]]
      invariant forall j | |visited| <= j < |visited'| :: visited'[j] in nbs && d'[visited'[j]] == depth
      invariant forall x | 0 <= x < |d| && x !in visited' :: d'[x] == d[x]
      invariant forall w | w in nbs[..k] :: w in visited'
      invariant Discover(nbs[k..], visited', d', depth) == Discover(nbs, visited, d, depth)
    {
      var w := nbs[k];
      assert nbs[k..][1..] == nbs[k + 1..];
      if w !in visited' {
        d' := d'[w := depth];
        visited' := visited' + [w];
      }
      assert nbs[..k + 1] == nbs[..k] + [w];
      k := k + 1;
    }
    assert nbs[..k] == nbs;
  }

  /** The loop invariant of `bfs`, with `d` the depths before the walk. */
  ghost predicate SearchState(adj: seq<seq<nat>>, cutoff: int, root: nat, d: seq<int>, visited: seq<nat>, head: nat, d': seq<int>)
    requires root < |adj| && |d| == |adj|
  {
    && WalkState(adj, visited, head, d')
    && BfsInvariant(adj, cutoff, root, d[root], visited, head, d')
    && (forall k | 0 <= k < |adj| && k !in visited :: d'[k] == d[k])
  }

  /** The loop starts with the root alone in the queue. */
  lemma SearchStart(adj: seq<seq<nat>>, cutoff: int, root: nat, d: seq<int>)
    requires AdjClosed(adj) && root < |adj| && |d| == |adj|
    ensures SearchState(adj, cutoff, root, d, [root], 0, d)
  {
    assert ReachedAt(adj, root, d[root], [root], d, 0);
  }

  /** One round of the loop keeps its invariant. */
  lemma SearchStep(adj: seq<seq<nat>>, cutoff: int, root: nat, d: seq<int>, visited: seq<nat>, head: nat, d': seq<int>,
                   visited1: seq<nat>, d1: seq<int>)
    requires root < |adj| && |d| == |adj|
    requires SearchState(adj, cutoff, root, d, visited, head, d') && head < |visited| && d'[visited[head]] <= cutoff
    requires Discovered(adj[visited[head]], visited, d', d'[visited[head]] + 1, visited1, d1)
    ensures SearchState(adj, cutoff, root, d, visited1, head + 1, d1)
  {
    BfsStepKeepsInvariant(adj, cutoff, root, d[root], visited, head, d', visited1, d1);
    forall k | 0 <= k < |adj| && k in visited ensures k in visited1 {
      var j :| 0 <= j < |visited| && visited[j] == k;
      assert visited1[j] == k;
    }
  }

  /** The root is returned first exactly when it is within the cutoff,
      and it keeps its depth. */
  lemma ExitRoot(adj: seq<seq<nat>>, cutoff: int, root: nat, d: seq<int>, visited: seq<nat>, head: nat, d': seq<int>)
    requires root < |adj| && |d| == |adj|
    requires WalkState(adj, visited, head, d')
    requires BfsInvariant(adj, cutoff, root, d[root], visited, head, d')
    requires head == |visited| || d'[visited[head]] > cutoff
    ensures head > 0 <==> d[root] <= cutoff
    ensures head > 0 ==> visited[0] == root
    ensures d'[root] == d[root]
  {
    if head > 0 {
      assert SettledAt(adj, cutoff, visited, d', 0);
    }
  }

  /** The returned nodes are in order of depth. */
  lemma ExitOrdered(visited: seq<nat>, head: nat, d': seq<int>)
    requires InRange(visited, |d'|) && head <= |visited| && Layered(visited, head, d')
    ensures forall i, j | 0 <= i <= j < head :: d'[visited[..head][i]] <= d'[visited[..head][j]]
  {
    forall i, j | 0 <= i <= j < head ensures d'[visited[..head][i]] <= d'[visited[..head][j]] {
      assert d'[visited[i]] <= d'[visited[j]];
    }
  }

  /** A node whose depth changed was discovered from a returned node. */
  lemma ExitParents(adj: seq<seq<nat>>, cutoff: int, root: nat, d: seq<int>, visited: seq<nat>, head: nat, d': seq<int>)
    requires root < |adj| && |d| == |adj|
    requires WalkState(adj, visited, head, d')
    requires BfsInvariant(adj, cutoff, root, d[root], visited, head, d')
    requires forall k | 0 <= k < |adj| && k !in visited :: d'[k] == d[k]
    ensures |d'| == |adj| && InRange(visited[..head], |adj|)
    ensures ResultParents(adj, root, d, visited[..head], d')
  {
    PrefixKeeps(visited, head, |adj|);
    forall k | 0 <= k < |adj| && d'[k] != d[k]
      ensures k != root && exists i | 0 <= i < head :: k in adj[visited[..head][i]] && d'[k] == d'[visited[..head][i]] + 1
    {
      var j :| 0 <= j < |visited| && visited[j] == k;
      assert j != 0;
      assert HasParent(adj, visited, head, d', j);
      var i :| 0 <= i < head && visited[j] in adj[visited[i]] && d'[visited[j]] == d'[visited[i]] + 1;
      assert visited[..head][i] == visited[i];
    }
  }

  lemma PrefixKeeps(s: seq<nat>, m: nat, n: nat)
    requires NoDup(s) && InRange(s, n) && m <= |s|
    ensures NoDup(s[..m]) && InRange(s[..m], n)
  {
    assert forall i | 0 <= i < m :: s[..m][i] == s[i];
  }

  /** The shape of what the walk returns, from the invariant it stops in. */
  lemma ExitShape(adj: seq<seq<nat>>, cutoff: int, root: nat, d: seq<int>, visited: seq<nat>, head: nat, d': seq<int>)
    requires root < |adj| && |d| == |adj|
    requires WalkState(adj, visited, head, d')
    requires BfsInvariant(adj, cutoff, root, d[root], visited, head, d')
    requires head == |visited| || d'[visited[head]] > cutoff
    ensures ResultShape(adj, cutoff, root, d, visited[..head], d')
  {
    ExitRoot(adj, cutoff, root, d, visited, head, d');
    ExitOrdered(visited, head, d');
    PrefixKeeps(visited, head, |adj|);
  }

  /** The reach of what the walk returns, from the invariant it stops in. */
  lemma ExitReach(adj: seq<seq<nat>>, cutoff: int, root: nat, d: seq<int>, visited: seq<nat>, head: nat, d': seq<int>)
    requires root < |adj| && |d| == |adj|
    requires WalkState(adj, visited, head, d')
    requires BfsInvariant(adj, cutoff, root, d[root], visited, head, d')
    requires head == |visited| || d'[visited[head]] > cutoff
    ensures ResultReach(adj, cutoff, root, d, visited[..head], d')
  {
    ExitCharacterization(adj, cutoff, root, d[root], visited, head, d');
  }

  /** The shape of the outcome: each node once, the root first when it is
      within the cutoff, depths in order, the root's depth kept. */
  predicate ResultShape(adj: seq<seq<nat>>, cutoff: int, root: nat, d: seq<int>, order: seq<nat>, d': seq<int>)
    requires root < |adj| && |d| == |adj|
  {
    && NoDup(order) && InRange(order, |adj|) && |d'| == |adj|
    && (|order| > 0 <==> d[root] <= cutoff)
    && (|order| > 0 ==> order[0] == root)
    && d'[root] == d[root]
    && (forall i, j | 0 <= i <= j < |order| :: d'[order[i]] <= d'[order[j]])
  }

  /** The returned nodes are exactly those within `cutoff - d[root]` edges
      of the root, each at its distance plus the root's depth. */
  ghost predicate ResultReach(adj: seq<seq<nat>>, cutoff: int, root: nat, d: seq<int>, order: seq<nat>, d': seq<int>)
    requires root < |adj| && |d| == |adj| && |d'| == |adj| && InRange(order, |adj|)
  {
    && (forall v: nat :: v in order <==> Within(adj, root, v, cutoff - d[root]))
    && (forall v | v in order :: IsDistance(adj, root, v, d'[v] - d[root]))
  }

  /** A node whose depth changed was discovered from a returned node, one
      level below it. */
  predicate ResultParents(adj: seq<seq<nat>>, root: nat, d: seq<int>, order: seq<nat>, d': seq<int>)
    requires root < |adj| && |d| == |adj| && |d'| == |adj| && InRange(order, |adj|)
  {
    forall k | 0 <= k < |adj| && d'[k] != d[k] ::
      k != root && exists i | 0 <= i < |order| :: k in adj[order[i]] && d'[k] == d'[order[i]] + 1
  }

  /** The outcome of the walk from `root` over `adj` with starting depths
      `d`: `order` is what `bfs` returns and `d'` the depths it leaves. */
  ghost predicate SearchResult(adj: seq<seq<nat>>, cutoff: int, root: nat, d: seq<int>, order: seq<nat>, d': seq<int>)
    requires root < |adj| && |d| == |adj|
  {
    && ResultShape(adj, cutoff, root, d, order, d')
    && ResultReach(adj, cutoff, root, d, order, d')
    && ResultParents(adj, root, d, order, d')
  }

  /** A walk that has stopped has the outcome `SearchResult` describes. */
  lemma ExitOutcome(adj: seq<seq<nat>>, cutoff: int, root: nat, d: seq<int>, visited: seq<nat>, head: nat, d': seq<int>)
    requires root < |adj| && |d| == |adj|
    requires SearchState(adj, cutoff, root, d, visited, head, d')
    requires head == |visited| || d'[visited[head]] > cutoff
    ensures SearchResult(adj, cutoff, root, d, visited[..head], d')
  {
    ExitShape(adj, cutoff, root, d, visited, head, d');
    ExitReach(adj, cutoff, root, d, visited, head, d');
    ExitParents(adj, cutoff, root, d, visited, head, d');
  }

  /** Whatever state satisfying the invariant the walk continues from, it
      ends with the outcome `SearchResult` describes. */
  lemma {:induction false} WalkOutcome(adj: seq<seq<nat>>, cutoff: int, root: nat, d: seq<int>,
                                       visited: seq<nat>, head: nat, d': seq<int>)
    requires root < |adj| && |d| == |adj|
    requires SearchState(adj, cutoff, root, d, visited, head, d')
    ensures SearchResult(adj, cutoff, root, d, Walk(adj, cutoff, visited, head, d').order, Walk(adj, cutoff, visited, head, d').depths)
    decreases |adj| - head
  {
    Pigeonhole(visited, |adj|);
    if head == |visited| || d'[visited[head]] > cutoff {
      ExitOutcome(adj, cutoff, root, d, visited, head, d');
    } else {
      var visited1, d1 := WalkAdvance(adj, cutoff, root, d, visited, head, d');
      WalkOutcome(adj, cutoff, root, d, visited1, head + 1, d1);
    }
  }

  /** One round of `Walk` keeps the loop invariant. */
  lemma WalkAdvance(adj: seq<seq<nat>>, cutoff: int, root: nat, d: seq<int>, visited: seq<nat>, head: nat, d': seq<int>)
    returns (visited1: seq<nat>, d1: seq<int>)
    requires root < |adj| && |d| == |adj|
    requires SearchState(adj, cutoff, root, d, visited, head, d') && head < |visited| && d'[visited[head]] <= cutoff
    ensures SearchState(adj, cutoff, root, d, visited1, head + 1, d1)
    ensures Walk(adj, cutoff, visited, head, d') == Walk(adj, cutoff, visited1, head + 1, d1)
  {
    var u := visited[head];
    visited1, d1 := Discover(adj[u], visited, d', d'[u] + 1).0, Discover(adj[u], visited, d', d'[u] + 1).1;
    DiscoverDiscovered(adj[u], visited, d', d'[u] + 1);
    SearchStep(adj, cutoff, root, d, visited, head, d', visited1, d1);
    WalkStep(adj, cutoff, visited, head, d', visited1, d1);
  }

  /** The queue loop of `bfs`: it computes exactly what `Walk` describes. */
  method RunQueue(adj: seq<seq<nat>>, cutoff: int, root: nat, d: seq<int>) returns (order: seq<nat>, d': seq<int>)
    requires AdjClosed(adj) && root < |adj| && |d| == |adj|
    ensures Walk(adj, cutoff, [root], 0, d) == Traversal(order, d')
  {
    var visited: seq<nat>, head: nat := [root], 0;
    d' := d;
    ghost var outcome := Walk(adj, cutoff, visited, head, d');
    while head < |visited|
      invariant WalkState(adj, visited, head, d')
      invariant Walk(adj, cutoff, visited, head, d') == outcome
      decreases |adj| - head
    {
      Pigeonhole(visited, |adj|);
      var u := visited[head];
      if d'[u] > cutoff {
        break;
      }
      var visited1, d1 := Advance(adj, cutoff, visited, head, d');
      visited, d', head := visited1, d1, head + 1;
    }
    WalkStop(adj, cutoff, visited, head, d');
    order := visited[..head];
  }

  /** One round of the queue loop: the head node's neighbours are
      discovered, one level deeper than the head. */
  method Advance(adj: seq<seq<nat>>, cutoff: int, visited: seq<nat>, head: nat, d: seq<int>) returns (visited': seq<nat>, d': seq<int>)
    requires WalkState(adj, visited, head, d) && head < |visited| && d[visited[head]] <= cutoff
    ensures WalkState(adj, visited', head + 1, d')
    ensures Walk(adj, cutoff, visited, head, d) == Walk(adj, cutoff, visited', head + 1, d')
  {
    var u := visited[head];
    visited', d' := VisitNeighbours(adj[u], visited, d, d[u] + 1);
    WalkStep(adj, cutoff, visited, head, d, visited', d');
  }

  /** `Walk` stops once the queue is empty or its head lies beyond the cutoff. */
  lemma WalkStop(adj: seq<seq<nat>>, cutoff: int, visited: seq<nat>, head: nat, d: seq<int>)
    requires WalkState(adj, visited, head, d) && (head == |visited| || d[visited[head]] > cutoff)
    ensures Walk(adj, cutoff, visited, head, d) == Traversal(visited[..head], d)
  {
  }

  /** What the walk from the root yields, by the invariant of the queue loop. */
  lemma WalkFromRoot(adj: seq<seq<nat>>, cutoff: int, root: nat, d: seq<int>)
    requires AdjClosed(adj) && root < |adj| && |d| == |adj|
    ensures SearchResult(adj, cutoff, root, d, Walk(adj, cutoff, [root], 0, d).order, Walk(adj, cutoff, [root], 0, d).depths)
  {
    SearchStart(adj, cutoff, root, d);
    WalkOutcome(adj, cutoff, root, d, [root], 0, d);
  }

  /** The walk `bfs` performs, over adjacency lists: it returns exactly the
      nodes within `cutoff - d[root]` edges of the root, closest first,
      each at its distance (plus the root's depth). */
  method Search(adj: seq<seq<nat>>, cutoff: int, root: nat, d: seq<int>) returns (order: seq<nat>, d': seq<int>)
    requires AdjClosed(adj) && root < |adj| && |d| == |adj|
    ensures Walk(adj, cutoff, [root], 0, d) == Traversal(order, d')
    ensures SearchResult(adj, cutoff, root, d, order, d')
  {
    order, d' := RunQueue(adj, cutoff, root, d);
    WalkFromRoot(adj, cutoff, root, d);
  }

  /** `bfs`: returns the traversed nodes and the graph with the depths it
      set. Each node is returned at most once, the root first; the
      returned nodes are exactly those within `2 * familyDepth + 1 - d0`
      edges of the root (`d0` the root's depth), in order of their
      distance, and each gets its distance plus `d0` as its depth. Only
      depths change, and only of nodes discovered from a returned node,
      which get the discoverer's depth plus one. */
  method Bfs(g: seq<Node>, root: nat, familyDepth: int, direction: string) returns (ret: seq<nat>, g': seq<Node>)
    requires root < |g| && Closed(g)
    ensures var cutoff := familyDepth * 2 + 1;
      ret == BfsWalk(g, root, cutoff, direction).order && g' == WithDepths(g, BfsWalk(g, root, cutoff, direction).depths)
    ensures NoDup(ret) && InRange(ret, |g|) && |g'| == |g|
    ensures |ret| > 0 <==> g[root].depth <= familyDepth * 2 + 1
    ensures |ret| > 0 ==> ret[0] == root
    ensures g'[root] == g[root]
    ensures forall v: nat :: v in ret <==> Within(Adjacency(g, direction), root, v, familyDepth * 2 + 1 - g[root].depth)
    ensures forall v | v in ret :: IsDistance(Adjacency(g, direction), root, v, g'[v].depth - g[root].depth)
    ensures forall i, j | 0 <= i <= j < |ret| :: g'[ret[i]].depth <= g'[ret[j]].depth
    ensures forall k | 0 <= k < |g| :: g'[k] == g[k].(depth := g'[k].depth)
    ensures forall k | 0 <= k < |g| && g'[k].depth != g[k].depth ::
      k != root && exists u | u in ret :: k in Neighbours(g[u], direction) && g'[k].depth == g'[u].depth + 1
  {
    var cutoff := familyDepth * 2 + 1;
    var adj := Adjacency(g, direction);
    AdjacencyClosed(g, direction);
    var d := Depths(g);
    var d';
    ret, d' := Search(adj, cutoff, root, d);
    g' := WithDepths(g, d');
    SearchWithin(adj, cutoff, root, d, ret, d', familyDepth * 2 + 1 - g[root].depth);
    BfsDistances(g, root, adj, cutoff, d, ret, d', g');
    BfsDepths(g, direction, root, adj, cutoff, d, ret, d', g');
  }

  /** `Search`'s reach, for a bound written differently. */
  lemma SearchWithin(adj: seq<seq<nat>>, cutoff: int, root: nat, d: seq<int>, order: seq<nat>, d': seq<int>, bound: int)
    requires root < |adj| && |d| == |adj|
    requires SearchResult(adj, cutoff, root, d, order, d') && bound == cutoff - d[root]
    ensures forall v: nat :: v in order <==> Within(adj, root, v, bound)
  {
  }

  /** `Search`'s distances, restated on the graph whose depths it set. */
  lemma BfsDistances(g: seq<Node>, root: nat, adj: seq<seq<nat>>, cutoff: int, d: seq<int>, ret: seq<nat>, d': seq<int>, g': seq<Node>)
    requires root < |g| && |adj| == |g| && d == Depths(g)
    requires SearchResult(adj, cutoff, root, d, ret, d') && g' == WithDepths(g, d')
    ensures forall v | v in ret :: IsDistance(adj, root, v, g'[v].depth - g[root].depth)
  {
    forall v | v in ret ensures IsDistance(adj, root, v, g'[v].depth - g[root].depth) {
      assert g'[v].depth == d'[v];
    }
  }

  /** `Search`'s outcome, restated on the graph whose depths it set. */
  lemma BfsDepths(g: seq<Node>, direction: string, root: nat, adj: seq<seq<nat>>, cutoff: int, d: seq<int>, ret: seq<nat>, d': seq<int>, g': seq<Node>)
    requires root < |g| && |adj| == |g| && d == Depths(g)
    requires forall u | 0 <= u < |g| :: adj[u] == Neighbours(g[u], direction)
    requires SearchResult(adj, cutoff, root, d, ret, d') && g' == WithDepths(g, d')
    ensures g'[root] == g[root]
    ensures forall i, j | 0 <= i <= j < |ret| :: g'[ret[i]].depth <= g'[ret[j]].depth
    ensures forall k | 0 <= k < |g| && g'[k].depth != g[k].depth ::
      k != root && exists u | u in ret :: k in Neighbours(g[u], direction) && g'[k].depth == g'[u].depth + 1
  {
    forall k | 0 <= k < |g| && g'[k].depth != g[k].depth
      ensures k != root && exists u | u in ret :: k in Neighbours(g[u], direction) && g'[k].depth == g'[u].depth + 1
    {
      assert d'[k] != d[k];
      var i :| 0 <= i < |ret| && k in adj[ret[i]] && d'[k] == d'[ret[i]] + 1;
      assert ret[i] in ret;
    }
  }
}
