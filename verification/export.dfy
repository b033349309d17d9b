/** The edges `DotExport` writes for a traversed subgraph, and the root
    lookup of `convert` that precedes the traversal.

    A family is drawn as its own node: an edge runs from the wife and from
    the husband into the family, and from the family to each child. Since
    the traversal alternates between families and individuals and its
    cutoff is odd, a family it returns always has its members returned too,
    so every edge it draws ends at drawn nodes. */
module Export {
  import opened Wrappers
  import opened Graph
  import opened Traversal
  import Gedcom
  import Text

  // ---------------------------------------------------------------------
  // edges
  // ---------------------------------------------------------------------

  /** A `tail -> head [dir=none]` statement between two graph nodes. */
  datatype DotEdge = DotEdge(tail: nat, head: nat)

  /** `f` is a family and `e` one of its edges: from the wife or the
      husband into the family, or from the family to a child. */
  predicate Draws(g: seq<Node>, f: nat, e: DotEdge)
    requires f < |g|
  {
    && g[f].Family?
    && (|| (g[f].wife == Some(e.tail) && e.head == f)
        || (g[f].husb == Some(e.tail) && e.head == f)
        || (e.tail == f && e.head in g[f].childList))
  }

  /** The edges drawn for one subgraph node: wife and husband (each if set)
      into the family, then the family to each child in order. An
      individual draws none. */
  function FamilyEdges(g: seq<Node>, f: nat): (es: seq<DotEdge>)
    requires f < |g|
    ensures forall e :: e in es <==> Draws(g, f, e)
    ensures g[f].Family? ==> |es| == |g[f].childList| + (if g[f].wife.Some? then 1 else 0) + (if g[f].husb.Some? then 1 else 0)
  {
    match g[f]
    case Individual(_, _, _, _, _, _, _, _, _, _) => []
    case Family(_, _, _, wife, _, husb, _, childList, _) =>
      var fromWife := if wife.Some? then [DotEdge(wife.value, f)] else [];
      var fromHusb := if husb.Some? then [DotEdge(husb.value, f)] else [];
      var toChildren := seq(|childList|, i requires 0 <= i < |childList| => DotEdge(f, childList[i]));
      assert forall e :: e in toChildren <==> e.tail == f && e.head in childList by {
        forall e: DotEdge | e.tail == f && e.head in childList ensures e in toChildren {
          var i :| 0 <= i < |childList| && childList[i] == e.head;
          assert toChildren[i] == e;
        }
      }
      fromWife + fromHusb + toChildren
  }

  /** The edges of a family depend on its links, not on its depth. */
  lemma FamilyEdgesIgnoreDepth(g: seq<Node>, g': seq<Node>, f: nat)
    requires f < |g| == |g'| && g'[f] == g[f].(depth := g'[f].depth)
    ensures FamilyEdges(g', f) == FamilyEdges(g, f)
  {
  }

  /** `__store_edges`: the edges of the subgraph's families, family by
      family in subgraph order. */
  function StoreEdges(g: seq<Node>, subgraph: seq<nat>): seq<DotEdge>
    requires InRange(subgraph, |g|)
    decreases |subgraph|
  {
    if |subgraph| == 0 then []
    else StoreEdges(g, subgraph[..|subgraph| - 1]) + FamilyEdges(g, subgraph[|subgraph| - 1])
  }

  /** Some node of `s` draws `e`. */
  predicate DrawnBy(g: seq<Node>, s: seq<nat>, e: DotEdge)
    requires InRange(s, |g|)
  {
    exists i | 0 <= i < |s| :: Draws(g, s[i], e)
  }

  /** A node list with one more node draws what the shorter list draws and
      what the new node draws. */
  lemma DrawnBySnoc(g: seq<Node>, s: seq<nat>, e: DotEdge)
    requires InRange(s, |g|) && |s| > 0
    ensures DrawnBy(g, s, e) <==> DrawnBy(g, s[..|s| - 1], e) || Draws(g, s[|s| - 1], e)
  {
    var init := s[..|s| - 1];
    if DrawnBy(g, s, e) {
      var i :| 0 <= i < |s| && Draws(g, s[i], e);
      if i < |init| {
        assert init[i] == s[i];
      }
    }
    if DrawnBy(g, init, e) {
      var i :| 0 <= i < |init| && Draws(g, init[i], e);
      assert s[i] == init[i];
    }
  }

  /** An edge is written exactly when some subgraph node draws it. */
  lemma {:induction false} StoreEdgesDrawn(g: seq<Node>, subgraph: seq<nat>)
    requires InRange(subgraph, |g|)
    ensures forall e :: e in StoreEdges(g, subgraph) <==> DrawnBy(g, subgraph, e)
    decreases |subgraph|
  {
    if |subgraph| > 0 {
      var init := subgraph[..|subgraph| - 1];
      var f := subgraph[|subgraph| - 1];
      StoreEdgesDrawn(g, init);
      assert StoreEdges(g, subgraph) == StoreEdges(g, init) + FamilyEdges(g, f);
      forall e ensures e in StoreEdges(g, subgraph) <==> DrawnBy(g, subgraph, e) {
        DrawnBySnoc(g, subgraph, e);
      }
    }
  }

  /** Depths play no part in what is drawn. */
  lemma {:induction false} StoreEdgesIgnoreDepths(g: seq<Node>, d: seq<int>, subgraph: seq<nat>)
    requires |d| == |g| && InRange(subgraph, |g|)
    ensures StoreEdges(WithDepths(g, d), subgraph) == StoreEdges(g, subgraph)
    decreases |subgraph|
  {
    if |subgraph| > 0 {
      StoreEdgesIgnoreDepths(g, d, subgraph[..|subgraph| - 1]);
      var f := subgraph[|subgraph| - 1];
      FamilyEdgesIgnoreDepth(g, WithDepths(g, d), f);
    }
  }

  /** The edges of a concatenated subgraph are the edges of its parts, in
      order: writing is family by family. */
  lemma {:induction false} StoreEdgesAppend(g: seq<Node>, a: seq<nat>, b: seq<nat>)
    requires InRange(a, |g|) && InRange(b, |g|)
    ensures InRange(a + b, |g|)
    ensures StoreEdges(g, a + b) == StoreEdges(g, a) + StoreEdges(g, b)
    decreases |b|
  {
    forall i | 0 <= i < |a + b| ensures (a + b)[i] < |g| {
      if i >= |a| {
        assert (a + b)[i] == b[i - |a|];
      }
    }
    if |b| == 0 {
      assert a + b == a;
    } else {
      var b' := b[..|b| - 1];
      var x := b[|b| - 1];
      assert (a + b)[..|a + b| - 1] == a + b';
      assert (a + b)[|a + b| - 1] == x;
      StoreEdgesAppend(g, a, b');
      assert StoreEdges(g, a + b) == StoreEdges(g, a + b') + FamilyEdges(g, x);
      assert StoreEdges(g, b) == StoreEdges(g, b') + FamilyEdges(g, x);
    }
  }

  // ---------------------------------------------------------------------
  // the families of a traversal are drawn with all their members
  // ---------------------------------------------------------------------

  /** Families link only to individuals and individuals only to families. */
  predicate WellTyped(g: seq<Node>) {
    forall k, h | 0 <= k < |g| && h in Neighbours(g[k], "both") && h < |g| :: g[h].Family? != g[k].Family?
  }

  /** Which nodes are families. */
  function Kinds(g: seq<Node>): (fam: seq<bool>)
    ensures |fam| == |g| && forall k | 0 <= k < |g| :: fam[k] == g[k].Family?
  {
    seq(|g|, k requires 0 <= k < |g| => g[k].Family?)
  }

  /** Every edge of `adj` joins a node of one kind to a node of the other. */
  predicate Alternates(adj: seq<seq<nat>>, fam: seq<bool>) {
    |fam| == |adj| && forall u, v | 0 <= u < |adj| && v in adj[u] && v < |adj| :: fam[v] != fam[u]
  }

  /** In a well-typed graph the links alternate in every direction. */
  lemma WellTypedAlternates(g: seq<Node>, direction: string)
    requires WellTyped(g)
    ensures Alternates(Adjacency(g, direction), Kinds(g))
  {
    var adj := Adjacency(g, direction);
    forall u, v | 0 <= u < |adj| && v in adj[u] && v < |adj| ensures Kinds(g)[v] != Kinds(g)[u] {
      NeighboursWithinBoth(g[u], direction);
      assert v in Neighbours(g[u], "both");
    }
  }

  /** Reached at a length of the wrong parity for its kind (a family at an
      odd length, an individual at an even one), a node was reached one edge
      earlier too: walks from a family alternate between the two kinds. */
  lemma {:induction false} ReachParity(adj: seq<seq<nat>>, fam: seq<bool>, root: nat, v: nat, k: nat)
    requires Alternates(adj, fam) && root < |adj| && fam[root] && v < |adj|
    requires Reach(adj, root, v, k) && fam[v] == (k % 2 == 1)
    ensures k > 0 && Reach(adj, root, v, k - 1)
    decreases k
  {
    if k == 0 {
      assert false;
    } else {
      var u := ReachBack(adj, root, v, k);
      if u != v {
        assert u < |adj| && v in adj[u];
        ReachParity(adj, fam, root, u, k - 1);
        ReachStep(adj, root, u, v, k - 1);
      }
    }
  }

  /** A family within an odd number of edges of a family root is within one
      edge fewer, so its neighbours are within the bound. */
  lemma FamilyNeighboursWithin(adj: seq<seq<nat>>, fam: seq<bool>, root: nat, f: nat, w: nat, bound: int)
    requires Alternates(adj, fam) && root < |adj| && fam[root] && f < |adj| && fam[f]
    requires bound % 2 == 1 && Within(adj, root, f, bound) && w in adj[f]
    ensures Within(adj, root, w, bound)
  {
    ReachParity(adj, fam, root, f, bound);
    ReachStep(adj, root, f, w, bound);
  }

  /** The far end of an edge drawn for `f`. */
  function FarEnd(e: DotEdge, f: nat): nat {
    if e.head == f then e.tail else e.head
  }

  /** Every edge a family draws follows a link of `adj` out of it. */
  ghost predicate DrawnAlong(g: seq<Node>, adj: seq<seq<nat>>) {
    |adj| == |g| && forall f, e | 0 <= f < |g| && Draws(g, f, e) :: FarEnd(e, f) in adj[f]
  }

  /** A drawn edge joins a family to one of its neighbours, in any
      direction. */
  lemma DrawnEdgeEnds(g: seq<Node>, f: nat, e: DotEdge, direction: string)
    requires f < |g| && Draws(g, f, e)
    ensures e.tail == f || e.head == f
    ensures FarEnd(e, f) in Neighbours(g[f], direction)
  {
  }

  lemma DrawnAlongAdjacency(g: seq<Node>, direction: string)
    ensures DrawnAlong(g, Adjacency(g, direction))
  {
    forall f, e | 0 <= f < |g| && Draws(g, f, e) ensures FarEnd(e, f) in Adjacency(g, direction)[f] {
      DrawnEdgeEnds(g, f, e, direction);
    }
  }

  /** The closure argument over adjacency lists: when the subgraph is
      everything within an odd bound of a family root and the links
      alternate, both ends of every drawn edge are in the subgraph. */
  lemma EdgesWithin(g: seq<Node>, adj: seq<seq<nat>>, root: nat, order: seq<nat>, bound: int)
    requires InRange(order, |g|) && DrawnAlong(g, adj) && Alternates(adj, Kinds(g))
    requires root < |g| && g[root].Family? && bound % 2 == 1
    requires forall v: nat :: v in order <==> Within(adj, root, v, bound)
    ensures forall e | e in StoreEdges(g, order) :: e.tail in order && e.head in order
  {
    StoreEdgesDrawn(g, order);
    forall e | e in StoreEdges(g, order) ensures e.tail in order && e.head in order {
      assert DrawnBy(g, order, e);
      var i :| 0 <= i < |order| && Draws(g, order[i], e);
      var f := order[i];
      assert f in order;
      assert e.tail == f || e.head == f;
      FamilyNeighboursWithin(adj, Kinds(g), root, f, FarEnd(e, f), bound);
    }
  }

  /** The stretch theorem: starting from a family whose depth is even, with
      well-typed references, every edge written for the traversed subgraph
      joins two traversed nodes. */
  lemma EdgesStayInSubgraph(g: seq<Node>, root: nat, familyDepth: int, direction: string)
    requires root < |g| && Closed(g) && WellTyped(g) && g[root].Family? && g[root].depth % 2 == 0
    ensures var w := BfsWalk(g, root, familyDepth * 2 + 1, direction);
      && InRange(w.order, |g|) && |w.depths| == |g|
      && forall e | e in StoreEdges(WithDepths(g, w.depths), w.order) :: e.tail in w.order && e.head in w.order
  {
    var cutoff := familyDepth * 2 + 1;
    var adj := Adjacency(g, direction);
    AdjacencyClosed(g, direction);
    var w := BfsWalk(g, root, cutoff, direction);
    WalkFromRoot(adj, cutoff, root, Depths(g));
    var bound := cutoff - g[root].depth;
    SearchWithin(adj, cutoff, root, Depths(g), w.order, w.depths, bound);
    WellTypedAlternates(g, direction);
    DrawnAlongAdjacency(g, direction);
    StoreEdgesIgnoreDepths(g, w.depths, w.order);
    EdgesWithin(g, adj, root, w.order, bound);
  }

  // ---------------------------------------------------------------------
  // convert
  // ---------------------------------------------------------------------

  /** The identifier of the first family in graph order, or "" if there is
      none. */
  function FirstFamilyId(g: seq<Node>): (id: string)
    ensures id != "" ==> exists k | 0 <= k < |g| :: g[k].Family? && g[k].identifier == id
    decreases |g|
  {
    if |g| == 0 then ""
    else if g[0].Family? then g[0].identifier
    else FirstFamilyId(g[1..])
  }

  /** Two graphs whose nodes agree, position by position, in identifier
      and kind. Resolving a graph keeps its shape. */
  predicate SameShape(g1: seq<Node>, g2: seq<Node>) {
    && |g1| == |g2|
    && forall k | 0 <= k < |g1| :: g1[k].identifier == g2[k].identifier && g1[k].Family? == g2[k].Family?
  }

  lemma {:induction false} FirstFamilyIdOnlyReadsShape(g1: seq<Node>, g2: seq<Node>)
    requires SameShape(g1, g2)
    ensures FirstFamilyId(g1) == FirstFamilyId(g2)
    decreases |g1|
  {
    if |g1| > 0 {
      assert SameShape(g1[1..], g2[1..]) by {
        forall k | 0 <= k < |g1| - 1
          ensures g1[1..][k].identifier == g2[1..][k].identifier && g1[1..][k].Family? == g2[1..][k].Family?
        {
          assert g1[1..][k] == g1[k + 1] && g2[1..][k] == g2[k + 1];
        }
      }
      FirstFamilyIdOnlyReadsShape(g1[1..], g2[1..]);
      assert g1[0].Family? == g2[0].Family? && g1[0].identifier == g2[0].identifier;
    }
  }

  /** `FirstFamilyId` names the first family, and is "" when there is none. */
  lemma {:induction false} FirstFamilyIdIsFirst(g: seq<Node>)
    ensures (forall k | 0 <= k < |g| :: !g[k].Family?) ==> FirstFamilyId(g) == ""
    ensures forall k | 0 <= k < |g| && g[k].Family? && (forall j | 0 <= j < k :: !g[j].Family?) ::
      FirstFamilyId(g) == g[k].identifier
    decreases |g|
  {
    if |g| > 0 {
      FirstFamilyIdIsFirst(g[1..]);
      forall k | 0 <= k < |g| && g[k].Family? && (forall j | 0 <= j < k :: !g[j].Family?)
        ensures FirstFamilyId(g) == g[k].identifier
      {
        if k > 0 {
          assert !g[0].Family?;
          assert g[1..][k - 1] == g[k];
          forall j | 0 <= j < k - 1 ensures !g[1..][j].Family? {
            assert g[1..][j] == g[j + 1];
          }
        }
      }
    }
  }

  /** The reason `convert` gives when the root family is not found. */
  function NotFoundReason(rootFamily: string, firstFamily: string): (reason: string)
    ensures Text.StartsWith(reason, "Root family '" + rootFamily + "' is not found.")
    ensures |reason| > |"Root family '" + rootFamily + "' is not found."| <==> firstFamily != ""
    ensures firstFamily != "" ==> Text.EndsWith(reason, "'" + firstFamily + "'.")
  {
    var reason := "Root family '" + rootFamily + "' is not found.";
    if firstFamily != "" then reason + " First valid family would be '" + firstFamily + "'." else reason
  }

  /** The root lookup of `convert`: the node named `rootFamily` (of either
      kind), an assertion failure if two nodes carry the name, and otherwise
      the exception whose reason suggests the first family. */
  function RootLookup(g: seq<Node>, rootFamily: string): (r: Result<nat, Error>)
    ensures r.Success? ==> r.value < |g| && g[r.value].identifier == rootFamily && rootFamily != ""
    ensures r.Failure? && r.error.RootNotFound? <==>
      rootFamily == "" || forall k | 0 <= k < |g| :: g[k].identifier != rootFamily
    ensures r.Failure? && r.error.RootNotFound? ==>
      r.error.message == NotFoundReason(rootFamily, FirstFamilyId(g))
    ensures r.Failure? && !r.error.RootNotFound? ==> r.error == Ambiguous(rootFamily) && Duplicated(g, rootFamily)
  {
    var found :- GraphFind(g, rootFamily);
    if found.None? then Failure(RootNotFound(NotFoundReason(rootFamily, FirstFamilyId(g))))
    else Success(found.value)
  }

  /** The root lookup reads only the identifiers and kinds of the nodes, so
      it gives the same answer on the tokenized and on the resolved graph. */
  lemma RootLookupOnlyReadsShape(g1: seq<Node>, g2: seq<Node>, rootFamily: string)
    requires SameShape(g1, g2)
    ensures RootLookup(g1, rootFamily) == RootLookup(g2, rootFamily)
  {
    assert Ids(g1) == Ids(g2);
    GraphFindOnlyReadsIds(g1, g2, rootFamily);
    FirstFamilyIdOnlyReadsShape(g1, g2);
  }

  /** What `convert` produces before writing: the loaded graph, the root,
      the traversed subgraph and the edges drawn for it. */
  datatype Drawing = Drawing(graph: seq<Node>, root: nat, subgraph: seq<nat>, edges: seq<DotEdge>)

  /** `convert`: load, look the root up, traverse from it and draw the
      edges of the subgraph. */
  method Convert(buf: seq<Gedcom.Unit>, rootFamily: string, familyDepth: int, direction: string)
    returns (r: Result<Drawing, Error>)
    ensures r.Success? ==>
      var d := r.value;
      && Closed(d.graph) && d.root < |d.graph|
      && RootLookup(d.graph, rootFamily) == Success(d.root)
      && d.subgraph == BfsWalk(d.graph, d.root, familyDepth * 2 + 1, direction).order
    ensures r.Success? ==>
      var d := r.value;
      && InRange(d.subgraph, |d.graph|)
      && d.edges == StoreEdges(WithDepths(d.graph, BfsWalk(d.graph, d.root, familyDepth * 2 + 1, direction).depths), d.subgraph)
    ensures r.Success? && WellTyped(r.value.graph) && r.value.graph[r.value.root].Family? ==>
      forall e | e in r.value.edges :: e.tail in r.value.subgraph && e.head in r.value.subgraph
    ensures Gedcom.TokenizeFromStream(buf).Failure? ==> r == Failure(Gedcom.TokenizeFromStream(buf).error)
    ensures Gedcom.TokenizeFromStream(buf).Success? ==>
      var t := Gedcom.TokenizeFromStream(buf).value;
      && (!AllResolve(t) ==> r.Failure? && FirstResolveFailure(t, r.error))
      && (AllResolve(t) ==> (r.Success? <==> RootLookup(t, rootFamily).Success?))
      && (AllResolve(t) && r.Failure? ==> r.error == RootLookup(t, rootFamily).error)
    ensures r.Success? ==>
      && Gedcom.TokenizeFromStream(buf).Success?
      && var t := Gedcom.TokenizeFromStream(buf).value;
      && |r.value.graph| == |t|
      && forall k | 0 <= k < |t| :: Resolve(t[k], t) == Success(r.value.graph[k])
  {
    var loaded := Gedcom.Load(buf);
    if loaded.Failure? {
      return Failure(loaded.error);
    }
    var g := loaded.value;
    ghost var t := Gedcom.TokenizeFromStream(buf).value;
    assert SameShape(t, g) by {
      forall k | 0 <= k < |t|
        ensures t[k].identifier == g[k].identifier && t[k].Family? == g[k].Family?
      {
        assert Resolve(t[k], t) == Success(g[k]);
      }
    }
    RootLookupOnlyReadsShape(t, g, rootFamily);
    var root :- RootLookup(g, rootFamily);
    var subgraph, g' := Bfs(g, root, familyDepth, direction);
    var edges := StoreEdges(g', subgraph);
    if WellTyped(g) && g[root].Family? {
      assert g[root].depth == 0;
      EdgesStayInSubgraph(g, root, familyDepth, direction);
    }
    r := Success(Drawing(g, root, subgraph, edges));
  }
}
