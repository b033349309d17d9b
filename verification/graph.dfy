/** The genealogy graph of ged2dot.py: `Individual` and `Family` records
    living in one arena (`seq<Node>`), whose string references are turned
    into arena handles (indices) by `resolve`. A handle plays the role of a
    Python object reference, so `neighbour not in visited` becomes a
    comparison of indices. */
module Graph {
  import opened Wrappers
  import opened Text

  /** The key-value bag that `IndividualConfig` keeps for an individual. */
  datatype IndividualConfig = IndividualConfig(note: string, birth: string, death: string)

  /** A node of the graph. Both kinds carry an `identifier` (the GEDCOM
      pointer without its `@` signs) and a traversal `depth`. The `...Id`
      fields hold references as read from the input; `famc`, `famsList`,
      `wife`, `husb` and `childList` are the handles `resolve` fills in. */
  datatype Node =
    | Individual(
        identifier: string,
        famcId: string,
        famc: Option<nat>,
        famsIds: seq<string>,
        famsList: seq<nat>,
        depth: int,
        forename: string,
        surname: string,
        sex: string,
        config: IndividualConfig)
    | Family(
        identifier: string,
        marr: string,
        wifeId: string,
        wife: Option<nat>,
        husbId: string,
        husb: Option<nat>,
        childIds: seq<string>,
        childList: seq<nat>,
        depth: int)

  /** `Individual()` followed by `set_identifier(id)`. */
  function NewIndividual(id: string): Node {
    Individual(id, "", None, [], [], 0, "", "", "", IndividualConfig("", "", ""))
  }

  /** `Family()` followed by `set_identifier(id)`. */
  function NewFamily(id: string): Node {
    Family(id, "", "", None, "", None, [], [], 0)
  }

  /** A node whose references have not been resolved yet. */
  predicate Unlinked(n: Node) {
    match n
    case Individual(_, _, famc, _, famsList, _, _, _, _, _) => famc.None? && famsList == []
    case Family(_, _, _, wife, _, husb, _, childList, _) => wife.None? && husb.None? && childList == []
  }

  /** The identifiers of the graph, in graph order. */
  function Ids(g: seq<Node>): (ids: seq<string>)
    ensures |ids| == |g|
    ensures forall k | 0 <= k < |g| :: ids[k] == g[k].identifier
  {
    seq(|g|, k requires 0 <= k < |g| => g[k].identifier)
  }

  // ---------------------------------------------------------------------
  // graph_find
  // ---------------------------------------------------------------------

  /** The positions of `id` in `ids`, in increasing order (the list
      comprehension of `graph_find`). */
  function Matches(ids: seq<string>, id: string): (ms: seq<nat>)
    ensures forall k :: k in ms <==> 0 <= k < |ids| && ids[k] == id
    ensures forall i, j | 0 <= i < j < |ms| :: ms[i] < ms[j]
    decreases |ids|
  {
    if |ids| == 0 then []
    else
      var init := Matches(ids[..|ids| - 1], id);
      assert forall i | 0 <= i < |init| :: init[i] < |ids| - 1 by {
        forall i | 0 <= i < |init| ensures init[i] < |ids| - 1 {
          assert init[i] in init;
        }
      }
      init + (if ids[|ids| - 1] == id then [|ids| - 1] else [])
  }

  /** `graph_find` on the identifiers alone. */
  function FindIn(ids: seq<string>, id: string): Result<Option<nat>, Error> {
    if id == "" then Success(None)
    else
      var ms := Matches(ids, id);
      if |ms| == 0 then Success(None)
      else if |ms| != 1 then Failure(Ambiguous(id))
      else Success(Some(ms[0]))
  }

  /** Two different nodes carry `id`. */
  predicate Duplicated(g: seq<Node>, id: string) {
    exists i, j | 0 <= i < j < |g| :: g[i].identifier == id && g[j].identifier == id
  }

  /** `graph_find(graph, identifier)`: nothing for the empty identifier or
      when no node carries it, the unique node carrying it, and a failed
      assertion when two nodes carry it. */
  function GraphFind(g: seq<Node>, id: string): (r: Result<Option<nat>, Error>)
    ensures r.Success? && r.value.Some? ==>
      var h := r.value.value;
      && h < |g| && g[h].identifier == id && id != ""
      && forall k | 0 <= k < |g| && g[k].identifier == id :: k == h
    ensures r == Success(None) <==> id == "" || forall k | 0 <= k < |g| :: g[k].identifier != id
    ensures r.Failure? <==> id != "" && Duplicated(g, id)
    ensures r.Failure? ==> r.error == Ambiguous(id)
  {
    MatchesOfGraph(g, id);
    FindIn(Ids(g), id)
  }

  /** How the match list of `graph_find` relates to the graph. */
  lemma MatchesOfGraph(g: seq<Node>, id: string)
    ensures var ms := Matches(Ids(g), id);
      && (|ms| >= 2 <==> Duplicated(g, id))
      && (|ms| == 0 <==> forall k | 0 <= k < |g| :: g[k].identifier != id)
      && (|ms| == 1 ==> forall k | 0 <= k < |g| && g[k].identifier == id :: k == ms[0])
  {
    var ms := Matches(Ids(g), id);
    if |ms| > 0 {
      assert ms[0] in ms;
    }
    if |ms| >= 2 {
      assert ms[0] in ms && ms[1] in ms;
      assert g[ms[0]].identifier == id && g[ms[1]].identifier == id;
    }
    if Duplicated(g, id) {
      var i, j :| 0 <= i < j < |g| && g[i].identifier == id && g[j].identifier == id;
      assert i in ms && j in ms;
    }
    if |ms| == 1 {
      forall k | 0 <= k < |g| && g[k].identifier == id ensures k == ms[0] {
        assert k in ms;
      }
    }
  }

  /** Graph lookups only look at identifiers. */
  lemma GraphFindOnlyReadsIds(g1: seq<Node>, g2: seq<Node>, id: string)
    requires Ids(g1) == Ids(g2)
    ensures GraphFind(g1, id) == GraphFind(g2, id)
  {
  }

  // ---------------------------------------------------------------------
  // resolve
  // ---------------------------------------------------------------------

  /** `id` is found as exactly one node. */
  predicate Resolves(g: seq<Node>, id: string) {
    GraphFind(g, id).Success? && GraphFind(g, id).value.Some?
  }

  /** The handles of a list of mandatory references, in order: every
      identifier must be found (`assert fams`, `assert child`). The first
      reference that fails decides the error. */
  function FindAll(g: seq<Node>, ids: seq<string>): (r: Result<seq<nat>, Error>)
    ensures r.Success? ==>
      && |r.value| == |ids|
      && forall i | 0 <= i < |ids| :: r.value[i] < |g| && g[r.value[i]].identifier == ids[i]
    ensures r.Failure? <==> exists i | 0 <= i < |ids| :: !Resolves(g, ids[i])
    decreases |ids|
  {
    if |ids| == 0 then Success([])
    else
      var init :- FindAll(g, ids[..|ids| - 1]);
      var last := ids[|ids| - 1];
      var found :- GraphFind(g, last);
      if found.None? then Failure(Dangling(last)) else Success(init + [found.value])
  }

  /** `h` is what an optional reference to `id` resolves to. */
  predicate OptionalLink(g: seq<Node>, id: string, h: Option<nat>) {
    && (h.Some? ==> h.value < |g| && g[h.value].identifier == id)
    && (h.None? ==> id == "" || forall k | 0 <= k < |g| :: g[k].identifier != id)
  }

  /** `hs` are the nodes named by `ids`, in the same order. */
  predicate ListLink(g: seq<Node>, ids: seq<string>, hs: seq<nat>) {
    |hs| == |ids| && forall i | 0 <= i < |ids| :: hs[i] < |g| && g[hs[i]].identifier == ids[i]
  }

  /** `Individual.resolve` / `Family.resolve` against the identifiers of a
      graph: the optional references (`famc`, `wife`, `husb`) may come out
      empty, the list references (`fams`, `chil`) must all be found and are
      APPENDED to whatever the lists already hold. */
  function Resolve(n: Node, g: seq<Node>): (r: Result<Node, Error>)
    ensures r.Success? ==> r.value.identifier == n.identifier && r.value.depth == n.depth
    ensures r.Success? && n.Individual? ==>
      && r.value.Individual?
      && r.value == n.(famc := r.value.famc, famsList := r.value.famsList)
      && OptionalLink(g, n.famcId, r.value.famc)
      && |n.famsList| <= |r.value.famsList|
      && r.value.famsList[..|n.famsList|] == n.famsList
      && ListLink(g, n.famsIds, r.value.famsList[|n.famsList|..])
    ensures r.Success? && n.Family? ==>
      && r.value.Family?
      && r.value == n.(wife := r.value.wife, husb := r.value.husb, childList := r.value.childList)
      && OptionalLink(g, n.wifeId, r.value.wife)
      && OptionalLink(g, n.husbId, r.value.husb)
      && |n.childList| <= |r.value.childList|
      && r.value.childList[..|n.childList|] == n.childList
      && ListLink(g, n.childIds, r.value.childList[|n.childList|..])
    ensures n.Individual? ==>
      (r.Failure? <==> (n.famcId != "" && Duplicated(g, n.famcId)) || exists i | 0 <= i < |n.famsIds| :: !Resolves(g, n.famsIds[i]))
    ensures n.Family? ==>
      (r.Failure? <==>
        || (n.wifeId != "" && Duplicated(g, n.wifeId))
        || (n.husbId != "" && Duplicated(g, n.husbId))
        || exists i | 0 <= i < |n.childIds| :: !Resolves(g, n.childIds[i]))
  {
    match n
    case Individual(_, _, _, _, _, _, _, _, _, _) =>
      var famc :- GraphFind(g, n.famcId);
      var fams :- FindAll(g, n.famsIds);
      assert (n.famsList + fams)[|n.famsList|..] == fams;
      Success(n.(famc := famc, famsList := n.famsList + fams))
    case Family(_, _, _, _, _, _, _, _, _) =>
      var wife :- GraphFind(g, n.wifeId);
      var husb :- GraphFind(g, n.husbId);
      var children :- FindAll(g, n.childIds);
      assert (n.childList + children)[|n.childList|..] == children;
      Success(n.(wife := wife, husb := husb, childList := n.childList + children))
  }

  /** `resolve` is not idempotent: a second call appends the resolved list
      references once more. */
  lemma ResolveTwiceDuplicates(n: Node, g: seq<Node>)
    requires Resolve(n, g).Success?
    ensures var n1 := Resolve(n, g).value;
      && Resolve(n1, g).Success?
      && (n.Individual? ==>
            Resolve(n1, g).value.famsList == n1.famsList + n1.famsList[|n.famsList|..])
      && (n.Family? ==>
            Resolve(n1, g).value.childList == n1.childList + n1.childList[|n.childList|..])
  {
    var n1 := Resolve(n, g).value;
    if n.Individual? {
      var added := n1.famsList[|n.famsList|..];
      var fams := FindAll(g, n.famsIds);
      assert fams.Success?;
      assert n1.famsList == n.famsList + fams.value;
      assert added == fams.value;
    } else {
      var added := n1.childList[|n.childList|..];
      var children := FindAll(g, n.childIds);
      assert children.Success?;
      assert n1.childList == n.childList + children.value;
      assert added == children.value;
    }
  }

  /** Resolving a fresh node a second time doubles its list references. */
  lemma ResolveFreshTwice(n: Node, g: seq<Node>)
    requires Unlinked(n) && Resolve(n, g).Success?
    ensures var n1 := Resolve(n, g).value;
      && Resolve(n1, g).Success?
      && (n.Individual? ==> Resolve(n1, g).value.famsList == n1.famsList + n1.famsList)
      && (n.Family? ==> Resolve(n1, g).value.childList == n1.childList + n1.childList)
  {
    ResolveTwiceDuplicates(n, g);
  }

  /** Every node of the graph resolves against it. */
  predicate AllResolve(g: seq<Node>) {
    forall k | 0 <= k < |g| :: Resolve(g[k], g).Success?
  }

  /** `e` is the error of the first node of `g` that fails to resolve. */
  predicate FirstResolveFailure(g: seq<Node>, e: Error) {
    exists k | 0 <= k < |g| ::
      && Resolve(g[k], g) == Failure(e)
      && forall j | 0 <= j < k :: Resolve(g[j], g).Success?
  }

  /** The resolve loop of `GedcomImport.load`: every node, in graph order,
      is resolved in place against the graph being updated. Since resolving
      never changes an identifier, this equals resolving every node against
      the graph as tokenized; the first node that fails aborts the load. */
  method ResolveGraph(graph: seq<Node>) returns (r: Result<seq<Node>, Error>)
    ensures r.Success? <==> forall k | 0 <= k < |graph| :: Resolve(graph[k], graph).Success?
    ensures r.Success? ==>
      && |r.value| == |graph|
      && Ids(r.value) == Ids(graph)
      && forall k | 0 <= k < |graph| :: Resolve(graph[k], graph) == Success(r.value[k])
    ensures r.Failure? ==> exists k | 0 <= k < |graph| ::
      && Resolve(graph[k], graph) == Failure(r.error)
      && forall j | 0 <= j < k :: Resolve(graph[j], graph).Success?
  {
    var g := graph;
    var k := 0;
    while k < |g|
      invariant 0 <= k <= |g| == |graph|
      invariant Ids(g) == Ids(graph)
      invariant forall j | 0 <= j < k :: Resolve(graph[j], graph) == Success(g[j])
      invariant forall j | k <= j < |g| :: g[j] == graph[j]
    {
      var res := Resolve(g[k], g);
      assert res == Resolve(graph[k], graph) by {
        ResolveOnlyReadsIds(graph[k], g, graph);
      }
      if res.Failure? {
        return Failure(res.error);
      }
      var g' := g[k := res.value];
      assert Ids(g') == Ids(g);
      g := g';
      k := k + 1;
    }
    r := Success(g);
  }

  lemma ResolveOnlyReadsIds(n: Node, g1: seq<Node>, g2: seq<Node>)
    requires Ids(g1) == Ids(g2)
    ensures Resolve(n, g1) == Resolve(n, g2)
  {
    assert |g1| == |g2|;
    forall id ensures GraphFind(g1, id) == GraphFind(g2, id) {
      GraphFindOnlyReadsIds(g1, g2, id);
    }
    FindAllOnlyReadsIds(g1, g2, if n.Individual? then n.famsIds else n.childIds);
  }

  lemma {:induction false} FindAllOnlyReadsIds(g1: seq<Node>, g2: seq<Node>, ids: seq<string>)
    requires Ids(g1) == Ids(g2)
    ensures FindAll(g1, ids) == FindAll(g2, ids)
    decreases |ids|
  {
    if |ids| > 0 {
      FindAllOnlyReadsIds(g1, g2, ids[..|ids| - 1]);
      GraphFindOnlyReadsIds(g1, g2, ids[|ids| - 1]);
    }
  }

  // ---------------------------------------------------------------------
  // neighbours
  // ---------------------------------------------------------------------

  /** `get_neighbours(direction)`: a family yields its wife, its husband
      (each if set) and then its children, whatever the direction; an
      individual yields its parent family unless the direction is "child",
      and then its own families. */
  function Neighbours(n: Node, direction: string): seq<nat> {
    match n
    case Individual(_, _, famc, _, famsList, _, _, _, _, _) =>
      (if famc.Some? && direction != "child" then [famc.value] else []) + famsList
    case Family(_, _, _, wife, _, husb, _, childList, _) =>
      (if wife.Some? then [wife.value] else []) + (if husb.Some? then [husb.value] else []) + childList
  }

  /** The direction only ever hides an individual's parent family. */
  lemma NeighboursDirection(n: Node, direction: string)
    ensures n.Family? ==> Neighbours(n, direction) == Neighbours(n, "both")
    ensures n.Individual? && direction != "child" ==> Neighbours(n, direction) == Neighbours(n, "both")
    ensures n.Individual? ==> Neighbours(n, "child") == n.famsList
    ensures n.Individual? && n.famc.Some? ==>
      Neighbours(n, "both") == [n.famc.value] + Neighbours(n, "child")
  {
  }

  /** Every neighbour in any direction is a neighbour in direction "both". */
  lemma NeighboursWithinBoth(n: Node, direction: string)
    ensures forall h | h in Neighbours(n, direction) :: h in Neighbours(n, "both")
  {
  }

  /** A family without a wife has only its husband and children as
      neighbours. */
  lemma FamilyWithoutWife(n: Node, direction: string)
    requires n.Family? && n.wife.None? && n.husb.Some?
    ensures Neighbours(n, direction) == [n.husb.value] + n.childList
    ensures n.childList == [] ==> |Neighbours(n, direction)| == 1
  {
  }

  /** Depth is traversal state; it never changes who the neighbours are. */
  lemma NeighboursIgnoreDepth(n: Node, d: int, direction: string)
    ensures Neighbours(n.(depth := d), direction) == Neighbours(n, direction)
  {
  }

  /** All handles stored in the graph point into the graph. */
  predicate Closed(g: seq<Node>) {
    forall k, h | 0 <= k < |g| && h in Neighbours(g[k], "both") :: h < |g|
  }

  /** A node that was fresh before `resolve` only points into the graph
      afterwards. */
  lemma ResolvedLinksInRange(n: Node, g: seq<Node>)
    requires Unlinked(n) && Resolve(n, g).Success?
    ensures forall h | h in Neighbours(Resolve(n, g).value, "both") :: h < |g|
  {
    var n1 := Resolve(n, g).value;
    if n.Individual? {
      assert n1.famsList[|n.famsList|..] == n1.famsList;
      forall h | h in Neighbours(n1, "both") ensures h < |g| {
        if h in n1.famsList {
          var i :| 0 <= i < |n1.famsList| && n1.famsList[i] == h;
        } else {
          assert n1.famc == Some(h);
        }
      }
    } else {
      assert n1.childList[|n.childList|..] == n1.childList;
      forall h | h in Neighbours(n1, "both") ensures h < |g| {
        if h in n1.childList {
          var i :| 0 <= i < |n1.childList| && n1.childList[i] == h;
        } else {
          assert n1.wife == Some(h) || n1.husb == Some(h);
        }
      }
    }
  }

  // ---------------------------------------------------------------------
  // get_color
  // ---------------------------------------------------------------------

  function AsciiUpper(s: string): (u: string)
    ensures |u| == |s|
  {
    seq(|s|, i requires 0 <= i < |s| => if 'a' <= s[i] <= 'z' then (s[i] as int - 32) as char else s[i])
  }

  /** `Individual.get_color`: the frame colour for a sex value. Any sex that
      does not upper-case to M, F or U fails the dictionary lookup. */
  function GetColor(sex: string): (r: Result<string, Error>)
    ensures r == Success("blue") <==> sex == "M" || sex == "m"
    ensures r == Success("pink") <==> sex == "F" || sex == "f"
    ensures r == Success("black") <==> sex == "" || sex == "U" || sex == "u"
    ensures r.Failure? <==> sex !in {"", "M", "m", "F", "f", "U", "u"}
    ensures r.Failure? ==> r.error == UnknownSex(sex)
  {
    var key := if sex == "" then "U" else AsciiUpper(sex);
    if key == "M" then Success("blue")
    else if key == "F" then Success("pink")
    else if key == "U" then Success("black")
    else Failure(UnknownSex(sex))
  }
}
