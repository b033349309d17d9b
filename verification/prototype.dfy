/** core/core.py: the earlier single-file version of ged2dot. It builds the
    same `Individual`/`Family` records, so it shares `Graph.Node` and the
    `Gedcom.Importer` state (whose MARR flag it never raises), but differs
    in the details:

    - lines come from `readlines()` and a blank line is not skipped, so it
      fails the level conversion;
    - level-1 tags are recognised by prefix (`rest.startswith("SEX")`), and
      a SEX line without a value raises `IndexError`;
    - only births and deaths get a year, and only for an individual;
    - `graph_find` insists on exactly one match for a non-empty identifier;
    - neighbours ignore direction and `bfs` stops beyond depth 9, which is
      the `bfs` of ged2dot.py at family depth 4 in direction "both". */
module Prototype {
  import opened Wrappers
  import opened Text
  import opened Graph
  import opened Traversal
  import opened Gedcom

  // ---------------------------------------------------------------------
  // readlines
  // ---------------------------------------------------------------------

  /** The length of the first line `readlines` cuts from `buf`: up to and
      including the first LF, or all of `buf` when it holds none. */
  function LineEnd(buf: seq<Unit>): (n: nat)
    requires |buf| > 0
    ensures 0 < n <= |buf|
    ensures LF !in buf[..n - 1]
    ensures n < |buf| ==> buf[n - 1] == LF
    decreases |buf|
  {
    if buf[0] == LF || |buf| == 1 then 1 else 1 + LineEnd(buf[1..])
  }

  /** `stream.readlines()`: the buffer cut after every LF, each line keeping
      its LF; a buffer ending in LF has no empty last line. */
  function ReadLines(buf: seq<Unit>): seq<seq<Unit>>
    decreases |buf|
  {
    if |buf| == 0 then []
    else
      var n := LineEnd(buf);
      [buf[..n]] + ReadLines(buf[n..])
  }

  /** A line as `readlines` returns it: not empty, no LF but possibly the
      last unit, and ending in LF unless it is the last line. */
  predicate IsReadLine(line: seq<Unit>, last: bool) {
    && |line| > 0
    && LF !in line[..|line| - 1]
    && (!last ==> line[|line| - 1] == LF)
  }

  /** The lines are the buffer cut into pieces: put back together they give
      the buffer, and each ends at the first LF it holds. */
  lemma {:induction false} ReadLinesPartition(buf: seq<Unit>)
    ensures Join([], ReadLines(buf)) == buf
    ensures forall k | 0 <= k < |ReadLines(buf)| ::
      IsReadLine(ReadLines(buf)[k], k == |ReadLines(buf)| - 1)
    decreases |buf|
  {
    if |buf| > 0 {
      var n := LineEnd(buf);
      var lines := ReadLines(buf);
      ReadLinesPartition(buf[n..]);
      assert lines == [buf[..n]] + ReadLines(buf[n..]);
      if n == |buf| {
        assert ReadLines(buf[n..]) == [];
        assert buf[..n] == buf;
        assert lines == [buf];
      } else {
        assert |ReadLines(buf[n..])| >= 1;
        JoinCons([], buf[..n], ReadLines(buf[n..]));
        assert buf == buf[..n] + [] + buf[n..];
        forall k | 0 <= k < |lines| ensures IsReadLine(lines[k], k == |lines| - 1) {
          if k > 0 {
            assert lines[k] == ReadLines(buf[n..])[k - 1];
          }
        }
      }
    }
  }

  // ---------------------------------------------------------------------
  // lexing a line
  // ---------------------------------------------------------------------

  /** One line of `import_gedcom` up to the level test: strip, decode, read
      the level. A blank line is lexed like any other. */
  function LexRaw(piece: seq<Unit>): (r: Result<Entry, Error>)
    ensures r.Failure? ==> r.error.Undecodable? || r.error.BadLevel?
  {
    match Decode(Strip(piece, IsAsciiSpaceUnit))
    case None => Failure(Undecodable)
    case Some(line) => LexLine(line)
  }

  /** The prototype reads a line as ged2dot.py does, except that the blank
      line ged2dot.py skips is an error here: its level token is empty. */
  lemma LexRawAgrees(piece: seq<Unit>)
    ensures LexRaw(piece).Success? <==> Lex(piece).Success? && Lex(piece).value.Some?
    ensures LexRaw(piece).Success? ==> LexRaw(piece).value == Lex(piece).value.value
    ensures Lex(piece).Failure? ==> LexRaw(piece) == Failure(Lex(piece).error)
    ensures Lex(piece) == Success(None) ==> LexRaw(piece) == Failure(BadLevel(""))
  {
    match Decode(Strip(piece, IsAsciiSpaceUnit))
    case None =>
    case Some(line) =>
      if line == "" {
        assert Split(line, " ") == [""];
        assert LevelToken(line) == "";
      }
  }

  // ---------------------------------------------------------------------
  // the line handlers
  // ---------------------------------------------------------------------

  /** A tag the prototype knows. */
  const CommonTags: set<string> := {"SEX", "NAME", "FAMC", "FAMS", "BIRT", "DEAT", "HUSB", "WIFE", "CHIL"}

  /** `rest` starts with the known tag `t`. */
  predicate Tagged(rest: string, t: string) {
    t in CommonTags && StartsWith(rest, t)
  }

  /** Where a known tag shows at the head of a line: SEX in its first three
      characters, any other known tag in its first four; none of the
      four-letter tags starts with an S. */
  lemma TaggedHead(rest: string, u: string)
    requires Tagged(rest, u)
    ensures u == "SEX" <==> |rest| >= 3 && rest[..3] == "SEX"
    ensures u != "SEX" ==> |rest| >= 4 && rest[..4] == u
  {
    if u != "SEX" {
      assert |u| == 4 && u[0] != 'S';
      assert rest[0] == u[0];
    }
  }

  /** The known tag a level-1 line starts with, or "" for none. No known
      tag is a prefix of another, so at most one matches, and testing them
      in any order finds the same one. */
  function PrefixTag(rest: string): (t: string)
    ensures t == "" || Tagged(rest, t)
    ensures forall u :: Tagged(rest, u) ==> u == t
  {
    forall u | Tagged(rest, u) ensures u == "SEX" || (|rest| >= 4 && rest[..4] == u) {
      TaggedHead(rest, u);
    }
    if |rest| >= 3 && rest[..3] == "SEX" then
      assert forall u :: Tagged(rest, u) ==> u == "SEX" by {
        forall u | Tagged(rest, u) ensures u == "SEX" {
          TaggedHead(rest, u);
        }
      }
      "SEX"
    else if |rest| >= 4 && rest[..4] in CommonTags then rest[..4]
    else ""
  }

  /** Lowers the first raised event flag (`if in_birt ... elif in_deat`). */
  function LowerFlag(st: Importer): (r: Importer)
    ensures r == st.(inBirt := r.inBirt, inDeat := r.inDeat)
    ensures !(st.inBirt && st.inDeat) ==> !r.inBirt && !r.inDeat
  {
    if st.inBirt then st.(inBirt := false) else if st.inDeat then st.(inDeat := false) else st
  }

  /** The SEX, NAME, FAMC and FAMS tests on a pending individual. NAME, FAMC
      and FAMS take their values as ged2dot.py does; SEX takes the second
      space-separated word, and a SEX line with no second word fails. */
  function IndividualTag(ind: IndividualNode, tag: string, rest: string): (r: Result<IndividualNode, Error>)
    requires tag in IndividualTags
    ensures r.Failure? <==> tag == "SEX" && |Split(rest, " ")| < 2
    ensures r.Failure? ==> r.error == MissingSexValue
    ensures r.Success? ==>
      && r.value.identifier == ind.identifier && r.value.depth == ind.depth && r.value.config == ind.config
      && r.value.famc == ind.famc && r.value.famsList == ind.famsList
      && r.value.famsIds == ind.famsIds + (if tag == "FAMS" then [Pointer(rest)] else [])
      && r.value.famcId == (if tag == "FAMC" && ind.famcId == "" then Pointer(rest) else ind.famcId)
  {
    if tag == "SEX" then
      var tokens := Split(rest, " ");
      if |tokens| > 1 then Success(ind.(sex := tokens[1])) else Failure(MissingSexValue)
    else Success(UpdateIndividual(ind, tag, rest))
  }

  /** The tag tests of the level-1 branch of `import_gedcom`, after the
      flag is lowered: SEX, NAME, FAMC, FAMS edit a pending individual; BIRT
      and DEAT raise their flag whatever record is pending; HUSB, WIFE,
      CHIL edit a pending family (as in ged2dot.py). */
  function TagTests(st: Importer, rest: string): (r: Result<Importer, Error>)
    ensures var tag := PrefixTag(rest);
      r.Failure? <==> st.individual.Some? && tag == "SEX" && |Split(rest, " ")| < 2
    ensures r.Failure? ==> r.error == MissingSexValue
    ensures r.Success? ==>
      && r.value.graph == st.graph && r.value.inMarr == st.inMarr
      && (r.value.individual.Some? <==> st.individual.Some?)
      && (r.value.family.Some? <==> st.family.Some?)
      && (r.value.inBirt <==> st.inBirt || PrefixTag(rest) == "BIRT")
      && (r.value.inDeat <==> st.inDeat || PrefixTag(rest) == "DEAT")
    ensures r.Success? && st.individual.Some? ==>
      var (ind, ind', tag) := (st.individual.value, r.value.individual.value, PrefixTag(rest));
      && ind' == ind.(sex := ind'.sex, forename := ind'.forename, surname := ind'.surname, famcId := ind'.famcId, famsIds := ind'.famsIds)
      && ind'.famsIds == ind.famsIds + (if tag == "FAMS" then [Pointer(rest)] else [])
      && ind'.famcId == (if tag == "FAMC" && ind.famcId == "" then Pointer(rest) else ind.famcId)
    ensures r.Success? && st.family.Some? ==>
      var (fam, fam', tag) := (st.family.value, r.value.family.value, PrefixTag(rest));
      && fam' == fam.(husbId := fam'.husbId, wifeId := fam'.wifeId, childIds := fam'.childIds)
      && fam'.childIds == fam.childIds + (if tag == "CHIL" then [Pointer(rest)] else [])
      && fam'.husbId == (if tag == "HUSB" then Pointer(rest) else fam.husbId)
      && fam'.wifeId == (if tag == "WIFE" then Pointer(rest) else fam.wifeId)
  {
    var tag := PrefixTag(rest);
    if tag in IndividualTags && st.individual.Some? then
      var ind :- IndividualTag(st.individual.value, tag, rest);
      Success(st.(individual := Some(ind)))
    else if tag == "BIRT" then Success(st.(inBirt := true))
    else if tag == "DEAT" then Success(st.(inDeat := true))
    else if tag in FamilyTags && st.family.Some? then
      Success(st.(family := Some(UpdateFamily(st.family.value, tag, rest))))
    else Success(st)
  }

  /** The level-1 branch of `import_gedcom`: lower a flag, then test the
      tags. Afterwards the flag of the line's own event is the only one
      raised. */
  function Level1(st: Importer, rest: string): (r: Result<Importer, Error>)
    ensures r.Success? && !(st.inBirt && st.inDeat) ==>
      && (r.value.inBirt <==> StartsWith(rest, "BIRT"))
      && (r.value.inDeat <==> StartsWith(rest, "DEAT"))
  {
    assert Tagged(rest, "BIRT") <==> StartsWith(rest, "BIRT");
    assert Tagged(rest, "DEAT") <==> StartsWith(rest, "DEAT");
    TagTests(LowerFlag(st), rest)
  }

  /** How a line made of a known tag, a space and a value reads. */
  lemma TagLine(tag: string, v: string)
    requires tag in CommonTags
    ensures PrefixTag(tag + " " + v) == tag && Lead(tag + " " + v) == tag
    ensures |Split(tag + " " + v, " ")| > 1
  {
    var line := tag + " " + v;
    SplitAtFirst(tag, v, ' ');
    assert line == tag + [' '] + v;
    assert line[..|tag|] == tag;
    assert Tagged(line, tag);
  }

  /** With both readings of the tag agreeing, the prototype's tag tests do
      what ged2dot.py's tag dispatch does. */
  lemma TagTestsAgree(st: Importer, line: string, tag: string)
    requires tag in CommonTags && PrefixTag(line) == tag && Lead(line) == tag && |Split(line, " ")| > 1
    ensures TagTests(st, line) == Success(DispatchTag(st, line))
  {
    if tag in IndividualTags && st.individual.Some? {
      assert TagTests(st, line) == Success(st.(individual := Some(UpdateIndividual(st.individual.value, tag, line))));
    } else if tag in FamilyTags && st.family.Some? {
    } else {
    }
  }

  /** On a line made of a known tag, a space and a value, the prototype's
      level-1 handler does what ged2dot.py's does. */
  lemma Level1Agrees(st: Importer, tag: string, v: string)
    requires tag in CommonTags && !st.inMarr
    ensures Level1(st, tag + " " + v) == Success(HandleLevel1(st, tag + " " + v))
  {
    TagLine(tag, v);
    assert ResetFlags(st) == LowerFlag(st);
    TagTestsAgree(LowerFlag(st), tag + " " + v, tag);
  }

  /** Prefix matching differs from ged2dot.py's whole-word tags: "BIRTH"
      raises the birth flag here and not there. */
  lemma PrefixTagDiffers(st: Importer)
    requires AtMostOneFlag(st)
    ensures Level1(st, "BIRTH").Success? && Level1(st, "BIRTH").value.inBirt
    ensures !HandleLevel1(st, "BIRTH").inBirt
  {
    assert StartsWith("BIRTH", "BIRT");
    assert Lead("BIRTH") == "BIRTH" by {
      SplitNoSep("BIRTH", ' ');
    }
  }

  /** A SEX line without a value aborts the prototype, where ged2dot.py
      leaves the sex unchanged. */
  lemma SexWithoutValue(st: Importer)
    requires st.individual.Some?
    ensures Level1(st, "SEX") == Failure(MissingSexValue)
    ensures HandleLevel1(st, "SEX").individual.value.sex == st.individual.value.sex
  {
    SplitNoSep("SEX", ' ');
    assert StartsWith("SEX", "SEX");
  }

  /** The level-2 branch of `import_gedcom`: a DATE line gives a pending
      individual its birth year if the birth flag is up, else its death
      year if the death flag is up. A family never gets a date. */
  function Level2(st: Importer, rest: string): (r: Importer)
    ensures r.graph == st.graph && r.family == st.family
    ensures r.inBirt == st.inBirt && r.inDeat == st.inDeat && r.inMarr == st.inMarr
    ensures r.individual.Some? <==> st.individual.Some?
    ensures st.individual.Some? ==> r.individual.value == st.individual.value.(config := r.individual.value.config)
    ensures r != st ==> StartsWith(rest, "DATE") && (st.inBirt || st.inDeat)
  {
    if StartsWith(rest, "DATE") && st.individual.Some? then
      var year := LastToken(rest);
      var ind := st.individual.value;
      if st.inBirt then st.(individual := Some(ind.(config := ind.config.(birth := year))))
      else if st.inDeat then st.(individual := Some(ind.(config := ind.config.(death := year))))
      else st
    else st
  }

  /** Without the marriage flag, which the prototype never raises, its
      level-2 handler is ged2dot.py's. */
  lemma Level2Agrees(st: Importer, rest: string)
    requires !st.inMarr
    ensures Level2(st, rest) == HandleLevel2(st, rest)
  {
  }

  /** What the prototype's importer keeps true: at most one record pending,
      at most one of its two flags raised, the MARR flag down, and every
      record unresolved at depth 0. */
  predicate Sound(st: Importer) {
    Valid(st) && !st.inMarr && Fresh(st)
  }

  /** The level dispatch of `import_gedcom`; level 0 is handled exactly as
      in ged2dot.py, other levels are ignored. */
  function Step(st: Importer, e: Entry): (r: Result<Importer, Error>)
    ensures r.Failure? ==> r.error == MissingSexValue
    ensures r.Success? && Sound(st) ==> Sound(r.value)
  {
    if e.level == 0 then Success(HandleLevel0(st, e.rest))
    else if e.level == 1 then Level1(st, e.rest)
    else if e.level == 2 then Success(Level2(st, e.rest))
    else Success(st)
  }

  /** The line loop of `import_gedcom` over `lines`, starting from `st`;
      the first line that fails aborts the import. */
  function Feed(st: Importer, lines: seq<seq<Unit>>): (r: Result<Importer, Error>)
    ensures r.Success? && Sound(st) ==> Sound(r.value)
    ensures r.Failure? ==> r.error.Undecodable? || r.error.BadLevel? || r.error == MissingSexValue
    decreases |lines|
  {
    if |lines| == 0 then Success(st)
    else
      var before :- Feed(st, lines[..|lines| - 1]);
      var e :- LexRaw(lines[|lines| - 1]);
      Step(before, e)
  }

  /** `import_gedcom`: the graph after the last line. As in ged2dot.py a
      record still pending at the end is not appended. Every record comes
      out unresolved at depth 0. */
  function ImportGedcom(buf: seq<Unit>): (r: Result<seq<Node>, Error>)
    ensures r.Failure? ==> r.error.Undecodable? || r.error.BadLevel? || r.error == MissingSexValue
    ensures r.Success? ==> forall k | 0 <= k < |r.value| :: Unlinked(r.value[k]) && r.value[k].depth == 0
  {
    var st :- Feed(Init, ReadLines(buf));
    Success(st.graph)
  }

  /** A blank line stops the import: once the lines before it went
      through, it fails with an empty level token. */
  lemma BlankLineAborts(st: Importer, lines: seq<seq<Unit>>, piece: seq<Unit>)
    requires forall i | 0 <= i < |piece| :: IsAsciiSpaceUnit(piece[i])
    ensures Feed(st, lines + [piece]).Failure?
    ensures Feed(st, lines).Success? ==> Feed(st, lines + [piece]) == Failure(BadLevel(""))
  {
    LexOutcome(piece);
    LexRawAgrees(piece);
    assert (lines + [piece])[..|lines|] == lines;
  }

  // ---------------------------------------------------------------------
  // graph_find and resolve
  // ---------------------------------------------------------------------

  /** `graph_find` of core/core.py: the empty identifier finds nothing; any
      other identifier must be carried by exactly one node, otherwise the
      assertion fails. */
  function FindStrict(g: seq<Node>, id: string): (r: Result<Option<nat>, Error>)
    ensures r == Success(None) <==> id == ""
    ensures r.Success? && r.value.Some? ==>
      var h := r.value.value;
      && h < |g| && g[h].identifier == id
      && forall k | 0 <= k < |g| && g[k].identifier == id :: k == h
    ensures r.Failure? <==> id != "" && (Duplicated(g, id) || forall k | 0 <= k < |g| :: g[k].identifier != id)
    ensures r.Failure? ==> r.error == (if Duplicated(g, id) then Ambiguous(id) else Dangling(id))
  {
    MatchesOfGraph(g, id);
    if id == "" then Success(None)
    else
      var ms := Matches(Ids(g), id);
      if |ms| == 1 then Success(Some(ms[0]))
      else if |ms| == 0 then Failure(Dangling(id))
      else Failure(Ambiguous(id))
  }

  /** The strict lookup agrees with ged2dot.py's except on an identifier no
      node carries, which ged2dot.py answers with nothing. */
  lemma FindStrictAgrees(g: seq<Node>, id: string)
    ensures id == "" || GraphFind(g, id) != Success(None) ==> FindStrict(g, id) == GraphFind(g, id)
    ensures id != "" && GraphFind(g, id) == Success(None) ==> FindStrict(g, id) == Failure(Dangling(id))
  {
  }

  /** The list references of `resolve`: every identifier goes through the
      strict lookup and must yield a node (`assert fams`, `assert child`). */
  function FindAllStrict(g: seq<Node>, ids: seq<string>): Result<seq<nat>, Error>
    decreases |ids|
  {
    if |ids| == 0 then Success([])
    else
      var init :- FindAllStrict(g, ids[..|ids| - 1]);
      var last := ids[|ids| - 1];
      var found :- FindStrict(g, last);
      if found.None? then Failure(Dangling(last)) else Success(init + [found.value])
  }

  /** For list references the strict lookup changes nothing: an identifier
      that is missing fails in both versions, with the same error. */
  lemma {:induction false} FindAllStrictAgrees(g: seq<Node>, ids: seq<string>)
    ensures FindAllStrict(g, ids) == FindAll(g, ids)
    decreases |ids|
  {
    if |ids| > 0 {
      FindAllStrictAgrees(g, ids[..|ids| - 1]);
      FindStrictAgrees(g, ids[|ids| - 1]);
    }
  }

  /** An optional reference the strict lookup accepts. */
  predicate Present(g: seq<Node>, id: string) {
    id == "" || Resolves(g, id)
  }

  /** `Individual.resolve` / `Family.resolve` of core/core.py: like
      ged2dot.py's, with every lookup strict, so an optional reference that
      names no node fails too. */
  function ResolveStrict(n: Node, g: seq<Node>): (r: Result<Node, Error>)
    ensures r.Success? ==> r.value.identifier == n.identifier && r.value.depth == n.depth
  {
    match n
    case Individual(_, _, _, _, _, _, _, _, _, _) =>
      var famc :- FindStrict(g, n.famcId);
      var fams :- FindAllStrict(g, n.famsIds);
      Success(n.(famc := famc, famsList := n.famsList + fams))
    case Family(_, _, _, _, _, _, _, _, _) =>
      var wife :- FindStrict(g, n.wifeId);
      var husb :- FindStrict(g, n.husbId);
      var children :- FindAllStrict(g, n.childIds);
      Success(n.(wife := wife, husb := husb, childList := n.childList + children))
  }

  /** Where the strict resolve succeeds it is ged2dot.py's resolve; where
      ged2dot.py's succeeds the strict one succeeds exactly when every
      optional reference is empty or found. */
  lemma ResolveStrictAgrees(n: Node, g: seq<Node>)
    ensures ResolveStrict(n, g).Success? ==> Resolve(n, g) == ResolveStrict(n, g)
    ensures Resolve(n, g).Success? && n.Individual? ==>
      (ResolveStrict(n, g).Success? <==> Present(g, n.famcId))
    ensures Resolve(n, g).Success? && n.Family? ==>
      (ResolveStrict(n, g).Success? <==> Present(g, n.wifeId) && Present(g, n.husbId))
  {
    if n.Individual? {
      FindStrictAgrees(g, n.famcId);
      FindAllStrictAgrees(g, n.famsIds);
    } else {
      FindStrictAgrees(g, n.wifeId);
      FindStrictAgrees(g, n.husbId);
      FindAllStrictAgrees(g, n.childIds);
    }
  }

  lemma FindStrictOnlyReadsIds(g1: seq<Node>, g2: seq<Node>, id: string)
    requires Ids(g1) == Ids(g2)
    ensures FindStrict(g1, id) == FindStrict(g2, id)
  {
    MatchesOfGraph(g1, id);
    MatchesOfGraph(g2, id);
  }

  lemma {:induction false} FindAllStrictOnlyReadsIds(g1: seq<Node>, g2: seq<Node>, ids: seq<string>)
    requires Ids(g1) == Ids(g2)
    ensures FindAllStrict(g1, ids) == FindAllStrict(g2, ids)
    decreases |ids|
  {
    if |ids| > 0 {
      FindAllStrictOnlyReadsIds(g1, g2, ids[..|ids| - 1]);
      FindStrictOnlyReadsIds(g1, g2, ids[|ids| - 1]);
    }
  }

  /** Resolving only looks at the identifiers of the graph. */
  lemma ResolveStrictOnlyReadsIds(n: Node, g1: seq<Node>, g2: seq<Node>)
    requires Ids(g1) == Ids(g2)
    ensures ResolveStrict(n, g1) == ResolveStrict(n, g2)
  {
    if n.Individual? {
      FindStrictOnlyReadsIds(g1, g2, n.famcId);
      FindAllStrictOnlyReadsIds(g1, g2, n.famsIds);
    } else {
      FindStrictOnlyReadsIds(g1, g2, n.wifeId);
      FindStrictOnlyReadsIds(g1, g2, n.husbId);
      FindAllStrictOnlyReadsIds(g1, g2, n.childIds);
    }
  }

  /** Every node of the graph resolves strictly against it. */
  predicate AllResolveStrict(g: seq<Node>) {
    forall k | 0 <= k < |g| :: ResolveStrict(g[k], g).Success?
  }

  /** `e` is the error of the first node of `g` that fails to resolve
      strictly. */
  predicate FirstStrictFailure(g: seq<Node>, e: Error) {
    exists k | 0 <= k < |g| ::
      && ResolveStrict(g[k], g) == Failure(e)
      && forall j | 0 <= j < k :: ResolveStrict(g[j], g).Success?
  }

  /** The resolve loop of `main`: every node, in graph order, resolved in
      place with the strict lookups; the first failure aborts. Resolved
      fresh records point only into the graph. */
  method ResolveAllStrict(graph: seq<Node>) returns (r: Result<seq<Node>, Error>)
    ensures r.Success? <==> forall k | 0 <= k < |graph| :: ResolveStrict(graph[k], graph).Success?
    ensures r.Failure? ==> FirstStrictFailure(graph, r.error)
    ensures r.Success? ==>
      && |r.value| == |graph|
      && Ids(r.value) == Ids(graph)
      && forall k | 0 <= k < |graph| :: ResolveStrict(graph[k], graph) == Success(r.value[k])
    ensures r.Success? && (forall k | 0 <= k < |graph| :: Unlinked(graph[k])) ==> Closed(r.value)
  {
    var g := graph;
    var k := 0;
    while k < |g|
      invariant 0 <= k <= |g| == |graph|
      invariant Ids(g) == Ids(graph)
      invariant forall j | 0 <= j < k :: ResolveStrict(graph[j], graph) == Success(g[j])
      invariant forall j | k <= j < |g| :: g[j] == graph[j]
    {
      var res := ResolveStrict(g[k], g);
      assert res == ResolveStrict(graph[k], graph) by {
        ResolveStrictOnlyReadsIds(graph[k], g, graph);
      }
      if res.Failure? {
        assert forall j | 0 <= j < k :: ResolveStrict(graph[j], graph).Success?;
        return Failure(res.error);
      }
      var g' := g[k := res.value];
      assert Ids(g') == Ids(g);
      g := g';
      k := k + 1;
    }
    if forall j | 0 <= j < |graph| :: Unlinked(graph[j]) {
      forall j, h | 0 <= j < |g| && h in Neighbours(g[j], "both") ensures h < |g| {
        ResolveStrictAgrees(graph[j], graph);
        ResolvedLinksInRange(graph[j], graph);
      }
    }
    r := Success(g);
  }

  // ---------------------------------------------------------------------
  // get_neighbours and bfs
  // ---------------------------------------------------------------------

  /** `get_neighbours` of core/core.py, which has no direction: a family
      yields its wife and husband (if set) and its children, an individual
      its parent family (if set) and its own families. These are ged2dot.py's
      neighbours in direction "both". */
  function PrototypeNeighbours(n: Node): (hs: seq<nat>)
    ensures hs == Neighbours(n, "both")
  {
    match n
    case Individual(_, _, famc, _, famsList, _, _, _, _, _) =>
      (if famc.Some? then [famc.value] else []) + famsList
    case Family(_, _, _, wife, _, husb, _, childList, _) =>
      (if wife.Some? then [wife.value] else []) + (if husb.Some? then [husb.value] else []) + childList
  }

  /** The neighbour lists of every node. */
  function PrototypeAdjacency(g: seq<Node>): (adj: seq<seq<nat>>)
    ensures adj == Adjacency(g, "both")
  {
    seq(|g|, u requires 0 <= u < |g| => PrototypeNeighbours(g[u]))
  }

  /** The depth beyond which the prototype's `bfs` stops. */
  const MaxDepth: int := 9

  /** The outcome of a search over the prototype's neighbour lists is the
      walk of ged2dot.py's `bfs` at cutoff 9 in direction "both", and it
      reaches exactly the nodes within the cutoff. */
  lemma SearchIsMainWalk(g: seq<Node>, root: nat, order: seq<nat>, d': seq<int>)
    requires root < |g| && Closed(g)
    requires AdjClosed(Adjacency(g, "both"))
    requires Walk(Adjacency(g, "both"), MaxDepth, [root], 0, Depths(g)) == Traversal(order, d')
    requires SearchResult(Adjacency(g, "both"), MaxDepth, root, Depths(g), order, d')
    ensures BfsWalk(g, root, 4 * 2 + 1, "both") == Traversal(order, d')
    ensures NoDup(order) && (|order| > 0 ==> order[0] == root)
    ensures forall v: nat :: v in order <==> Within(Adjacency(g, "both"), root, v, MaxDepth - g[root].depth)
  {
    assert 4 * 2 + 1 == MaxDepth;
    assert Depths(g)[root] == g[root].depth;
    SearchWithin(Adjacency(g, "both"), MaxDepth, root, Depths(g), order, d', MaxDepth - g[root].depth);
  }

  /** `bfs` of core/core.py: the breadth-first walk from `root` that stops
      at the first dequeued node deeper than 9. It is exactly the walk of
      ged2dot.py's `bfs` with family depth 4 in direction "both"; it returns
      each node at most once, the root first, and exactly the nodes within
      `9 - d0` edges of the root (`d0` the root's depth). */
  method PrototypeBfs(g: seq<Node>, root: nat) returns (ret: seq<nat>, g': seq<Node>)
    requires root < |g| && Closed(g)
    ensures ret == BfsWalk(g, root, 4 * 2 + 1, "both").order
    ensures g' == WithDepths(g, BfsWalk(g, root, 4 * 2 + 1, "both").depths)
    ensures NoDup(ret) && (|ret| > 0 ==> ret[0] == root)
    ensures forall v: nat :: v in ret <==> Within(Adjacency(g, "both"), root, v, MaxDepth - g[root].depth)
  {
    var adj := PrototypeAdjacency(g);
    AdjacencyClosed(g, "both");
    var d';
    ret, d' := Search(adj, MaxDepth, root, Depths(g));
    g' := WithDepths(g, d');
    SearchIsMainWalk(g, root, ret, d');
  }

  // ---------------------------------------------------------------------
  // main
  // ---------------------------------------------------------------------

  /** The family `main` starts from. */
  const RootFamily: string := "F24"

  /** What `main` hands to `export_dot`: the resolved graph, the root
      family and the traversed nodes. */
  datatype Walked = Walked(graph: seq<Node>, root: nat, subgraph: seq<nat>)

  /** `main` up to the export: import, resolve every node, find F24 (its
      absence is a failed lookup) and walk from it. */
  method Pipeline(buf: seq<Unit>) returns (r: Result<Walked, Error>)
    ensures ImportGedcom(buf).Failure? ==> r == Failure(ImportGedcom(buf).error)
    ensures r.Success? ==>
      var (tokenized, w) := (ImportGedcom(buf).value, r.value);
      && ImportGedcom(buf).Success?
      && |w.graph| == |tokenized|
      && (forall k | 0 <= k < |tokenized| :: ResolveStrict(tokenized[k], tokenized) == Success(w.graph[k]))
      && w.root < |w.graph| && w.graph[w.root].identifier == RootFamily
      && Closed(w.graph)
      && w.subgraph == BfsWalk(w.graph, w.root, 4 * 2 + 1, "both").order
    ensures ImportGedcom(buf).Success? ==>
      var t := ImportGedcom(buf).value;
      && (!AllResolveStrict(t) ==> r.Failure? && FirstStrictFailure(t, r.error))
      && (AllResolveStrict(t) ==> (r.Success? <==> FindStrict(t, RootFamily).Success?))
      && (AllResolveStrict(t) && r.Failure? ==> r.error == FindStrict(t, RootFamily).error)
  {
    var tokenized :- ImportGedcom(buf);
    var resolved :- ResolveAllStrict(tokenized);
    FindStrictOnlyReadsIds(resolved, tokenized, RootFamily);
    var found :- FindStrict(resolved, RootFamily);
    var root := found.value;
    var subgraph, _ := PrototypeBfs(resolved, root);
    r := Success(Walked(resolved, root, subgraph));
  }
}
