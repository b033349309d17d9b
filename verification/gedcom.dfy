/** `GedcomImport` of ged2dot.py: the line scanner and the record builder.

    The input is a sequence of `Unit`s: decoded code points, with `BadByte`
    standing for a byte run that is not valid UTF-8. CR, LF and the ASCII
    whitespace that `bytes.strip()` removes are single-byte characters, so
    cutting lines and stripping them before or after decoding agree.

    Tokenizing is a left fold of `ProcessLine` over the lines; each line is
    first lexed into an `Entry` (its level and the text after the level)
    and then dispatched to the handler for its level. */
module Gedcom {
  import opened Wrappers
  import opened Text
  import opened Graph

  datatype Unit = Char(c: char) | BadByte

  const CR: Unit := Char('\r')
  const LF: Unit := Char('\n')
  const BOM: char := '\U{FEFF}'

  // ---------------------------------------------------------------------
  // lines, strip and decode
  // ---------------------------------------------------------------------

  /** How `tokenize_from_stream` cuts the buffer into lines: on CRLF, unless
      the buffer holds no CR at all, in which case on LF. */
  function Lines(buf: seq<Unit>): seq<seq<Unit>> {
    if CR in buf then Split(buf, [CR, LF]) else Split(buf, [LF])
  }

  /** The lines are exactly the buffer cut at its separators: joined back
      they give the buffer, and no line holds a separator. In a buffer with a
      CR a lone LF therefore stays inside its line. */
  lemma LinesPartitionBuffer(buf: seq<Unit>)
    ensures CR in buf ==> Join([CR, LF], Lines(buf)) == buf
    ensures CR in buf ==> forall k | 0 <= k < |Lines(buf)| :: SepFree(Lines(buf)[k], [CR, LF])
    ensures CR !in buf ==> Join([LF], Lines(buf)) == buf
    ensures CR !in buf ==> forall k | 0 <= k < |Lines(buf)| :: LF !in Lines(buf)[k]
  {
    if CR in buf {
      JoinSplit(buf, [CR, LF]);
      SplitPiecesSepFree(buf, [CR, LF]);
    } else {
      JoinSplit(buf, [LF]);
      SplitPiecesSepFree(buf, [LF]);
      forall k | 0 <= k < |Lines(buf)| ensures LF !in Lines(buf)[k] {
        var p := Lines(buf)[k];
        if LF in p {
          var i :| 0 <= i < |p| && p[i] == LF;
          assert SepAt(p, [LF], i);
        }
      }
    }
  }

  /** What `bytes.strip()` removes. */
  predicate IsAsciiSpaceUnit(u: Unit) {
    u.Char? && IsAsciiWhitespace(u.c)
  }

  /** Text as units. */
  function Encode(s: string): (units: seq<Unit>)
    ensures |units| == |s|
  {
    seq(|s|, i requires 0 <= i < |s| => Char(s[i]))
  }

  /** `safe_utf8_decode` without its exception: `None` when a byte run is
      not valid UTF-8. */
  function Decode(units: seq<Unit>): (r: Option<string>)
    ensures r.Some? <==> forall i | 0 <= i < |units| :: units[i].Char?
    ensures r.Some? ==> Encode(r.value) == units
  {
    if forall i | 0 <= i < |units| :: units[i].Char? then
      var s := seq(|units|, i requires 0 <= i < |units| => units[i].c);
      assert Encode(s) == units;
      Some(s)
    else None
  }

  lemma EncodeInjective(a: string, b: string)
    requires Encode(a) == Encode(b)
    ensures a == b
  {
    forall i | 0 <= i < |a| ensures a[i] == b[i] {
      assert Encode(a)[i] == Char(a[i]) && Encode(b)[i] == Char(b[i]);
    }
  }

  /** Decoding undoes encoding. */
  lemma DecodeEncode(s: string)
    ensures Decode(Encode(s)) == Some(s)
  {
    var u := Encode(s);
    assert forall i | 0 <= i < |u| :: u[i] == Char(s[i]);
    EncodeInjective(Decode(u).value, s);
  }

  // ---------------------------------------------------------------------
  // lexing one line
  // ---------------------------------------------------------------------

  /** A lexed line: its level and the text after the level token
      (`" ".join(tokens[1:])`). */
  datatype Entry = Entry(level: int, rest: string)

  /** The first space-separated token, with one leading BOM removed. */
  function LevelToken(line: string): string {
    var first := Split(line, " ")[0];
    if |first| > 0 && first[0] == BOM then first[1..] else first
  }

  /** Reads the level of a decoded line; a token that is not an integer is
      the `Ged2DotException` of `safe_atoi`. */
  function LexLine(line: string): (r: Result<Entry, Error>)
    ensures r.Failure? <==> !ReadsAsInt(LevelToken(line))
    ensures r.Failure? ==> r.error == BadLevel(LevelToken(line))
  {
    var tokens := Split(line, " ");
    var token := LevelToken(line);
    match ParseInt(token)
    case None => Failure(BadLevel(token))
    case Some(level) => Success(Entry(level, Join(" ", tokens[1..])))
  }

  /** One line of `tokenize_from_stream` up to the level dispatch: strip,
      decode, skip the blank line, read the level. */
  function Lex(piece: seq<Unit>): (r: Result<Option<Entry>, Error>)
    ensures r.Failure? ==> r.error.Undecodable? || r.error.BadLevel?
  {
    match Decode(Strip(piece, IsAsciiSpaceUnit))
    case None => Failure(Undecodable)
    case Some(line) =>
      if line == "" then Success(None)
      else
        var e :- LexLine(line);
        Success(Some(e))
  }

  /** A line is undecodable exactly when a malformed byte survives the
      strip, and blank exactly when it is all ASCII whitespace. */
  lemma LexOutcome(piece: seq<Unit>)
    ensures Lex(piece) == Failure(Undecodable) <==> BadByte in Strip(piece, IsAsciiSpaceUnit)
    ensures Lex(piece) == Success(None) <==> forall i | 0 <= i < |piece| :: IsAsciiSpaceUnit(piece[i])
  {
    var stripped := Strip(piece, IsAsciiSpaceUnit);
    StripEmpty(piece, IsAsciiSpaceUnit);
    match Decode(stripped)
    case None =>
      assert exists i | 0 <= i < |stripped| :: stripped[i] == BadByte;
    case Some(line) =>
      assert BadByte !in stripped;
      assert line == "" <==> stripped == [];
  }

  /** The rest of a line is everything after its first space. */
  lemma RestAfterFirstSpace(t: string, u: string)
    requires ' ' !in t && ReadsAsInt(t)
    ensures LexLine(t + " " + u) == Success(Entry(ParseInt(t).value, u))
  {
    SplitAtFirst(t, u, ' ');
    JoinSplit(u, " ");
    assert Split(t + " " + u, " ")[1..] == Split(u, " ");
    ReadsAsIntHead(t);
  }

  /** A line holding only its level has an empty rest. */
  lemma RestOfBareLevel(t: string)
    requires ' ' !in t && ReadsAsInt(t)
    ensures LexLine(t) == Success(Entry(ParseInt(t).value, ""))
  {
    SplitNoSep(t, ' ');
    ReadsAsIntHead(t);
  }

  /** Whitespace other than a space stays in the level token, and `int()`
      ignores it: the level of "1\t SEX M" is 1 and its rest is "SEX M". */
  lemma WhitespaceAfterLevel(t: string, w: string, u: string)
    requires ' ' !in t && IsIntLiteral(t) && ReadsAsInt(t)
    requires ' ' !in w && forall i | 0 <= i < |w| :: IsPyWhitespace(w[i])
    ensures LexLine(t + w + " " + u) == Success(Entry(ParseInt(t).value, u))
  {
    TokenWithWhitespace(t, w);
    NoSpaceInJoin(t, w);
    assert ParseInt(t + w).Some?;
    RestAfterFirstSpace(t + w, u);
  }

  lemma TokenWithWhitespace(t: string, w: string)
    requires IsIntLiteral(t)
    requires forall i | 0 <= i < |w| :: IsPyWhitespace(w[i])
    ensures ParseInt(t + w) == ParseInt(t)
  {
    assert "" + t + w == t + w;
    ParseIntPadded("", t, w);
  }

  lemma NoSpaceInJoin(t: string, w: string)
    requires ' ' !in t && ' ' !in w
    ensures ' ' !in t + w
  {
  }

  lemma TabAfterLevel()
    ensures LexLine("1\t SEX M") == Success(Entry(1, "SEX M"))
  {
    var one := "1";
    assert one + "\t" + " " + "SEX M" == "1\t SEX M";
    assert Unsigned(one) == one;
    DigitLimit(one);
    assert DigitsValue(one) == 1 by {
      assert one[..0] == "";
    }
    WhitespaceAfterLevel(one, "\t", "SEX M");
  }

  /** One BOM in front of the level token does not break the level: a line
      "﻿0 HEAD" has level 0. This holds on every line, not only the
      first one. */
  lemma BomIgnored(t: string, u: string)
    requires ' ' !in t && ReadsAsInt(t)
    ensures LexLine([BOM] + t + " " + u) == LexLine(t + " " + u)
  {
    ReadsAsIntHead(t);
    BomSplit(t, u);
  }

  lemma BomSplit(t: string, u: string)
    requires ' ' !in t && |t| > 0 && t[0] != BOM
    ensures LevelToken([BOM] + t + " " + u) == LevelToken(t + " " + u) == t
    ensures Split([BOM] + t + " " + u, " ")[1..] == Split(t + " " + u, " ")[1..]
  {
    assert ' ' !in [BOM] + t;
    SplitAtFirst([BOM] + t, u, ' ');
    SplitAtFirst(t, u, ' ');
    assert ([BOM] + t)[1..] == t;
  }

  // ---------------------------------------------------------------------
  // the importer state
  // ---------------------------------------------------------------------

  type IndividualNode = n: Node | n.Individual? witness NewIndividual("")
  type FamilyNode = n: Node | n.Family? witness NewFamily("")

  /** The fields of `GedcomImport`: the record being read (if any), the
      graph built so far, and the flags telling which event a level-2 DATE
      belongs to. */
  datatype Importer = Importer(
    individual: Option<IndividualNode>,
    family: Option<FamilyNode>,
    graph: seq<Node>,
    inBirt: bool,
    inDeat: bool,
    inMarr: bool)

  const Init: Importer := Importer(None, None, [], false, false, false)

  predicate AtMostOneFlag(st: Importer) {
    !(st.inBirt && st.inDeat) && !(st.inBirt && st.inMarr) && !(st.inDeat && st.inMarr)
  }

  /** The invariant the importer keeps: at most one record is pending and
      at most one event flag is raised. */
  predicate Valid(st: Importer) {
    !(st.individual.Some? && st.family.Some?) && AtMostOneFlag(st)
  }

  /** Every record built so far is fresh: no handle filled in, depth 0. */
  predicate Fresh(st: Importer) {
    && (forall k | 0 <= k < |st.graph| :: Unlinked(st.graph[k]) && st.graph[k].depth == 0)
    && (st.individual.Some? ==> Unlinked(st.individual.value) && st.individual.value.depth == 0)
    && (st.family.Some? ==> Unlinked(st.family.value) && st.family.value.depth == 0)
  }

  /** The records a flush would append, in the order it appends them. */
  function Pending(st: Importer): seq<Node> {
    var ind: seq<Node> := if st.individual.Some? then [st.individual.value] else [];
    var fam: seq<Node> := if st.family.Some? then [st.family.value] else [];
    ind + fam
  }

  /** `__reset_flags`: lowers the first raised flag only. */
  function ResetFlags(st: Importer): (r: Importer)
    ensures r == st.(inBirt := r.inBirt, inDeat := r.inDeat, inMarr := r.inMarr)
    ensures AtMostOneFlag(st) ==> !r.inBirt && !r.inDeat && !r.inMarr
  {
    if st.inBirt then st.(inBirt := false)
    else if st.inDeat then st.(inDeat := false)
    else if st.inMarr then st.(inMarr := false)
    else st
  }

  /** Without the invariant one reset is not enough: two raised flags leave
      one raised. */
  lemma ResetFlagsLowersOnlyOne(st: Importer)
    requires st.inBirt && st.inDeat
    ensures ResetFlags(st).inDeat && !AtMostOneFlag(st)
  {
  }

  // ---------------------------------------------------------------------
  // level 0
  // ---------------------------------------------------------------------

  /** The identifier in "@X@ INDI" (`line[1:-6]`). */
  function IndiXref(line: string): string {
    PySlice(line, 1, -6)
  }

  /** The identifier in "@X@ FAM" (`line[1:-5]`). */
  function FamXref(line: string): string {
    PySlice(line, 1, -5)
  }

  /** `__handle_level0`: appends the pending record(s) to the graph, then
      starts an Individual for "@X@ ...INDI" or a Family for "@X@ ...FAM". */
  function HandleLevel0(st: Importer, line: string): (r: Importer)
    ensures r.graph == st.graph + Pending(st)
    ensures r.inBirt == st.inBirt && r.inDeat == st.inDeat && r.inMarr == st.inMarr
    ensures Valid(st) ==> Valid(r)
    ensures Fresh(st) ==> Fresh(r)
    ensures r.individual.Some? <==> StartsWith(line, "@") && EndsWith(line, "INDI")
    ensures r.family.Some? <==> StartsWith(line, "@") && !EndsWith(line, "INDI") && EndsWith(line, "FAM")
    ensures r.individual.Some? ==> r.individual.value == NewIndividual(IndiXref(line))
    ensures r.family.Some? ==> r.family.value == NewFamily(FamXref(line))
  {
    var flushed := st.(individual := None, family := None, graph := st.graph + Pending(st));
    if StartsWith(line, "@") && EndsWith(line, "INDI") then
      flushed.(individual := Some(NewIndividual(IndiXref(line))))
    else if StartsWith(line, "@") && EndsWith(line, "FAM") then
      flushed.(family := Some(NewFamily(FamXref(line))))
    else flushed
  }

  /** "@X@ INDI" starts an Individual named X, "@X@ FAM" a Family named X. */
  lemma RecordStart(x: string)
    ensures IndiXref("@" + x + "@ INDI") == x
    ensures FamXref("@" + x + "@ FAM") == x
    ensures StartsWith("@" + x + "@ INDI", "@") && EndsWith("@" + x + "@ INDI", "INDI")
    ensures StartsWith("@" + x + "@ FAM", "@") && EndsWith("@" + x + "@ FAM", "FAM")
    ensures !EndsWith("@" + x + "@ FAM", "INDI")
  {
    SliceMiddle("@", x, "@ INDI");
    SliceMiddle("@", x, "@ FAM");
    assert ("@" + x + "@ INDI")[..1] == "@";
    assert ("@" + x + "@ FAM")[..1] == "@";
    var f := "@" + x + "@ FAM";
    assert f[|f| - 4..] == " FAM";
  }

  // ---------------------------------------------------------------------
  // level 1
  // ---------------------------------------------------------------------

  /** `line.split(' ')[0]`, the tag of a level-1 line. */
  function Lead(line: string): string {
    Split(line, " ")[0]
  }

  /** `line[6:-1]`: the pointer of "TAG @X@" without its `@` signs. */
  function Pointer(line: string): string {
    PySlice(line, 6, -1)
  }

  /** The tag and pointer of "TAG @X@" for a four-letter tag. */
  lemma TagAndPointer(tag: string, x: string)
    requires |tag| == 4 && ' ' !in tag
    ensures Lead(tag + " @" + x + "@") == tag
    ensures Pointer(tag + " @" + x + "@") == x
  {
    SplitAtFirst(tag, "@" + x + "@", ' ');
    assert tag + " @" + x + "@" == tag + " " + ("@" + x + "@");
    SliceMiddle(tag + " @", x, "@");
    assert tag + " @" + x + "@" == (tag + " @") + x + "@";
  }

  /** `__handle_individual_config`: BIRT and DEAT raise their flag whatever
      record is pending; NOTE stores `line[5:]` on a pending individual. */
  function HandleIndividualConfig(st: Importer, line: string): (r: Importer)
    ensures r.graph == st.graph && r.inMarr == st.inMarr
    ensures r.family == st.family && (r.individual.Some? <==> st.individual.Some?)
    ensures r.individual.Some? ==> r.individual.value.identifier == st.individual.value.identifier
    ensures Lead(line) == "BIRT" ==> r == st.(inBirt := true)
    ensures Lead(line) == "DEAT" ==> r == st.(inDeat := true)
    ensures Lead(line) == "NOTE" && st.individual.Some? ==>
      && r.individual.value.config.note == PySliceFrom(line, 5)
      && r.inBirt == st.inBirt && r.inDeat == st.inDeat
      && r.individual.value == st.individual.value.(config := r.individual.value.config)
      && r.individual.value.config == st.individual.value.config.(note := r.individual.value.config.note)
    ensures Lead(line) !in {"BIRT", "DEAT", "NOTE"} ==> r == st
    ensures Lead(line) == "NOTE" && st.individual.None? ==> r == st
  {
    var lead := Lead(line);
    if lead == "BIRT" then st.(inBirt := true)
    else if lead == "DEAT" then st.(inDeat := true)
    else if lead == "NOTE" && st.individual.Some? then
      var ind := st.individual.value;
      st.(individual := Some(ind.(config := ind.config.(note := PySliceFrom(line, 5)))))
    else st
  }

  /** The level-1 tags that edit a pending individual, and those that edit
      a pending family. */
  const IndividualTags: set<string> := {"SEX", "NAME", "FAMC", "FAMS"}
  const FamilyTags: set<string> := {"HUSB", "WIFE", "CHIL"}

  /** The SEX, NAME, FAMC and FAMS branches of `__handle_level1`. Only the
      parsed fields change; the record keeps its identifier, depth, handles
      and configuration. */
  function UpdateIndividual(ind: IndividualNode, lead: string, line: string): (r: IndividualNode)
    ensures r.identifier == ind.identifier && r.depth == ind.depth && r.config == ind.config
    ensures r.famc == ind.famc && r.famsList == ind.famsList
    ensures r.famsIds == ind.famsIds + (if lead == "FAMS" then [Pointer(line)] else [])
    ensures r.famcId == (if lead == "FAMC" && ind.famcId == "" then Pointer(line) else ind.famcId)
  {
    if lead == "SEX" then
      var tokens := Split(line, " ");
      if |tokens| > 1 then ind.(sex := tokens[1]) else ind
    else if lead == "NAME" then
      var tokens := Split(PySliceFrom(line, 5), "/");
      var named := ind.(forename := PyStrip(tokens[0]));
      if |tokens| > 1 then named.(surname := PyStrip(tokens[1])) else named
    else if lead == "FAMC" then
      if ind.famcId == "" then ind.(famcId := Pointer(line)) else ind
    else if lead == "FAMS" then
      ind.(famsIds := ind.famsIds + [Pointer(line)])
    else ind
  }

  /** The HUSB, WIFE and CHIL branches of `__handle_level1`. */
  function UpdateFamily(fam: FamilyNode, lead: string, line: string): (r: FamilyNode)
    ensures r.identifier == fam.identifier && r.depth == fam.depth && r.marr == fam.marr
    ensures r.wife == fam.wife && r.husb == fam.husb && r.childList == fam.childList
    ensures r.childIds == fam.childIds + (if lead == "CHIL" then [Pointer(line)] else [])
    ensures r.husbId == (if lead == "HUSB" then Pointer(line) else fam.husbId)
    ensures r.wifeId == (if lead == "WIFE" then Pointer(line) else fam.wifeId)
  {
    if lead == "HUSB" then fam.(husbId := Pointer(line))
    else if lead == "WIFE" then fam.(wifeId := Pointer(line))
    else if lead == "CHIL" then fam.(childIds := fam.childIds + [Pointer(line)])
    else fam
  }

  /** The tag dispatch of `__handle_level1`, after the flags are cleared.
      The tags of the two groups are distinct, so testing the groups in turn
      is the source's `elif` chain. Reference tags store `line[6:-1]`; FAMC
      only while none is stored, FAMS and CHIL append, HUSB and WIFE
      overwrite. MARR raises its flag on a pending family, BIRT and DEAT
      theirs on any record. */
  function DispatchTag(st: Importer, line: string): (r: Importer)
    ensures r.graph == st.graph
    ensures (r.individual.Some? <==> st.individual.Some?) && (r.family.Some? <==> st.family.Some?)
    ensures Fresh(st) ==> Fresh(r)
    ensures r.inBirt == (st.inBirt || Lead(line) == "BIRT")
    ensures r.inDeat == (st.inDeat || Lead(line) == "DEAT")
    ensures r.inMarr == (st.inMarr || (Lead(line) == "MARR" && st.family.Some?))
    ensures r.individual.Some? ==> r.individual.value.identifier == st.individual.value.identifier
    ensures r.family.Some? ==> r.family.value.identifier == st.family.value.identifier
  {
    var lead := Lead(line);
    if lead in IndividualTags && st.individual.Some? then
      st.(individual := Some(UpdateIndividual(st.individual.value, lead, line)))
    else if lead in FamilyTags && st.family.Some? then
      st.(family := Some(UpdateFamily(st.family.value, lead, line)))
    else if lead == "MARR" && st.family.Some? then
      st.(inMarr := true)
    else HandleIndividualConfig(st, line)
  }

  /** `__handle_level1`: clears the event flags, then dispatches on the tag.
      Afterwards the flag of the line's own event is the only one raised. */
  function HandleLevel1(st: Importer, line: string): (r: Importer)
    ensures r.graph == st.graph
    ensures (r.individual.Some? <==> st.individual.Some?) && (r.family.Some? <==> st.family.Some?)
    ensures Fresh(st) ==> Fresh(r)
    ensures Valid(st) ==> Valid(r)
    ensures AtMostOneFlag(st) ==>
      && (r.inBirt <==> Lead(line) == "BIRT")
      && (r.inDeat <==> Lead(line) == "DEAT")
      && (r.inMarr <==> Lead(line) == "MARR" && st.family.Some?)
    ensures r.individual.Some? ==> r.individual.value.identifier == st.individual.value.identifier
    ensures r.family.Some? ==> r.family.value.identifier == st.family.value.identifier
  {
    DispatchTag(ResetFlags(st), line)
  }

  /** What one non-boundary entry does to the references of a pending
      individual. */
  lemma StepIndividual(st: Importer, e: Entry)
    requires st.individual.Some? && e.level != 0
    ensures var r := Dispatch(st, e).individual;
      && r.Some?
      && r.value.identifier == st.individual.value.identifier
      && r.value.famsIds == st.individual.value.famsIds
           + (if e.level == 1 && Lead(e.rest) == "FAMS" then [Pointer(e.rest)] else [])
      && r.value.famcId == (if e.level == 1 && Lead(e.rest) == "FAMC" && st.individual.value.famcId == ""
           then Pointer(e.rest) else st.individual.value.famcId)
  {
    if e.level == 1 {
      assert ResetFlags(st).individual == st.individual;
      assert Dispatch(st, e) == DispatchTag(ResetFlags(st), e.rest);
    }
  }

  /** What one non-boundary entry does to the references of a pending
      family. */
  lemma StepFamily(st: Importer, e: Entry)
    requires st.family.Some? && st.individual.None? && e.level != 0
    ensures var r := Dispatch(st, e);
      && r.individual.None? && r.family.Some?
      && r.family.value.identifier == st.family.value.identifier
      && r.family.value.childIds == st.family.value.childIds
           + (if e.level == 1 && Lead(e.rest) == "CHIL" then [Pointer(e.rest)] else [])
      && r.family.value.husbId == (if e.level == 1 && Lead(e.rest) == "HUSB" then Pointer(e.rest) else st.family.value.husbId)
      && r.family.value.wifeId == (if e.level == 1 && Lead(e.rest) == "WIFE" then Pointer(e.rest) else st.family.value.wifeId)
  {
  }

  /** A SEX line without a value leaves the sex alone; "SEX v" sets it. */
  lemma SexLine(st: Importer, v: string)
    requires st.individual.Some? && ' ' !in v
    ensures HandleLevel1(st, "SEX").individual.value.sex == st.individual.value.sex
    ensures HandleLevel1(st, "SEX " + v).individual.value.sex == v
  {
    SplitNoSep("SEX", ' ');
    assert "SEX " + v == "SEX" + " " + v;
    SplitAtFirst("SEX", v, ' ');
    SplitNoSep(v, ' ');
  }

  /** NAME keeps the stripped text before the first `/` as forename and the
      stripped text between the first and the second `/` as surname; the
      suffix after the second `/` is dropped. */
  lemma NameLine(st: Importer, f: string, s: string, suffix: string)
    requires st.individual.Some? && '/' !in f && '/' !in s
    ensures var i := HandleLevel1(st, "NAME " + f + "/" + s + "/" + suffix).individual.value;
      i.forename == PyStrip(f) && i.surname == PyStrip(s)
  {
    var value := f + "/" + s + "/" + suffix;
    assert "NAME " + f + "/" + s + "/" + suffix == "NAME " + value;
    NameValue(value);
    NamePieces(f, s, suffix);
  }

  /** A NOTE line on a pending individual stores everything after the tag
      as the note, and nothing else of the individual changes. */
  lemma NoteLine(st: Importer, v: string)
    requires st.individual.Some?
    ensures var i := HandleLevel1(st, "NOTE " + v).individual.value;
      && i.config.note == v
      && i == st.individual.value.(config := st.individual.value.config.(note := v))
  {
    assert "NOTE " + v == "NOTE" + " " + v;
    SplitAtFirst("NOTE", v, ' ');
  }

  /** "NAME v" has the tag NAME and `v` from index 5 on. */
  lemma NameValue(value: string)
    ensures Lead("NAME " + value) == "NAME"
    ensures PySliceFrom("NAME " + value, 5) == value
  {
    assert "NAME " + value == "NAME" + " " + value;
    SplitAtFirst("NAME", value, ' ');
  }

  lemma NamePieces(f: string, s: string, suffix: string)
    requires '/' !in f && '/' !in s
    ensures var parts := Split(f + "/" + s + "/" + suffix, "/");
      |parts| > 1 && parts[0] == f && parts[1] == s
  {
    assert f + "/" + s + "/" + suffix == f + "/" + (s + "/" + suffix);
    SplitAtFirst(f, s + "/" + suffix, '/');
    SplitAtFirst(s, suffix, '/');
  }

  /** A NAME without `/` sets the forename and keeps the surname. */
  lemma NameWithoutSurname(st: Importer, f: string)
    requires st.individual.Some? && '/' !in f
    ensures var i := HandleLevel1(st, "NAME " + f).individual.value;
      i.forename == PyStrip(f) && i.surname == st.individual.value.surname
  {
    NameValue(f);
    SplitNoSep(f, '/');
  }

  // ---------------------------------------------------------------------
  // level 2
  // ---------------------------------------------------------------------

  /** `rest.rsplit(' ', maxsplit=1)[-1]`: the text after the last space. */
  function LastToken(s: string): string {
    var parts := Split(s, " ");
    parts[|parts| - 1]
  }

  lemma {:induction false} SplitLastPiece<T>(p: seq<T>, y: seq<T>, c: T)
    requires c !in y
    ensures |Split(p + [c] + y, [c])| >= 2
    ensures Split(p + [c] + y, [c])[|Split(p + [c] + y, [c])| - 1] == y
    decreases |p|
  {
    var s := p + [c] + y;
    if |p| == 0 {
      assert s[..1] == [c] && s[1..] == y;
      SplitNoSep(y, c);
    } else {
      assert s[1..] == p[1..] + [c] + y;
      SplitLastPiece(p[1..], y, c);
      if s[..1] == [c] {
        assert s[1..] == s[|[c]|..];
      }
    }
  }

  /** The year of a DATE line is its last space-separated word. */
  lemma LastTokenIsLastWord(p: string, y: string)
    requires ' ' !in y
    ensures LastToken(p + " " + y) == y
  {
    SplitLastPiece(p, y, ' ');
  }

  /** Level 2 of `tokenize_from_stream`: a DATE line sets the birth or death
      year of a pending individual (birth first), or the marriage year of a
      pending family whose MARR flag is raised; any other line is ignored. */
  function HandleLevel2(st: Importer, rest: string): (r: Importer)
    ensures r.graph == st.graph && r.inBirt == st.inBirt && r.inDeat == st.inDeat && r.inMarr == st.inMarr
    ensures (r.individual.Some? <==> st.individual.Some?) && (r.family.Some? <==> st.family.Some?)
    ensures Fresh(st) ==> Fresh(r)
    ensures r != st ==> StartsWith(rest, "DATE")
    ensures r != st && st.individual.Some? ==> st.inBirt || st.inDeat
    ensures r != st && st.individual.None? ==> st.family.Some? && st.inMarr
    ensures st.individual.Some? ==> r.individual.value == st.individual.value.(config := r.individual.value.config)
    ensures st.family.Some? ==> r.family.value == st.family.value.(marr := r.family.value.marr)
    ensures StartsWith(rest, "DATE") && st.individual.Some? && st.inBirt ==>
      r.individual.value.config.birth == LastToken(rest)
    ensures StartsWith(rest, "DATE") && st.individual.Some? && !st.inBirt && st.inDeat ==>
      r.individual.value.config.death == LastToken(rest)
    ensures StartsWith(rest, "DATE") && st.individual.None? && st.family.Some? && st.inMarr ==>
      r.family.value.marr == LastToken(rest)
  {
    if StartsWith(rest, "DATE") then
      var year := LastToken(rest);
      if st.individual.Some? then
        var ind := st.individual.value;
        if st.inBirt then st.(individual := Some(ind.(config := ind.config.(birth := year))))
        else if st.inDeat then st.(individual := Some(ind.(config := ind.config.(death := year))))
        else st
      else if st.family.Some? && st.inMarr then
        st.(family := Some(st.family.value.(marr := year)))
      else st
    else st
  }

  /** A DATE line stores its last word where the raised flag says, both
      for "DATE 1970" and for "DATE ABT 1970". */
  lemma DateRouting(st: Importer, p: string, y: string)
    requires StartsWith(p, "DATE") && ' ' !in y
    ensures var r := HandleLevel2(st, p + " " + y);
      && (st.individual.Some? && st.inBirt ==> r.individual.value.config.birth == y)
      && (st.individual.Some? && !st.inBirt && st.inDeat ==> r.individual.value.config.death == y)
      && (st.individual.None? && st.family.Some? && st.inMarr ==> r.family.value.marr == y)
  {
    var rest := p + " " + y;
    LastTokenIsLastWord(p, y);
    assert rest[..4] == p[..4];
  }

  /** With no flag raised, a level-2 line changes nothing. */
  lemma DateWithoutEvent(st: Importer, rest: string)
    requires !st.inBirt && !st.inDeat && !st.inMarr
    ensures HandleLevel2(st, rest) == st
  {
  }

  // ---------------------------------------------------------------------
  // tokenize_from_stream
  // ---------------------------------------------------------------------

  /** The level dispatch of `tokenize_from_stream`; other levels are
      ignored. */
  function Dispatch(st: Importer, e: Entry): Importer {
    if e.level == 0 then HandleLevel0(st, e.rest)
    else if e.level == 1 then HandleLevel1(st, e.rest)
    else if e.level == 2 then HandleLevel2(st, e.rest)
    else st
  }

  /** One iteration of the line loop. */
  function ProcessLine(st: Importer, piece: seq<Unit>): Result<Importer, Error> {
    match Lex(piece)
    case Failure(e) => Failure(e)
    case Success(None) => Success(st)
    case Success(Some(e)) => Success(Dispatch(st, e))
  }

  /** The line loop over `lines`, starting from `st`. */
  function Run(st: Importer, lines: seq<seq<Unit>>): Result<Importer, Error>
    decreases |lines|
  {
    if |lines| == 0 then Success(st)
    else
      var before :- Run(st, lines[..|lines| - 1]);
      ProcessLine(before, lines[|lines| - 1])
  }

  /** `tokenize_from_stream`: the graph as it stands after the last line.
      There is no flush at the end, so a record still pending is dropped. */
  function TokenizeFromStream(buf: seq<Unit>): (r: Result<seq<Node>, Error>)
    ensures r.Failure? ==> r.error.IsGed2DotException()
  {
    RunIsLexThenSteps(Init, Lines(buf));
    var st :- Run(Init, Lines(buf));
    Success(st.graph)
  }

  // ---------------------------------------------------------------------
  // tokenizing = lexing every line, then running the state machine
  // ---------------------------------------------------------------------

  /** The outcome of lexing each line on its own. */
  function LexEach(lines: seq<seq<Unit>>): (rs: seq<Result<Option<Entry>, Error>>)
    ensures |rs| == |lines|
    ensures forall k | 0 <= k < |lines| :: rs[k] == Lex(lines[k])
  {
    seq(|lines|, k requires 0 <= k < |lines| => Lex(lines[k]))
  }

  /** The entries of a run of line outcomes, blank lines skipped; the first
      failure decides the error. */
  function Collect(rs: seq<Result<Option<Entry>, Error>>): Result<seq<Entry>, Error>
    decreases |rs|
  {
    if |rs| == 0 then Success([])
    else
      var init :- Collect(rs[..|rs| - 1]);
      var e :- rs[|rs| - 1];
      Success(init + (if e.Some? then [e.value] else []))
  }

  /** `rs[k]` is the first failed outcome. */
  predicate FirstFailed(rs: seq<Result<Option<Entry>, Error>>, k: int) {
    && 0 <= k < |rs|
    && rs[k].Failure?
    && forall j | 0 <= j < k :: rs[j].Success?
  }

  /** Collecting succeeds exactly when every outcome is a success. */
  lemma {:induction false} CollectSuccess(rs: seq<Result<Option<Entry>, Error>>)
    ensures Collect(rs).Success? <==> forall k | 0 <= k < |rs| :: rs[k].Success?
    decreases |rs|
  {
    if |rs| > 0 {
      var init := rs[..|rs| - 1];
      CollectSuccess(init);
      assert forall k | 0 <= k < |init| :: init[k] == rs[k];
    }
  }

  /** A failed collection carries the error of the first failed outcome. */
  lemma {:induction false} CollectFailure(rs: seq<Result<Option<Entry>, Error>>)
    requires Collect(rs).Failure?
    ensures exists k :: FirstFailed(rs, k) && rs[k].error == Collect(rs).error
    decreases |rs|
  {
    var init := rs[..|rs| - 1];
    assert forall j | 0 <= j < |init| :: init[j] == rs[j];
    if Collect(init).Failure? {
      CollectFailure(init);
      var k :| FirstFailed(init, k) && init[k].error == Collect(init).error;
      assert FirstFailed(rs, k);
    } else {
      CollectSuccess(init);
      assert FirstFailed(rs, |rs| - 1);
    }
  }

  /** The entries of all lines, blank lines skipped; the first line that
      does not lex decides the error. */
  function LexAll(lines: seq<seq<Unit>>): (r: Result<seq<Entry>, Error>)
    ensures r.Failure? ==> r.error.Undecodable? || r.error.BadLevel?
  {
    if Collect(LexEach(lines)).Failure? then
      CollectFailure(LexEach(lines));
      Collect(LexEach(lines))
    else Collect(LexEach(lines))
  }

  /** Lexing one more line: its outcome is combined with the earlier ones. */
  lemma LexAllSnoc(lines: seq<seq<Unit>>)
    requires |lines| > 0
    ensures var init := lines[..|lines| - 1];
      var last := Lex(lines[|lines| - 1]);
      LexAll(lines) ==
        if LexAll(init).Failure? then Failure(LexAll(init).error)
        else if last.Failure? then Failure(last.error)
        else Success(LexAll(init).value + (if last.value.Some? then [last.value.value] else []))
  {
    assert LexEach(lines)[..|lines| - 1] == LexEach(lines[..|lines| - 1]);
  }

  /** The state machine over lexed entries. */
  function Steps(st: Importer, es: seq<Entry>): Importer
    decreases |es|
  {
    if |es| == 0 then st else Dispatch(Steps(st, es[..|es| - 1]), es[|es| - 1])
  }

  /** The line loop is lexing followed by the state machine: interleaving
      the two changes neither the result nor the error. */
  lemma {:induction false} RunIsLexThenSteps(st: Importer, lines: seq<seq<Unit>>)
    ensures LexAll(lines).Failure? ==> Run(st, lines) == Failure(LexAll(lines).error)
    ensures LexAll(lines).Success? ==> Run(st, lines) == Success(Steps(st, LexAll(lines).value))
    decreases |lines|
  {
    if |lines| > 0 {
      var init := lines[..|lines| - 1];
      RunIsLexThenSteps(st, init);
      LexAllSnoc(lines);
      if LexAll(init).Success? && Lex(lines[|lines| - 1]).Success? {
        var es := LexAll(init).value;
        var e := Lex(lines[|lines| - 1]).value;
        if e.Some? {
          assert (es + [e.value])[..|es|] == es;
        } else {
          assert es + [] == es;
        }
      }
    }
  }

  /** Line `k` is the first line that does not lex. */
  predicate FirstFailure(lines: seq<seq<Unit>>, k: int) {
    && 0 <= k < |lines|
    && Lex(lines[k]).Failure?
    && forall j | 0 <= j < k :: Lex(lines[j]).Success?
  }

  /** Every line lexes. */
  predicate AllLex(lines: seq<seq<Unit>>) {
    forall k | 0 <= k < |lines| :: Lex(lines[k]).Success?
  }

  /** Lexing every line succeeds exactly when each line lexes. */
  lemma LexAllSuccess(lines: seq<seq<Unit>>)
    ensures LexAll(lines).Success? <==> AllLex(lines)
  {
    CollectSuccess(LexEach(lines));
  }

  /** When lexing fails, the first line that does not lex decides the
      error: a line that does not decode or has no integer level. */
  lemma LexAllFirstFailure(lines: seq<seq<Unit>>)
    requires LexAll(lines).Failure?
    ensures exists k :: FirstFailure(lines, k) && Lex(lines[k]).error == LexAll(lines).error
  {
    CollectFailure(LexEach(lines));
    var k :| FirstFailed(LexEach(lines), k) && LexEach(lines)[k].error == LexAll(lines).error;
    assert FirstFailure(lines, k);
  }

  /** `tokenize_from_stream` fails exactly when one of the buffer's lines
      fails to lex, with the error of the first one; otherwise its graph is
      the state machine's over the lexed entries. */
  lemma TokenizeFailure(buf: seq<Unit>)
    ensures TokenizeFromStream(buf).Success? <==> AllLex(Lines(buf))
    ensures TokenizeFromStream(buf).Failure? ==>
      exists k :: FirstFailure(Lines(buf), k) && Lex(Lines(buf)[k]).error == TokenizeFromStream(buf).error
    ensures LexAll(Lines(buf)).Success? ==>
      TokenizeFromStream(buf) == Success(Steps(Init, LexAll(Lines(buf)).value).graph)
  {
    RunIsLexThenSteps(Init, Lines(buf));
    LexAllSuccess(Lines(buf));
    if LexAll(Lines(buf)).Failure? {
      LexAllFirstFailure(Lines(buf));
    }
  }

  // ---------------------------------------------------------------------
  // properties of the state machine
  // ---------------------------------------------------------------------

  lemma {:induction false} StepsAppend(st: Importer, es: seq<Entry>, fs: seq<Entry>)
    ensures Steps(st, es + fs) == Steps(Steps(st, es), fs)
    decreases |fs|
  {
    if |fs| == 0 {
      assert es + fs == es;
    } else {
      StepsAppend(st, es, fs[..|fs| - 1]);
      assert (es + fs)[..|es + fs| - 1] == es + fs[..|fs| - 1];
    }
  }

  /** The state machine keeps its invariant and keeps records fresh. */
  lemma {:induction false} StepsKeepInvariant(st: Importer, es: seq<Entry>)
    requires Valid(st) && Fresh(st)
    ensures Valid(Steps(st, es)) && Fresh(Steps(st, es))
    decreases |es|
  {
    if |es| > 0 {
      StepsKeepInvariant(st, es[..|es| - 1]);
    }
  }

  /** Levels other than 0, 1 and 2 do not matter: dropping those entries
      gives the same state. */
  function KnownLevels(es: seq<Entry>): (r: seq<Entry>)
    ensures forall i | 0 <= i < |r| :: 0 <= r[i].level <= 2
    decreases |es|
  {
    if |es| == 0 then []
    else KnownLevels(es[..|es| - 1]) + (if 0 <= es[|es| - 1].level <= 2 then [es[|es| - 1]] else [])
  }

  lemma {:induction false} OtherLevelsIgnored(st: Importer, es: seq<Entry>)
    ensures Steps(st, KnownLevels(es)) == Steps(st, es)
    decreases |es|
  {
    if |es| > 0 {
      var init := es[..|es| - 1];
      OtherLevelsIgnored(st, init);
      var last := es[|es| - 1];
      if 0 <= last.level <= 2 {
        var k := KnownLevels(init) + [last];
        assert k[..|k| - 1] == KnownLevels(init);
      } else {
        assert KnownLevels(es) == KnownLevels(init) + [];
        assert KnownLevels(init) + [] == KnownLevels(init);
        assert Steps(st, es) == Dispatch(Steps(st, init), last) == Steps(st, init);
      }
    }
  }

  /** Entries inside one record: none of them is level 0. */
  predicate NoBoundary(es: seq<Entry>) {
    forall i | 0 <= i < |es| :: es[i].level != 0
  }

  /** Inside a record the graph does not grow and the pending record stays
      pending. */
  lemma {:induction false} RecordBodyKeepsGraph(st: Importer, es: seq<Entry>)
    requires NoBoundary(es)
    ensures Steps(st, es).graph == st.graph
    ensures Steps(st, es).individual.Some? <==> st.individual.Some?
    ensures Steps(st, es).family.Some? <==> st.family.Some?
    ensures Steps(st, es).individual.Some? ==> Steps(st, es).individual.value.identifier == st.individual.value.identifier
    ensures Steps(st, es).family.Some? ==> Steps(st, es).family.value.identifier == st.family.value.identifier
    decreases |es|
  {
    if |es| > 0 {
      var init := es[..|es| - 1];
      assert NoBoundary(init) by {
        forall i | 0 <= i < |init| ensures init[i].level != 0 {
          assert init[i] == es[i];
        }
      }
      RecordBodyKeepsGraph(st, init);
      StepKeepsRecord(Steps(st, init), es[|es| - 1]);
    }
  }

  /** A non-boundary entry keeps the graph and the pending record. */
  lemma StepKeepsRecord(st: Importer, e: Entry)
    requires e.level != 0
    ensures Dispatch(st, e).graph == st.graph
    ensures Dispatch(st, e).individual.Some? <==> st.individual.Some?
    ensures Dispatch(st, e).family.Some? <==> st.family.Some?
    ensures Dispatch(st, e).individual.Some? ==> Dispatch(st, e).individual.value.identifier == st.individual.value.identifier
    ensures Dispatch(st, e).family.Some? ==> Dispatch(st, e).family.value.identifier == st.family.value.identifier
  {
  }

  /** The pointers of the level-1 lines with the given tag, in input order. */
  function TagPointers(es: seq<Entry>, tag: string): (ps: seq<string>)
    ensures |ps| <= |es|
    decreases |es|
  {
    if |es| == 0 then []
    else
      var e := es[|es| - 1];
      TagPointers(es[..|es| - 1], tag) + (if e.level == 1 && Lead(e.rest) == tag then [Pointer(e.rest)] else [])
  }

  /** The last entry adds its pointer when it carries the tag. */
  lemma TagPointersSnoc(es: seq<Entry>, tag: string)
    requires |es| > 0
    ensures var e := es[|es| - 1];
      var init := TagPointers(es[..|es| - 1], tag);
      && (e.level == 1 && Lead(e.rest) == tag ==> TagPointers(es, tag) == init + [Pointer(e.rest)])
      && (!(e.level == 1 && Lead(e.rest) == tag) ==> TagPointers(es, tag) == init)
  {
    var init := TagPointers(es[..|es| - 1], tag);
    assert init + [] == init;
  }

  /** The first non-empty value, starting with the one already stored. */
  function FirstNonEmpty(cur: string, ps: seq<string>): string
    decreases |ps|
  {
    if cur != "" || |ps| == 0 then cur else FirstNonEmpty(ps[0], ps[1..])
  }

  lemma {:induction false} FirstNonEmptySnoc(cur: string, ps: seq<string>, p: string)
    ensures FirstNonEmpty(cur, ps + [p]) ==
      (if FirstNonEmpty(cur, ps) != "" then FirstNonEmpty(cur, ps) else p)
    decreases |ps|
  {
    if cur == "" && |ps| > 0 {
      assert (ps + [p])[1..] == ps[1..] + [p];
      FirstNonEmptySnoc(ps[0], ps[1..], p);
    }
  }

  /** The last value, or `cur` when there is none. */
  function LastOr(cur: string, ps: seq<string>): string {
    if |ps| == 0 then cur else ps[|ps| - 1]
  }

  /** FAMS lines of an individual's record append in input order, and the
      first non-empty FAMC pointer wins. */
  lemma {:induction false} IndividualReferences(st: Importer, es: seq<Entry>)
    requires st.individual.Some? && NoBoundary(es)
    ensures Steps(st, es).individual.Some?
    ensures Steps(st, es).individual.value.famsIds == st.individual.value.famsIds + TagPointers(es, "FAMS")
    ensures Steps(st, es).individual.value.famcId == FirstNonEmpty(st.individual.value.famcId, TagPointers(es, "FAMC"))
    decreases |es|
  {
    if |es| > 0 {
      var init := es[..|es| - 1];
      assert NoBoundary(init);
      var e := es[|es| - 1];
      IndividualReferences(st, init);
      StepIndividual(Steps(st, init), e);
      TagPointersSnoc(es, "FAMC");
      TagPointersSnoc(es, "FAMS");
      FirstNonEmptySnoc(st.individual.value.famcId, TagPointers(init, "FAMC"), Pointer(e.rest));
    }
  }

  /** CHIL lines of a family's record append in input order; the last HUSB
      and the last WIFE line win. */
  lemma {:induction false} FamilyReferences(st: Importer, es: seq<Entry>)
    requires st.family.Some? && st.individual.None? && NoBoundary(es)
    ensures Steps(st, es).family.Some? && Steps(st, es).individual.None?
    ensures Steps(st, es).family.value.childIds == st.family.value.childIds + TagPointers(es, "CHIL")
    ensures Steps(st, es).family.value.husbId == LastOr(st.family.value.husbId, TagPointers(es, "HUSB"))
    ensures Steps(st, es).family.value.wifeId == LastOr(st.family.value.wifeId, TagPointers(es, "WIFE"))
    decreases |es|
  {
    if |es| > 0 {
      var init := es[..|es| - 1];
      assert NoBoundary(init);
      var e := es[|es| - 1];
      FamilyReferences(st, init);
      StepFamily(Steps(st, init), e);
      TagPointersSnoc(es, "HUSB");
      TagPointersSnoc(es, "WIFE");
      TagPointersSnoc(es, "CHIL");
    }
  }

  /** A record is appended to the graph only by the next level-0 line: an
      individual record followed by a level-0 line lands in the graph with
      the references its lines gave it, while one that ends the input never
      does. */
  lemma IndividualRecord(st: Importer, x: string, body: seq<Entry>, next: string)
    requires NoBoundary(body)
    ensures var open := Steps(st, [Entry(0, "@" + x + "@ INDI")] + body);
      && open.graph == st.graph + Pending(st)
      && open.individual.Some? && open.individual.value.identifier == x
    ensures var closed := Steps(st, [Entry(0, "@" + x + "@ INDI")] + body + [Entry(0, next)]);
      var n := closed.graph[|closed.graph| - 1];
      && |closed.graph| == |st.graph| + |Pending(st)| + 1
      && closed.graph[..|st.graph| + |Pending(st)|] == st.graph + Pending(st)
      && n.Individual? && n.identifier == x
      && n.famsIds == TagPointers(body, "FAMS")
      && n.famcId == FirstNonEmpty("", TagPointers(body, "FAMC"))
  {
    var start := Steps(st, [Entry(0, "@" + x + "@ INDI")]);
    assert Steps(st, [Entry(0, "@" + x + "@ INDI")]) == Dispatch(Steps(st, []), Entry(0, "@" + x + "@ INDI"));
    RecordStart(x);
    assert start.individual == Some(NewIndividual(x));
    assert start.family.None?;
    StepsAppend(st, [Entry(0, "@" + x + "@ INDI")], body);
    RecordBodyKeepsGraph(start, body);
    IndividualReferences(start, body);
    var open := Steps(start, body);
    StepsAppend(st, [Entry(0, "@" + x + "@ INDI")] + body, [Entry(0, next)]);
    assert Steps(open, [Entry(0, next)]) == Dispatch(Steps(open, []), Entry(0, next));
    assert open.family.None?;
    var single: Node := open.individual.value;
    assert Pending(open) == [single];
  }

  // ---------------------------------------------------------------------
  // load
  // ---------------------------------------------------------------------

  /** `GedcomImport.load`: tokenizes, then resolves every node in place.
      Every handle of the loaded graph points into it and every depth is 0. */
  method Load(buf: seq<Unit>) returns (r: Result<seq<Node>, Error>)
    ensures TokenizeFromStream(buf).Failure? ==> r == Failure(TokenizeFromStream(buf).error)
    ensures TokenizeFromStream(buf).Success? ==>
      var g := TokenizeFromStream(buf).value;
      && (r.Success? <==> forall k | 0 <= k < |g| :: Resolve(g[k], g).Success?)
      && (r.Success? ==> |r.value| == |g| && forall k | 0 <= k < |g| :: Resolve(g[k], g) == Success(r.value[k]))
      && (r.Failure? ==> FirstResolveFailure(g, r.error))
    ensures r.Success? ==> Closed(r.value) && forall k | 0 <= k < |r.value| :: r.value[k].depth == 0
  {
    var tokens := TokenizeFromStream(buf);
    if tokens.Failure? {
      return Failure(tokens.error);
    }
    var g := tokens.value;
    RunIsLexThenSteps(Init, Lines(buf));
    StepsKeepInvariant(Init, LexAll(Lines(buf)).value);
    assert forall k | 0 <= k < |g| :: Unlinked(g[k]) && g[k].depth == 0;
    r := ResolveGraph(g);
    if r.Success? {
      forall k, h | 0 <= k < |r.value| && h in Neighbours(r.value[k], "both") ensures h < |r.value| {
        ResolvedLinksInRange(g[k], g);
      }
    }
  }
}
