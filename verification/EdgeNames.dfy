/**
 Runs from the first boot in which the length of a name decides: a container whose name has two characters, and a
 CSE whose name has one.
 */
module EdgeNames {
  import opened Options
  import opened Text
  import opened Store
  import opened OneM2M
  import opened ResourceTree
  import opened History
  import opened Admission
  import opened FreeIds
  import Addressing

  lemma FirstId()
    ensures GeneratedId(1) == "C1" && ValidName("ab") && ValidName("box")
  {
  }

  /** Of two rows the second is found by a target that is not the first one's. */
  lemma TwoRows(first: Row, second: Row, target: string)
    ensures Resolve([first, second], target)
            == if Matches(first, target) then 0 else if Matches(second, target) then 1 else 2
  {
    var i := Resolve([first, second], target);
    var rows := [first, second];
    hide Resolve, Matches;
    assert i < 2 ==> Matches(rows[i], target);
    assert rows[0] == first && rows[1] == second;
    assert i >= 1 ==> !Matches(rows[0], target);
    assert i == 2 ==> !Matches(rows[1], target);
  }

  lemma SecondLoads(first: Row, second: Row, target: string)
    requires !Matches(first, target) && Matches(second, target) && !second.attrs.SubAttrs?
    ensures Load([first, second], target) == Some(second)
  {
    TwoRows(first, second, target);
    hide Resolve, Matches;
  }

  lemma OneRow(first: Row, target: string)
    ensures Resolve([first], target) == if Matches(first, target) then 0 else 1
  {
  }

  // ------------------------------------------------------------------ a container's name of two characters

  /** The administrator puts a container under the CSE. */
  function PutContainer(rn: string): Request {
    Request(ADMIN, "/cse-in", Some(3), None, None, Container(rn, [], [], None, None, None))
  }

  lemma PutIsAnswered(rn: string)
    requires NameChars(rn)
    ensures ContainerAnswer(Tables([CseRow(SITE)], 1, map[]), PutContainer(rn), CseRow(SITE)) == CREATED
  {
    assert rn != "";
    hide NameChars;
  }

  lemma PutIsAccepted(rn: string)
    requires NameChars(rn)
    ensures var w := Start(SITE);
            && Inv(SITE, w) && w.tables == Tables([CseRow(SITE)], 1, map[]) && w.spid == SITE.spid
            && Accepted(SITE, w, PutContainer(rn), NOBODY) && Free(w.tables.rows, "C1")
            && IdFor(w.tables, PutContainer(rn)) == "C1"
  {
    StartIsTree(SITE);
    SiteLookups();
    SiteAddress(SITE.spid);
    FirstId();
    var w := Start(SITE);
    OneRow(CseRow(SITE), "C1");
    hide Create, Start, Load, Resolve, ContainerAnswer, NameChars, Target, Inv, Accepted, GeneratedId;
    PutIsAnswered(rn);
    Admits(SITE, w, PutContainer(rn), NOBODY, "cse-in", CseRow(SITE));
  }

  lemma FreeStepOf(cfg: Config, w: World, req: Request, net: Net)
    requires Free(w.tables.rows, IdFor(w.tables, req))
    ensures FreeStep(cfg, w, Submit(req, net))
  {
    hide Accepted, Free, IdFor;
  }

  lemma NothingYet()
    ensures Start(SITE).log == []
  {
    hide Boot;
  }

  lemma PutAsCreated(t: Tables, t': Tables, c: Created, parent: Row, rn: string)
    requires t == Tables([CseRow(SITE)], 1, map[]) && Accepts(t, t', c, PutContainer(rn), CseRow(SITE)) && rn != ""
    ensures IsResource(c.content) && c.content == PutContainer(rn).content
    ensures c.ri == "C1" && c.rn == rn && c.pi == "id-in"
    ensures t'.nextId == 2 && t'.aes == map[]
    ensures var w := RowOf(c, "cse-in" + "/" + rn);
            && w.ri == "C1" && w.rn == rn && w.pi == "id-in" && w.path == "cse-in/" + rn
            && w.attrs == CntAttrs(None, None, None)
  {
    assert "cse-in" + "/" + rn == "cse-in/" + rn;
    FirstId();
    hide Insert, GeneratedId, ValidName, LegalChild, CreatorDue;
  }

  lemma PutAppended(rn: string) returns (c: Created, w: Row)
    requires NameChars(rn)
    ensures var w0 := Start(SITE);
            var (t', reply) := Create(w0.tables, SITE.ri, w0.spid, PutContainer(rn), NOBODY);
            t' == Tables([CseRow(SITE), w], 2, map[]) && reply.created == Some(c)
    ensures c.ri == "C1" && c.content == PutContainer(rn).content && c.pi == "id-in"
    ensures w.ri == "C1" && w.rn == rn && w.pi == "id-in" && w.path == "cse-in/" + rn && w.attrs == CntAttrs(None, None, None)
  {
    var w0 := Start(SITE);
    var t' := Create(w0.tables, SITE.ri, w0.spid, PutContainer(rn), NOBODY).0;
    assert rn != "";
    hide *;
    PutIsAccepted(rn);
    SiteRow();
    var p;
    c, p := FreeCreateAppends(SITE, w0, PutContainer(rn), NOBODY);
    assert w0.tables.rows[p] == CseRow(SITE);
    PutAsCreated(w0.tables, t', c, CseRow(SITE), rn);
    w := RowOf(c, "cse-in" + "/" + rn);
    assert [CseRow(SITE)] + [w] == [CseRow(SITE), w];
  }

  /** The container is stored last, below the CSE. */
  lemma AfterPut(rn: string) returns (c: Created, w: Row)
    requires NameChars(rn)
    ensures var w1 := Step(SITE, Start(SITE), Submit(PutContainer(rn), NOBODY));
            && w1.tables == Tables([CseRow(SITE), w], 2, map[]) && w1.spid == SITE.spid && w1.log == [c] && Inv(SITE, w1)
    ensures c.ri == "C1" && c.content == PutContainer(rn).content && c.pi == "id-in"
    ensures w.ri == "C1" && w.rn == rn && w.pi == "id-in" && w.path == "cse-in/" + rn && w.attrs == CntAttrs(None, None, None)
  {
    var w0 := Start(SITE);
    hide *;
    PutIsAccepted(rn);
    SiteRow();
    FreeStepOf(SITE, w0, PutContainer(rn), NOBODY);
    StepKeepsInv(SITE, w0, Submit(PutContainer(rn), NOBODY));
    StepIsCreate(SITE, w0, PutContainer(rn), NOBODY);
    NothingYet();
    c, w := PutAppended(rn);
  }

  lemma ShortAddress(spid: string)
    requires spid == SITE.spid
    ensures Target(CseRow(SITE), spid, "/cse-in/ab") == Addressing.Valid("cse-in/ab")
  {
    assert SITE.csi == "/" + "id-in";
    assert SITE.name + "/" + "ab" == "cse-in/ab" && "/" + "cse-in/ab" == "/cse-in/ab";
    hide Target;
    Addresses(SITE, "id-in", "ab");
  }

  lemma ShortRetrieved(w: Row)
    ensures Retrieve([CseRow(SITE), w], SITE.ri, SITE.spid, ADMIN, "/cse-in/ab") == RefuseRead(NOT_FOUND)
  {
    SecondLookups(w);
    ShortAddress(SITE.spid);
    hide Load, Target, CseBase, RetrieveContainer, RetrieveCin, MatchesTarget;
    assert "cse-in/ab"[..6] == "cse-in";
  }

  /**
   A container named ab is accepted under the CSE, and its own path finds its row, yet a retrieve of that path by
   the administrator is answered with NOT_FOUND.
   */
  lemma TwoCharacterRun()
    ensures Accepted(SITE, Start(SITE), PutContainer("ab"), NOBODY)
    ensures var w1 := Step(SITE, Start(SITE), Submit(PutContainer("ab"), NOBODY));
            var found := Load(w1.tables.rows, "cse-in/ab");
            && found.Some? && found.value.rn == "ab" && found.value.attrs.CntAttrs?
            && Retrieve(w1.tables.rows, SITE.ri, w1.spid, ADMIN, "/cse-in/ab") == RefuseRead(NOT_FOUND)
  {
    PutIsAccepted("ab");
    var c, w := AfterPut("ab");
    assert "cse-in/" + "ab" == "cse-in/ab";
    ShortRetrieved(w);
    SecondLoads(CseRow(SITE), w, "cse-in/ab");
    hide *;
  }

  // ------------------------------------------------------------------ a CSE's name of one character

  const TINY := Config("c", "id-in", "/id-in", "acme.example")
  const BOX := Request(ADMIN, "/c", Some(3), None, None, Container("box", [], [], None, None, None))

  lemma TinyStart()
    ensures Start(TINY).tables == Tables([CseRow(TINY)], 1, map[]) && Start(TINY).spid == TINY.spid
  {
    assert Upsert([], CseRow(TINY)) == [CseRow(TINY)];
  }

  lemma TinyAddresses(spid: string)
    requires spid == TINY.spid
    ensures Target(CseRow(TINY), spid, "/c") == Addressing.Valid("c")
    ensures Target(CseRow(TINY), spid, "/c/box") == Addressing.Valid("c/box")
  {
    assert TINY.csi == "/" + "id-in" && "/" + TINY.name == "/c";
    assert TINY.name + "/" + "box" == "c/box" && "/" + "c/box" == "/c/box";
    hide Target;
    Addresses(TINY, "id-in", "box");
  }

  lemma TinyBase()
    ensures CseBase([CseRow(TINY)], "id-in") == Some(CseRow(TINY)) && Load([CseRow(TINY)], "c") == Some(CseRow(TINY))
  {
    OneRow(CseRow(TINY), "c");
    OneRow(CseRow(TINY), "id-in");
    hide Resolve;
  }

  lemma TinyContainer(t: Tables, c: Created)
    requires t == Tables([CseRow(TINY)], 1, map[]) && c == Created("C1", "box", "id-in", "", BOX.content)
    ensures OneM2M.CreateContainer(t, BOX.content, BOX, "c") == SaveCreated(Take(t), c)
  {
    FirstId();
    TinyBase();
    hide Load, SaveCreated, GeneratedId, ValidName;
  }

  /** What the create makes and saves. */
  lemma TinyCreate() returns (c: Created)
    ensures c.ri == "C1" && c.rn == "box" && c.pi == "id-in" && c.content == BOX.content
    ensures var t := Tables([CseRow(TINY)], 1, map[]);
            Create(t, TINY.ri, TINY.spid, BOX, NOBODY) == SaveCreated(Take(t), c)
  {
    var t := Tables([CseRow(TINY)], 1, map[]);
    c := Created("C1", "box", "id-in", "", BOX.content);
    TinyAddresses(TINY.spid);
    TinyBase();
    TinyContainer(t, c);
    hide CseBase, Target, OneM2M.CreateContainer, SaveCreated;
  }

  /** The walk to a row below the first one, with the slash; the path stored for it, without. */
  lemma TinyPaths(w: Row)
    requires w.ri == "C1" && w.rn == "box" && w.pi == "id-in"
    ensures Insert([CseRow(TINY)], w) == Some([CseRow(TINY), w.(path := "cbox")])
    ensures Walk([CseRow(TINY), w.(path := "cbox")], "C1", 2) == "c/box"
  {
    var rows := [CseRow(TINY)];
    assert FindRi(rows, "id-in") == 0;
    assert Walk(rows, "id-in", 1) == "c" && "c" + "box" == "cbox";
    assert Upsert(rows, w.(path := "cbox")) == rows + [w.(path := "cbox")];
    assert PathFor(rows, "id-in", "box") == Some("cbox");
    assert Insert(rows, w) == Some(Upsert(rows, w.(path := "cbox"))) by { hide Walk, Upsert; }
    assert rows + [w.(path := "cbox")] == [CseRow(TINY), w.(path := "cbox")];
    StoredPathIsWalkIff(rows, w);
    var rows' := [CseRow(TINY), w.(path := "cbox")];
    assert FindRi(rows', "id-in") == 0 && FindRi(rows', "C1") == 1;
    assert "c" + "/" + "box" == "c/box";
  }

  lemma TinyRetrieved(w: Row)
    requires w.ri == "C1" && w.rn == "box" && w.path == "cbox"
    ensures Retrieve([CseRow(TINY), w], TINY.ri, TINY.spid, ADMIN, "/c/box") == RefuseRead(NOT_FOUND)
  {
    TinyAddresses(TINY.spid);
    TwoRows(CseRow(TINY), w, "id-in");
    TwoRows(CseRow(TINY), w, "c/box");
    hide Resolve, Target, RetrieveContainer, RetrieveCin, MatchesTarget;
  }

  /**
   Under a CSE named c a container named box is accepted and stored at cbox, while the walk up its parents gives
   c/box; a retrieve of c/box by the administrator is answered with NOT_FOUND.
   */
  lemma OneCharacterRun()
    ensures !ConfigOk(TINY) && Accepted(TINY, Start(TINY), BOX, NOBODY)
    ensures var w1 := Step(TINY, Start(TINY), Submit(BOX, NOBODY));
            var rows := w1.tables.rows;
            && |rows| == 2 && rows[1].ri == "C1" && rows[1].rn == "box" && rows[1].attrs.CntAttrs?
            && rows[1].path == "cbox" && Walk(rows, "C1", |rows|) == "c/box"
            && Retrieve(rows, TINY.ri, w1.spid, ADMIN, "/c/box") == RefuseRead(NOT_FOUND)
  {
    TinyStart();
    var c := TinyCreate();
    var w := RowOf(c, "");
    TinyPaths(w);
    TinyRetrieved(w.(path := "cbox"));
    hide Start, Create, Insert, Walk, Retrieve;
  }
}
