/**
 A run from the first boot in which a subscription under a container watches for content instances, is accepted, and
 is then notified of one.
 */
module NotifiedRun {
  import opened Options
  import opened Text
  import opened Packing
  import opened Store
  import opened OneM2M
  import opened ResourceTree
  import opened History
  import opened Containers
  import opened Admission
  import opened Delivery
  import opened FreeIds
  import EdgeNames
  import Addressing

  const URI := "http://10.0.0.9/n"

  /** The host at URI answers. */
  const HOME := Net({URI}, {URI})

  const WATCH := Request(ADMIN, "/cse-in/box", Some(23), None, None,
    Sub("watch", [], [], Enc([3], [4], [], None, None, None, None, [], false), [URI], false, None, None, None))

  const READING := Request(ADMIN, "/cse-in/box", Some(4), None, None, Cin("t1", ["temp"], [], None, 0, "21.5"))

  const PUT := EdgeNames.PutContainer("box")

  const EVENTS := [Submit(PUT, NOBODY), Submit(WATCH, HOME)]

  lemma BoxAddress(spid: string)
    requires spid == SITE.spid
    ensures Target(CseRow(SITE), spid, "/cse-in/box") == Addressing.Valid("cse-in/box")
  {
    assert SITE.csi == "/" + "id-in";
    assert SITE.name + "/" + "box" == "cse-in/box" && "/" + "cse-in/box" == "/cse-in/box";
    hide Target;
    Addresses(SITE, "id-in", "box");
  }

  lemma OtherIds()
    ensures GeneratedId(2) == "C2" && GeneratedId(3) == "C3" && NameChars("box") && NameChars("watch") && NameChars("t1")
  {
  }

  // ------------------------------------------------------------------ the subscription

  lemma WatchIsAnswered(t: Tables, box: Row)
    requires box.attrs.CntAttrs?
    ensures SubAnswer(t, WATCH, box, HOME) == CREATED
  {
    OtherIds();
    var nu := WATCH.content.nus[0];
    assert nu in WATCH.content.nus && Answers(box, nu, HOME);
    assert AreChildTypes(box.attrs, WATCH.content.enc.chty) by { WatchesInstances(box.attrs); }
    hide NameChars, AreChildTypes, Answers, GeneratedId;
  }

  lemma WatchesInstances(a: Attrs)
    requires a.CntAttrs?
    ensures AreChildTypes(a, [4])
  {
    var cin := READING.content;
    assert IsResource(cin) && TypeNumber(cin) == 4 && LegalChild(a, cin);
    assert IsChildType(a, 4);
  }

  lemma WatchIsAccepted(w: World, box: Row)
    requires Inv(SITE, w) && w.spid == SITE.spid && Load(w.tables.rows, "cse-in/box") == Some(box) && box.attrs.CntAttrs?
    ensures Accepted(SITE, w, WATCH, HOME)
  {
    WatchIsAnswered(w.tables, box);
    assert AnswerBelow(w.tables, WATCH, box, HOME) == SubAnswer(w.tables, WATCH, box, HOME) by { hide SubAnswer; }
    assert IsResource(WATCH.content) && WATCH.from != "" && WATCH.to == "/cse-in/box";
    hide *;
    SiteRow();
    BoxAddress(SITE.spid);
    Admits(SITE, w, WATCH, HOME, "cse-in/box", box);
  }

  // ------------------------------------------------------------------ the instance

  lemma ReadingIsAnswered(t: Tables, box: Row)
    requires box.attrs == CntAttrs(None, None, None)
    ensures CinAnswer(t, READING, box) == CREATED
  {
    OtherIds();
    hide NameChars, GeneratedId, ContainerSize, ChildIds;
  }

  lemma ReadingIsAccepted(w: World, box: Row)
    requires Inv(SITE, w) && w.spid == SITE.spid && Load(w.tables.rows, "cse-in/box") == Some(box)
    requires box.attrs == CntAttrs(None, None, None)
    ensures Accepted(SITE, w, READING, NOBODY)
  {
    ReadingIsAnswered(w.tables, box);
    assert AnswerBelow(w.tables, READING, box, NOBODY) == CinAnswer(w.tables, READING, box) by { hide CinAnswer; }
    assert IsResource(READING.content) && READING.from != "" && READING.to == "/cse-in/box";
    hide *;
    SiteRow();
    BoxAddress(SITE.spid);
    Admits(SITE, w, READING, NOBODY, "cse-in/box", box);
  }

  // ------------------------------------------------------------------ the run

  lemma NamesLookPlain(s: string)
    requires s != "" && s[0] != 'C'
    ensures !LooksGenerated(s)
  {
    forall n: nat ensures s != GeneratedId(n) { assert GeneratedId(n)[0] == 'C'; hide GeneratedId; }
  }

  /** A request that is no registration and names what it makes without a C in front. */
  lemma KeepsToItsName(events: seq<Event>, k: nat)
    requires k < |events| && IsCreate(events[k]) && !events[k].req.content.Ae?
    requires events[k].req.content.rn != "" && events[k].req.content.rn[0] != 'C'
    ensures RequestOk(SITE, events, k)
  {
    NamesLookPlain(events[k].req.content.rn);
    hide LooksGenerated, OwnId, MayName;
  }

  predicate Planned(e: Event) { e == Submit(PUT, NOBODY) || e == Submit(WATCH, HOME) || e == Submit(READING, NOBODY) }

  lemma PlannedNames(e: Event)
    requires Planned(e)
    ensures IsCreate(e) && !e.req.content.Ae? && e.req.content.rn != "" && e.req.content.rn[0] != 'C'
  {
  }

  lemma SiteNames()
    ensures ConfigOk(SITE) && !LooksGenerated(SITE.name) && !LooksGenerated(SITE.ri)
  {
    NamesLookPlain("cse-in");
    NamesLookPlain("id-in");
    hide LooksGenerated;
  }

  lemma RunIsFree(events: seq<Event>)
    requires forall k :: 0 <= k < |events| ==> Planned(events[k])
    ensures FreeRun(SITE, events)
  {
    forall k | 0 <= k < |events| && IsCreate(events[k]) ensures RequestOk(SITE, events, k) {
      hide *;
      PlannedNames(events[k]);
      KeepsToItsName(events, k);
    }
    SiteNames();
    hide LooksGenerated, FreeRun, TidyRun, RequestOk, Planned;
    IdsStayFree(SITE, events);
  }

  lemma EventsArePlanned()
    ensures (forall k :: 0 <= k < |EVENTS| ==> Planned(EVENTS[k])) && Planned(Submit(READING, NOBODY))
  {
  }

  lemma FirstEvent()
    ensures Run(SITE, EVENTS[..1]) == Step(SITE, Start(SITE), Submit(PUT, NOBODY))
    ensures PUT == EdgeNames.PutContainer("box") && PUT.content.Container? && NameChars("box")
  {
    assert EVENTS[..1] == [Submit(PUT, NOBODY)] && EVENTS[..1][..0] == [];
    hide Step, Start;
  }

  lemma BoxPath()
    ensures "cse-in/" + "box" == "cse-in/box" && !Matches(CseRow(SITE), "cse-in/box")
  {
    assert SITE.name == "cse-in";
  }

  lemma MatchedByPath(w: Row, path: string)
    requires path != "" && w.path == path
    ensures Matches(w, path)
  {
  }

  /** After the first create: the container. */
  lemma AfterBox() returns (c: Created, box: Row)
    ensures var w := Run(SITE, EVENTS[..1]);
            && w.tables == Tables([CseRow(SITE), box], 2, map[]) && w.spid == SITE.spid && w.log == [c] && Inv(SITE, w)
            && Load(w.tables.rows, "cse-in/box") == Some(box)
    ensures c.content.Container? && box.ri == "C1" && box.attrs == CntAttrs(None, None, None)
  {
    hide *;
    FirstEvent();
    BoxPath();
    c, box := EdgeNames.AfterPut("box");
    MatchedByPath(box, "cse-in/box");
    EdgeNames.SecondLoads(CseRow(SITE), box, "cse-in/box");
  }

  /** The second create, at whatever state has the container. */
  lemma WatchStep(w1: World, c1: Created, box: Row) returns (c2: Created)
    requires Inv(SITE, w1) && w1.spid == SITE.spid && w1.log == [c1] && w1.tables.nextId == 2
    requires Load(w1.tables.rows, "cse-in/box") == Some(box) && box.ri == "C1" && box.attrs == CntAttrs(None, None, None)
    requires FreeStep(SITE, w1, Submit(WATCH, HOME))
    ensures Accepted(SITE, w1, WATCH, HOME)
    ensures var w := Step(SITE, w1, Submit(WATCH, HOME));
            Inv(SITE, w) && w.spid == SITE.spid && w.log == [c1, c2] && Load(w.tables.rows, "cse-in/box") == Some(box)
    ensures c2.ri == "C2" && c2.pi == "C1" && c2.content == WATCH.content && c2.creator == ADMIN
  {
    assert box.attrs.CntAttrs?;
    hide *;
    WatchIsAccepted(w1, box);
    SiteRow();
    StepKeepsInv(SITE, w1, Submit(WATCH, HOME));
    StepIsCreate(SITE, w1, WATCH, HOME);
    FreeAtStep(w1);
    c2 := WatchAppended(w1, box);
    assert [c1] + [c2] == [c1, c2];
  }

  lemma WatchAppended(w1: World, box: Row) returns (c2: Created)
    requires Inv(SITE, w1) && w1.spid == SITE.spid && w1.tables.nextId == 2
    requires Load(w1.tables.rows, "cse-in/box") == Some(box) && box.ri == "C1"
    requires Accepted(SITE, w1, WATCH, HOME) && Free(w1.tables.rows, IdFor(w1.tables, WATCH))
    ensures var (t', reply) := Create(w1.tables, SITE.ri, w1.spid, WATCH, HOME);
            reply.created == Some(c2) && Load(t'.rows, "cse-in/box") == Some(box)
    ensures c2.ri == "C2" && c2.pi == "C1" && c2.content == WATCH.content && c2.creator == ADMIN
  {
    hide *;
    SiteRow();
    WatchesBox();
    var p;
    c2, p := FreeCreateAppends(SITE, w1, WATCH, HOME);
    BelowBox(w1, box, p);
    WatchAsCreated(w1.tables, Create(w1.tables, SITE.ri, w1.spid, WATCH, HOME).0, c2, box);
    ResolveAppendLoad(w1.tables.rows, RowOf(c2, w1.tables.rows[p].path + "/" + c2.rn), "cse-in/box", box);
  }

  lemma WatchesBox()
    ensures WATCH.to == "/cse-in/box" && READING.to == "/cse-in/box" && WATCH.content.Sub?
  {
  }

  lemma SecondEvent()
    ensures |EVENTS| == 2 && EVENTS[1] == Submit(WATCH, HOME)
    ensures Run(SITE, EVENTS) == Step(SITE, Run(SITE, EVENTS[..1]), Submit(WATCH, HOME))
  {
    hide Step;
  }

  lemma LastIsFree(events: seq<Event>, e: Event)
    requires FreeRun(SITE, events + [e])
    ensures FreeStep(SITE, Run(SITE, events), e)
  {
    assert (events + [e])[..|events|] == events;
    hide FreeStep, Run;
  }

  /** After the second: the subscription under it, as it was submitted. */
  lemma AfterWatch() returns (box: Row, c1: Created, c2: Created)
    ensures var w := Run(SITE, EVENTS);
            && Accepted(SITE, Run(SITE, EVENTS[..1]), WATCH, HOME)
            && Inv(SITE, w) && w.spid == SITE.spid && w.log == [c1, c2] && Load(w.tables.rows, "cse-in/box") == Some(box)
    ensures box.ri == "C1" && box.attrs == CntAttrs(None, None, None) && c1.content.Container?
    ensures c2.ri == "C2" && c2.pi == "C1" && c2.content == WATCH.content && c2.creator == ADMIN
  {
    hide *;
    EventsArePlanned();
    SecondEvent();
    RunIsFree(EVENTS);
    assert EVENTS[..1] + [Submit(WATCH, HOME)] == EVENTS;
    LastIsFree(EVENTS[..1], Submit(WATCH, HOME));
    c1, box := AfterBox();
    c2 := WatchStep(Run(SITE, EVENTS[..1]), c1, box);
  }

  lemma FreeAtStep(w: World)
    requires FreeStep(SITE, w, Submit(WATCH, HOME)) && Accepted(SITE, w, WATCH, HOME)
    ensures Free(w.tables.rows, IdFor(w.tables, WATCH))
  {
    hide Accepted, Free, IdFor;
  }

  lemma BelowBox(w: World, box: Row, p: nat)
    requires Inv(SITE, w) && w.spid == SITE.spid && p < |w.tables.rows| && FoundAt(SITE, w, "/cse-in/box", p)
    requires Load(w.tables.rows, "cse-in/box") == Some(box)
    ensures w.tables.rows[p] == box && WATCH.to == "/cse-in/box"
  {
    assert FoundById(w.tables.rows, 0);
    assert CseBase(w.tables.rows, SITE.ri) == Some(CseRow(SITE));
    BoxAddress(SITE.spid);
    hide Resolve, Target, CseBase, Inv;
  }

  lemma WatchAsCreated(t: Tables, t': Tables, c: Created, box: Row)
    requires t.nextId == 2 && box.ri == "C1" && Accepts(t, t', c, WATCH, box)
    ensures IsResource(c.content) && c.ri == "C2" && c.pi == "C1" && c.content == WATCH.content && c.creator == ADMIN
  {
    OtherIds();
    var nu := WATCH.content.nus[0];
    assert nu in WATCH.content.nus && nu != "" && nu != ADMIN;
    hide Insert, RowOf, GeneratedId, ValidName, LegalChild, Full;
  }

  lemma ResolveAppendLoad(rows: seq<Row>, w: Row, target: string, found: Row)
    requires Load(rows, target) == Some(found)
    ensures Load(rows + [w], target) == Some(found)
  {
    ResolveSnoc(rows, w, target);
    hide Resolve, Loadable;
  }

  // ------------------------------------------------------------------ the notification

  lemma WatchIsDue(c2: Created, c: Content)
    requires c2.ri == "C2" && c2.content == WATCH.content
    requires c == READING.content.(cs := 4)
    ensures IsResource(c) && Due(c2, c) && ToEach(c2) == [("C2", URI)]
  {
  }

  lemma OnlyWatch(c1: Created, c2: Created)
    requires c1.content.Container? && c2.content.Sub? && c2.pi == "C1"
    ensures ChildrenOf([c1, c2], "C1", SUBSCRIPTION_TYPE) == [c2]
  {
    assert [c1, c2][..1] == [c1] && [c1][..0] == [];
    assert TypeOf(c1.content) != SUBSCRIPTION_TYPE && TypeOf(c2.content) == SUBSCRIPTION_TYPE;
    assert ChildrenOf([], "C1", SUBSCRIPTION_TYPE) == [] && ChildrenOf([c1], "C1", SUBSCRIPTION_TYPE) == [];
    assert [] + [c2] == [c2];
  }

  lemma JustOne(c2: Created, c: Content)
    requires IsResource(c) && Due(c2, c)
    ensures c2.content.Sub? && Expected([c2], c) == ToEach(c2)
  {
    assert [c2][..0] == [];
    hide Met, ToEach;
  }

  /**
   A container, then under it a subscription to content instances, whose host answers: both are accepted. The
   instance created there next, labelled though no label is asked for, is delivered to that subscription's URI.
   */
  lemma SubscriberIsNotified()
    ensures FreeRun(SITE, EVENTS) && Accepted(SITE, Run(SITE, EVENTS[..1]), WATCH, HOME)
    ensures var w := Run(SITE, EVENTS);
            && Accepted(SITE, w, READING, NOBODY)
            && CreateAttempts(w.tables, SITE.ri, w.spid, READING, NOBODY) == [("C2", URI)]
  {
    hide *;
    var box, c1, c2 := AfterWatch();
    EventsArePlanned();
    RunIsFree(EVENTS);
    RunIsFree(EVENTS + [Submit(READING, NOBODY)]);
    LastIsFree(EVENTS, Submit(READING, NOBODY));
    SiteRow();
    WatchesBox();
    var w := Run(SITE, EVENTS);
    ReadingIsAccepted(w, box);
    ListsSurvive(w, c1, c2);
    DeliveriesAreExact(SITE, EVENTS, READING, NOBODY);
    var c, p := AcceptedBelow(SITE, w, READING, NOBODY);
    ReadingBelow(w, box, p);
    ReadingAsCreated(w.tables, Create(w.tables, SITE.ri, w.spid, READING, NOBODY).0, c, box);
    OnlyWatch(c1, c2);
    WatchIsDue(c2, c.content);
    JustOne(c2, c.content);
  }

  lemma ReadingBelow(w: World, box: Row, p: nat)
    requires Inv(SITE, w) && w.spid == SITE.spid && p < |w.tables.rows| && FoundAt(SITE, w, READING.to, p)
    requires Load(w.tables.rows, "cse-in/box") == Some(box)
    ensures w.tables.rows[p] == box
  {
    assert READING.to == "/cse-in/box";
    hide *;
    BelowBox(w, box, p);
  }

  lemma ReadingAsCreated(t: Tables, t': Tables, c: Created, box: Row)
    requires box.ri == "C1" && Accepts(t, t', c, READING, box)
    ensures c.pi == "C1" && c.content == READING.content.(cs := 4)
  {
    hide Insert, RowOf, GeneratedId, ValidName, LegalChild, Full, IdFor, NameDue, CreatorDue;
  }

  lemma ListsSurvive(w: World, c1: Created, c2: Created)
    requires w.log == [c1, c2] && c1.content.Container? && c2.content == WATCH.content
    ensures forall s :: s in w.log && s.content.Sub? ==> Survives(s.content.enc.labels) && Survives(s.content.nus)
  {
    UriSurvives();
  }

  lemma UriSurvives()
    ensures Survives([]) && Survives([URI])
  {
  }
}
