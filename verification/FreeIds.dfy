/**
 When a run finds its ids unused, told by the requests alone, and a run that does not: the AE's row that the next
 create takes.
 */
module FreeIds {
  import opened Options
  import opened Text
  import opened Store
  import opened OneM2M
  import opened ResourceTree
  import opened History
  import opened Admission
  import Addressing

  // ------------------------------------------------------------------ a condition on the requests

  predicate IsCreate(e: Event) { e.Submit? && IsResource(e.req.content) }

  /** An AE that registers under an originator of its own. */
  predicate BringsId(e: Event) { IsCreate(e) && e.req.content.Ae? && !Anonymous(e.req.from) }

  /** An originator that is no generated id, no path and nothing the service is configured with. */
  ghost predicate OwnId(cfg: Config, from: string) {
    !LooksGenerated(from) && '/' !in from && from != cfg.ri && from != cfg.name
  }

  /** The names a create can come to: the submitted one, or else the default for an id it may be given. */
  ghost predicate MayName(e: Event, name: string)
    requires IsCreate(e)
  {
    var c := e.req.content;
    if c.rn != "" then name == c.rn
    else if BringsId(e) then name == Prefix(c) + e.req.from
    else exists n: nat :: name == Prefix(c) + GeneratedId(n)
  }

  /** Names do not look generated, and an originator that registers is no name of a resource asked for earlier. */
  ghost predicate RequestOk(cfg: Config, events: seq<Event>, k: nat)
    requires k < |events| && IsCreate(events[k])
  {
    && !LooksGenerated(events[k].req.content.rn)
    && (BringsId(events[k]) ==>
          && OwnId(cfg, events[k].req.from)
          && forall j :: 0 <= j < k && IsCreate(events[j]) ==> !MayName(events[j], events[k].req.from))
  }

  /** A condition on what the clients send, in order; no state is looked at. */
  ghost predicate RequestsOk(cfg: Config, events: seq<Event>) {
    forall k :: 0 <= k < |events| && IsCreate(events[k]) ==> RequestOk(cfg, events, k)
  }

  // ------------------------------------------------------------------ where the accepted resources come from

  ghost predicate SourcedBy(c: Created, e: Event) {
    && IsCreate(e) && IsResource(c.content) && c.content == Stored(e.req.content)
    && c.rn == NameDue(e.req, c.ri) && c.creator == CreatorDue(e.req)
    && (if BringsId(e) then c.ri == e.req.from else LooksGenerated(c.ri))
  }

  ghost predicate HasSource(c: Created, events: seq<Event>) {
    exists j :: 0 <= j < |events| && SourcedBy(c, events[j])
  }

  ghost predicate Sourced(log: seq<Created>, events: seq<Event>) {
    forall k :: 0 <= k < |log| ==> HasSource(log[k], events)
  }

  lemma SourcedSnoc(log: seq<Created>, more: seq<Created>, events: seq<Event>, e: Event)
    requires Sourced(log, events)
    requires more == [] || (|more| == 1 && SourcedBy(more[0], e))
    ensures Sourced(log + more, events + [e])
  {
    hide SourcedBy;
    var all, longer := events + [e], log + more;
    forall k | 0 <= k < |longer| ensures HasSource(longer[k], all) {
      if k < |log| {
        assert longer[k] == log[k] && HasSource(log[k], events);
        var j :| 0 <= j < |events| && SourcedBy(log[k], events[j]);
        assert all[j] == events[j];
      } else {
        assert longer[k] == more[0] && all[|events|] == e;
      }
    }
  }

  lemma AcceptedIsSourced(cfg: Config, w: World, req: Request, net: Net) returns (c: Created)
    requires Accepted(cfg, w, req, net)
    ensures Create(w.tables, cfg.ri, w.spid, req, net).1.created == Some(c) && SourcedBy(c, Submit(req, net))
  {
    hide Create, FoundAt, Full, Insert, RowOf, ValidName, LegalChild, NameDue, CreatorDue, GeneratedId;
    var p;
    c, p := AcceptedBelow(cfg, w, req, net);
    assert LooksGenerated(GeneratedId(w.tables.nextId));
  }

  /** Every accepted resource, in every run, is what some request asked for. */
  lemma {:induction false} LogIsSourced(cfg: Config, events: seq<Event>)
    ensures Sourced(Run(cfg, events).log, events)
  {
    hide Create, Boot, SourcedBy;
    if events != [] {
      var n := |events| - 1;
      LogIsSourced(cfg, events[..n]);
      var w, e := Run(cfg, events[..n]), events[n];
      assert events == events[..n] + [e];
      if e.Submit? && Accepted(cfg, w, e.req, e.net) {
        var c := AcceptedIsSourced(cfg, w, e.req, e.net);
        SourcedSnoc(w.log, [c], events[..n], e);
      } else {
        assert w.log + [] == w.log;
        SourcedSnoc(w.log, [], events[..n], e);
      }
      hide Sourced;
    }
  }

  // ------------------------------------------------------------------ ids stay free

  lemma SourceNames(c: Created, e: Event)
    requires SourcedBy(c, e)
    ensures MayName(e, c.rn)
  {
    hide GeneratedId, Anonymous;
    if !BringsId(e) { var n: nat :| c.ri == GeneratedId(n); }
  }

  /** No accepted resource answers to an originator that is new. */
  lemma NoRowMatches(rows: seq<Row>, cfg: Config, log: seq<Created>, events: seq<Event>, from: string, i: nat)
    requires Tree(rows, cfg) && Logged(rows, log) && Sourced(log, events) && i < |rows|
    requires OwnId(cfg, from) && from != "" && !LoggedAe(log, from)
    requires forall j :: 0 <= j < |events| && IsCreate(events[j]) ==> !MayName(events[j], from)
    ensures !Matches(rows[i], from)
  {
    if i > 0 {
      var c := log[i - 1];
      assert HasSource(c, events);
      var j :| 0 <= j < |events| && SourcedBy(c, events[j]);
      assert rows[i] == RowOf(c, rows[i].path);
      PathLength(rows, cfg, i);
      SourceNames(c, events[j]);
      hide Tree, LooksGenerated, MayName, Anonymous;
    }
  }

  lemma BroughtIdIsFree(cfg: Config, events: seq<Event>, e: Event)
    requires ConfigOk(cfg) && Inv(cfg, Run(cfg, events)) && Sourced(Run(cfg, events).log, events)
    requires BringsId(e) && OwnId(cfg, e.req.from)
    requires forall j :: 0 <= j < |events| && IsCreate(events[j]) ==> !MayName(events[j], e.req.from)
    ensures FreeStep(cfg, Run(cfg, events), e)
  {
    var w := Run(cfg, events);
    hide Run;
    var rows, from := w.tables.rows, e.req.from;
    TreeAndLog(cfg, w);
    if Accepted(cfg, w, e.req, e.net) {
      if LoggedAe(w.log, from) { RegistersOnce(cfg, events, e.req, e.net); }
      forall i | 0 <= i < |rows| ensures !Matches(rows[i], from) {
        NoRowMatches(rows, cfg, w.log, events, from, i);
      }
      hide Matches, Create, Tree, Logged, Inv, Sourced, MayName, LoggedAe, OwnId;
    }
  }

  lemma TreeAndLog(cfg: Config, w: World)
    requires Inv(cfg, w)
    ensures Tree(w.tables.rows, cfg) && Logged(w.tables.rows, w.log)
  {
  }

  lemma RequestsOkPrefix(cfg: Config, events: seq<Event>, n: nat)
    requires RequestsOk(cfg, events) && n <= |events|
    ensures RequestsOk(cfg, events[..n])
  {
    forall k | 0 <= k < n && IsCreate(events[..n][k]) ensures RequestOk(cfg, events[..n], k) {
      assert RequestOk(cfg, events, k);
      assert forall j :: 0 <= j < k ==> events[..n][j] == events[j];
      hide OwnId, LooksGenerated;
    }
  }

  /** When the requests keep to their own names and ids, every accepted create finds its id unused. */
  lemma {:induction false} IdsStayFree(cfg: Config, events: seq<Event>)
    requires ConfigOk(cfg) && !LooksGenerated(cfg.name) && !LooksGenerated(cfg.ri) && RequestsOk(cfg, events)
    ensures TidyRun(cfg, events) && FreeRun(cfg, events)
  {
    if events != [] {
      var n := |events| - 1;
      RequestsOkPrefix(cfg, events, n);
      IdsStayFree(cfg, events[..n]);
      RunsKeepTree(cfg, events[..n]);
      LogIsSourced(cfg, events[..n]);
      var w, e := Run(cfg, events[..n]), events[n];
      if IsCreate(e) { assert RequestOk(cfg, events, n); }
      hide Run, FreeRun, Inv, FreeStep, LooksGenerated, Sourced;
      if BringsId(e) {
        assert forall j :: 0 <= j < n ==> events[..n][j] == events[j];
        BroughtIdIsFree(cfg, events[..n], e);
      }
      assert e.Submit? ==> Tidy(e.req);
      hide RequestsOk, Tidy;
    }
    TidyKeepsApart(cfg, events);
  }

  // ------------------------------------------------------------------ a run in which a row is lost

  const SITE := Config("cse-in", "id-in", "/id-in", "acme.example")
  const NOBODY := Net({}, {})

  /** An AE that registers as C2, which is the id the counter gives out next. */
  const REGISTRATION := Request("C2", "/cse-in", Some(2), None, None, Ae("app", [], [], "Nabc", [], []))

  const NEXT_CREATE := Request("C2", "/cse-in", Some(3), None, None, Container("box", [], [], None, None, None))

  /** The CSE's own address, and that of a name below it. */
  lemma Addresses(cfg: Config, id: string, rn: string)
    requires cfg.csi == "/" + id && Addressing.IsSegment(cfg.name) && Addressing.IsSegment(id)
    requires Addressing.IsSegment(cfg.spid) && Addressing.IsSegment(rn) && cfg.name !in {"~", "_", id}
    ensures Target(CseRow(cfg), cfg.spid, "/" + cfg.name) == Addressing.Valid(cfg.name)
    ensures Target(CseRow(cfg), cfg.spid, "/" + (cfg.name + "/" + rn)) == Addressing.Valid(cfg.name + "/" + rn)
  {
    var cse := Addressing.Cse(cfg.name, cfg.csi, cfg.spid);
    assert cse.IdName() == id;
    assert [cfg.name] + [] == [cfg.name] && Addressing.Join([cfg.name]) == cfg.name;
    assert [cfg.name] + [rn] == [cfg.name, rn] && [cfg.name, rn][1..] == [rn];
    assert Addressing.Join([cfg.name, rn]) == cfg.name + "/" + rn;
    assert Addressing.Written(Addressing.CseRelative, cfg.name, [], cse) == "/" + cfg.name;
    assert Addressing.Written(Addressing.CseRelative, cfg.name, [rn], cse) == "/" + (cfg.name + "/" + rn);
    hide Addressing.Canonicalize, Addressing.Join, Addressing.Written;
    Addressing.FormsAgree(Addressing.CseRelative, cfg.name, [], cse);
    Addressing.FormsAgree(Addressing.CseRelative, cfg.name, [rn], cse);
  }

  lemma SiteAddress(spid: string)
    requires spid == SITE.spid
    ensures Target(CseRow(SITE), spid, "/cse-in") == Addressing.Valid("cse-in")
  {
    assert SITE.csi == "/" + "id-in" && "/" + SITE.name == "/cse-in";
    hide Target;
    Addresses(SITE, "id-in", "ab");
  }

  lemma SecondId()
    ensures GeneratedId(2) == "C2" && ValidName("app") && ValidName("box") && !Anonymous("C2") && "C2" != "id-in"
    ensures "id-in" != "" && "cse-in" != "C2" && StripSlash("/id-in") == "id-in"
  {
  }

  /** The only row is the CSE's: its name finds it, and the AE's id finds nothing. */
  lemma SiteLookups()
    ensures var rows := [CseRow(SITE)];
            Resolve(rows, "cse-in") == 0 && Resolve(rows, "C2") == 1 && Load(rows, "cse-in") == Some(CseRow(SITE))
  {
    SecondId();
    var rows := [CseRow(SITE)];
    var i, j := Resolve(rows, "cse-in"), Resolve(rows, "C2");
    hide Resolve, GeneratedId;
    assert rows[0].rn == "cse-in" && rows[0].ri == "id-in" && rows[0].path == "cse-in";
    assert Matches(rows[0], "cse-in") && !Matches(rows[0], "C2");
  }

  lemma RegistrationIsAdmitted()
    ensures AeAnswer(Tables([CseRow(SITE)], 1, map[]), REGISTRATION, CseRow(SITE)) == CREATED
  {
    SecondId();
    NameCharsIff("app");
    hide GeneratedId, ValidName, NameChars;
  }

  lemma RegistrationIsAccepted()
    ensures Accepted(SITE, Start(SITE), REGISTRATION, NOBODY)
    ensures Inv(SITE, Start(SITE)) && Start(SITE).tables == Tables([CseRow(SITE)], 1, map[]) && Start(SITE).spid == SITE.spid
    ensures IdFor(Start(SITE).tables, REGISTRATION) == "C2" && Free(Start(SITE).tables.rows, "C2")
  {
    StartIsTree(SITE);
    SiteLookups();
    SiteAddress(SITE.spid);
    RegistrationIsAdmitted();
    SecondId();
    var w := Start(SITE);
    hide Create, Start, Load, Resolve, AeAnswer, Target, Inv, Accepted, GeneratedId, ValidName, StripSlash, Anonymous;
    Admits(SITE, w, REGISTRATION, NOBODY, "cse-in", CseRow(SITE));
  }

  /** After the registration: the AE's row, and a counter that has C2 next. */
  lemma AfterRegistration() returns (ae: Row)
    ensures var w1 := Step(SITE, Start(SITE), Submit(REGISTRATION, NOBODY));
            && Inv(SITE, w1) && w1.tables == Tables([CseRow(SITE), ae], 2, map["C2" := "C2"]) && w1.spid == SITE.spid
    ensures ae.ri == "C2" && ae.rn == "app" && ae.path == "cse-in/app" && ae.attrs.AeAttrs? && ae.attrs.aei == "C2"
  {
    var w := Start(SITE);
    RegistrationIsAccepted();
    hide Create, Start, Inv, Free, FoundAt, IdFor, Full, Insert, ValidName, LegalChild, Resolve;
    StepKeepsInv(SITE, w, Submit(REGISTRATION, NOBODY)) by { hide Step, Accepted; }
    var c, p := FreeCreateAppends(SITE, w, REGISTRATION, NOBODY);
    ae := RowOf(c, "cse-in" + "/" + "app");
    assert c.rn == "app" && w.tables.rows[p] == CseRow(SITE);
    assert "cse-in" + "/" + "app" == "cse-in/app";
  }

  /** The CSE is still found by its name and by its id. */
  lemma SecondLookups(w: Row)
    ensures var rows := [CseRow(SITE), w];
            && Resolve(rows, "cse-in") == 0 && Load(rows, "cse-in") == Some(CseRow(SITE))
            && CseBase(rows, SITE.ri) == Some(CseRow(SITE))
  {
    SiteLookups();
    var rows := [CseRow(SITE), w];
    assert rows == [CseRow(SITE)] + [w];
    assert Resolve([CseRow(SITE)], "id-in") == 0;
    hide Resolve;
    ResolveSnoc([CseRow(SITE)], w, "cse-in");
    ResolveSnoc([CseRow(SITE)], w, "id-in");
  }

  /** C2 finds the second row. */
  lemma C2Lookup(w: Row)
    requires w.ri == "C2" && !w.attrs.SubAttrs?
    ensures Load([CseRow(SITE), w], "C2") == Some(w)
  {
    SiteLookups();
    assert [CseRow(SITE), w] == [CseRow(SITE)] + [w];
    hide Resolve;
    ResolveSnoc([CseRow(SITE)], w, "C2");
    assert Matches(w, "C2");
  }

  lemma NextIsAnswered(t: Tables)
    ensures ContainerAnswer(t, NEXT_CREATE, CseRow(SITE)) == CREATED
  {
    SecondId();
    NameCharsIff("box");
    hide GeneratedId, ValidName, NameChars;
  }

  lemma NextIsAccepted(ae: Row, w1: World)
    requires Inv(SITE, w1) && w1.tables == Tables([CseRow(SITE), ae], 2, map["C2" := "C2"]) && w1.spid == SITE.spid
    requires ae.ri == "C2" && ae.rn == "app" && ae.path == "cse-in/app"
    ensures Accepted(SITE, w1, NEXT_CREATE, NOBODY)
  {
    NextIsAnswered(w1.tables);
    assert AnswerBelow(w1.tables, NEXT_CREATE, CseRow(SITE), NOBODY) == ContainerAnswer(w1.tables, NEXT_CREATE, CseRow(SITE)) by {
      hide ContainerAnswer;
    }
    assert IsResource(NEXT_CREATE.content) && NEXT_CREATE.from != "" && NEXT_CREATE.to == "/cse-in";
    hide *;
    SiteRow();
    SecondLookups(ae);
    SiteAddress(SITE.spid);
    Admits(SITE, w1, NEXT_CREATE, NOBODY, "cse-in", CseRow(SITE));
  }

  lemma ReplacedRow(ae: Row, w: Row)
    requires ae.ri == "C2" && w.ri == "C2"
    ensures Upsert([CseRow(SITE), ae], w) == [CseRow(SITE), w]
  {
    SecondId();
    var rows := [CseRow(SITE), ae];
    hide GeneratedId, ValidName;
    assert rows[1..] == [ae] && [ae][1..] == [] && Without([], "C2") == [];
    assert Without([ae], "C2") == [] && Without(rows, "C2") == [CseRow(SITE)];
  }

  /** What the second create was accepted as. */
  lemma BoxAsCreated(t: Tables, t': Tables, c: Created, parent: Row)
    requires t.nextId == 2 && Accepts(t, t', c, NEXT_CREATE, parent)
    ensures IsResource(c.content) && c.content.Container? && c.pi == parent.ri && c.ri == "C2" && c.rn == "box"
    ensures t'.aes == t.aes && Insert(t.rows, RowOf(c, "")) == Some(t'.rows)
  {
    SecondId();
    hide Insert, GeneratedId, ValidName, LegalChild, CreatorDue;
  }

  lemma RowParts(c: Created, path: string)
    requires IsResource(c.content) && c.content.Container?
    ensures var w := RowOf(c, path);
            && w.ri == c.ri && w.rn == c.rn && w.pi == c.pi && w.path == path && w.attrs.CntAttrs?
            && RowOf(c, "").(path := path) == w
  {
  }

  /** The second create's row takes the place of the first one's. */
  lemma BoxReplaces(t: Tables, t': Tables, c: Created, ae: Row)
    requires t == Tables([CseRow(SITE), ae], 2, map["C2" := "C2"]) && Tree(t.rows, SITE) && ae.ri == "C2"
    requires Accepts(t, t', c, NEXT_CREATE, CseRow(SITE))
    ensures IsResource(c.content) && t'.aes == t.aes && t'.rows == [CseRow(SITE), RowOf(c, "cse-in" + "/" + "box")]
    ensures var w := RowOf(c, "cse-in" + "/" + "box"); w.ri == "C2" && w.rn == "box" && w.path == "cse-in/box" && w.attrs.CntAttrs?
  {
    hide *;
    SiteRow();
    BoxAsCreated(t, t', c, CseRow(SITE));
    var path := "cse-in" + "/" + "box";
    RowParts(c, "");
    RowParts(c, path);
    assert t.rows[0] == CseRow(SITE);
    InsertBelow(t.rows, SITE, RowOf(c, ""), 0);
    assert path == "cse-in/box";
    ReplacedRow(ae, RowOf(c, path));
  }

  lemma SiteRow()
    ensures ConfigOk(SITE) && CseRow(SITE).path == "cse-in" && NEXT_CREATE.to == "/cse-in"
  {
  }

  lemma ParentIsSite(ae: Row, w1: World, p: nat)
    requires w1.tables.rows == [CseRow(SITE), ae] && w1.spid == SITE.spid && FoundAt(SITE, w1, "/cse-in", p)
    ensures p == 0
  {
    SecondLookups(ae);
    SiteAddress(SITE.spid);
    hide Resolve, Target, CseBase, Load;
  }

  /** The container takes the AE's row. */
  lemma AfterNextCreate(ae: Row, w1: World)
    requires Inv(SITE, w1) && w1.tables == Tables([CseRow(SITE), ae], 2, map["C2" := "C2"]) && w1.spid == SITE.spid
    requires ae.ri == "C2" && ae.rn == "app" && ae.path == "cse-in/app"
    requires Accepted(SITE, w1, NEXT_CREATE, NOBODY)
    ensures var w2 := Step(SITE, w1, Submit(NEXT_CREATE, NOBODY));
            var rows := w2.tables.rows;
            && |rows| == 2 && rows[0] == CseRow(SITE) && rows[1].ri == "C2" && rows[1].rn == "box"
            && rows[1].path == "cse-in/box" && rows[1].attrs.CntAttrs?
            && w2.tables.aes == w1.tables.aes && w2.spid == w1.spid
  {
    var t' := Create(w1.tables, SITE.ri, w1.spid, NEXT_CREATE, NOBODY).0;
    hide *;
    TreeAndLog(SITE, w1);
    SiteRow();
    StepIsCreate(SITE, w1, NEXT_CREATE, NOBODY);
    var c, p := AcceptedBelow(SITE, w1, NEXT_CREATE, NOBODY);
    ParentIsSite(ae, w1, p);
    BoxReplaces(w1.tables, t', c, ae);
  }

  /** The checks before the originator's find nothing to refuse. */
  lemma NotRefusedBefore(t: Tables, box: Row)
    requires t.rows == [CseRow(SITE), box] && box.rn == "box"
    ensures AeRefusal(t, REGISTRATION.content, REGISTRATION, CseRow(SITE)) == None
    ensures !Anonymous(REGISTRATION.from)
  {
    SecondId();
    hide GeneratedId, ValidName, StripSlash;
  }

  /** The AE registers again: its name is free, but its originator is still in the ae table. */
  lemma RegistrationIsRefused(w2: World, box: Row)
    requires w2.tables.rows == [CseRow(SITE), box] && w2.spid == SITE.spid && HasAe(w2.tables.aes, "C2")
    requires box.ri == "C2" && box.rn == "box" && box.path == "cse-in/box"
    ensures Create(w2.tables, SITE.ri, w2.spid, REGISTRATION, NOBODY).1 == Refuse(ORIGINATOR_HAS_ALREADY_REGISTERED)
  {
    SecondLookups(box);
    SiteAddress(SITE.spid);
    NotRefusedBefore(w2.tables, box);
    hide Load, CseBase, Target, HasAe, AeRefusal, Anonymous;
  }

  /**
   From the first boot: the AE is accepted as C2, then a container is accepted under the CSE, is given the id C2
   and takes the AE's row. C2 now loads the container; the AE is not found and cannot register again.
   */
  lemma RegisteredAeIsLost()
    ensures Accepted(SITE, Start(SITE), REGISTRATION, NOBODY)
    ensures var w1 := Step(SITE, Start(SITE), Submit(REGISTRATION, NOBODY));
            var w2 := Step(SITE, w1, Submit(NEXT_CREATE, NOBODY));
            && Accepted(SITE, w1, NEXT_CREATE, NOBODY)
            && Load(w1.tables.rows, "C2").Some? && Load(w1.tables.rows, "C2").value.attrs.AeAttrs?
            && Load(w2.tables.rows, "C2").Some? && Load(w2.tables.rows, "C2").value.attrs.CntAttrs?
            && (forall i :: 0 <= i < |w2.tables.rows| ==> !w2.tables.rows[i].attrs.AeAttrs?)
            && Create(w2.tables, SITE.ri, w2.spid, REGISTRATION, NOBODY).1 == Refuse(ORIGINATOR_HAS_ALREADY_REGISTERED)
            && !(w1.tables.rows < w2.tables.rows && Tree(w2.tables.rows, SITE))
  {
    RegistrationIsAccepted();
    var ae := AfterRegistration();
    var w1 := Step(SITE, Start(SITE), Submit(REGISTRATION, NOBODY));
    hide Step, Start, Accepted, Inv, Free, IdFor, GeneratedId, Tree;
    NextIsAccepted(ae, w1);
    AfterNextCreate(ae, w1);
    assert w1.tables.rows[1] == ae;
    var w2 := Step(SITE, w1, Submit(NEXT_CREATE, NOBODY));
    var box := w2.tables.rows[1];
    assert w2.tables.rows == [CseRow(SITE), box];
    C2Lookup(ae);
    C2Lookup(box);
    assert HasAe(w2.tables.aes, "C2") by { assert w2.tables.aes["C2"] == "C2"; }
    RegistrationIsRefused(w2, box);
    assert |w2.tables.rows| == |w1.tables.rows|;
  }

  /** The same run meets the hypotheses of the general statement. */
  lemma LossIsAnInstance()
    ensures var w := Start(SITE);
            && ConfigOk(SITE) && Inv(SITE, w) && Accepted(SITE, w, REGISTRATION, NOBODY)
            && REGISTRATION.content.Ae? && !Anonymous(REGISTRATION.from)
            && REGISTRATION.from == GeneratedId(w.tables.nextId + 1) && Free(w.tables.rows, REGISTRATION.from)
            && Accepted(SITE, Step(SITE, w, Submit(REGISTRATION, NOBODY)), NEXT_CREATE, NOBODY)
            && !NEXT_CREATE.content.Ae?
  {
    RegistrationIsAccepted();
    RegisteredAeIsLost();
    SecondId();
    hide Step, Start, Accepted, Inv, Free, IdFor, GeneratedId, Tree, Anonymous;
  }
}
