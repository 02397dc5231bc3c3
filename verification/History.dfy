/**
 Whole runs of the service: a first boot, then create requests (accepted or refused) and reboots that keep the
 database, in any order. Retrieve requests change nothing and may fall anywhere in between.
 */
module History {
  import opened Options
  import opened Text
  import opened Packing
  import opened Store
  import opened OneM2M
  import opened ResourceTree
  import Addressing

  datatype Event = Submit(req: Request, net: Net) | Reboot

  /** The tables and the SP-ID in memory; log and issued record the accepted creates and the ids drawn. */
  datatype World = World(tables: Tables, spid: string, log: seq<Created>, issued: seq<string>)

  function Start(cfg: Config): World {
    var (t, spid) := Boot(Tables([], 1, map[]), cfg);
    World(t, spid, [], [])
  }

  function Step(cfg: Config, w: World, e: Event): World {
    match e
    case Submit(req, net) =>
      var (t, reply) := Create(w.tables, cfg.ri, w.spid, req, net);
      World(t, w.spid,
            if reply.created.Some? then w.log + [reply.created.value] else w.log,
            if t.nextId > w.tables.nextId then w.issued + [GeneratedId(w.tables.nextId)] else w.issued)
    case Reboot =>
      var (t, spid) := Boot(w.tables, cfg);
      w.(tables := t, spid := spid)
  }

  function Run(cfg: Config, events: seq<Event>): World {
    if events == [] then Start(cfg) else Step(cfg, Run(cfg, events[..|events| - 1]), events[|events| - 1])
  }

  // ------------------------------------------------------------------ the invariant of a run

  predicate Accepted(cfg: Config, w: World, req: Request, net: Net) {
    Create(w.tables, cfg.ri, w.spid, req, net).1.created.Some?
  }

  /** An accepted create finds its id unused: no row has it as its id, name or path. */
  predicate FreeStep(cfg: Config, w: World, e: Event) {
    e.Submit? && Accepted(cfg, w, e.req, e.net) ==> Free(w.tables.rows, IdFor(w.tables, e.req))
  }

  predicate FreeRun(cfg: Config, events: seq<Event>) {
    events == [] ||
    (var n := |events| - 1; FreeRun(cfg, events[..n]) && FreeStep(cfg, Run(cfg, events[..n]), events[n]))
  }

  /** The rows after the CSE's are the accepted creates, in the order they were accepted. */
  ghost predicate Logged(rows: seq<Row>, log: seq<Created>) {
    && |rows| == |log| + 1
    && forall k :: 0 <= k < |log| ==> IsResource(log[k].content) && rows[k + 1] == RowOf(log[k], rows[k + 1].path)
  }

  ghost predicate Inv(cfg: Config, w: World) {
    Tree(w.tables.rows, cfg) && Logged(w.tables.rows, w.log)
  }

  lemma StartIsTree(cfg: Config)
    requires ConfigOk(cfg)
    ensures Inv(cfg, Start(cfg)) && Start(cfg).tables == Tables([CseRow(cfg)], 1, map[]) && Start(cfg).spid == cfg.spid
  {
    var rows := [CseRow(cfg)];
    assert Upsert([], CseRow(cfg)) == rows;
    assert FoundById(rows, 0);
  }

  /** A reboot of a live store changes no table; it forgets the SP-ID. */
  lemma RebootResumes(cfg: Config, t: Tables)
    requires ConfigOk(cfg) && Tree(t.rows, cfg)
    ensures Boot(t, cfg) == (t, "")
  {
    assert FoundById(t.rows, 0);
    hide Resolve, Insert;
  }

  /** What an accepted create did: its parent is the row its address leads to, which may hold it. */
  lemma AcceptedBelow(cfg: Config, w: World, req: Request, net: Net) returns (c: Created, p: nat)
    requires Accepted(cfg, w, req, net)
    ensures p < |w.tables.rows| && FoundAt(cfg, w, req.to, p)
    ensures Create(w.tables, cfg.ri, w.spid, req, net).1.created == Some(c)
    ensures Accepts(w.tables, Create(w.tables, cfg.ri, w.spid, req, net).0, c, req, w.tables.rows[p])
  {
    hide Create, Resolve, Full, Insert, ValidName, RowOf, LegalChild, Addressed;
    CreateOutcome(w.tables, cfg.ri, w.spid, req, net);
    c := Create(w.tables, cfg.ri, w.spid, req, net).1.created.value;
    p := Resolve(w.tables.rows, Addressed(w.tables.rows, cfg.ri, w.spid, req.to).value);
  }

  /** The address leads to row p. */
  predicate FoundAt(cfg: Config, w: World, to: string, p: nat) {
    var target := Addressed(w.tables.rows, cfg.ri, w.spid, to);
    target.Some? && Resolve(w.tables.rows, target.value) == p
  }

  lemma IdShape(t: Tables, req: Request)
    ensures IdFor(t, req) != ""
    ensures !req.content.Ae? ==> IdFor(t, req) == GeneratedId(t.nextId) && IdFor(t, req)[0] == 'C'
  {
  }

  /** An accepted create keeps the stored rows and the tree exactly when its id was free; then it adds one row. */
  lemma CreateGrowsIff(cfg: Config, w: World, req: Request, net: Net)
    requires ConfigOk(cfg) && Inv(cfg, w) && Accepted(cfg, w, req, net)
    ensures var (t', reply) := Create(w.tables, cfg.ri, w.spid, req, net);
            && ((w.tables.rows < t'.rows && Tree(t'.rows, cfg)) <==> Free(w.tables.rows, IdFor(w.tables, req)))
            && (Free(w.tables.rows, IdFor(w.tables, req)) ==> Inv(cfg, World(t', w.spid, w.log + [reply.created.value], [])))
  {
    hide Create, Resolve, Full, Insert, ValidName, LegalChild, Tree, AttrsOf, GeneratedId, Matches;
    var c, p := AcceptedBelow(cfg, w, req, net);
    var t' := Create(w.tables, cfg.ri, w.spid, req, net).0;
    IdShape(w.tables, req);
    GrowsIffFree(w.tables.rows, cfg, c, p, t'.rows);
  }

  /** A create with a free id appends the row it answers with below an existing row. */
  lemma FreeCreateAppends(cfg: Config, w: World, req: Request, net: Net) returns (c: Created, p: nat)
    requires ConfigOk(cfg) && Inv(cfg, w) && Accepted(cfg, w, req, net)
    requires Free(w.tables.rows, IdFor(w.tables, req))
    ensures var (t', reply) := Create(w.tables, cfg.ri, w.spid, req, net);
            && p < |w.tables.rows| && FoundAt(cfg, w, req.to, p) && reply.created == Some(c)
            && Accepts(w.tables, t', c, req, w.tables.rows[p])
            && t'.rows == w.tables.rows + [RowOf(c, w.tables.rows[p].path + "/" + c.rn)]
  {
    hide Create, Resolve, Full, Insert, ValidName, LegalChild, Tree, AttrsOf, GeneratedId, Matches, NameDue,
         CreatorDue, FoundAt;
    c, p := AcceptedBelow(cfg, w, req, net);
    IdShape(w.tables, req);
    GrowsIffFree(w.tables.rows, cfg, c, p, Create(w.tables, cfg.ri, w.spid, req, net).0.rows);
  }

  lemma StepKeepsInv(cfg: Config, w: World, e: Event)
    requires ConfigOk(cfg) && Inv(cfg, w) && FreeStep(cfg, w, e)
    ensures Inv(cfg, Step(cfg, w, e))
    ensures w.tables.rows <= Step(cfg, w, e).tables.rows && w.log <= Step(cfg, w, e).log
  {
    hide Create, Tree, Boot, Free, IdFor;
    match e
    case Submit(req, net) =>
      if Accepted(cfg, w, req, net) {
        CreateGrowsIff(cfg, w, req, net);
      } else {
        RefusedKeepsRows(cfg, w, req, net);
      }
    case Reboot => RebootResumes(cfg, w.tables);
  }

  /** A refused create changes no row. */
  lemma RefusedKeepsRows(cfg: Config, w: World, req: Request, net: Net)
    requires !Accepted(cfg, w, req, net)
    ensures Create(w.tables, cfg.ri, w.spid, req, net).0.rows == w.tables.rows
  {
    hide Create, Accepts, Load;
    CreateOutcome(w.tables, cfg.ri, w.spid, req, net);
  }

  /** In every run whose ids are free the rows form a tree and are exactly the accepted creates. */
  lemma {:induction false} RunsKeepTree(cfg: Config, events: seq<Event>)
    requires ConfigOk(cfg) && FreeRun(cfg, events)
    ensures Inv(cfg, Run(cfg, events))
  {
    hide Inv, Step, FreeStep, Start;
    if events == [] {
      StartIsTree(cfg);
    } else {
      var n := |events| - 1;
      RunsKeepTree(cfg, events[..n]);
      StepKeepsInv(cfg, Run(cfg, events[..n]), events[n]);
    }
  }

  /** The table and the log only grow: an earlier state's are prefixes of every later state's. */
  lemma {:induction false} RunsOnlyGrow(cfg: Config, events: seq<Event>, n: nat)
    requires ConfigOk(cfg) && FreeRun(cfg, events) && n <= |events|
    ensures FreeRun(cfg, events[..n])
    ensures Run(cfg, events[..n]).tables.rows <= Run(cfg, events).tables.rows
    ensures Run(cfg, events[..n]).log <= Run(cfg, events).log
  {
    hide Inv, Step, FreeStep, Start;
    if n == |events| {
      assert events[..n] == events;
    } else {
      var m := |events| - 1;
      assert events[..m][..n] == events[..n];
      RunsOnlyGrow(cfg, events[..m], n);
      RunsKeepTree(cfg, events[..m]);
      StepKeepsInv(cfg, Run(cfg, events[..m]), events[m]);
    }
  }

  /** Once a target resolves to a resource, every later state resolves it to the same one. */
  lemma ResolutionIsStable(cfg: Config, events: seq<Event>, n: nat, target: string)
    requires ConfigOk(cfg) && FreeRun(cfg, events) && n <= |events|
    requires Resolve(Run(cfg, events[..n]).tables.rows, target) < |Run(cfg, events[..n]).tables.rows|
    ensures var before, after := Run(cfg, events[..n]).tables.rows, Run(cfg, events).tables.rows;
            Resolve(after, target) == Resolve(before, target) && Load(after, target) == Load(before, target)
  {
    hide Run, Resolve, Loadable, FreeRun;
    RunsOnlyGrow(cfg, events, n);
    var before, after := Run(cfg, events[..n]).tables.rows, Run(cfg, events).tables.rows;
    assert after == before + after[|before|..];
    ResolveAppend(before, after[|before|..], target);
  }

  /** Each stored path is the recursive walk up the parents, in every such run. */
  lemma PathsAgree(cfg: Config, events: seq<Event>, i: nat)
    requires ConfigOk(cfg) && FreeRun(cfg, events) && i < |Run(cfg, events).tables.rows|
    ensures var rows := Run(cfg, events).tables.rows; Walk(rows, rows[i].ri, |rows|) == rows[i].path
  {
    RunsKeepTree(cfg, events);
    var rows := Run(cfg, events).tables.rows;
    hide Run, FreeRun, Tree, Walk;
    WalkIsPath(rows, cfg, i, |rows|);
  }

  // ------------------------------------------------------------------ after a reboot

  /**
   A reboot of a live store keeps the tables and forgets the SP-ID, so that from then on every absolute address
   is answered with NOT_FOUND, for creates and for retrieves.
   */
  lemma AbsoluteAfterReboot(cfg: Config, w: World, req: Request, net: Net, from: string)
    requires ConfigOk(cfg) && Inv(cfg, w)
    requires Addressing.ParsePath(req.to).Some? && Addressing.ParsePath(req.to).value.absolute
    ensures var w' := Step(cfg, w, Reboot);
            && w' == w.(spid := "")
            && Create(w'.tables, cfg.ri, w'.spid, req, net) == (w'.tables, Refuse(NOT_FOUND))
            && Retrieve(w'.tables.rows, cfg.ri, w'.spid, from, req.to) == RefuseRead(NOT_FOUND)
  {
    RebootResumes(cfg, w.tables);
    assert FoundById(w.tables.rows, 0);
    Addressing.NoSpidNoAbsolute(req.to, Addressing.Cse(cfg.name, cfg.csi, ""));
    hide Boot, Resolve, Logged, Addressing.Canonicalize, Addressing.ParsePath, RetrieveTarget, CreateAe, CreateContainer,
         CreateCin, CreateSub;
  }

  // ------------------------------------------------------------------ saves do not fail

  /** In a tree a new row's parent has a path, whichever row it is. */
  lemma SaveSucceeds(t: Tables, cfg: Config, c: Created, p: nat)
    requires ConfigOk(cfg) && Tree(t.rows, cfg) && IsResource(c.content) && p < |t.rows| && c.pi == t.rows[p].ri
    ensures SaveCreated(t, c).1.code == CREATED
  {
    InsertBelow(t.rows, cfg, RowOf(c, ""), p);
    hide Tree, Insert, Upsert;
  }

  /** The parent a create finds is a row, and whatever is saved below it is saved. */
  lemma SavesBelow(t: Tables, cfg: Config, target: string)
    requires ConfigOk(cfg) && Tree(t.rows, cfg) && Load(t.rows, target).Some?
    ensures Saves(t, target)
  {
    forall c: Created | IsResource(c.content) && c.pi == Load(t.rows, target).value.ri
      ensures SaveCreated(Take(t), c).1.code == CREATED
    {
      SaveSucceeds(Take(t), cfg, c, Resolve(t.rows, target));
    }
  }

  /** In a tree no create, of any kind, is answered with an internal error. */
  lemma NoInternalError(cfg: Config, w: World, req: Request, net: Net)
    requires ConfigOk(cfg) && Inv(cfg, w)
    ensures Create(w.tables, cfg.ri, w.spid, req, net).1.code != INTERNAL_SERVER_ERROR
  {
    var t := w.tables;
    assert FoundById(t.rows, 0);
    assert CseBase(t.rows, cfg.ri) == Some(t.rows[0]);
    hide CseBase, Resolve, Tree, Logged, CreateAe, CreateContainer, CreateCin, CreateSub, Load, SaveCreated;
    match Target(t.rows[0], w.spid, req.to)
    case Invalid(_) =>
    case Valid(target) =>
      if Load(t.rows, target).Some? { SavesBelow(t, cfg, target); }
      if req.content.Ae? { AeNoError(t, req, target); }
      else if req.content.Container? { ContainerNoError(t, req, target); }
      else if req.content.Cin? { CinNoError(t, req, target); }
      else if req.content.Sub? { SubNoError(t, req, target, net); }
  }

  ghost predicate Saves(t: Tables, target: string) {
    Load(t.rows, target).Some? ==>
      forall c: Created :: IsResource(c.content) && c.pi == Load(t.rows, target).value.ri
                           ==> SaveCreated(Take(t), c).1.code == CREATED
  }

  lemma AeNoError(t: Tables, req: Request, target: string)
    requires req.content.Ae? && Saves(t, target)
    ensures CreateAe(t, req.content, req, target).1.code != INTERNAL_SERVER_ERROR
  {
    hide Load, SaveCreated, ValidName, HasAe, HasChildNamed, GeneratedId, Take;
  }

  lemma ContainerNoError(t: Tables, req: Request, target: string)
    requires req.content.Container? && Saves(t, target)
    ensures CreateContainer(t, req.content, req, target).1.code != INTERNAL_SERVER_ERROR
  {
    hide Load, SaveCreated, ValidName, GeneratedId, CreatorRefused, Take;
  }

  lemma CinNoError(t: Tables, req: Request, target: string)
    requires req.content.Cin? && Saves(t, target)
    ensures CreateCin(t, req.content, req, target).1.code != INTERNAL_SERVER_ERROR
  {
    hide Load, SaveCreated, ValidName, GeneratedId, CreatorRefused, Full, ValidContentInfo, Take;
  }

  lemma SubNoError(t: Tables, req: Request, target: string, net: Net)
    requires req.content.Sub? && Saves(t, target)
    ensures CreateSub(t, req.content, req, target, net).1.code != INTERNAL_SERVER_ERROR
  {
    hide Load, SaveCreated, ValidName, GeneratedId, CreatorRefused, EventTypesRefused, Verified, PathOf, Watchable,
         SubscriptionCreator, Take;
  }

  // ------------------------------------------------------------------ ids

  /** The ids drawn are C1, C2, ... in every run: refused creates and reboots never give one out again. */
  lemma {:induction false} IssuedInOrder(cfg: Config, events: seq<Event>)
    ensures var w := Run(cfg, events);
            && w.tables.nextId == |w.issued| + 1
            && forall k :: 0 <= k < |w.issued| ==> w.issued[k] == GeneratedId(k + 1)
  {
    hide Create, GeneratedId, Insert, CseBase;
    if events != [] {
      var n := |events| - 1;
      IssuedInOrder(cfg, events[..n]);
      var w := Run(cfg, events[..n]);
      if events[n].Submit? { NextIdAdvances(w.tables, cfg.ri, w.spid, events[n].req, events[n].net); }
      hide Run;
    }
  }

  lemma NextIdAdvances(t: Tables, cseRi: string, spid: string, req: Request, net: Net)
    ensures t.nextId <= Create(t, cseRi, spid, req, net).0.nextId <= t.nextId + 1
  {
    hide Create, Load, Full, Insert, ValidName, LegalChild, RowOf;
    CreateOutcome(t, cseRi, spid, req, net);
  }

  /** No id is ever issued twice. */
  lemma NeverReissued(cfg: Config, events: seq<Event>, j: nat, k: nat)
    requires j < k < |Run(cfg, events).issued|
    ensures Run(cfg, events).issued[j] != Run(cfg, events).issued[k]
  {
    IssuedInOrder(cfg, events);
    hide Run, Dec;
    if Run(cfg, events).issued[j] == Run(cfg, events).issued[k] {
      assert Dec(j + 1) == GeneratedId(j + 1)[1..] && Dec(k + 1) == GeneratedId(k + 1)[1..];
      DecInjective(j + 1, k + 1);
    }
  }

  /** The resources accepted in a run have different ids. */
  lemma LogIdsDiffer(cfg: Config, events: seq<Event>, j: nat, k: nat)
    requires ConfigOk(cfg) && FreeRun(cfg, events) && j < k < |Run(cfg, events).log|
    ensures Run(cfg, events).log[j].ri != Run(cfg, events).log[k].ri
  {
    RunsKeepTree(cfg, events);
    var w := Run(cfg, events);
    hide Run, FreeRun;
    assert w.tables.rows[j + 1].ri == w.log[j].ri && w.tables.rows[k + 1].ri == w.log[k].ri;
    assert FoundById(w.tables.rows, j + 1) && FoundById(w.tables.rows, k + 1);
    hide Resolve, RowOk, Logged;
  }

  // ------------------------------------------------------------------ registrations

  ghost predicate LoggedAe(log: seq<Created>, id: string) {
    exists k :: 0 <= k < |log| && log[k].content.Ae? && log[k].ri == id
  }

  /** The ae table holds the ids of the accepted AEs, each as its own AE-ID. */
  ghost predicate AesAreLogged(aes: map<string, string>, log: seq<Created>) {
    forall id :: (id in aes <==> LoggedAe(log, id)) && (id in aes ==> aes[id] == id && id != "")
  }

  lemma AesSnoc(aes: map<string, string>, log: seq<Created>, c: Created)
    requires AesAreLogged(aes, log) && IsResource(c.content) && c.ri != ""
    ensures AesAreLogged(Registered(aes, RowOf(c, "")), log + [c])
  {
    var aes', log' := Registered(aes, RowOf(c, "")), log + [c];
    assert aes' == if c.content.Ae? then aes[c.ri := c.ri] else aes by { hide Pack, PackEnums; }
    forall id ensures LoggedAe(log', id) <==> LoggedAe(log, id) || (c.content.Ae? && c.ri == id) {
      if LoggedAe(log, id) {
        var k :| 0 <= k < |log| && log[k].content.Ae? && log[k].ri == id;
        assert log'[k] == log[k];
      }
      assert log'[|log|] == c;
    }
    hide LoggedAe, Registered;
  }

  lemma {:induction false} AeTableIsLog(cfg: Config, events: seq<Event>)
    ensures AesAreLogged(Run(cfg, events).tables.aes, Run(cfg, events).log)
  {
    hide AesAreLogged, Create, Insert, CseBase, Accepts, IdFor;
    if events == [] {
      assert AesAreLogged(map[], []) by { NoAes(); }
    } else {
      var n := |events| - 1;
      AeTableIsLog(cfg, events[..n]);
      var w := Run(cfg, events[..n]);
      if events[n].Submit? { AesAfterCreate(cfg, w, events[n].req, events[n].net); }
      hide Run;
    }
  }

  lemma NoAes()
    ensures AesAreLogged(map[], [])
  {
  }

  lemma AesAfterCreate(cfg: Config, w: World, req: Request, net: Net)
    requires AesAreLogged(w.tables.aes, w.log)
    ensures var w' := Step(cfg, w, Submit(req, net)); AesAreLogged(w'.tables.aes, w'.log)
  {
    hide AesAreLogged, Create, Full, Insert, RowOf, Registered, LegalChild, ValidName, NameDue, CreatorDue, IdFor, HasAe, Load;
    CreateOutcome(w.tables, cfg.ri, w.spid, req, net);
    if Accepted(cfg, w, req, net) {
      var c, p := AcceptedBelow(cfg, w, req, net);
      IdShape(w.tables, req);
      AesSnoc(w.tables.aes, w.log, c);
    }
  }

  /** Over every run, whatever becomes of their rows: the registered AE-IDs are those of the AEs ever accepted. */
  lemma RegisteredIff(cfg: Config, events: seq<Event>, id: string)
    ensures HasAe(Run(cfg, events).tables.aes, id) <==> LoggedAe(Run(cfg, events).log, id)
  {
    AeTableIsLog(cfg, events);
    hide Run, LoggedAe;
  }

  /** So an originator is registered once: a second registration is refused in every later state. */
  lemma RegistersOnce(cfg: Config, events: seq<Event>, req: Request, net: Net)
    requires req.content.Ae? && !Anonymous(req.from) && LoggedAe(Run(cfg, events).log, req.from)
    ensures !Accepted(cfg, Run(cfg, events), req, net)
  {
    RegisteredIff(cfg, events, req.from);
    var w := Run(cfg, events);
    hide Run, HasAe, LoggedAe, Create, Full, Insert, RowOf, Registered, LegalChild, ValidName, NameDue, CreatorDue,
         IdFor, FoundAt, Anonymous;
    if Accepted(cfg, w, req, net) { var c, p := AcceptedBelow(cfg, w, req, net); }
  }

  // ------------------------------------------------------------------ when ids are free

  ghost predicate LooksGenerated(s: string) { exists n: nat :: s == GeneratedId(n) }

  /** The client chooses no name, and no AE originator, of the form of a generated id. */
  ghost predicate Tidy(req: Request) {
    IsResource(req.content) ==>
      && !LooksGenerated(req.content.rn)
      && (req.content.Ae? && !Anonymous(req.from) ==> !LooksGenerated(req.from))
  }

  /** Every request is tidy, and an AE that brings its own id brings an unused one. */
  ghost predicate TidyRun(cfg: Config, events: seq<Event>) {
    events == [] ||
    (var n := |events| - 1;
     var w, e := Run(cfg, events[..n]), events[n];
     && TidyRun(cfg, events[..n])
     && (e.Submit? ==> Tidy(e.req))
     && (e.Submit? && e.req.content.Ae? && !Anonymous(e.req.from) ==> FreeStep(cfg, w, e)))
  }

  /** Only ids look generated, and those were issued before. */
  ghost predicate Apart(rows: seq<Row>, nextId: nat) {
    forall i :: 0 <= i < |rows| ==>
      && !LooksGenerated(rows[i].rn) && !LooksGenerated(rows[i].path)
      && forall n: nat :: rows[i].ri == GeneratedId(n) ==> n < nextId
  }

  lemma NoSlash(s: string)
    requires '/' in s
    ensures !LooksGenerated(s)
  {
    forall n: nat ensures s != GeneratedId(n) {
      assert forall x :: x in Dec(n) ==> IsDigit(x);
      hide Dec;
    }
  }

  lemma NextIdIsFree(rows: seq<Row>, nextId: nat)
    requires Apart(rows, nextId)
    ensures Free(rows, GeneratedId(nextId))
  {
    hide GeneratedId;
  }

  /** A default name is no generated id: it starts with another letter. */
  lemma DefaultNameApart(rn: string, c: Content, ri: string)
    requires IsResource(c) && !LooksGenerated(rn)
    ensures !LooksGenerated(if rn != "" then rn else Prefix(c) + ri)
  {
    if rn == "" {
      forall n: nat ensures Prefix(c) + ri != GeneratedId(n) {
        assert (Prefix(c) + ri)[0] == Prefix(c)[0];
        hide Dec;
      }
    }
  }

  lemma {:induction false} TidyKeepsApart(cfg: Config, events: seq<Event>)
    requires ConfigOk(cfg) && !LooksGenerated(cfg.name) && !LooksGenerated(cfg.ri) && TidyRun(cfg, events)
    ensures FreeRun(cfg, events)
    ensures Apart(Run(cfg, events).tables.rows, Run(cfg, events).tables.nextId)
  {
    if events == [] {
      StartIsTree(cfg);
    } else {
      var n := |events| - 1;
      TidyKeepsApart(cfg, events[..n]);
      var w, e := Run(cfg, events[..n]), events[n];
      RunsKeepTree(cfg, events[..n]);
      TidyStep(cfg, w, e);
      hide Step, Apart, FreeStep, Inv, Start;
    }
  }

  lemma TidyStep(cfg: Config, w: World, e: Event)
    requires ConfigOk(cfg) && Inv(cfg, w) && Apart(w.tables.rows, w.tables.nextId)
    requires e.Submit? ==> Tidy(e.req)
    requires e.Submit? && e.req.content.Ae? && !Anonymous(e.req.from) ==> FreeStep(cfg, w, e)
    ensures FreeStep(cfg, w, e)
    ensures var w' := Step(cfg, w, e); Apart(w'.tables.rows, w'.tables.nextId)
  {
    hide Create, Tree, Boot, GeneratedId, Full, Insert, ValidName, LegalChild, AttrsOf, LooksGenerated;
    NextIdIsFree(w.tables.rows, w.tables.nextId);
    match e
    case Submit(req, net) =>
      NextIdAdvances(w.tables, cfg.ri, w.spid, req, net);
      if Accepted(cfg, w, req, net) {
        TidyCreate(cfg, w, req, net);
        AcceptedTakesId(cfg, w, req, net);
      } else {
        RefusedKeepsRows(cfg, w, req, net);
      }
    case Reboot => RebootResumes(cfg, w.tables);
  }

  lemma TidyCreate(cfg: Config, w: World, req: Request, net: Net)
    requires ConfigOk(cfg) && Inv(cfg, w) && Apart(w.tables.rows, w.tables.nextId) && Tidy(req)
    requires Accepted(cfg, w, req, net) && Free(w.tables.rows, IdFor(w.tables, req))
    ensures var t' := Create(w.tables, cfg.ri, w.spid, req, net).0; Apart(t'.rows, w.tables.nextId + 1)
  {
    hide *;
    var c, p := FreeCreateAppends(cfg, w, req, net);
    var path := w.tables.rows[p].path + "/" + c.rn;
    assert path[|w.tables.rows[p].path|] == '/';
    NewRow(w.tables, Create(w.tables, cfg.ri, w.spid, req, net).0, c, req, w.tables.rows[p], path);
    TidyName(req, c.ri);
    NoSlash(path);
    OnlyIssuedId(w.tables, req);
    ApartSnoc(w.tables.rows, RowOf(c, path), w.tables.nextId);
  }

  lemma NewRow(t: Tables, t': Tables, c: Created, req: Request, parent: Row, path: string)
    requires Accepts(t, t', c, req, parent)
    ensures IsResource(c.content) && IsResource(req.content)
    ensures var last := RowOf(c, path); last.ri == IdFor(t, req) && last.rn == NameDue(req, c.ri) && last.path == path
  {
    hide Full, Insert, ValidName, LegalChild, NameDue, CreatorDue, IdFor, HasAe, Registered, AttrsOf;
  }

  lemma TidyName(req: Request, ri: string)
    requires Tidy(req) && IsResource(req.content)
    ensures !LooksGenerated(NameDue(req, ri))
  {
    DefaultNameApart(req.content.rn, req.content, ri);
    hide LooksGenerated, Prefix;
  }

  lemma ApartSnoc(rows: seq<Row>, last: Row, nextId: nat)
    requires Apart(rows, nextId) && !LooksGenerated(last.rn) && !LooksGenerated(last.path)
    requires forall n: nat :: last.ri == GeneratedId(n) ==> n < nextId + 1
    ensures Apart(rows + [last], nextId + 1)
  {
    hide LooksGenerated, GeneratedId;
  }

  lemma OnlyIssuedId(t: Tables, req: Request)
    requires Tidy(req) && IsResource(req.content)
    ensures forall n: nat :: IdFor(t, req) == GeneratedId(n) ==> n < t.nextId + 1
  {
    forall n: nat | IdFor(t, req) == GeneratedId(n) ensures n < t.nextId + 1 {
      if req.content.Ae? && !Anonymous(req.from) {
        assert LooksGenerated(req.from);
        assert false;
      } else {
        assert Dec(n) == GeneratedId(n)[1..] && Dec(t.nextId) == GeneratedId(t.nextId)[1..];
        DecInjective(n, t.nextId);
      }
    }
  }

  /**
   The id that an AE brings may be the next generated one. Then the resource created next takes its place: a
   row with that id is there, and whatever create succeeds keeps it no longer.
   */
  lemma BroughtIdIsLost(cfg: Config, w: World, ae: Request, net: Net, next: Request)
    requires ConfigOk(cfg) && Inv(cfg, w) && Accepted(cfg, w, ae, net)
    requires ae.content.Ae? && !Anonymous(ae.from) && ae.from == GeneratedId(w.tables.nextId + 1)
    requires Free(w.tables.rows, ae.from)
    requires var w1 := Step(cfg, w, Submit(ae, net)); Accepted(cfg, w1, next, net) && !next.content.Ae?
    ensures var w1 := Step(cfg, w, Submit(ae, net));
            var w2 := Step(cfg, w1, Submit(next, net));
            !(w1.tables.rows < w2.tables.rows && Tree(w2.tables.rows, cfg))
  {
    var w1 := Step(cfg, w, Submit(ae, net));
    hide *;
    AfterBroughtId(cfg, w, ae, net);
    StepIsCreate(cfg, w1, next, net);
    CreateGrowsIff(cfg, w1, next, net);
    IdShape(w1.tables, next);
  }

  lemma StepIsCreate(cfg: Config, w: World, req: Request, net: Net)
    ensures var w' := Step(cfg, w, Submit(req, net));
            var (t', reply) := Create(w.tables, cfg.ri, w.spid, req, net);
            && w'.tables == t' && w'.spid == w.spid
            && w'.log == if reply.created.Some? then w.log + [reply.created.value] else w.log
  {
    hide Create;
  }

  /** After an AE has brought the next id, the counter gives out an id that is taken. */
  lemma AfterBroughtId(cfg: Config, w: World, ae: Request, net: Net)
    requires ConfigOk(cfg) && Inv(cfg, w) && Accepted(cfg, w, ae, net)
    requires ae.content.Ae? && !Anonymous(ae.from) && ae.from == GeneratedId(w.tables.nextId + 1)
    requires Free(w.tables.rows, ae.from)
    ensures var w1 := Step(cfg, w, Submit(ae, net));
            && Inv(cfg, w1) && w1.tables.nextId == w.tables.nextId + 1
            && !Free(w1.tables.rows, GeneratedId(w1.tables.nextId))
  {
    var w1 := Step(cfg, w, Submit(ae, net));
    assert IdFor(w.tables, ae) == ae.from && FreeStep(cfg, w, Submit(ae, net)) by { hide Free, Accepted, GeneratedId; }
    var id := GeneratedId(w.tables.nextId + 1);
    assert id != "" by { hide Dec; }
    hide *;
    StepKeepsInv(cfg, w, Submit(ae, net));
    StepIsCreate(cfg, w, ae, net);
    AcceptedTakesId(cfg, w, ae, net);
    var c, p := FreeCreateAppends(cfg, w, ae, net);
    AcceptsId(w, ae, c, w.tables.rows[p], w1.tables);
    TakenId(w.tables.rows, RowOf(c, w.tables.rows[p].path + "/" + c.rn), id);
  }

  lemma AcceptsId(w: World, req: Request, c: Created, parent: Row, t': Tables)
    requires Accepts(w.tables, t', c, req, parent)
    ensures IsResource(c.content) && forall path :: RowOf(c, path).ri == IdFor(w.tables, req)
  {
    hide IdFor, AttrsOf;
  }

  lemma TakenId(rows: seq<Row>, last: Row, id: string)
    requires last.ri == id && id != ""
    ensures !Free(rows + [last], id)
  {
    hide Resolve;
    assert Matches((rows + [last])[|rows|], id);
  }

  lemma AcceptedTakesId(cfg: Config, w: World, req: Request, net: Net)
    requires Accepted(cfg, w, req, net)
    ensures Create(w.tables, cfg.ri, w.spid, req, net).0.nextId == w.tables.nextId + 1
  {
    hide Create, RowOf, Full, ValidName, LegalChild, Insert, NameDue, CreatorDue;
    var c, p := AcceptedBelow(cfg, w, req, net);
  }

  // ------------------------------------------------------------------ the one-character parent path

  lemma {:induction false} WalkAppend(rows: seq<Row>, w: Row, ri: string, fuel: nat)
    requires Walk(rows, ri, fuel) != ""
    ensures Walk(rows + [w], ri, fuel) == Walk(rows, ri, fuel)
    decreases fuel
  {
    var i, j := FindRi(rows, ri), FindRi(rows + [w], ri);
    assert i == j by {
      hide FindRi;
      assert i < |rows| ==> (rows + [w])[i] == rows[i];
      assert j < |rows| ==> (rows + [w])[j] == rows[j];
    }
    if rows[i].pi != "" { WalkAppend(rows, w, rows[i].pi, fuel - 1); }
  }

  /**
   For any rows at all: the path stored for a new row is the one the walk finds exactly when the parent's path
   is not a single character, the case in which the slash is left out.
   */
  lemma StoredPathIsWalkIff(rows: seq<Row>, w: Row)
    requires w.ri != "" && w.pi != "" && (forall k :: 0 <= k < |rows| ==> rows[k].ri != w.ri)
    requires Walk(rows, w.pi, |rows|) != ""
    ensures Insert(rows, w).Some? && |Insert(rows, w).value| == |rows| + 1
    ensures var rows' := Insert(rows, w).value;
            Walk(rows', w.ri, |rows'|) == rows'[|rows|].path <==> |Walk(rows, w.pi, |rows|)| != 1
  {
    var up := Walk(rows, w.pi, |rows|);
    var rows' := Insert(rows, w).value;
    var last := rows'[|rows|];
    assert rows' == rows + [last] && last.ri == w.ri && last.pi == w.pi && last.rn == w.rn;
    WalkAppend(rows, last, w.pi, |rows|);
    assert FindRi(rows', w.ri) == |rows| by { hide FindRi; }
    assert Walk(rows', w.ri, |rows'|) == up + "/" + w.rn;
    assert |up| == 1 ==> last.path == up + w.rn && |last.path| < |up + "/" + w.rn|;
  }
}
