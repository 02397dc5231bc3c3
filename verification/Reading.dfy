/**
 What a retrieve of a resource by its address is answered with, for every type: told from what was created, by
 whom, and by which request.
 */
module Reading {
  import opened Options
  import opened Text
  import opened Packing
  import opened Store
  import opened OneM2M
  import opened ResourceTree
  import opened History
  import opened Containers
  import opened Access
  import opened FreeIds
  import Delivery
  import Addressing

  // ------------------------------------------------------------------ what a row shows

  /** The row has the attributes of what was created. */
  ghost predicate Shows(w: Row, c: Created) {
    && w.ri == c.ri && w.rn == c.rn && w.pi == c.pi && IsResource(c.content)
    && (Survives(c.content.labels) ==> Unpack(w.labels) == c.content.labels)
    && (Survives(c.content.acpi) ==> Unpack(w.acpi) == c.content.acpi)
    && match c.content
       case Ae(_, _, _, _, _, poa) => w.attrs.AeAttrs? && w.attrs.aei == c.ri && (Survives(poa) ==> Unpack(w.attrs.poa) == poa)
       case Container(_, _, _, mni, mbs, disr) => w.attrs == CntAttrs(mni, mbs, disr)
       case Cin(_, _, _, _, cs, _) => w.attrs == CinAttrs(cs)
       case Sub(_, _, _, _, _, _, _, _, _) => w.attrs.SubAttrs? && w.attrs.sub.creator == c.creator
       case _ => false
  }

  lemma RowShows(c: Created, path: string)
    requires IsResource(c.content)
    ensures Shows(RowOf(c, path), c) && RowOf(c, path).path == path
  {
    PackRoundTrip(c.content.labels);
    PackRoundTrip(c.content.acpi);
    if c.content.Ae? { PackRoundTrip(c.content.poa); }
    hide Pack, Unpack, Survives, PackEnums;
  }

  /** Every row after the CSE's shows what was accepted. */
  lemma RowsShowLog(cfg: Config, w: World, i: nat)
    requires Inv(cfg, w) && 0 < i < |w.tables.rows|
    ensures i - 1 < |w.log| && Shows(w.tables.rows[i], w.log[i - 1])
    ensures w.log[i - 1].content.Sub? ==> (Loadable(w.tables.rows[i].attrs.sub) <==> Delivery.Sane(w.log[i - 1].content))
  {
    TreeOf(cfg, w);
    hide Inv, Tree;
    var c := w.log[i - 1];
    assert w.tables.rows[i] == RowOf(c, w.tables.rows[i].path);
    RowShows(c, w.tables.rows[i].path);
    if c.content.Sub? { Delivery.StoredColumns(c); }
    hide Shows, Loadable, Delivery.Sane, AttrsOf, Logged;
  }

  // ------------------------------------------------------------------ who may read

  /**
   The administrator, and the AE that a container belongs to (the CSE, if it belongs to none) within 32 steps.
   An AE is known by its id.
   */
  ghost predicate MayRead(cfg: Config, rows: seq<Row>, i: nat, from: string)
    requires Tree(rows, cfg) && 0 < i < |rows|
  {
    || from == "CAdmin"
    || (Depth(rows, cfg, i) <= 32 && from == if Owner(rows, cfg, i) == 0 then cfg.csi else rows[Owner(rows, cfg, i)].ri)
  }

  lemma MayReadIff(cfg: Config, w: World, i: nat, from: string)
    requires Inv(cfg, w) && Tree(w.tables.rows, cfg) && 0 < i < |w.tables.rows|
    ensures Allowed(w.tables.rows, from, w.tables.rows[i]) <==> MayRead(cfg, w.tables.rows, i, from)
  {
    var rows := w.tables.rows;
    var o := Owner(rows, cfg, i);
    AllowedIff(rows, cfg, from, i);
    if o > 0 {
      RowsShowLog(cfg, w, o);
    } else {
      assert rows[0] == CseRow(cfg);
    }
    hide Allowed, Owner, Depth, Inv, Tree;
  }

  // ------------------------------------------------------------------ the answers

  /** An AE is shown to itself. */
  ghost function AeAnswer(w: Row, c: Created, from: string): Answer {
    if from == c.ri then Answer(OK, Some(Found(w, 0, 0))) else RefuseRead(ORIGINATOR_HAS_NO_PRIVILEGE)
  }

  /** A subscription is shown to its creator, who may be nobody; one that cannot be loaded is not found. */
  ghost function SubAnswer(w: Row, c: Created, from: string): Answer
    requires c.content.Sub?
  {
    if !Delivery.Sane(c.content) then RefuseRead(NOT_FOUND)
    else if from == c.creator then Answer(OK, Some(Found(w, 0, 0)))
    else RefuseRead(ORIGINATOR_HAS_NO_PRIVILEGE)
  }

  /** A container is shown with the number and size of the instances created in it, unless retrieval is disabled. */
  ghost function CntAnswer(w: Row, c: Created, log: seq<Created>, mayRead: bool): Answer
    requires c.content.Container?
  {
    var instances := ChildrenOf(log, c.ri, CIN_TYPE);
    if !mayRead then RefuseRead(ORIGINATOR_HAS_NO_PRIVILEGE)
    else if c.content.disr == Some(true) then RefuseRead(OPERATION_NOT_ALLOWED)
    else Answer(OK, Some(Found(w, |instances|, TotalSize(instances))))
  }

  /** An instance is shown to who may read its container, unless it has access control policies of its own. */
  ghost function CinAnswer(w: Row, c: Created, parent: Created, mayRead: bool): Answer
    requires c.content.Cin? && parent.content.Container?
  {
    if parent.content.disr == Some(true) then RefuseRead(OPERATION_NOT_ALLOWED)
    else if !mayRead then RefuseRead(ORIGINATOR_HAS_NO_PRIVILEGE)
    else if c.content.acpi != [] then RefuseRead(if parent.content.acpi == [] then BAD_REQUEST else NOT_IMPLEMENTED)
    else Answer(OK, Some(Found(w, 0, 0)))
  }

  // ------------------------------------------------------------------ the service gives them

  /** Row i is found by its own path, which is not mistaken for the end of another. */
  ghost predicate Addressable(rows: seq<Row>, i: nat) {
    i < |rows| && Resolve(rows, rows[i].path) == i && (i > 0 ==> |rows[i].rn| != 2)
  }

  /** The target is looked up as it stands, and what is found is matched by it. */
  lemma FoundWhole(rows: seq<Row>, cfg: Config, i: nat)
    requires Tree(rows, cfg) && Addressable(rows, i) && 0 < i && Addressing.IsSegment(cfg.name)
    ensures !LooksLikeEnd(rows[i].path) && rows[i].path != rows[0].rn
    ensures MatchesTarget(rows, rows[i], rows[i].path)
    ensures Load(rows, rows[i].path) == if rows[i].attrs.SubAttrs? && !Loadable(rows[i].attrs.sub) then None else Some(rows[i])
  {
    LooksLikeEndIff(rows, cfg, i);
    PathLength(rows, cfg, i);
    FindById(rows, cfg, i);
    assert rows[0].rn == cfg.name;
    hide Tree, Resolve, LooksLikeEnd, Loadable, StripSlash;
    assert PathOf(rows, rows[i].ri) == Some(rows[i].path);
  }

  lemma AeFound(rows: seq<Row>, cse: Row, from: string, target: string, w: Row)
    requires !LooksLikeEnd(target) && target != cse.rn && Load(rows, target) == Some(w) && MatchesTarget(rows, w, target)
    requires w.attrs.AeAttrs? && w.attrs.aei != ""
    ensures RetrieveTarget(rows, cse, from, target)
            == if from == w.attrs.aei then Answer(OK, Some(Found(w, 0, 0))) else RefuseRead(ORIGINATOR_HAS_NO_PRIVILEGE)
  {
    hide Load, RetrieveContainer, RetrieveCin, MatchesTarget;
  }

  lemma SubFound(rows: seq<Row>, cse: Row, from: string, target: string, w: Row)
    requires !LooksLikeEnd(target) && target != cse.rn && MatchesTarget(rows, w, target)
    requires w.attrs.SubAttrs? && (Load(rows, target) == None || Load(rows, target) == Some(w))
    ensures RetrieveTarget(rows, cse, from, target)
            == if Load(rows, target) == None then RefuseRead(NOT_FOUND)
               else if from == w.attrs.sub.creator then Answer(OK, Some(Found(w, 0, 0)))
               else RefuseRead(ORIGINATOR_HAS_NO_PRIVILEGE)
  {
    hide Load, RetrieveContainer, RetrieveCin, MatchesTarget;
  }

  lemma CinFound(rows: seq<Row>, cse: Row, from: string, target: string, w: Row)
    requires !LooksLikeEnd(target) && target != cse.rn && Load(rows, target) == Some(w) && w.attrs.CinAttrs?
    ensures RetrieveTarget(rows, cse, from, target) == RetrieveCin(rows, from, w, target)
  {
    hide Load, RetrieveContainer, RetrieveCin, MatchesTarget;
  }

  lemma CinRead(rows: seq<Row>, from: string, w: Row, parent: Row, target: string)
    requires MatchesTarget(rows, w, target) && w.pi != "" && Load(rows, w.pi) == Some(parent) && parent.attrs.CntAttrs?
    ensures RetrieveCin(rows, from, w, target) ==
            if parent.attrs.disr == Some(true) then RefuseRead(OPERATION_NOT_ALLOWED)
            else if !Allowed(rows, from, parent) then RefuseRead(ORIGINATOR_HAS_NO_PRIVILEGE)
            else if Unpack(w.acpi) != [] then RefuseRead(if Unpack(parent.acpi) == [] then BAD_REQUEST else NOT_IMPLEMENTED)
            else Answer(OK, Some(Found(w, 0, 0)))
  {
    hide Load, MatchesTarget, Allowed, Unpack;
  }

  lemma CseFound(rows: seq<Row>, cse: Row, from: string)
    requires cse.attrs.CseAttrs?
    ensures RetrieveTarget(rows, cse, from, cse.rn)
            == if from == "CAdmin" then Answer(OK, Some(Found(cse, 0, 0))) else RefuseRead(ORIGINATOR_HAS_NO_PRIVILEGE)
  {
    hide Load, RetrieveContainer, RetrieveCin, MatchesTarget;
  }

  /** The policies that were given and stored: none, or the same. */
  predicate PoliciesSurvive(c: Created) { IsResource(c.content) && Survives(c.content.acpi) }

  /** The answer due at the path of row i, by what its entry in the log says. */
  ghost predicate IsDue(answer: Answer, cfg: Config, w: World, i: nat, from: string)
    requires Tree(w.tables.rows, cfg) && 0 < i < |w.tables.rows| && |w.tables.rows| == |w.log| + 1
  {
    var row, c := w.tables.rows[i], w.log[i - 1];
    match c.content
    case Ae(_, _, _, _, _, _) => answer == AeAnswer(row, c, from)
    case Sub(_, _, _, _, _, _, _, _, _) => answer == SubAnswer(row, c, from)
    case Container(_, _, _, _, _, _) => answer == CntAnswer(row, c, w.log, MayRead(cfg, w.tables.rows, i, from))
    case Cin(_, _, _, _, _, _) =>
      var p := ParentOf(w.tables.rows, cfg, i);
      && 0 < p && w.log[p - 1].content.Container?
      && (PoliciesSurvive(c) && PoliciesSurvive(w.log[p - 1]) ==>
            answer == CinAnswer(row, c, w.log[p - 1], MayRead(cfg, w.tables.rows, p, from)))
    case _ => false
  }

  lemma AeDue(cfg: Config, w: World, i: nat, from: string)
    requires Inv(cfg, w) && Tree(w.tables.rows, cfg) && Addressable(w.tables.rows, i) && 0 < i && Addressing.IsSegment(cfg.name)
    requires w.tables.rows[i].attrs.AeAttrs?
    ensures i - 1 < |w.log| && w.log[i - 1].content.Ae?
    ensures RetrieveTarget(w.tables.rows, w.tables.rows[0], from, w.tables.rows[i].path)
            == AeAnswer(w.tables.rows[i], w.log[i - 1], from)
  {
    var rows := w.tables.rows;
    RowsShowLog(cfg, w, i);
    FoundWhole(rows, cfg, i);
    assert rows[i].ri != "" by { assert FoundById(rows, i); }
    hide Inv, Tree, Addressable, RetrieveTarget, MatchesTarget, Load, LooksLikeEnd;
    AeFound(rows, rows[0], from, rows[i].path, rows[i]);
  }

  lemma SubDue(cfg: Config, w: World, i: nat, from: string)
    requires Inv(cfg, w) && Tree(w.tables.rows, cfg) && Addressable(w.tables.rows, i) && 0 < i && Addressing.IsSegment(cfg.name)
    requires w.tables.rows[i].attrs.SubAttrs?
    ensures i - 1 < |w.log| && w.log[i - 1].content.Sub?
    ensures RetrieveTarget(w.tables.rows, w.tables.rows[0], from, w.tables.rows[i].path)
            == SubAnswer(w.tables.rows[i], w.log[i - 1], from)
  {
    var rows := w.tables.rows;
    RowsShowLog(cfg, w, i);
    FoundWhole(rows, cfg, i);
    hide Inv, Tree, Addressable, RetrieveTarget, MatchesTarget, Load, LooksLikeEnd, Loadable, Delivery.Sane;
    SubFound(rows, rows[0], from, rows[i].path, rows[i]);
  }

  lemma CntDue(cfg: Config, events: seq<Event>, i: nat, from: string)
    requires ConfigOk(cfg) && FreeRun(cfg, events) && Inv(cfg, Run(cfg, events)) && Addressing.IsSegment(cfg.name)
    requires var rows := Run(cfg, events).tables.rows;
             Tree(rows, cfg) && Addressable(rows, i) && 0 < i && rows[i].attrs.CntAttrs?
    ensures var w := Run(cfg, events);
            && i - 1 < |w.log| && w.log[i - 1].content.Container?
            && RetrieveTarget(w.tables.rows, w.tables.rows[0], from, w.tables.rows[i].path)
               == CntAnswer(w.tables.rows[i], w.log[i - 1], w.log, MayRead(cfg, w.tables.rows, i, from))
  {
    var w := Run(cfg, events);
    var rows := w.tables.rows;
    CountsAreTrue(cfg, events, i, from);
    hide Run, FreeRun;
    RowsShowLog(cfg, w, i);
    FoundWhole(rows, cfg, i);
    MayReadIff(cfg, w, i, from);
    hide Inv, Tree, Addressable, RetrieveTarget, RetrieveContainer, MatchesTarget, Load, LooksLikeEnd, MayRead, Allowed,
         ChildrenOf, TotalSize;
    ContainerByTarget(rows, rows[0], from, rows[i].path, rows[i]);
  }

  lemma CinDue(cfg: Config, w: World, i: nat, from: string)
    requires Inv(cfg, w) && Tree(w.tables.rows, cfg) && Addressable(w.tables.rows, i) && 0 < i && Addressing.IsSegment(cfg.name)
    requires w.tables.rows[i].attrs.CinAttrs?
    ensures var p := ParentOf(w.tables.rows, cfg, i);
            && i - 1 < |w.log| && w.log[i - 1].content.Cin? && 0 < p && w.log[p - 1].content.Container?
            && (PoliciesSurvive(w.log[i - 1]) && PoliciesSurvive(w.log[p - 1]) ==>
                  RetrieveTarget(w.tables.rows, w.tables.rows[0], from, w.tables.rows[i].path)
                  == CinAnswer(w.tables.rows[i], w.log[i - 1], w.log[p - 1], MayRead(cfg, w.tables.rows, p, from)))
  {
    var rows := w.tables.rows;
    var p := ParentOf(rows, cfg, i);
    assert RowOk(rows, i) && rows[i].pi != "" && rows[p].attrs.CntAttrs?;
    assert 0 < p by { assert rows[0] == CseRow(cfg); }
    RowsShowLog(cfg, w, i);
    RowsShowLog(cfg, w, p);
    FoundWhole(rows, cfg, i);
    MayReadIff(cfg, w, p, from);
    hide Inv, Tree, RowOk, Addressable, RetrieveTarget, RetrieveCin, MatchesTarget, Load, LooksLikeEnd, MayRead, Allowed,
         Unpack, Survives;
    CinFound(rows, rows[0], from, rows[i].path, rows[i]);
    CinRead(rows, from, rows[i], rows[p], rows[i].path);
  }

  /** At its own path every resource but the CSE is answered for as its type demands. */
  lemma DueAtPath(cfg: Config, events: seq<Event>, i: nat, from: string)
    requires ConfigOk(cfg) && FreeRun(cfg, events) && Inv(cfg, Run(cfg, events)) && Addressing.IsSegment(cfg.name)
    requires var w := Run(cfg, events);
             Tree(w.tables.rows, cfg) && Addressable(w.tables.rows, i) && 0 < i && |w.tables.rows| == |w.log| + 1
    ensures var w := Run(cfg, events);
            IsDue(RetrieveTarget(w.tables.rows, w.tables.rows[0], from, w.tables.rows[i].path), cfg, w, i, from)
  {
    var w := Run(cfg, events);
    RowsShowLog(cfg, w, i);
    var attrs := w.tables.rows[i].attrs;
    if attrs.CntAttrs? { CntDue(cfg, events, i, from); }
    hide Run, FreeRun, Inv, Tree, Addressable, RetrieveTarget, AeAnswer, SubAnswer, CntAnswer, CinAnswer, MayRead,
         PoliciesSurvive;
    if attrs.AeAttrs? { AeDue(cfg, w, i, from); }
    else if attrs.SubAttrs? { SubDue(cfg, w, i, from); }
    else if attrs.CinAttrs? { CinDue(cfg, w, i, from); }
  }

  /** A valid address is answered for as the path it leads to. */
  lemma RetrieveAt(rows: seq<Row>, cfg: Config, spid: string, from: string, to: string, path: string)
    requires Tree(rows, cfg) && Addressed(rows, cfg.ri, spid, to) == Some(path)
    ensures Retrieve(rows, cfg.ri, spid, from, to) == RetrieveTarget(rows, rows[0], from, path)
  {
    RootIsBase(rows, cfg);
    hide Tree, CseBase, Target, RetrieveTarget;
  }

  /** What was accepted as the k-th resource came from this event. */
  ghost predicate CameFrom(w: World, k: nat, e: Event) { k < |w.log| && SourcedBy(w.log[k], e) }

  /**
   Over every run, at every unambiguous address of a resource that its path finds and whose name does not have two
   characters: the CSE is shown to the administrator only, and every other resource is answered for as its type
   demands, judged by what was accepted, which came from one of the submitted requests.
   */
  lemma RetrievedByAddress(cfg: Config, events: seq<Event>, i: nat, from: string, form: Addressing.Form, head: string)
      returns (j: nat)
    requires ConfigOk(cfg) && FreeRun(cfg, events)
    requires var w := Run(cfg, events); Tree(w.tables.rows, cfg) && Addressable(w.tables.rows, i)
    requires var w := Run(cfg, events);
             var cse := Addressing.Cse(cfg.name, cfg.csi, w.spid);
             && Addressing.Configured(cse) && (head == cfg.name || head == "-")
             && Addressing.Unambiguous(form, head, Names(w.tables.rows, cfg, i), cse)
    ensures var w := Run(cfg, events);
            var to := Addressing.Written(form, head, Names(w.tables.rows, cfg, i), Addressing.Cse(cfg.name, cfg.csi, w.spid));
            var answer := Retrieve(w.tables.rows, cfg.ri, w.spid, from, to);
            && |w.tables.rows| == |w.log| + 1
            && if i == 0 then
                 answer == if from == "CAdmin" then Answer(OK, Some(Found(CseRow(cfg), 0, 0)))
                           else RefuseRead(ORIGINATOR_HAS_NO_PRIVILEGE)
               else
                 && j < |events| && CameFrom(w, i - 1, events[j])
                 && Shows(w.tables.rows[i], w.log[i - 1]) && IsDue(answer, cfg, w, i, from)
  {
    var w := Run(cfg, events);
    var rows := w.tables.rows;
    RunsKeepTree(cfg, events);
    LogIsSourced(cfg, events);
    AddressReaches(rows, cfg, w.spid, i, form, head);
    var cse := Addressing.Cse(cfg.name, cfg.csi, w.spid);
    var to := Addressing.Written(form, head, Names(rows, cfg, i), cse);
    assert Addressing.IsSegment(cfg.name);
    RetrieveAt(rows, cfg, w.spid, from, to, rows[i].path);
    TreeOf(cfg, w);
    j := 0;
    if i == 0 {
      CseFound(rows, rows[0], from);
      assert rows[0] == CseRow(cfg);
    } else {
      RowsShowLog(cfg, w, i);
      DueAtPath(cfg, events, i, from);
      assert HasSource(w.log[i - 1], events);
      j :| 0 <= j < |events| && SourcedBy(w.log[i - 1], events[j]);
    }
    hide *;
  }

  // ------------------------------------------------------------------ the latest and oldest instance

  /** What is due when a container is asked for its latest or oldest instance. */
  ghost function EndAnswer(c: Created, log: seq<Created>, path: string, mayRead: bool, latest: bool): Answer
    requires c.content.Container?
  {
    var instances := ChildrenOf(log, c.ri, CIN_TYPE);
    if !mayRead then RefuseRead(ORIGINATOR_HAS_NO_PRIVILEGE)
    else if c.content.disr == Some(true) then RefuseRead(OPERATION_NOT_ALLOWED)
    else if instances == [] then RefuseRead(NOT_FOUND)
    else
      var e := instances[if latest then |instances| - 1 else 0];
      if !e.content.Cin? then RefuseRead(INTERNAL_SERVER_ERROR)
      else CinAnswer(RowOf(e, path + "/" + e.rn), e, c, true)
  }

  lemma EndRead(rows: seq<Row>, cfg: Config, i: nat, from: string, latest: bool)
    requires Tree(rows, cfg) && i < |rows| && rows[i].attrs.CntAttrs?
    ensures RetrieveContainer(rows, from, rows[i], EndPath(rows[i].path, latest)) ==
            if !Allowed(rows, from, rows[i]) then RefuseRead(ORIGINATOR_HAS_NO_PRIVILEGE)
            else if rows[i].attrs.disr == Some(true) then RefuseRead(OPERATION_NOT_ALLOWED)
            else
              match LoadEndChild(rows, rows[i].ri, IsCin, latest)
              case None => RefuseRead(NOT_FOUND)
              case Some(ri) =>
                if Load(rows, ri).None? then RefuseRead(NOT_FOUND) else RetrieveCin(rows, from, Load(rows, ri).value, ri)
  {
    FindById(rows, cfg, i);
    EndTarget(rows[i].path, latest);
    EndPathIs(rows[i].path, latest);
    hide Load, LoadEndChild, Allowed, RetrieveCin, Tree, FindRi, StripSlash, EndPath;
    assert PathOf(rows, rows[i].ri) == Some(rows[i].path);
  }

  lemma NoEndChild(rows: seq<Row>, cfg: Config, log: seq<Created>, i: nat, latest: bool)
    requires Tree(rows, cfg) && Logged(rows, log) && i < |rows| && ChildrenOf(log, rows[i].ri, CIN_TYPE) == []
    ensures LoadEndChild(rows, rows[i].ri, IsCin, latest) == None
  {
    Kinds();
    assert FoundById(rows, i);
    ChildrenAreLogged(rows, log, rows[i].ri, IsCin, CIN_TYPE);
    hide ChildIds, Resolve, ChildrenOf, Tree, Logged;
  }

  /** An instance is matched by its own id, and its container is the row its parent id leads to. */
  lemma ByItsId(rows: seq<Row>, cfg: Config, i: nat, k: nat)
    requires Tree(rows, cfg) && i < |rows| && 0 < k < |rows| && rows[k].pi == rows[i].ri
    requires rows[k].attrs.CinAttrs? && rows[i].attrs.CntAttrs?
    ensures Load(rows, rows[k].ri) == Some(rows[k]) && Load(rows, rows[k].pi) == Some(rows[i]) && rows[k].pi != ""
    ensures MatchesTarget(rows, rows[k], rows[k].ri) && rows[k].path == rows[i].path + "/" + rows[k].rn
  {
    assert FoundById(rows, i) && FoundById(rows, k) && RowOk(rows, k);
    FindById(rows, cfg, k);
    hide Resolve, FindRi, RowOk, ValidName, FoundById, Tree;
    assert PathOf(rows, rows[k].ri) == Some(rows[k].path);
    assert StripSlash(rows[k].ri) == rows[k].ri;
  }

  /** The k-th create made the end instance of the container in row i. */
  lemma EndInstance(cfg: Config, w: World, i: nat, k: nat, from: string)
    requires Inv(cfg, w) && Tree(w.tables.rows, cfg) && 0 < i < |w.tables.rows| && k < |w.log|
    requires w.tables.rows[i].attrs.CntAttrs? && Allowed(w.tables.rows, from, w.tables.rows[i])
    requires w.log[k].pi == w.tables.rows[i].ri && IsResource(w.log[k].content) && TypeOf(w.log[k].content) == CIN_TYPE
    requires PoliciesSurvive(w.log[k]) && i - 1 < |w.log| && PoliciesSurvive(w.log[i - 1])
    requires Shows(w.tables.rows[i], w.log[i - 1])
    ensures w.log[i - 1].content.Container? && w.log[k].content.Cin? && k + 1 < |w.tables.rows|
    ensures Load(w.tables.rows, w.log[k].ri) == Some(w.tables.rows[k + 1])
    ensures RetrieveCin(w.tables.rows, from, w.tables.rows[k + 1], w.log[k].ri)
            == CinAnswer(RowOf(w.log[k], w.tables.rows[i].path + "/" + w.log[k].rn), w.log[k], w.log[i - 1], true)
  {
    var rows, c := w.tables.rows, w.log[k];
    TreeOf(cfg, w);
    IsInstance(c);
    assert k + 1 < |rows| && rows[k + 1] == RowOf(c, rows[k + 1].path) by { hide RowOf, Inv, Tree; }
    RowsShowLog(cfg, w, k + 1);
    hide Inv, Tree, Logged, RowOf, RetrieveCin, Allowed, Unpack, Survives, Load, MatchesTarget;
    ByItsId(rows, cfg, i, k + 1);
    CinRead(rows, from, rows[k + 1], rows[i], rows[k + 1].ri);
  }

  lemma EndDue(cfg: Config, w: World, i: nat, from: string, latest: bool)
    requires Inv(cfg, w) && Tree(w.tables.rows, cfg) && 0 < i < |w.tables.rows| && w.tables.rows[i].attrs.CntAttrs?
    requires forall c :: c in w.log ==> PoliciesSurvive(c)
    ensures i - 1 < |w.log| && w.log[i - 1].content.Container?
    ensures RetrieveContainer(w.tables.rows, from, w.tables.rows[i], EndPath(w.tables.rows[i].path, latest))
            == EndAnswer(w.log[i - 1], w.log, w.tables.rows[i].path, MayRead(cfg, w.tables.rows, i, from), latest)
  {
    var rows, log := w.tables.rows, w.log;
    TreeOf(cfg, w);
    RowsShowLog(cfg, w, i);
    MayReadIff(cfg, w, i, from);
    EndRead(rows, cfg, i, from, latest);
    hide Inv, Tree, Logged, RetrieveContainer, RetrieveCin, MayRead, Allowed, ChildrenOf, LoadEndChild, Load, EndPath, RowOf,
         CinAnswer, PoliciesSurvive, TypeOf;
    if ChildrenOf(log, rows[i].ri, CIN_TYPE) == [] {
      NoEndChild(rows, cfg, log, i, latest);
    } else {
      var k := EndChild(rows, cfg, log, i, latest);
      assert log[k] in log && log[i - 1] in log;
      SurvivingIsResource(log[k]);
      if Allowed(rows, from, rows[i]) { EndInstance(cfg, w, i, k, from); }
      IsInstance(log[k]);
    }
  }

  lemma SurvivingIsResource(c: Created)
    requires PoliciesSurvive(c)
    ensures IsResource(c.content)
  {
  }

  lemma IsInstance(c: Created)
    requires IsResource(c.content) && TypeOf(c.content) == CIN_TYPE
    ensures c.content.Cin?
  {
  }

  /**
   Over every run, when any unambiguous address of a container asks for its latest or oldest instance: those who may
   not read it and disabled retrieval are refused, an empty container has none, and otherwise the instance created
   last or first in it is answered for.
   */
  lemma EndByAddress(cfg: Config, events: seq<Event>, i: nat, from: string, form: Addressing.Form, head: string, latest: bool)
    requires ConfigOk(cfg) && FreeRun(cfg, events)
    requires var w := Run(cfg, events);
             && Tree(w.tables.rows, cfg) && 0 < i < |w.tables.rows| && w.tables.rows[i].attrs.CntAttrs?
             && Resolve(w.tables.rows, w.tables.rows[i].path) == i && forall c :: c in w.log ==> PoliciesSurvive(c)
    requires var w := Run(cfg, events);
             var cse := Addressing.Cse(cfg.name, cfg.csi, w.spid);
             && Addressing.Configured(cse) && (head == cfg.name || head == "-")
             && Addressing.Unambiguous(form, head, Names(w.tables.rows, cfg, i) + [if latest then "la" else "ol"], cse)
    ensures var w := Run(cfg, events);
            var cse := Addressing.Cse(cfg.name, cfg.csi, w.spid);
            var to := Addressing.Written(form, head, Names(w.tables.rows, cfg, i) + [if latest then "la" else "ol"], cse);
            && i - 1 < |w.log| && w.log[i - 1].content.Container?
            && Retrieve(w.tables.rows, cfg.ri, w.spid, from, to)
               == EndAnswer(w.log[i - 1], w.log, w.tables.rows[i].path, MayRead(cfg, w.tables.rows, i, from), latest)
  {
    var w := Run(cfg, events);
    var cse := Addressing.Cse(cfg.name, cfg.csi, w.spid);
    var end := if latest then "la" else "ol";
    var rows := w.tables.rows;
    var names := Names(rows, cfg, i);
    var to := Addressing.Written(form, head, names + [end], cse);
    hide *;
    RunsKeepTree(cfg, events);
    PathIsNames(rows, cfg, i, cse);
    Addressing.CanonicalSnoc(names, end, cse);
    EndPathEndsIn(rows[i].path, latest, end);
    AreSegmentsSnoc(names, end);
    Addressing.FormsAgree(form, head, names + [end], cse);
    TargetIs(cfg, w.spid, to);
    AddressedIs(rows, cfg, w.spid, to, EndPath(rows[i].path, latest));
    RetrieveAt(rows, cfg, w.spid, from, to, EndPath(rows[i].path, latest));
    EndTargetIsContainer(rows, cfg, i, from, latest);
    EndDue(cfg, w, i, from, latest);
  }

  // ------------------------------------------------------------------ two characters after a resource's path

  /** The path of a resource, a slash, and two characters. */
  function Under(path: string, end: string): string { path + ("/" + end) }

  /** Such a target is cut back to the resource; which it matches only as its /la or /ol. */
  lemma UnderIsCut(rows: seq<Row>, cfg: Config, i: nat, end: string)
    requires Tree(rows, cfg) && i < |rows| && Addressing.IsSegment(cfg.name) && Addressing.IsSegment(end) && |end| == 2
    requires rows[i].ri != Under(rows[i].path, end)
    ensures var target := Under(rows[i].path, end);
            && LooksLikeEnd(target) && target[..|target| - 3] == rows[i].path && target != rows[0].rn
            && (0 < i ==> (MatchesTarget(rows, rows[i], target) <==> end == "la" || end == "ol"))
  {
    var path, target := rows[i].path, Under(rows[i].path, end);
    FindById(rows, cfg, i);
    StartsWithName(rows, cfg, i);
    assert rows[0].rn == cfg.name && '/' in target by { assert target[|path|] == '/'; }
    assert target[..|path|] == path && target[|path|] == '/';
    if 0 < i {
      assert '/' !in rows[i].rn by { assert RowOk(rows, i); NameIsSegment(rows[i].rn); }
      Ends(path, end);
    }
    hide Tree, FindRi, Resolve, ValidName;
    assert path != "" && target[0] == path[0];
  }

  lemma {:induction false} StartsWithName(rows: seq<Row>, cfg: Config, i: nat)
    requires Tree(rows, cfg) && i < |rows| && Addressing.IsSegment(cfg.name)
    ensures rows[i].path != "" && rows[i].path[0] != '/'
  {
    if 0 < i {
      assert RowOk(rows, i);
      StartsWithName(rows, cfg, Resolve(rows, rows[i].pi));
    } else {
      assert cfg.name[0] in cfg.name;
    }
    hide Tree, Resolve;
  }

  lemma Ends(path: string, end: string)
    requires |end| == 2
    ensures path + "/la" == Under(path, end) <==> end == "la"
    ensures path + "/ol" == Under(path, end) <==> end == "ol"
  {
    var t := Under(path, end);
    assert t[|path| + 1] == end[0] && t[|path| + 2] == end[1];
    assert (path + "/la")[|path| + 1] == 'l' && (path + "/la")[|path| + 2] == 'a';
    assert (path + "/ol")[|path| + 1] == 'o' && (path + "/ol")[|path| + 2] == 'l';
    if end == "la" { assert path + "/la" == t; }
    if end == "ol" { assert path + "/ol" == t; }
  }

  /** Nothing is found there, unless the two characters are la or ol and the resource is not the CSE. */
  lemma NothingUnder(rows: seq<Row>, cfg: Config, i: nat, from: string, end: string)
    requires Tree(rows, cfg) && i < |rows| && Addressing.IsSegment(cfg.name) && Addressing.IsSegment(end) && |end| == 2
    requires Resolve(rows, rows[i].path) == i && rows[i].ri != Under(rows[i].path, end)
    requires i == 0 || (end != "la" && end != "ol")
    ensures RetrieveTarget(rows, rows[0], from, Under(rows[i].path, end)) == RefuseRead(NOT_FOUND)
  {
    UnderIsCut(rows, cfg, i, end);
    var target := Under(rows[i].path, end);
    assert Load(rows, rows[i].path) == None || Load(rows, rows[i].path) == Some(rows[i]) by { hide Tree, Loadable, Resolve; }
    assert rows[i].attrs.CseAttrs? <==> i == 0 by { if 0 < i { assert RowOk(rows, i); } }
    hide Tree, Load, MatchesTarget, LooksLikeEnd, Under, Resolve;
    CutLookup(rows, rows[0], from, target, rows[i].path, rows[i]);
  }

  lemma CutLookup(rows: seq<Row>, cse: Row, from: string, target: string, path: string, w: Row)
    requires LooksLikeEnd(target) && target[..|target| - 3] == path && target != cse.rn
    requires Load(rows, path) == None || Load(rows, path) == Some(w)
    requires if w.attrs.CseAttrs? then w.rn == cse.rn else !MatchesTarget(rows, w, target)
    ensures RetrieveTarget(rows, cse, from, target) == RefuseRead(NOT_FOUND)
  {
    hide Load, MatchesTarget, Allowed, LoadEndChild, LoadChildren, ContainerSize;
  }

  /**
   An AE, a subscription and an instance are answered for at their /la and /ol as at their own path: only containers
   know the latest and oldest instance.
   */
  lemma SelfUnder(rows: seq<Row>, cfg: Config, i: nat, from: string, end: string)
    requires Tree(rows, cfg) && 0 < i < |rows| && Addressing.IsSegment(cfg.name) && (end == "la" || end == "ol")
    requires Addressable(rows, i) && rows[i].ri != Under(rows[i].path, end) && !rows[i].attrs.CntAttrs?
    ensures RetrieveTarget(rows, rows[0], from, Under(rows[i].path, end)) == RetrieveTarget(rows, rows[0], from, rows[i].path)
  {
    assert Addressing.IsSegment(end);
    UnderIsCut(rows, cfg, i, end);
    FoundWhole(rows, cfg, i);
    assert !rows[i].attrs.CseAttrs? by { assert RowOk(rows, i); }
    hide Tree, Load, MatchesTarget, LooksLikeEnd, Under, Addressable, Loadable;
    SameLookup(rows, rows[0], from, Under(rows[i].path, end), rows[i].path, rows[i]);
  }

  lemma SameLookup(rows: seq<Row>, cse: Row, from: string, target: string, path: string, w: Row)
    requires LooksLikeEnd(target) && target[..|target| - 3] == path && target != cse.rn && !LooksLikeEnd(path) && path != cse.rn
    requires Load(rows, path) == None || Load(rows, path) == Some(w)
    requires !w.attrs.CseAttrs? && !w.attrs.CntAttrs? && MatchesTarget(rows, w, target) && MatchesTarget(rows, w, path)
    ensures RetrieveTarget(rows, cse, from, target) == RetrieveTarget(rows, cse, from, path)
  {
    hide Load, MatchesTarget, Allowed, RetrieveContainer;
  }

  /**
   Over every run, at any unambiguous address that goes two characters further than a resource: nothing is found,
   except that la and ol of an AE, a subscription or an instance stand for the resource itself. (Of a container they
   are its latest and oldest instance.)
   */
  lemma FurtherByAddress(cfg: Config, events: seq<Event>, i: nat, from: string, form: Addressing.Form,
                         head: string, end: string)
    requires ConfigOk(cfg) && FreeRun(cfg, events) && Addressing.IsSegment(end) && |end| == 2
    requires var w := Run(cfg, events);
             && Tree(w.tables.rows, cfg) && Addressable(w.tables.rows, i)
             && w.tables.rows[i].ri != Under(w.tables.rows[i].path, end)
    requires var w := Run(cfg, events);
             var cse := Addressing.Cse(cfg.name, cfg.csi, w.spid);
             && Addressing.Configured(cse) && (head == cfg.name || head == "-")
             && Addressing.Unambiguous(form, head, Names(w.tables.rows, cfg, i) + [end], cse)
    ensures var w := Run(cfg, events);
            var cse := Addressing.Cse(cfg.name, cfg.csi, w.spid);
            var answer := Retrieve(w.tables.rows, cfg.ri, w.spid, from,
                                   Addressing.Written(form, head, Names(w.tables.rows, cfg, i) + [end], cse));
            && |w.tables.rows| == |w.log| + 1
            && if i == 0 || (end != "la" && end != "ol") then answer == RefuseRead(NOT_FOUND)
               else !w.tables.rows[i].attrs.CntAttrs? ==> IsDue(answer, cfg, w, i, from)
  {
    var w := Run(cfg, events);
    var cse := Addressing.Cse(cfg.name, cfg.csi, w.spid);
    var rows := w.tables.rows;
    var names := Names(rows, cfg, i);
    var to := Addressing.Written(form, head, names + [end], cse);
    AddressableParts(rows, i);
    assert Addressing.IsSegment(cfg.name) && cse.name == cfg.name;
    assert Under(rows[i].path, end) == rows[i].path + "/" + end;
    hide *;
    RunsKeepTree(cfg, events);
    TreeOf(cfg, w);
    LogLength(w);
    PathIsNames(rows, cfg, i, cse);
    Addressing.CanonicalSnoc(names, end, cse);
    AreSegmentsSnoc(names, end);
    Addressing.FormsAgree(form, head, names + [end], cse);
    TargetIs(cfg, w.spid, to);
    AddressedIs(rows, cfg, w.spid, to, Under(rows[i].path, end));
    RetrieveAt(rows, cfg, w.spid, from, to, Under(rows[i].path, end));
    if i == 0 || (end != "la" && end != "ol") {
      NothingUnder(rows, cfg, i, from, end);
    } else if !rows[i].attrs.CntAttrs? {
      SelfUnder(rows, cfg, i, from, end);
      DueAtPath(cfg, events, i, from);
    }
  }

  lemma AddressableParts(rows: seq<Row>, i: nat)
    requires Addressable(rows, i)
    ensures i < |rows| && Resolve(rows, rows[i].path) == i
  {
  }

  lemma LogLength(w: World)
    requires Logged(w.tables.rows, w.log)
    ensures |w.tables.rows| == |w.log| + 1
  {
  }

  /** Before the first boot there is no CSEBase: retrieves and creates are refused each in its own way. */
  lemma BeforeFirstBoot(cseRi: string, spid: string, from: string, to: string, req: Request, net: Net)
    ensures Retrieve([], cseRi, spid, from, to) == RefuseRead(BAD_REQUEST)
    ensures Create(Tables([], 1, map[]), cseRi, spid, req, net).1 == Refuse(INTERNAL_SERVER_ERROR)
  {
    hide RetrieveTarget, CreateAe, CreateContainer, CreateCin, CreateSub, Target;
  }
}
