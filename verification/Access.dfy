/**
 What a retrieve may see: the upward access loop as a rule about a container's nearest ancestor that is not a
 container, and the latest and oldest instance of a container.
 */
module Access {
  import opened Options
  import opened Text
  import opened Packing
  import opened Store
  import opened OneM2M
  import opened ResourceTree
  import opened History
  import opened Containers
  import Addressing

  // ------------------------------------------------------------------ the access rule

  ghost function ParentOf(rows: seq<Row>, cfg: Config, i: nat): (p: nat)
    requires Tree(rows, cfg) && 0 < i < |rows|
    ensures p < i && rows[p].ri == rows[i].pi && Load(rows, rows[i].pi) == Some(rows[p])
    ensures MayHoldContainers(rows[p].attrs) && (p == 0 ==> rows[p].attrs.CseAttrs?)
  {
    assert RowOk(rows, i);
    Resolve(rows, rows[i].pi)
  }

  /** The nearest ancestor that is not a container. */
  ghost function Owner(rows: seq<Row>, cfg: Config, i: nat): (o: nat)
    requires Tree(rows, cfg) && 0 < i < |rows|
    ensures o < i && (rows[o].attrs.AeAttrs? || rows[o].attrs.CseAttrs?)
  {
    var p := ParentOf(rows, cfg, i);
    if rows[p].attrs.CntAttrs? then Owner(rows, cfg, p) else p
  }

  /** How many steps up it is. */
  ghost function Depth(rows: seq<Row>, cfg: Config, i: nat): (d: nat)
    requires Tree(rows, cfg) && 0 < i < |rows|
    ensures d >= 1
  {
    var p := ParentOf(rows, cfg, i);
    if rows[p].attrs.CntAttrs? then 1 + Depth(rows, cfg, p) else 1
  }

  function OwnerId(a: Attrs): string
    requires a.AeAttrs? || a.CseAttrs?
  {
    if a.AeAttrs? then a.aei else a.csi
  }

  lemma {:induction false} LoopFindsOwner(rows: seq<Row>, cfg: Config, from: string, i: nat, guard: nat)
    requires Tree(rows, cfg) && 0 < i < |rows| && guard <= GUARD
    ensures AllowedFrom(rows, from, rows[i].pi, guard) <==>
            guard + Depth(rows, cfg, i) <= GUARD && from == OwnerId(rows[Owner(rows, cfg, i)].attrs)
    decreases i
  {
    var p := ParentOf(rows, cfg, i);
    assert rows[i].pi != "" by { assert RowOk(rows, i); }
    if guard < GUARD && rows[p].attrs.CntAttrs? { LoopFindsOwner(rows, cfg, from, p, guard + 1); }
    hide Load, Tree;
  }

  /**
   A container may be read by the administrator, and by the AE it belongs to (or the CSE, if it belongs to
   none) as long as that is within 32 steps.
   */
  lemma AllowedIff(rows: seq<Row>, cfg: Config, from: string, i: nat)
    requires Tree(rows, cfg) && 0 < i < |rows|
    ensures Allowed(rows, from, rows[i]) <==>
            || from == ADMIN
            || (Depth(rows, cfg, i) <= GUARD && from == OwnerId(rows[Owner(rows, cfg, i)].attrs))
  {
    LoopFindsOwner(rows, cfg, from, i, 0);
    hide AllowedFrom, Owner, Depth;
  }

  // ------------------------------------------------------------------ latest and oldest

  /** A child listed from the log is one of its entries. */
  lemma {:induction false} ChildInLog(log: seq<Created>, pi: string, ty: nat, j: nat) returns (k: nat)
    requires j < |ChildrenOf(log, pi, ty)|
    ensures k < |log| && log[k] == ChildrenOf(log, pi, ty)[j] && log[k].pi == pi && TypeOf(log[k].content) == ty
  {
    var n := |log| - 1;
    if j < |ChildrenOf(log[..n], pi, ty)| { k := ChildInLog(log[..n], pi, ty, j); } else { k := n; }
  }

  /** An instance asked for by its id, by someone who may read its container. */
  lemma InstanceById(rows: seq<Row>, cfg: Config, i: nat, k: nat, from: string)
    requires Tree(rows, cfg) && i < |rows| && 0 < k < |rows|
    requires rows[i].attrs.CntAttrs? && rows[i].attrs.disr != Some(true) && Allowed(rows, from, rows[i])
    requires rows[k].attrs.CinAttrs? && rows[k].pi == rows[i].ri && Unpack(rows[k].acpi) == []
    ensures Load(rows, rows[k].ri) == Some(rows[k]) && rows[k].path == rows[i].path + "/" + rows[k].rn
    ensures RetrieveCin(rows, from, rows[k], rows[k].ri) == Answer(OK, Some(Found(rows[k], 0, 0)))
  {
    assert FoundById(rows, i) && FoundById(rows, k) && RowOk(rows, k);
    FindById(rows, cfg, k);
    hide Resolve, FindRi, Allowed, RowOk, ValidName, FoundById, Tree;
    assert PathOf(rows, rows[k].ri) == Some(rows[k].path);
    assert StripSlash(rows[k].ri) == rows[k].ri;
    assert Load(rows, rows[i].ri) == Some(rows[i]);
  }

  /** The end child of a container in its rows is the last or first accepted create in the log. */
  lemma EndChild(rows: seq<Row>, cfg: Config, log: seq<Created>, i: nat, latest: bool) returns (k: nat)
    requires Tree(rows, cfg) && Logged(rows, log) && i < |rows|
    requires ChildrenOf(log, rows[i].ri, CIN_TYPE) != []
    ensures var all := ChildrenOf(log, rows[i].ri, CIN_TYPE);
            && k < |log| && log[k] == all[if latest then |all| - 1 else 0]
            && log[k].pi == rows[i].ri && TypeOf(log[k].content) == CIN_TYPE
    ensures LoadEndChild(rows, rows[i].ri, IsCin, latest) == Some(log[k].ri)
  {
    var all := ChildrenOf(log, rows[i].ri, CIN_TYPE);
    Kinds();
    assert FoundById(rows, i);
    ChildrenAreLogged(rows, log, rows[i].ri, IsCin, CIN_TYPE);
    k := ChildInLog(log, rows[i].ri, CIN_TYPE, if latest then |all| - 1 else 0);
    hide ChildIds, Resolve, ChildrenOf, Tree, Logged, TypeOf;
  }

  lemma EndTarget(path: string, latest: bool)
    ensures var target := path + (if latest then "/la" else "/ol");
            && |target| == |path| + 3 && target[|target| - 3] == '/' && target[..|target| - 3] == path
            && (target == path + "/la" <==> latest) && (target == path + "/ol" <==> !latest)
  {
    var target := path + (if latest then "/la" else "/ol");
    assert target[|path| + 1] == (if latest then 'l' else 'o');
    assert (path + "/la")[|path| + 1] == 'l' && (path + "/ol")[|path| + 1] == 'o';
  }

  lemma RootIsBase(rows: seq<Row>, cfg: Config)
    requires Tree(rows, cfg)
    ensures CseBase(rows, cfg.ri) == Some(rows[0]) && rows[0] == CseRow(cfg)
  {
    assert FoundById(rows, 0);
  }

  lemma ContainerEnd(rows: seq<Row>, cfg: Config, i: nat, k: nat, from: string, latest: bool)
    requires Tree(rows, cfg) && i < |rows| && k < |rows|
    requires rows[i].attrs.CntAttrs? && rows[i].attrs.disr != Some(true) && Allowed(rows, from, rows[i])
    requires LoadEndChild(rows, rows[i].ri, IsCin, latest) == Some(rows[k].ri)
    requires Load(rows, rows[k].ri) == Some(rows[k])
    ensures RetrieveContainer(rows, from, rows[i], rows[i].path + (if latest then "/la" else "/ol"))
            == RetrieveCin(rows, from, rows[k], rows[k].ri)
  {
    FindById(rows, cfg, i);
    EndTarget(rows[i].path, latest);
    hide Load, LoadEndChild, Allowed, RetrieveCin, Tree, FindRi, StripSlash;
    assert PathOf(rows, rows[i].ri) == Some(rows[i].path);
  }

  /** The path that asks a container for its latest or oldest instance. */
  function EndPath(path: string, latest: bool): string { path + (if latest then "/la" else "/ol") }

  lemma EndPathIs(path: string, latest: bool)
    ensures EndPath(path, latest) == path + (if latest then "/la" else "/ol")
  {
  }

  /** A container whose instances may be read by the originator, found by its path, with an instance in the log. */
  ghost predicate Readable(rows: seq<Row>, log: seq<Created>, i: nat, from: string) {
    && 0 < i < |rows| && rows[i].attrs.CntAttrs? && rows[i].attrs.disr != Some(true)
    && Allowed(rows, from, rows[i]) && Resolve(rows, rows[i].path) == i
    && ChildrenOf(log, rows[i].ri, CIN_TYPE) != []
  }

  /** The instance created last, or first, under a parent. */
  function EndOf(log: seq<Created>, pi: string, latest: bool): Created
    requires ChildrenOf(log, pi, CIN_TYPE) != []
  {
    var all := ChildrenOf(log, pi, CIN_TYPE);
    all[if latest then |all| - 1 else 0]
  }

  lemma EndOfContainer(rows: seq<Row>, cfg: Config, log: seq<Created>, i: nat, from: string, latest: bool)
    requires Tree(rows, cfg) && Logged(rows, log) && Readable(rows, log, i, from)
    requires EndOf(log, rows[i].ri, latest).content.Cin? ==> EndOf(log, rows[i].ri, latest).content.acpi == []
    ensures var c := EndOf(log, rows[i].ri, latest);
            && c.content.Cin?
            && RetrieveContainer(rows, from, rows[i], EndPath(rows[i].path, latest))
               == Answer(OK, Some(Found(RowOf(c, rows[i].path + "/" + c.rn), 0, 0)))
  {
    var k := EndChild(rows, cfg, log, i, latest);
    var c := log[k];
    assert rows[k + 1] == RowOf(c, rows[k + 1].path) && IsResource(c.content);
    hide Tree, Logged, ChildrenOf, RetrieveContainer, RetrieveCin, LoadEndChild, Resolve, Allowed, Load;
    assert c.content.Cin? && rows[k + 1].attrs.CinAttrs? && rows[k + 1].rn == c.rn && rows[k + 1].ri == c.ri;
    assert rows[k + 1].acpi == "" && rows[k + 1].pi == rows[i].ri;
    InstanceById(rows, cfg, i, k + 1, from);
    ContainerEnd(rows, cfg, i, k + 1, from, latest);
    hide RowOf;
  }

  /** The answer is the instance created last (first) in the container, as it was accepted. */
  ghost predicate IsEnd(answer: Answer, rows: seq<Row>, log: seq<Created>, i: nat, latest: bool)
    requires i < |rows| && ChildrenOf(log, rows[i].ri, CIN_TYPE) != []
  {
    var c := EndOf(log, rows[i].ri, latest);
    c.content.Cin? && answer == Answer(OK, Some(Found(RowOf(c, rows[i].path + "/" + c.rn), 0, 0)))
  }

  /** A readable container whose wanted instance carries no access control policy of its own. */
  ghost predicate Wanted(rows: seq<Row>, log: seq<Created>, i: nat, from: string, latest: bool) {
    && Readable(rows, log, i, from)
    && var c := EndOf(log, rows[i].ri, latest); (c.content.Cin? ==> c.content.acpi == [])
  }

  lemma ContainerByEnd(rows: seq<Row>, cse: Row, from: string, target: string, path: string, w: Row)
    requires |target| >= 3 && target[|target| - 3] == '/' && target[..|target| - 3] == path && target != cse.rn
    requires Load(rows, path) == Some(w) && w.attrs.CntAttrs?
    ensures RetrieveTarget(rows, cse, from, target) == RetrieveContainer(rows, from, w, target)
  {
    hide Load, RetrieveContainer, RetrieveCin, MatchesTarget;
  }

  /** The target of a retrieve that ends in /la or /ol leads to the container. */
  lemma EndTargetIsContainer(rows: seq<Row>, cfg: Config, i: nat, from: string, latest: bool)
    requires Tree(rows, cfg) && 0 < i < |rows| && rows[i].attrs.CntAttrs? && Resolve(rows, rows[i].path) == i
    ensures var target := EndPath(rows[i].path, latest);
            RetrieveTarget(rows, rows[0], from, target) == RetrieveContainer(rows, from, rows[i], target)
  {
    EndTarget(rows[i].path, latest);
    PathLength(rows, cfg, i);
    assert Load(rows, rows[i].path) == Some(rows[i]) && rows[0].rn == cfg.name;
    EndPathIs(rows[i].path, latest);
    hide *;
    ContainerByEnd(rows, rows[0], from, EndPath(rows[i].path, latest), rows[i].path, rows[i]);
  }

  /**
   A permitted originator that asks a container for its latest (oldest) instance gets the one created last
   (first) in it, whatever was created elsewhere in between.
   */
  lemma LatestAndOldest(cfg: Config, events: seq<Event>, i: nat, from: string, to: string, latest: bool)
    requires ConfigOk(cfg) && FreeRun(cfg, events)
    requires var w := Run(cfg, events);
             && Wanted(w.tables.rows, w.log, i, from, latest)
             && Target(CseRow(cfg), w.spid, to) == Addressing.Valid(EndPath(w.tables.rows[i].path, latest))
    ensures var w := Run(cfg, events);
            IsEnd(Retrieve(w.tables.rows, cfg.ri, w.spid, from, to), w.tables.rows, w.log, i, latest)
  {
    RunsKeepTree(cfg, events);
    var w := Run(cfg, events);
    hide Run, FreeRun, Logged, RowOf, RetrieveContainer, RetrieveTarget, Target, EndPath, EndOf, CseBase;
    EndOfContainer(w.tables.rows, cfg, w.log, i, from, latest);
    EndTargetIsContainer(w.tables.rows, cfg, i, from, latest);
    RootIsBase(w.tables.rows, cfg);
    hide Readable, Tree;
  }

  // ------------------------------------------------------------------ by every address

  /** The names from the CSE down to a row. */
  ghost function Names(rows: seq<Row>, cfg: Config, i: nat): seq<string>
    requires Tree(rows, cfg) && i < |rows|
  {
    if i == 0 then [] else Names(rows, cfg, ParentOf(rows, cfg, i)) + [rows[i].rn]
  }

  lemma NameIsSegment(rn: string)
    requires ValidName(rn)
    ensures Addressing.IsSegment(rn)
  {
    assert forall k :: 0 <= k < |rn| ==> IsNameChar(rn[k]);
  }

  /** A row's stored path is its names joined, so it is the canonical form of its addresses. */
  lemma {:induction false} PathIsNames(rows: seq<Row>, cfg: Config, i: nat, cse: Addressing.Cse)
    requires Tree(rows, cfg) && i < |rows| && cse.name == cfg.name
    ensures Addressing.AreSegments(Names(rows, cfg, i))
    ensures rows[i].path == Addressing.CanonicalPath(Names(rows, cfg, i), cse)
  {
    if i > 0 {
      var p := ParentOf(rows, cfg, i);
      assert RowOk(rows, i);
      PathIsNames(rows, cfg, p, cse);
      NameIsSegment(rows[i].rn);
      Addressing.CanonicalSnoc(Names(rows, cfg, p), rows[i].rn, cse);
      hide Tree, ValidName, Addressing.CanonicalPath;
    }
  }

  /** Asking for the latest or oldest instance by any unambiguous address of the container gives that instance. */
  lemma LatestByEveryForm(cfg: Config, events: seq<Event>, i: nat, from: string, form: Addressing.Form,
                          head: string, latest: bool)
    requires ConfigOk(cfg) && FreeRun(cfg, events)
    requires var w := Run(cfg, events);
             Tree(w.tables.rows, cfg) && Wanted(w.tables.rows, w.log, i, from, latest)
    requires var w := Run(cfg, events);
             var cse := Addressing.Cse(cfg.name, cfg.csi, w.spid);
             && Addressing.Configured(cse) && (head == cfg.name || head == "-")
             && Addressing.Unambiguous(form, head, Names(w.tables.rows, cfg, i) + [if latest then "la" else "ol"], cse)
    ensures var w := Run(cfg, events);
            var cse := Addressing.Cse(cfg.name, cfg.csi, w.spid);
            var to := Addressing.Written(form, head, Names(w.tables.rows, cfg, i) + [if latest then "la" else "ol"], cse);
            IsEnd(Retrieve(w.tables.rows, cfg.ri, w.spid, from, to), w.tables.rows, w.log, i, latest)
  {
    var w := Run(cfg, events);
    var cse := Addressing.Cse(cfg.name, cfg.csi, w.spid);
    var end := if latest then "la" else "ol";
    var rows := w.tables.rows;
    var names := Names(rows, cfg, i);
    var to := Addressing.Written(form, head, names + [end], cse);
    hide *;
    PathIsNames(rows, cfg, i, cse);
    Addressing.CanonicalSnoc(names, end, cse);
    EndPathEndsIn(rows[i].path, latest, end);
    AreSegmentsSnoc(names, end);
    Addressing.FormsAgree(form, head, names + [end], cse);
    TargetIs(cfg, w.spid, to);
    LatestAndOldest(cfg, events, i, from, to, latest);
  }

  lemma EndPathEndsIn(path: string, latest: bool, end: string)
    requires end == if latest then "la" else "ol"
    ensures EndPath(path, latest) == path + "/" + end && Addressing.IsSegment(end)
  {
    EndPathIs(path, latest);
  }

  lemma AreSegmentsSnoc(names: seq<string>, end: string)
    requires Addressing.AreSegments(names) && Addressing.IsSegment(end)
    ensures Addressing.AreSegments(names + [end])
  {
  }

  lemma TargetIs(cfg: Config, spid: string, to: string)
    ensures Target(CseRow(cfg), spid, to) == Addressing.Canonicalize(to, Addressing.Cse(cfg.name, cfg.csi, spid))
  {
    hide Addressing.Canonicalize;
  }

  /** An unambiguous address of a row, seen as the service sees it: it leads to the row that its path finds. */
  lemma AddressReaches(rows: seq<Row>, cfg: Config, spid: string, i: nat, form: Addressing.Form, head: string)
    requires Tree(rows, cfg) && i < |rows|
    requires var cse := Addressing.Cse(cfg.name, cfg.csi, spid);
             && Addressing.Configured(cse) && (head == cfg.name || head == "-")
             && Addressing.Unambiguous(form, head, Names(rows, cfg, i), cse)
    ensures var cse := Addressing.Cse(cfg.name, cfg.csi, spid);
            Addressed(rows, cfg.ri, spid, Addressing.Written(form, head, Names(rows, cfg, i), cse)) == Some(rows[i].path)
  {
    var cse := Addressing.Cse(cfg.name, cfg.csi, spid);
    var names := Names(rows, cfg, i);
    var to := Addressing.Written(form, head, names, cse);
    hide *;
    PathIsNames(rows, cfg, i, cse);
    Addressing.FormsAgree(form, head, names, cse);
    TargetIs(cfg, spid, to);
    AddressedIs(rows, cfg, spid, to, rows[i].path);
  }

  lemma AddressedIs(rows: seq<Row>, cfg: Config, spid: string, to: string, path: string)
    requires Tree(rows, cfg) && Target(CseRow(cfg), spid, to) == Addressing.Valid(path)
    ensures Addressed(rows, cfg.ri, spid, to) == Some(path)
  {
    RootIsBase(rows, cfg);
    hide Tree, CseBase, Target;
  }

  /**
   Over every run: a create that is accepted at an unambiguous address of a resource is stored directly under
   that resource, as the last row, with the resource's path and its own name for a path.
   */
  lemma StoredWhereAddressed(cfg: Config, events: seq<Event>, req: Request, net: Net, i: nat,
                             form: Addressing.Form, head: string)
    requires ConfigOk(cfg) && FreeRun(cfg, events) && FreeStep(cfg, Run(cfg, events), Submit(req, net))
    requires Accepted(cfg, Run(cfg, events), req, net)
    requires var rows := Run(cfg, events).tables.rows;
             Tree(rows, cfg) && i < |rows| && Resolve(rows, rows[i].path) == i
    requires var w := Run(cfg, events);
             var cse := Addressing.Cse(cfg.name, cfg.csi, w.spid);
             var names := Names(w.tables.rows, cfg, i);
             && Addressing.Configured(cse) && (head == cfg.name || head == "-")
             && Addressing.Unambiguous(form, head, names, cse)
             && req.to == Addressing.Written(form, head, names, cse)
    ensures var w := Run(cfg, events);
            var w' := Step(cfg, w, Submit(req, net));
            exists c: Created ::
              && IsResource(c.content) && w'.log == w.log + [c] && c.pi == w.tables.rows[i].ri
              && c.content == Stored(req.content)
              && w'.tables.rows == w.tables.rows + [RowOf(c, w.tables.rows[i].path + "/" + c.rn)]
  {
    var w := Run(cfg, events);
    var rows := w.tables.rows;
    RunsKeepTree(cfg, events);
    AddressReaches(rows, cfg, w.spid, i, form, head);
    hide Run, FreeRun, Create, Tree, Inv, Free, Resolve, Full, Insert, RowOf, ValidName, LegalChild, Names,
         Addressed, NameDue, CreatorDue,
         IdFor, Addressing.Written, Addressing.Unambiguous;
    var c, p := FreeCreateAppends(cfg, w, req, net);
    assert p == i;
    assert Step(cfg, w, Submit(req, net)).log == w.log + [c];
  }

  // ------------------------------------------------------------------ a resource by its own path

  /** The place where the service looks for /la or /ol: a slash three characters from the end. */
  predicate LooksLikeEnd(target: string) { |target| >= 3 && target[|target| - 3] == '/' }

  lemma {:induction false} PathEnds(rows: seq<Row>, cfg: Config, i: nat)
    requires Tree(rows, cfg) && i < |rows| && Addressing.IsSegment(cfg.name)
    ensures rows[i].path != "" && rows[i].path[|rows[i].path| - 1] != '/'
  {
    if i > 0 {
      assert RowOk(rows, i);
      NameIsSegment(rows[i].rn);
      assert rows[i].rn[|rows[i].rn| - 1] in rows[i].rn;
    } else {
      assert cfg.name[|cfg.name| - 1] in cfg.name;
    }
    hide ValidName;
  }

  /** A stored path looks like the end of a container exactly when the last name has two characters. */
  lemma LooksLikeEndIff(rows: seq<Row>, cfg: Config, i: nat)
    requires Tree(rows, cfg) && 0 < i < |rows| && Addressing.IsSegment(cfg.name)
    ensures var p := ParentOf(rows, cfg, i);
            rows[i].path == rows[p].path + "/" + rows[i].rn
    ensures LooksLikeEnd(rows[i].path) <==> |rows[i].rn| == 2
  {
    var p := ParentOf(rows, cfg, i);
    assert RowOk(rows, i);
    PathEnds(rows, cfg, p);
    NameIsSegment(rows[i].rn);
    var parent, rn := rows[p].path, rows[i].rn;
    hide ValidName, Tree, RowOk;
    var path := parent + "/" + rn;
    if |rn| >= 3 { assert path[|path| - 3] == rn[|rn| - 3] && rn[|rn| - 3] in rn; }
    if |rn| == 1 { assert path[|path| - 3] == parent[|parent| - 1]; }
  }

  lemma ContainerByTarget(rows: seq<Row>, cse: Row, from: string, target: string, w: Row)
    requires !LooksLikeEnd(target) && target != cse.rn && Load(rows, target) == Some(w) && w.attrs.CntAttrs?
    ensures RetrieveTarget(rows, cse, from, target) == RetrieveContainer(rows, from, w, target)
  {
    hide Load, RetrieveContainer, RetrieveCin, MatchesTarget;
  }

  /** What a container is answered with: refusals, or the count and size of the instances created in it. */
  function ContainerAnswer(rows: seq<Row>, log: seq<Created>, from: string, cnt: Row): Answer {
    var instances := ChildrenOf(log, cnt.ri, CIN_TYPE);
    if !Allowed(rows, from, cnt) then RefuseRead(ORIGINATOR_HAS_NO_PRIVILEGE)
    else if cnt.attrs.CntAttrs? && cnt.attrs.disr == Some(true) then RefuseRead(OPERATION_NOT_ALLOWED)
    else Answer(OK, Some(Found(cnt, |instances|, TotalSize(instances))))
  }

  /** The latest or oldest child listed for a container is an instance. */
  lemma {:induction false} ChildIsInstance(rows: seq<Row>, pi: string, k: nat) returns (j: nat)
    requires k < |ChildIds(rows, pi, IsCin)|
    ensures j < |rows| && rows[j].ri == ChildIds(rows, pi, IsCin)[k] && rows[j].attrs.CinAttrs?
  {
    var n := |rows| - 1;
    if k < |ChildIds(rows[..n], pi, IsCin)| { j := ChildIsInstance(rows[..n], pi, k); } else { j := n; }
  }

  lemma InstanceItself(rows: seq<Row>, from: string, cin: Row, target: string)
    ensures var found := RetrieveCin(rows, from, cin, target).found; found.Some? ==> found.value.row == cin
  {
    hide Load, Allowed, MatchesTarget;
  }

  /** The end child that is loaded is an instance. */
  lemma EndChildIsInstance(rows: seq<Row>, cfg: Config, cnt: Row, latest: bool)
    requires Tree(rows, cfg)
    ensures var end := LoadEndChild(rows, cnt.ri, IsCin, latest);
            end.Some? && Load(rows, end.value).Some? ==> Load(rows, end.value).value.attrs.CinAttrs?
  {
    var i := Resolve(rows, cnt.ri);
    if i < |rows| {
      var ids := ChildIds(rows, rows[i].ri, IsCin);
      if ids != [] {
        var j := ChildIsInstance(rows, rows[i].ri, if latest then |ids| - 1 else 0);
        assert FoundById(rows, j);
      }
    }
    hide Tree, Resolve, ChildIds;
  }

  /** Whatever a container's retrieve answers with is the container itself or an instance. */
  lemma ContainerOrInstance(rows: seq<Row>, cfg: Config, from: string, cnt: Row, target: string)
    requires Tree(rows, cfg) && cnt.attrs.CntAttrs?
    ensures var found := RetrieveContainer(rows, from, cnt, target).found;
            found.Some? ==> found.value.row == cnt || found.value.row.attrs.CinAttrs?
  {
    var path := PathOf(rows, cnt.ri);
    if path.Some? {
      var latest := path.value + "/la" == target;
      var end := LoadEndChild(rows, cnt.ri, IsCin, latest);
      EndChildIsInstance(rows, cfg, cnt, latest);
      if end.Some? && Load(rows, end.value).Some? { InstanceItself(rows, from, Load(rows, end.value).value, end.value); }
    }
    hide Tree, Allowed, Load, LoadEndChild, PathOf, LoadChildren, RetrieveCin, ContainerSize;
  }

  lemma TargetIsRow(rows: seq<Row>, cse: Row, from: string, target: string)
    requires LooksLikeEnd(target) && target != cse.rn
    ensures var w := Load(rows, target[..|target| - 3]);
            var found := RetrieveTarget(rows, cse, from, target).found;
            found.Some? ==>
              && w.Some?
              && if w.value.attrs.CntAttrs? then found == RetrieveContainer(rows, from, w.value, target).found
                 else if w.value.attrs.CinAttrs? then found == RetrieveCin(rows, from, w.value, target).found
                 else found.value.row == w.value
  {
    hide Load, RetrieveContainer, RetrieveCin, MatchesTarget;
  }

  /** What is retrieved at a path that is cut by three characters: the row found there, or an instance. */
  lemma CutTarget(rows: seq<Row>, cfg: Config, from: string, target: string)
    requires Tree(rows, cfg) && LooksLikeEnd(target) && target != rows[0].rn
    ensures var found := RetrieveTarget(rows, rows[0], from, target).found;
            found.Some? ==>
              || found.value.row.attrs.CinAttrs?
              || (var k := Resolve(rows, target[..|target| - 3]); k < |rows| && found.value.row == rows[k])
  {
    var w := Load(rows, target[..|target| - 3]);
    TargetIsRow(rows, rows[0], from, target);
    if w.Some? && w.value.attrs.CntAttrs? { ContainerOrInstance(rows, cfg, from, w.value, target); }
    if w.Some? { InstanceItself(rows, from, w.value, target); }
    hide Tree, RetrieveTarget, RetrieveContainer, RetrieveCin, Resolve, LooksLikeEnd;
  }

  /** A resource with a two-character name is never retrieved by its path: an ancestor is looked up instead. */
  lemma TwoCharacterName(rows: seq<Row>, cfg: Config, i: nat, from: string)
    requires Tree(rows, cfg) && 0 < i < |rows| && Addressing.IsSegment(cfg.name)
    requires |rows[i].rn| == 2 && !rows[i].attrs.CinAttrs?
    ensures var found := RetrieveTarget(rows, rows[0], from, rows[i].path).found;
            found.Some? ==> found.value.row != rows[i]
  {
    var target := rows[i].path;
    var p := ParentOf(rows, cfg, i);
    LooksLikeEndIff(rows, cfg, i);
    PathLength(rows, cfg, i);
    PathEnds(rows, cfg, p);
    CutTarget(rows, cfg, from, target);
    assert target[..|target| - 3] == rows[p].path;
    var k := Resolve(rows, rows[p].path);
    assert Matches(rows[p], rows[p].path) && k <= p;
    assert FoundById(rows, i) && FoundById(rows, k);
    hide Tree, RetrieveTarget, Resolve;
  }

  lemma ContainerAtPath(rows: seq<Row>, cfg: Config, i: nat, from: string)
    requires Tree(rows, cfg) && 0 < i < |rows| && Addressing.IsSegment(cfg.name)
    requires rows[i].attrs.CntAttrs? && Resolve(rows, rows[i].path) == i && |rows[i].rn| != 2
    ensures RetrieveTarget(rows, rows[0], from, rows[i].path) == RetrieveContainer(rows, from, rows[i], rows[i].path)
  {
    LooksLikeEndIff(rows, cfg, i);
    PathLength(rows, cfg, i);
    assert Load(rows, rows[i].path) == Some(rows[i]);
    hide Tree, Resolve, Load, RetrieveContainer, RetrieveTarget, LooksLikeEnd;
    ContainerByTarget(rows, rows[0], from, rows[i].path, rows[i]);
  }

  /**
   A retrieve at the path of a container, which finds that container. If its name does not have two characters
   the answer is its true count and size, or the refusal due; if it has, the answer is never that container.
   */
  lemma ContainerRetrieved(cfg: Config, events: seq<Event>, i: nat, from: string, to: string)
    requires ConfigOk(cfg) && FreeRun(cfg, events) && Addressing.IsSegment(cfg.name)
    requires var w := Run(cfg, events);
             && 0 < i < |w.tables.rows| && w.tables.rows[i].attrs.CntAttrs?
             && Resolve(w.tables.rows, w.tables.rows[i].path) == i
             && Target(CseRow(cfg), w.spid, to) == Addressing.Valid(w.tables.rows[i].path)
    ensures var w := Run(cfg, events);
            var answer := Retrieve(w.tables.rows, cfg.ri, w.spid, from, to);
            if |w.tables.rows[i].rn| != 2 then answer == ContainerAnswer(w.tables.rows, w.log, from, w.tables.rows[i])
            else answer.found.Some? ==> answer.found.value.row != w.tables.rows[i]
  {
    var w := Run(cfg, events);
    var rows := w.tables.rows;
    RunsKeepTree(cfg, events);
    CountsAreTrue(cfg, events, i, from);
    hide Run, FreeRun, Logged;
    RootIsBase(rows, cfg);
    hide Tree, Resolve, RetrieveContainer, RetrieveTarget, Target, CseBase, Allowed, ChildrenOf, TotalSize;
    if |rows[i].rn| != 2 { ContainerAtPath(rows, cfg, i, from); } else { TwoCharacterName(rows, cfg, i, from); }
  }
}
