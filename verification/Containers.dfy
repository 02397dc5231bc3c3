/** Containers over whole runs: the children a container has, its capacity, and the counts a retrieve reports. */
module Containers {
  import opened Options
  import opened Store
  import opened OneM2M
  import opened ResourceTree
  import opened History

  /** The accepted creates of one type under one parent, in the order they were accepted. */
  function ChildrenOf(log: seq<Created>, pi: string, ty: nat): seq<Created> {
    if log == [] then []
    else
      var n := |log| - 1;
      ChildrenOf(log[..n], pi, ty) + (if log[n].pi == pi && TypeOf(log[n].content) == ty then [log[n]] else [])
  }

  function Ids(cs: seq<Created>): (r: seq<string>)
    ensures |r| == |cs| && forall k :: 0 <= k < |cs| ==> r[k] == cs[k].ri
  {
    seq(|cs|, k requires 0 <= k < |cs| => cs[k].ri)
  }

  function TotalSize(cs: seq<Created>): int {
    if cs == [] then 0
    else TotalSize(cs[..|cs| - 1]) + (if cs[|cs| - 1].content.Cin? then cs[|cs| - 1].content.cs else 0)
  }

  /** A row test that picks the rows of one resource type. */
  ghost predicate IsKind(kind: Attrs -> bool, ty: nat) {
    forall c: Created :: IsResource(c.content) ==> (kind(AttrsOf(c)) <==> TypeOf(c.content) == ty)
  }

  lemma Kinds()
    ensures IsKind(IsCin, CIN_TYPE) && IsKind(IsSub, SUBSCRIPTION_TYPE)
  {
  }

  lemma LoggedPrefix(rows: seq<Row>, log: seq<Created>)
    requires Logged(rows, log) && log != []
    ensures Logged(rows[..|log|], log[..|log| - 1])
    ensures var n := |log| - 1; IsResource(log[n].content) && rows[n + 1] == RowOf(log[n], rows[n + 1].path)
  {
    hide RowOf;
  }

  lemma LastChild(c: Created, path: string, pi: string, kind: Attrs -> bool, ty: nat)
    requires IsResource(c.content) && IsKind(kind, ty) && pi != ""
    ensures IsChild(RowOf(c, path), pi, kind) <==> c.pi == pi && TypeOf(c.content) == ty
    ensures c.content.Cin? ==> RowOf(c, path).attrs == CinAttrs(c.content.cs)
    ensures RowOf(c, path).ri == c.ri
  {
  }

  /** The children found by a query are exactly the accepted creates under that parent, in their order. */
  lemma {:induction false} ChildrenAreLogged(rows: seq<Row>, log: seq<Created>, pi: string, kind: Attrs -> bool, ty: nat)
    requires Logged(rows, log) && rows[0].pi == "" && pi != "" && IsKind(kind, ty)
    ensures ChildIds(rows, pi, kind) == Ids(ChildrenOf(log, pi, ty))
  {
    hide RowOf, TypeOf;
    if log == [] {
      assert rows[..0] == [];
    } else {
      var n := |log| - 1;
      LoggedPrefix(rows, log);
      ChildrenAreLogged(rows[..n + 1], log[..n], pi, kind, ty);
      LastChild(log[n], rows[n + 1].path, pi, kind, ty);
      hide IsChild, Logged;
    }
  }

  lemma TotalSizeSnoc(cs: seq<Created>, c: Created)
    ensures TotalSize(cs + [c]) == TotalSize(cs) + (if c.content.Cin? then c.content.cs else 0)
  {
    assert (cs + [c])[..|cs|] == cs;
  }

  lemma {:induction false} SizeIsLogged(rows: seq<Row>, log: seq<Created>, pi: string)
    requires Logged(rows, log) && rows[0].pi == "" && pi != ""
    ensures ContainerSize(rows, pi) == TotalSize(ChildrenOf(log, pi, CIN_TYPE))
  {
    hide RowOf;
    if log == [] {
      assert rows[..0] == [];
    } else {
      var n := |log| - 1;
      LoggedPrefix(rows, log);
      SizeIsLogged(rows[..n + 1], log[..n], pi);
      Kinds();
      LastChild(log[n], rows[n + 1].path, pi, IsCin, CIN_TYPE);
      TotalSizeSnoc(ChildrenOf(log[..n], pi, CIN_TYPE), log[n]);
      assert ChildrenOf(log[..n], pi, CIN_TYPE) + [] == ChildrenOf(log[..n], pi, CIN_TYPE);
      hide IsChild, Logged, TotalSize;
    }
  }

  // ------------------------------------------------------------------ capacity

  /** A limit of 0 means none; a negative one keeps the container empty. */
  predicate Within(n: int, limit: Option<int>) { limit.Some? && limit.value != 0 ==> n == 0 || n <= limit.value }

  predicate WithinLimits(rows: seq<Row>, w: Row) {
    w.attrs.CntAttrs? ==>
      Within(|ChildIds(rows, w.ri, IsCin)|, w.attrs.mni) && Within(ContainerSize(rows, w.ri), w.attrs.mbs)
  }

  lemma SnocChild(rows: seq<Row>, last: Row, pi: string)
    ensures var now, later := |ChildIds(rows, pi, IsCin)|, |ChildIds(rows + [last], pi, IsCin)|;
            later == now + (if IsChild(last, pi, IsCin) then 1 else 0)
    ensures ContainerSize(rows + [last], pi) ==
            ContainerSize(rows, pi) + (if IsChild(last, pi, IsCin) then last.attrs.cs else 0)
  {
    assert (rows + [last])[..|rows|] == rows;
  }

  lemma {:induction false} Childless(rows: seq<Row>, pi: string)
    requires forall k :: 0 <= k < |rows| ==> rows[k].pi != pi
    ensures ChildIds(rows, pi, IsCin) == [] && ContainerSize(rows, pi) == 0
  {
    if rows != [] { Childless(rows[..|rows| - 1], pi); }
  }

  /** No row sits below an id that nothing has. */
  lemma FreeHasNoChild(rows: seq<Row>, cfg: Config, id: string)
    requires Tree(rows, cfg) && Free(rows, id) && id != ""
    ensures forall k :: 0 <= k < |rows| ==> rows[k].pi != id && rows[k].ri != id
  {
    forall k | 0 <= k < |rows| ensures rows[k].pi != id && rows[k].ri != id {
      if k > 0 { assert RowOk(rows, k); }
      assert !Matches(rows[k], id);
      hide Resolve;
    }
  }

  /** An instance that is let in leaves its container within the limits. */
  lemma AdmittedFits(rows: seq<Row>, cfg: Config, p: nat, last: Row)
    requires Tree(rows, cfg) && p < |rows| && rows[p].attrs.CntAttrs? && last.attrs.CinAttrs?
    requires last.pi == rows[p].ri && !Full(rows, rows[p], last.attrs.cs)
    ensures WithinLimits(rows + [last], rows[p])
  {
    assert FoundById(rows, p);
    SnocChild(rows, last, rows[p].ri);
    hide ChildIds, ContainerSize, Resolve, RowOk;
  }

  /** Containers stay within their limits when a create with a free id appends a row. */
  lemma CapacityStep(rows: seq<Row>, cfg: Config, c: Created, p: nat, path: string)
    requires Tree(rows, cfg) && Free(rows, c.ri) && c.ri != "" && IsResource(c.content)
    requires p < |rows| && c.pi == rows[p].ri && LegalChild(rows[p].attrs, c.content)
    requires c.content.Cin? ==> !Full(rows, rows[p], c.content.cs)
    requires forall i :: 0 <= i < |rows| ==> WithinLimits(rows, rows[i])
    ensures forall w :: w in rows + [RowOf(c, path)] ==> WithinLimits(rows + [RowOf(c, path)], w)
  {
    var last := RowOf(c, path);
    FreeHasNoChild(rows, cfg, c.ri);
    Childless(rows, c.ri);
    forall w | w in rows + [last] ensures WithinLimits(rows + [last], w) {
      SnocChild(rows, last, w.ri);
      if w.attrs.CntAttrs? && last.attrs.CinAttrs? && w in rows && w.ri == last.pi {
        var i :| 0 <= i < |rows| && rows[i] == w;
        UniqueIds(rows, cfg, i, p);
        AdmittedFits(rows, cfg, p, last);
      }
      hide ChildIds, ContainerSize, Free, Full, Tree;
    }
  }

  lemma {:induction false} RowsStayWithin(cfg: Config, events: seq<Event>)
    requires ConfigOk(cfg) && FreeRun(cfg, events)
    ensures forall w :: w in Run(cfg, events).tables.rows ==> WithinLimits(Run(cfg, events).tables.rows, w)
  {
    hide Create, Tree, Boot, WithinLimits, Inv, Free, IdFor, RowOf, Full, Insert, ValidName, LegalChild;
    if events == [] {
      StartIsTree(cfg);
      RootWithin(cfg);
    } else {
      var n := |events| - 1;
      RowsStayWithin(cfg, events[..n]);
      RunsKeepTree(cfg, events[..n]);
      var w, e := Run(cfg, events[..n]), events[n];
      match e
      case Submit(req, net) =>
        if Accepted(cfg, w, req, net) {
          var c, p := FreeCreateAppends(cfg, w, req, net);
          IdShape(w.tables, req);
          assert Tree(w.tables.rows, cfg) by { TreeOf(cfg, w); }
          CapacityStep(w.tables.rows, cfg, c, p, w.tables.rows[p].path + "/" + c.rn);
        } else {
          RefusedKeepsRows(cfg, w, req, net);
        }
      case Reboot =>
        TreeOf(cfg, w);
        RebootResumes(cfg, w.tables);
    }
  }

  /** The instances created in a container keep to the limits it was created with. */
  ghost predicate KeepsLimits(log: seq<Created>, c: Created)
    requires c.content.Container?
  {
    var instances := ChildrenOf(log, c.ri, CIN_TYPE);
    Within(|instances|, c.content.mni) && Within(TotalSize(instances), c.content.mbs)
  }

  /** Over every run, no container is given more instances or more bytes than the limits it was created with allow. */
  lemma CapacityIsKept(cfg: Config, events: seq<Event>, k: nat)
    requires ConfigOk(cfg) && FreeRun(cfg, events)
    requires k < |Run(cfg, events).log| && Run(cfg, events).log[k].content.Container?
    ensures KeepsLimits(Run(cfg, events).log, Run(cfg, events).log[k])
  {
    RowsStayWithin(cfg, events);
    RunsKeepTree(cfg, events);
    var w := Run(cfg, events);
    hide Run, FreeRun;
    TreeOf(cfg, w);
    var rows, c := w.tables.rows, w.log[k];
    assert rows[k + 1] == RowOf(c, rows[k + 1].path) && rows[k + 1] in rows;
    assert FoundById(rows, k + 1);
    hide Inv, Tree, Logged, Resolve;
    assert rows[0].pi == "" by { RootHasNoParent(rows, cfg); }
    Kinds();
    ChildrenAreLogged(rows, w.log, c.ri, IsCin, CIN_TYPE);
    SizeIsLogged(rows, w.log, c.ri);
    hide ChildIds, ContainerSize, ChildrenOf, TotalSize, Within;
  }

  lemma RootHasNoParent(rows: seq<Row>, cfg: Config)
    requires Tree(rows, cfg)
    ensures rows != [] && rows[0].pi == ""
  {
  }

  lemma TreeOf(cfg: Config, w: World)
    requires Inv(cfg, w)
    ensures Tree(w.tables.rows, cfg) && Logged(w.tables.rows, w.log)
  {
  }

  lemma RootWithin(cfg: Config)
    ensures WithinLimits([CseRow(cfg)], CseRow(cfg))
  {
  }

  /** At its own path a container comes with the sums the queries give. */
  lemma ContainerByPath(rows: seq<Row>, cfg: Config, i: nat, from: string)
    requires Tree(rows, cfg) && i < |rows| && rows[i].attrs.CntAttrs?
    ensures rows[0].pi == "" && rows[i].ri != ""
    ensures var cnt := rows[i];
            RetrieveContainer(rows, from, cnt, cnt.path) ==
            if !Allowed(rows, from, cnt) then RefuseRead(ORIGINATOR_HAS_NO_PRIVILEGE)
            else if cnt.attrs.disr == Some(true) then RefuseRead(OPERATION_NOT_ALLOWED)
            else Answer(OK, Some(Found(cnt, |ChildIds(rows, cnt.ri, IsCin)|, ContainerSize(rows, cnt.ri))))
  {
    FindById(rows, cfg, i);
    assert FoundById(rows, i);
    assert PathOf(rows, rows[i].ri) == Some(rows[i].path) by { hide Resolve, FoundById, Tree; }
    assert LoadChildren(rows, rows[i].ri, IsCin) == Some(ChildIds(rows, rows[i].ri, IsCin)) by { hide Resolve, Tree; }
    hide Tree, FoundById, PathOf, LoadChildren, ChildIds, ContainerSize, Allowed, StripSlash, LoadEndChild, RetrieveCin;
    assert |rows[i].path + "/la"| != |rows[i].path| && |rows[i].path + "/ol"| != |rows[i].path|;
  }

  /**
   A container asked for by its path, by an originator who may read it, comes with the count and the size of
   exactly the instances created in it.
   */
  lemma CountsAreTrue(cfg: Config, events: seq<Event>, i: nat, from: string)
    requires ConfigOk(cfg) && FreeRun(cfg, events)
    requires var rows := Run(cfg, events).tables.rows; i < |rows| && rows[i].attrs.CntAttrs?
    ensures var w := Run(cfg, events);
            var cnt := w.tables.rows[i];
            var instances := ChildrenOf(w.log, cnt.ri, CIN_TYPE);
            RetrieveContainer(w.tables.rows, from, cnt, cnt.path) ==
            if !Allowed(w.tables.rows, from, cnt) then RefuseRead(ORIGINATOR_HAS_NO_PRIVILEGE)
            else if cnt.attrs.disr == Some(true) then RefuseRead(OPERATION_NOT_ALLOWED)
            else Answer(OK, Some(Found(cnt, |instances|, TotalSize(instances))))
  {
    RunsKeepTree(cfg, events);
    var w := Run(cfg, events);
    var rows := w.tables.rows;
    hide Run, FreeRun, Tree, Logged, RetrieveContainer, Allowed;
    TreeOf(cfg, w);
    ContainerByPath(rows, cfg, i, from);
    Kinds();
    ChildrenAreLogged(rows, w.log, rows[i].ri, IsCin, CIN_TYPE);
    SizeIsLogged(rows, w.log, rows[i].ri);
    hide ChildIds, ContainerSize, ChildrenOf, TotalSize, Inv, ConfigOk;
  }
}
