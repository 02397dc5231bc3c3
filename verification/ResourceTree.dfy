/**
 The tree the resource rows form: what holds of every row, how lookups behave when a row is appended, and
 exactly when a create keeps it so.
 */
module ResourceTree {
  import opened Options
  import opened Text
  import opened Packing
  import opened Store
  import opened OneM2M

  /** The CSE's name has two characters, since a parent path of one gets no slash. */
  predicate ConfigOk(cfg: Config) { |cfg.name| >= 2 && cfg.ri != "" }

  /** Row i sits below an earlier row that may hold it, and its stored path extends that row's path. */
  predicate RowOk(rows: seq<Row>, i: nat)
    requires 0 < i < |rows|
  {
    var w := rows[i];
    var p := Resolve(rows, w.pi);
    && p < i && w.pi != "" && rows[p].ri == w.pi && w.ri != ""
    && (w.attrs.AeAttrs? || w.ri[0] == 'C')
    && (w.attrs.AeAttrs? ==> rows[p].attrs.CseAttrs?)
    && (w.attrs.CntAttrs? || w.attrs.SubAttrs? ==> MayHoldContainers(rows[p].attrs))
    && (w.attrs.CinAttrs? ==> rows[p].attrs.CntAttrs?)
    && !w.attrs.CseAttrs?
    && ValidName(w.rn) && w.path == rows[p].path + "/" + w.rn
  }

  /** Looking a row up by its id finds that row: ids are unique, and no earlier name or path equals one. */
  predicate FoundById(rows: seq<Row>, i: nat)
    requires i < |rows|
  {
    rows[i].ri != "" && Resolve(rows, rows[i].ri) == i
  }

  ghost predicate Tree(rows: seq<Row>, cfg: Config) {
    && rows != [] && rows[0] == CseRow(cfg)
    && (forall i :: 0 < i < |rows| ==> RowOk(rows, i))
    && (forall i :: 0 <= i < |rows| ==> FoundById(rows, i))
  }

  /** No row has this id, name or path. */
  predicate Free(rows: seq<Row>, id: string) { Resolve(rows, id) == |rows| }

  // ------------------------------------------------------------------ lookups

  /** The lowest row whose id, name or path the target is, or none. */
  lemma ResolveIff(rows: seq<Row>, target: string, i: nat)
    requires i <= |rows|
    ensures Resolve(rows, target) == i <==>
            && (i < |rows| ==> target != "" && target in {rows[i].ri, rows[i].rn, rows[i].path})
            && (forall k :: 0 <= k < i ==> target == "" || target !in {rows[k].ri, rows[k].rn, rows[k].path})
  {
    var j := Resolve(rows, target);
    hide Resolve;
    assert forall k :: 0 <= k < |rows| ==>
             (Matches(rows[k], target) <==> target != "" && target in {rows[k].ri, rows[k].rn, rows[k].path});
    if j < i { assert Matches(rows[j], target); }
  }

  /** Resolution is stable: rows added later never change what a target resolves to. */
  lemma ResolveAppend(rows: seq<Row>, more: seq<Row>, target: string)
    ensures Resolve(rows + more, target) ==
            if Resolve(rows, target) < |rows| then Resolve(rows, target) else |rows| + Resolve(more, target)
  {
    var all := rows + more;
    var i, j, k := Resolve(rows, target), Resolve(more, target), Resolve(all, target);
    hide Resolve;
    assert forall x :: 0 <= x < |rows| ==> all[x] == rows[x];
    assert forall x :: 0 <= x < |more| ==> all[|rows| + x] == more[x];
    if k < |rows| {
      assert all[k] == rows[k];
      assert i <= k;
    } else if k < |all| {
      assert all[k] == more[k - |rows|];
    }
    if i < |rows| {
      assert all[i] == rows[i];
    } else if j < |more| {
      assert all[|rows| + j] == more[j];
    }
  }

  lemma ResolveSnoc(rows: seq<Row>, w: Row, target: string)
    ensures Resolve(rows + [w], target) ==
            if Resolve(rows, target) < |rows| then Resolve(rows, target)
            else if Matches(w, target) then |rows| else |rows| + 1
  {
    ResolveAppend(rows, [w], target);
    var k := Resolve([w], target);
    hide Resolve;
    assert k == 0 || !Matches([w][0], target);
  }

  lemma FindById(rows: seq<Row>, cfg: Config, i: nat)
    requires Tree(rows, cfg) && i < |rows|
    ensures FindRi(rows, rows[i].ri) == i
  {
    assert FoundById(rows, i);
    var k := FindRi(rows, rows[i].ri);
    hide Resolve, FindRi;
    assert k < |rows| ==> Matches(rows[k], rows[i].ri);
  }

  /** Ids are unique. */
  lemma UniqueIds(rows: seq<Row>, cfg: Config, i: nat, j: nat)
    requires Tree(rows, cfg) && i < |rows| && j < |rows| && rows[i].ri == rows[j].ri
    ensures i == j
  {
    assert FoundById(rows, i) && FoundById(rows, j);
  }

  /** Paths have at least the length of the CSE's name, the CSE's own being the shortest. */
  lemma {:induction false} PathLength(rows: seq<Row>, cfg: Config, i: nat)
    requires Tree(rows, cfg) && i < |rows|
    ensures |rows[i].path| >= |cfg.name|
    ensures i > 0 ==> |rows[i].path| > |cfg.name| && '/' in rows[i].path
  {
    if i > 0 {
      assert RowOk(rows, i);
      var p := Resolve(rows, rows[i].pi);
      PathLength(rows, cfg, p);
      assert rows[i].path[|rows[p].path|] == '/';
    }
  }

  /** The stored path of every row is what the recursive walk up its parents computes. */
  lemma {:induction false} WalkIsPath(rows: seq<Row>, cfg: Config, i: nat, fuel: nat)
    requires Tree(rows, cfg) && ConfigOk(cfg) && i < fuel && i < |rows|
    ensures Walk(rows, rows[i].ri, fuel) == rows[i].path
  {
    FindById(rows, cfg, i);
    if i > 0 {
      assert RowOk(rows, i);
      var p := Resolve(rows, rows[i].pi);
      WalkIsPath(rows, cfg, p, fuel - 1);
      PathLength(rows, cfg, p);
    }
    hide Resolve, FindRi, RowOk, FoundById;
  }

  // ------------------------------------------------------------------ appending

  /** Every lookup that Tree mentions is unchanged by an appended row. */
  lemma TreeOfPrefix(rows: seq<Row>, w: Row, cfg: Config)
    requires Tree(rows, cfg)
    ensures forall i :: 0 < i < |rows| ==> RowOk(rows + [w], i)
    ensures forall i :: 0 <= i < |rows| ==> FoundById(rows + [w], i)
  {
    var all := rows + [w];
    forall i | 0 <= i < |rows| ensures FoundById(all, i) {
      assert FoundById(rows, i);
      ResolveSnoc(rows, w, rows[i].ri);
    }
    forall i | 0 < i < |rows| ensures RowOk(all, i) {
      assert RowOk(rows, i);
      ResolveSnoc(rows, w, rows[i].pi);
      hide Resolve;
    }
  }

  /** What Insert does below an existing row whose id is found: the path is the parent's path and the name. */
  lemma InsertBelow(rows: seq<Row>, cfg: Config, w: Row, p: nat)
    requires Tree(rows, cfg) && ConfigOk(cfg) && p < |rows| && w.pi == rows[p].ri
    ensures Insert(rows, w) == Some(Upsert(rows, w.(path := rows[p].path + "/" + w.rn)))
  {
    WalkIsPath(rows, cfg, p, |rows|);
    PathLength(rows, cfg, p);
    assert FoundById(rows, p);
    hide Walk, Resolve, FindRi, RowOk, Upsert;
  }

  lemma {:induction false} WithoutShrinks(rows: seq<Row>, ri: string, k: nat)
    requires k < |rows| && rows[k].ri == ri
    ensures |Without(rows, ri)| < |rows|
  {
    if k > 0 { WithoutShrinks(rows[1..], ri, k - 1); }
  }

  /** A row with a free id and an acceptable parent extends the tree. */
  lemma FreeExtends(rows: seq<Row>, cfg: Config, c: Created, p: nat)
    requires Tree(rows, cfg) && IsResource(c.content) && ValidName(c.rn)
    requires p < |rows| && c.pi == rows[p].ri && LegalChild(rows[p].attrs, c.content)
    requires c.ri != "" && (c.content.Ae? || c.ri[0] == 'C') && Free(rows, c.ri)
    ensures Tree(rows + [RowOf(c, rows[p].path + "/" + c.rn)], cfg)
  {
    var w := RowOf(c, rows[p].path + "/" + c.rn);
    var all := rows + [w];
    hide Resolve, ValidName;
    TreeOfPrefix(rows, w, cfg);
    ResolveSnoc(rows, w, c.ri);
    assert FoundById(rows, p);
    ResolveSnoc(rows, w, c.pi);
    assert all[|rows|] == w && Resolve(all, c.pi) == p && all[p] == rows[p];
    assert RowOk(all, |rows|);
    assert FoundById(all, |rows|);
    hide RowOk, FoundById;
  }

  /**
   A new row with an acceptable parent keeps the table's rows and the tree exactly when its id is free. When
   it is not, either a row is lost to the replacement, or the new id finds another row.
   */
  lemma GrowsIffFree(rows: seq<Row>, cfg: Config, c: Created, p: nat, rows': seq<Row>)
    requires Tree(rows, cfg) && ConfigOk(cfg) && IsResource(c.content) && ValidName(c.rn)
    requires p < |rows| && c.pi == rows[p].ri && LegalChild(rows[p].attrs, c.content)
    requires c.ri != "" && (c.content.Ae? || c.ri[0] == 'C')
    requires Insert(rows, RowOf(c, "")) == Some(rows')
    ensures (rows < rows' && Tree(rows', cfg)) <==> Free(rows, c.ri)
    ensures Free(rows, c.ri) ==> rows' == rows + [RowOf(c, rows[p].path + "/" + c.rn)]
  {
    var w := RowOf(c, rows[p].path + "/" + c.rn);
    InsertBelow(rows, cfg, RowOf(c, ""), p);
    assert rows' == Upsert(rows, w) by { hide Upsert, Insert; }
    hide Insert, Without, Resolve, ValidName, LegalChild, AttrsOf, RowOk;
    if k :| 0 <= k < |rows| && rows[k].ri == c.ri {
      WithoutShrinks(rows, c.ri, k);
      assert Matches(rows[k], c.ri);
    } else {
      assert rows' == rows + [w] && rows'[|rows|] == w;
      ResolveSnoc(rows, w, c.ri);
      if Free(rows, c.ri) { FreeExtends(rows, cfg, c, p); }
      assert Tree(rows', cfg) ==> FoundById(rows', |rows|);
    }
  }
}
