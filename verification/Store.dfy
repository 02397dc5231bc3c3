/**
 The resource tables of database.cpp. Rows are kept in rowid order; each row is joined with its row of the
 type table. Queries are functions of the rows, the two writing operations are methods of class Database.
 */
module Store {
  import opened Options
  import opened Text
  import opened Packing

  /** The columns of the subscription table that decide deliveries; lists are packed. */
  datatype SubColumns = SubColumns(
    net: string, chty: string, labels: string, sizeAbove: Option<int>, sizeBelow: Option<int>,
    stateTagSmaller: Option<int>, stateTagBigger: Option<int>,
    rateMax: Option<int>, rateWindow: Option<int>, batchNumber: Option<int>,
    nu: string, creator: string)

  datatype Attrs =
    | CseAttrs(csi: string)
    | AeAttrs(aei: string, poa: string)
    | CntAttrs(mni: Option<int>, mbs: Option<int>, disr: Option<bool>)
    | CinAttrs(cs: int)
    | SubAttrs(sub: SubColumns)

  datatype Row = Row(ri: string, rn: string, pi: string, path: string, labels: string, acpi: string, attrs: Attrs)

  /** aes is the ae table: the AE-ID of each ri. Its rows outlive a resource that is replaced. */
  datatype Tables = Tables(rows: seq<Row>, nextId: nat, aes: map<string, string>)

  // ------------------------------------------------------------------ queries

  /** WHERE ri = ? OR rn = ? OR path = ?; a NULL column (an empty text) matches nothing. */
  predicate Matches(w: Row, target: string) {
    target != "" && (w.ri == target || w.rn == target || w.path == target)
  }

  /** LIMIT 1: the lowest matching rowid, or |rows|. */
  function Resolve(rows: seq<Row>, target: string): (i: nat)
    ensures i <= |rows|
    ensures i < |rows| ==> Matches(rows[i], target)
    ensures forall k :: 0 <= k < i ==> !Matches(rows[k], target)
  {
    if rows == [] then 0
    else if Matches(rows[0], target) then 0
    else 1 + Resolve(rows[1..], target)
  }

  /** WHERE ri = ? LIMIT 1. */
  function FindRi(rows: seq<Row>, ri: string): (i: nat)
    ensures i <= |rows|
    ensures i < |rows| ==> rows[i].ri == ri
    ensures forall k :: 0 <= k < i ==> rows[k].ri != ri
  {
    if rows == [] || rows[0].ri == ri then 0 else 1 + FindRi(rows[1..], ri)
  }

  datatype Criteria = Criteria(net: seq<int>, chty: seq<int>, labels: seq<string>,
                               sizeAbove: Option<int>, sizeBelow: Option<int>)

  datatype Subscription = Subscription(criteria: Criteria, nus: seq<string>, creator: string)

  /** The loader's validation of a subscription row. */
  predicate Loadable(c: SubColumns) {
    && (c.stateTagSmaller.Some? && c.stateTagBigger.Some? ==> c.stateTagSmaller.value <= c.stateTagBigger.value)
    && (c.rateMax.Some? ==> c.rateMax.value >= 0)
    && (c.rateWindow.Some? ==> c.rateWindow.value > 0)
    && (c.batchNumber.Some? ==> c.batchNumber.value >= 0)
  }

  function LoadSubscription(c: SubColumns): Subscription {
    Subscription(Criteria(UnpackEnums(c.net), UnpackEnums(c.chty), Unpack(c.labels), c.sizeAbove, c.sizeBelow),
                 Unpack(c.nu), c.creator)
  }

  /** LoadPrimitiveContentByTarget. */
  function Load(rows: seq<Row>, target: string): (r: Option<Row>)
    ensures r.Some? ==> Resolve(rows, target) < |rows| && r.value == rows[Resolve(rows, target)]
  {
    var i := Resolve(rows, target);
    if i == |rows| then None
    else if rows[i].attrs.SubAttrs? && !Loadable(rows[i].attrs.sub) then None
    else Some(rows[i])
  }

  predicate IsChild(w: Row, pi: string, kind: Attrs -> bool) { pi != "" && w.pi == pi && kind(w.attrs) }

  /** The ids of the children of one kind, in rowid order. */
  function ChildIds(rows: seq<Row>, pi: string, kind: Attrs -> bool): seq<string> {
    if rows == [] then []
    else
      var n := |rows| - 1;
      ChildIds(rows[..n], pi, kind) + (if IsChild(rows[n], pi, kind) then [rows[n].ri] else [])
  }

  /** LoadPrimitiveContentChildren: None when the parent does not resolve. */
  function LoadChildren(rows: seq<Row>, target: string, kind: Attrs -> bool): Option<seq<string>> {
    var i := Resolve(rows, target);
    if i == |rows| then None else Some(ChildIds(rows, rows[i].ri, kind))
  }

  /** LoadLatestChild and LoadOldestChild: ORDER BY rowid DESC or ASC, LIMIT 1. */
  function LoadEndChild(rows: seq<Row>, target: string, kind: Attrs -> bool, latest: bool): Option<string> {
    match LoadChildren(rows, target, kind)
    case None => None
    case Some(ids) => if ids == [] then None else Some(if latest then ids[|ids| - 1] else ids[0])
  }

  predicate IsCin(a: Attrs) { a.CinAttrs? }

  predicate IsSub(a: Attrs) { a.SubAttrs? }

  /** GetContainerCurrentSize: SUM(cs) over the content instances of one parent. */
  function ContainerSize(rows: seq<Row>, pi: string): int {
    if rows == [] then 0
    else
      var n := |rows| - 1;
      ContainerSize(rows[..n], pi) + (if IsChild(rows[n], pi, IsCin) then rows[n].attrs.cs else 0)
  }

  /** GetPathByRI. */
  function PathOf(rows: seq<Row>, ri: string): Option<string> {
    var i := FindRi(rows, ri);
    if i == |rows| then None else Some(rows[i].path)
  }

  predicate HasChildNamed(rows: seq<Row>, pi: string, rn: string) {
    pi != "" && rn != "" && exists i :: 0 <= i < |rows| && rows[i].pi == pi && rows[i].rn == rn
  }

  /** ExistsAEbyAEID: the ae table alone is asked. */
  predicate HasAe(aes: map<string, string>, aei: string) { aei != "" && aei in aes.Values }

  /**
   GetFullPathByRI: the recursive query that walks up to the row without a parent, "" when there is none.
   A walk that ends visits no row twice, so |rows| steps are enough for it.
   */
  function Walk(rows: seq<Row>, ri: string, fuel: nat): string
    decreases fuel
  {
    if fuel == 0 then ""
    else
      var i := FindRi(rows, ri);
      if i == |rows| then ""
      else if rows[i].pi == "" then rows[i].rn
      else
        var up := Walk(rows, rows[i].pi, fuel - 1);
        if up == "" then "" else up + "/" + rows[i].rn
  }

  // ------------------------------------------------------------------ writing

  /** The stored path of a new row. A parent path of one character gets no slash. */
  function PathFor(rows: seq<Row>, pi: string, rn: string): Option<string> {
    if pi == "" then Some(rn)
    else
      var parent := Walk(rows, pi, |rows|);
      if parent == "" then None
      else Some(if |parent| > 1 then parent + "/" + rn else parent + rn)
  }

  function Without(rows: seq<Row>, ri: string): (r: seq<Row>)
    ensures |r| <= |rows|
    ensures (forall k :: 0 <= k < |rows| ==> rows[k].ri != ri) ==> r == rows
  {
    if rows == [] then [] else (if rows[0].ri == ri then [] else [rows[0]]) + Without(rows[1..], ri)
  }

  /** INSERT OR REPLACE: a row with the same ri is removed, the new row gets the highest rowid. */
  function Upsert(rows: seq<Row>, w: Row): seq<Row> { Without(rows, w.ri) + [w] }

  /** InsertResources and the save of the type row; None when the parent's path is not found. */
  function Insert(rows: seq<Row>, w: Row): Option<seq<Row>> {
    match PathFor(rows, w.pi, w.rn)
    case None => None
    case Some(path) => Some(Upsert(rows, w.(path := path)))
  }

  /** The ae table after a row is saved. */
  function Registered(aes: map<string, string>, w: Row): map<string, string> {
    if w.attrs.AeAttrs? then aes[w.ri := w.attrs.aei] else aes
  }

  function GeneratedId(n: nat): (id: string)
    ensures |id| >= 2 && id[0] == 'C'
  {
    "C" + Dec(n)
  }

  /** The open database. */
  class Database {
    var rows: seq<Row>
    var nextId: nat
    var aes: map<string, string>

    /** InitSchema on an empty file. */
    constructor ()
      ensures rows == [] && nextId == 1 && aes == map[]
    {
      rows, nextId, aes := [], 1, map[];
    }

    /** DeleteDatabaseFile, and the schema set up afresh. */
    method DeleteFile()
      modifies this
      ensures rows == [] && nextId == 1 && aes == map[]
    {
      rows, nextId, aes := [], 1, map[];
    }

    function Now(): Tables
      reads this
    {
      Tables(rows, nextId, aes)
    }

    method GenerateResourceId() returns (id: string)
      modifies this`nextId
      ensures id == GeneratedId(old(nextId)) && nextId == old(nextId) + 1
    {
      id := "C" + Dec(nextId);
      nextId := nextId + 1;
    }

    /** SaveAE, SaveContainer, SaveContentInstance, SaveSubscription, SaveCSE. */
    method Save(w: Row) returns (ok: bool)
      modifies this`rows, this`aes
      ensures match Insert(old(rows), w)
              case None => !ok && rows == old(rows) && aes == old(aes)
              case Some(r) => ok && rows == r && aes == Registered(old(aes), w)
    {
      var path := "";
      if w.pi == "" {
        path := w.rn;
      } else {
        var parentPath := Walk(rows, w.pi, |rows|);
        if parentPath == "" { return false; }
        path := parentPath;
        if |path| > 1 { path := path + "/"; }
        path := path + w.rn;
      }
      rows := Without(rows, w.ri) + [w.(path := path)];
      if w.attrs.AeAttrs? { aes := aes[w.ri := w.attrs.aei]; }
      ok := true;
    }
  }
}
