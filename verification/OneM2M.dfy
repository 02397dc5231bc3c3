/**
 What the oneM2M service answers and stores: onem2m_service.cpp as functions of the tables. The service object
 in module OneM2MService is proved against these.
 */
module OneM2M {
  import opened Options
  import opened Text
  import opened Packing
  import opened Store
  import Addressing

  datatype Rsc =
    | OK | CREATED | BAD_REQUEST | NOT_FOUND | OPERATION_NOT_ALLOWED | NOT_ACCEPTABLE | CONFLICT
    | SECURITY_ASSOCIATION_REQUIRED | INVALID_CHILD_RESOURCE_TYPE | ORIGINATOR_HAS_NO_PRIVILEGE
    | ORIGINATOR_HAS_ALREADY_REGISTERED | NOT_IMPLEMENTED | INTERNAL_SERVER_ERROR
    | SUBSCRIPTION_VERIFICATION_INITIATION_FAILED

  // ResourceType and NotificationEventType numbers
  const AE_TYPE := 2
  const CONTAINER_TYPE := 3
  const CIN_TYPE := 4
  const SUBSCRIPTION_TYPE := 23
  const CREATE_OF_DIRECT_CHILD := 3
  const BLOCKING_UPDATE := 7
  const MISSING_DATA_POINTS := 8

  /** The event notification criteria of a submitted subscription. */
  datatype Enc = Enc(
    net: seq<nat>, chty: seq<nat>, labels: seq<string>, sizeAbove: Option<int>, sizeBelow: Option<int>,
    stateTagSmaller: Option<int>, stateTagBigger: Option<int>, attributes: seq<string>,
    otherFilters: bool /* expireBefore, expireAfter, filterUsage, contentFilter..., missingData */)

  /** The submitted representation. */
  datatype Content =
    | NoContent
    | Unsupported
    | Ae(rn: string, labels: seq<string>, acpi: seq<string>, api: string, csz: seq<string>, poa: seq<string>)
    | Container(rn: string, labels: seq<string>, acpi: seq<string>, mni: Option<int>, mbs: Option<int>,
                disr: Option<bool>)
    | Cin(rn: string, labels: seq<string>, acpi: seq<string>, cnf: Option<string>, cs: int, con: string)
    | Sub(rn: string, labels: seq<string>, acpi: seq<string>, enc: Enc, nus: seq<string>, nctGiven: bool,
          batchNumber: Option<int>, rateMax: Option<int>, rateWindow: Option<int>)

  predicate IsResource(c: Content) { c.Ae? || c.Container? || c.Cin? || c.Sub? }

  datatype Request = Request(from: string, to: string, ty: Option<nat>, rvi: Option<string>, vsi: Option<string>,
                             content: Content)

  /** The network as the service sees it: which URIs are IPv4 URLs, and which answer a verification request. */
  datatype Net = Net(remote: set<string>, answering: set<string>)

  /** A resource as accepted: what the response carries. */
  datatype Created = Created(ri: string, rn: string, pi: string, creator: string, content: Content)

  datatype Reply = Reply(code: Rsc, created: Option<Created>)

  function Refuse(code: Rsc): Reply { Reply(code, None) }

  function TypeOf(c: Content): nat {
    if c.Ae? then AE_TYPE else if c.Container? then CONTAINER_TYPE else if c.Cin? then CIN_TYPE else SUBSCRIPTION_TYPE
  }

  function AttrsOf(c: Created): Attrs
    requires IsResource(c.content)
  {
    match c.content
    case Ae(_, _, _, _, _, poa) => AeAttrs(c.ri, Pack(poa))
    case Container(_, _, _, mni, mbs, disr) => CntAttrs(mni, mbs, disr)
    case Cin(_, _, _, _, cs, _) => CinAttrs(cs)
    case Sub(_, _, _, e, nus, _, batch, rateMax, rateWindow) =>
      SubAttrs(SubColumns(PackEnums(e.net), PackEnums(e.chty), Pack(e.labels), e.sizeAbove, e.sizeBelow,
                          e.stateTagSmaller, e.stateTagBigger, rateMax, rateWindow, batch, Pack(nus), c.creator))
  }

  function RowOf(c: Created, path: string): Row
    requires IsResource(c.content)
  {
    Row(c.ri, c.rn, c.pi, path, Pack(c.content.labels), Pack(c.content.acpi), AttrsOf(c))
  }

  predicate IsNameChar(c: char) {
    'a' <= c <= 'z' || 'A' <= c <= 'Z' || '0' <= c <= '9' || c in "-._~"
  }

  predicate ValidName(rn: string) { rn != "" && forall i :: 0 <= i < |rn| ==> IsNameChar(rn[i]) }

  /** IsValidContentInfo: empty, or media type, slash, subtype, colon, an encoding number up to 8. */
  predicate ValidContentInfo(s: string) {
    s == "" ||
    var media := Before(s, '/');
    |media| < |s| &&
    var rest := s[|media| + 1..];
    var sub := Before(rest, ':');
    |sub| < |rest| &&
    var encoding := rest[|sub| + 1..];
    && media != "" && ':' !in media && sub != "" && '/' !in sub
    && encoding != "" && (forall c :: c in encoding ==> IsDigit(c)) && DecValue(encoding, 0) <= 8
  }

  // ------------------------------------------------------------------ creating

  function Take(t: Tables): Tables { t.(nextId := t.nextId + 1) }

  function Named(rn: string, prefix: string, ri: string): string { if rn == "" then prefix + ri else rn }

  /** The save at the end of every Create*. */
  function SaveCreated(t: Tables, c: Created): (Tables, Reply)
    requires IsResource(c.content)
  {
    match Insert(t.rows, RowOf(c, ""))
    case None => (t, Refuse(INTERNAL_SERVER_ERROR))
    case Some(rows) => (t.(rows := rows, aes := Registered(t.aes, RowOf(c, ""))), Reply(CREATED, Some(c)))
  }

  function StripSlash(s: string): string { if s != "" && s[0] == '/' then s[1..] else s }

  predicate Anonymous(from: string) { from == "" || from == "C" }

  function AeRefusal(t: Tables, c: Content, req: Request, parent: Row): Option<Rsc>
    requires c.Ae? && parent.attrs.CseAttrs?
  {
    if req.vsi == Some("has_creator") || c.api == "" then Some(BAD_REQUEST)
    else if (if req.rvi == None || req.rvi == Some("4") then c.api[0] != 'R' && c.api[0] != 'N' else c.api[0] != 'r')
      then Some(BAD_REQUEST)
    else if c.csz != [] then Some(NOT_IMPLEMENTED)
    else if HasChildNamed(t.rows, parent.ri, c.rn) then Some(CONFLICT)
    else if req.from != "" && req.from == StripSlash(parent.attrs.csi) then Some(SECURITY_ASSOCIATION_REQUIRED)
    else None
  }

  function CreateAe(t: Tables, c: Content, req: Request, target: string): (Tables, Reply)
    requires c.Ae?
  {
    match Load(t.rows, target)
    case None => (t, Refuse(NOT_FOUND))
    case Some(parent) =>
      if !parent.attrs.CseAttrs? then (t, Refuse(INVALID_CHILD_RESOURCE_TYPE))
      else
        match AeRefusal(t, c, req, parent)
        case Some(code) => (t, Refuse(code))
        case None =>
          var ri := if Anonymous(req.from) then GeneratedId(t.nextId) else req.from;
          var rn := Named(c.rn, "AE", ri);
          if !Anonymous(req.from) && HasAe(t.aes, req.from) then (Take(t), Refuse(ORIGINATOR_HAS_ALREADY_REGISTERED))
          else if !ValidName(rn) then (Take(t), Refuse(BAD_REQUEST))
          else SaveCreated(Take(t), Created(ri, rn, parent.ri, "", c))
  }

  predicate MayHoldContainers(a: Attrs) { a.CseAttrs? || a.AeAttrs? || a.CntAttrs? }

  /** A creator attribute: given (refused), given as null (the originator), or absent. */
  predicate CreatorRefused(req: Request, kind: string) {
    req.vsi == Some(kind + "_creator_present") || (req.vsi == Some(kind + "_creator_null") && req.from == "")
  }

  function CreatorOf(req: Request, kind: string): string {
    if req.vsi == Some(kind + "_creator_null") then req.from else ""
  }

  function CreateContainer(t: Tables, c: Content, req: Request, target: string): (Tables, Reply)
    requires c.Container?
  {
    match Load(t.rows, target)
    case None => (t, Refuse(NOT_FOUND))
    case Some(parent) =>
      if !MayHoldContainers(parent.attrs) then (t, Refuse(INVALID_CHILD_RESOURCE_TYPE))
      else
        var ri := GeneratedId(t.nextId);
        var rn := Named(c.rn, "cnt", ri);
        if !ValidName(rn) || CreatorRefused(req, "cnt") then (Take(t), Refuse(BAD_REQUEST))
        else SaveCreated(Take(t), Created(ri, rn, parent.ri, CreatorOf(req, "cnt"), c))
  }

  /** The content size stored: the submitted one, or the length of the content. */
  function EffectiveSize(c: Content): (n: int)
    requires c.Cin?
    ensures n >= 0
  {
    if c.cs <= 0 then |c.con| else c.cs
  }

  /** The two capacity checks. The first one's instance count looks up an empty id and is always 0. */
  predicate Full(rows: seq<Row>, parent: Row, size: int)
    requires parent.attrs.CntAttrs?
  {
    var mni, mbs := parent.attrs.mni, parent.attrs.mbs;
    || (mbs.Some? && mbs.value != 0 &&
        ((mni.Some? && mni.value != 0 && 0 > mni.value) || ContainerSize(rows, parent.ri) + size > mbs.value))
    || (mni.Some? && mni.value != 0 &&
        (match LoadChildren(rows, parent.ri, IsCin) case None => 0 case Some(ids) => |ids|) + 1 > mni.value)
  }

  function CreateCin(t: Tables, c: Content, req: Request, target: string): (Tables, Reply)
    requires c.Cin?
  {
    match Load(t.rows, target)
    case None => (t, Refuse(NOT_FOUND))
    case Some(parent) =>
      if !parent.attrs.CntAttrs? then (t, Refuse(INVALID_CHILD_RESOURCE_TYPE))
      else if c.cnf.Some? && !ValidContentInfo(c.cnf.value) then (t, Refuse(BAD_REQUEST))
      else if CreatorRefused(req, "cin") || req.vsi == Some("cin_has_acpi") then (t, Refuse(BAD_REQUEST))
      else if Full(t.rows, parent, EffectiveSize(c)) then (t, Refuse(NOT_ACCEPTABLE))
      else
        var ri := GeneratedId(t.nextId);
        var rn := Named(c.rn, "cin", ri);
        if !ValidName(rn) then (Take(t), Refuse(BAD_REQUEST))
        else SaveCreated(Take(t), Created(ri, rn, parent.ri, CreatorOf(req, "cin"), c.(cs := EffectiveSize(c))))
  }

  /** Which child types a subscription may watch under a parent of this kind. */
  function WatchableTypes(a: Attrs): set<nat> {
    match a
    case CseAttrs(_) => {AE_TYPE, CONTAINER_TYPE, SUBSCRIPTION_TYPE}
    case AeAttrs(_, _) => {CONTAINER_TYPE, SUBSCRIPTION_TYPE}
    case CntAttrs(_, _, _) => {CONTAINER_TYPE, CIN_TYPE, SUBSCRIPTION_TYPE}
    case _ => {}
  }

  /** The restrictions on blocking-update and missing-data subscriptions. */
  predicate EventTypesRefused(c: Content, net: Net)
    requires c.Sub?
  {
    var blocking := BLOCKING_UPDATE in c.enc.net;
    || (!c.nctGiven && blocking && |c.enc.net| > 1)
    || MISSING_DATA_POINTS in c.enc.net
    || (blocking &&
        (|c.nus| != 1 || c.batchNumber.Some? || c.enc.stateTagBigger.Some? || c.enc.sizeAbove.Some?
         || c.enc.sizeBelow.Some? || c.enc.labels != [] || c.enc.chty != [] || c.enc.otherFilters
         || ((forall nu :: nu in c.nus ==> nu !in net.remote) && c.enc.attributes == [])))
  }

  predicate IsHttp(nu: string) { |nu| > 7 && nu[..7] == "http://" }

  /** An id is reached through the point of access of the AE above, a URL if it answers. */
  predicate Reachable(rows: seq<Row>, pi: string, nu: string, net: Net) {
    nu != "" &&
    if nu[0] == 'C' || nu[0] == 'S' then
      var p := Load(rows, pi);
      p.Some? && p.value.attrs.AeAttrs? && Unpack(p.value.attrs.poa) != []
    else IsHttp(nu) && nu in net.answering
  }

  /** Some notification URI is reachable. */
  predicate Verified(rows: seq<Row>, pi: string, nus: seq<string>, net: Net) {
    exists nu :: nu in nus && Reachable(rows, pi, nu, net)
  }

  predicate Watchable(chty: seq<nat>, parent: Attrs) { forall i :: 0 <= i < |chty| ==> chty[i] in WatchableTypes(parent) }

  predicate Differs(nus: seq<string>, from: string) { exists i :: 0 <= i < |nus| && nus[i] != "" && nus[i] != from }

  function SubscriptionCreator(req: Request, nus: seq<string>): string {
    if req.vsi == Some("sub_creator_null") || Differs(nus, req.from) then req.from else ""
  }

  function CreateSub(t: Tables, c: Content, req: Request, target: string, net: Net): (Tables, Reply)
    requires c.Sub?
  {
    match Load(t.rows, target)
    case None => (t, Refuse(NOT_FOUND))
    case Some(parent) =>
      if !MayHoldContainers(parent.attrs) then (t, Refuse(INVALID_CHILD_RESOURCE_TYPE))
      else
        var ri := GeneratedId(t.nextId);
        var rn := Named(c.rn, "sub", ri);
        var t1 := Take(t);
        if !ValidName(rn) then (t1, Refuse(BAD_REQUEST))
        else if !Watchable(c.enc.chty, parent.attrs) then (t1, Refuse(BAD_REQUEST))
        else if CreatorRefused(req, "sub") || EventTypesRefused(c, net) then (t1, Refuse(BAD_REQUEST))
        else if PathOf(t1.rows, parent.ri) == None then (t1, Refuse(NOT_FOUND))
        else if !Verified(t1.rows, parent.ri, c.nus, net)
          then (t1, Refuse(SUBSCRIPTION_VERIFICATION_INITIATION_FAILED))
        else SaveCreated(t1, Created(ri, rn, parent.ri, SubscriptionCreator(req, c.nus), c))
  }

  /** The parts of the configuration that stay in force: the CSEBase's ri is what the tables are asked for. */
  datatype Config = Config(name: string, ri: string, csi: string, spid: string)

  /** GetCSEBase. */
  function CseBase(rows: seq<Row>, cseRi: string): Option<Row> {
    var r := Load(rows, cseRi);
    if r.Some? && r.value.attrs.CseAttrs? then r else None
  }

  /** The normalised target, against the CSEBase row and the SP-ID the service knows. */
  function Target(cse: Row, spid: string, to: string): Addressing.Canonical
    requires cse.attrs.CseAttrs?
  {
    Addressing.Canonicalize(to, Addressing.Cse(cse.rn, cse.attrs.csi, spid))
  }

  function TargetRefusal(wrongSpid: bool): Rsc { if wrongSpid then NOT_FOUND else BAD_REQUEST }

  /** OneM2MService::Create up to the notifications. */
  function Create(t: Tables, cseRi: string, spid: string, req: Request, net: Net): (Tables, Reply) {
    match CseBase(t.rows, cseRi)
    case None => (t, Refuse(INTERNAL_SERVER_ERROR))
    case Some(cse) =>
      match Target(cse, spid, req.to)
      case Invalid(wrong) => (t, Refuse(TargetRefusal(wrong)))
      case Valid(target) =>
        if req.from == "" && req.ty != Some(AE_TYPE) then (t, Refuse(BAD_REQUEST))
        else
          match req.content
          case NoContent => (t, Refuse(BAD_REQUEST))
          case Unsupported => (t, Refuse(BAD_REQUEST))
          case Ae(_, _, _, _, _, _) => CreateAe(t, req.content, req, target)
          case Container(_, _, _, _, _, _) => CreateContainer(t, req.content, req, target)
          case Cin(_, _, _, _, _, _) => CreateCin(t, req.content, req, target)
          case Sub(_, _, _, _, _, _, _, _, _) => CreateSub(t, req.content, req, target, net)
  }

  // ------------------------------------------------------------------ notifying

  /** The four matching functions, on stored or on submitted criteria. */
  predicate MatchesCriteria(k: Criteria, c: Content)
    requires IsResource(c)
  {
    var size := if c.Cin? then c.cs else 0;
    && CREATE_OF_DIRECT_CHILD in k.net
    && (k.chty == [] || TypeOf(c) in k.chty)
    && (forall l :: l in k.labels ==> l in c.labels)
    && (k.sizeAbove.Some? ==> size > k.sizeAbove.value)
    && (k.sizeBelow.Some? ==> size < k.sizeBelow.value)
  }

  function Pairs(ri: string, nus: seq<string>): (r: seq<(string, string)>)
    ensures |r| == |nus| && forall k :: 0 <= k < |r| ==> r[k] == (ri, nus[k])
  {
    if nus == [] then [] else [(ri, nus[0])] + Pairs(ri, nus[1..])
  }

  /** The delivery attempts for one subscription id. */
  function AttemptsFor(rows: seq<Row>, ri: string, c: Content): seq<(string, string)>
    requires IsResource(c)
  {
    match Load(rows, ri)
    case None => []
    case Some(w) =>
      if !w.attrs.SubAttrs? then []
      else
        var s := LoadSubscription(w.attrs.sub);
        if MatchesCriteria(s.criteria, c) then Pairs(w.ri, s.nus) else []
  }

  function AttemptsForAll(rows: seq<Row>, ids: seq<string>, c: Content): seq<(string, string)>
    requires IsResource(c)
  {
    if ids == [] then []
    else AttemptsForAll(rows, ids[..|ids| - 1], c) + AttemptsFor(rows, ids[|ids| - 1], c)
  }

  /** SendNotification: the (subscription, notification URI) pairs handed to delivery, in order. */
  function Attempts(rows: seq<Row>, created: Created): seq<(string, string)>
    requires IsResource(created.content)
  {
    match LoadChildren(rows, created.pi, IsSub)
    case None => []
    case Some(ids) => AttemptsForAll(rows, ids, created.content)
  }

  /** What a whole Create request attempts to deliver. */
  function CreateAttempts(t: Tables, cseRi: string, spid: string, req: Request, net: Net): seq<(string, string)> {
    CreatedIsResource(t, cseRi, spid, req, net);
    var (t', reply) := Create(t, cseRi, spid, req, net);
    if reply.created.None? || reply.created.value.content.Sub? then [] else Attempts(t'.rows, reply.created.value)
  }

  // ------------------------------------------------------------------ what a create can come to

  /** The id a create request will use, if it is accepted. */
  function IdFor(t: Tables, req: Request): string {
    if req.content.Ae? && !Anonymous(req.from) then req.from else GeneratedId(t.nextId)
  }

  function Prefix(c: Content): string {
    if c.Ae? then "AE" else if c.Container? then "cnt" else if c.Cin? then "cin" else "sub"
  }

  /** The representation as stored: only an instance's size is changed. */
  function Stored(c: Content): Content { if c.Cin? then c.(cs := if c.cs > 0 then c.cs else |c.con|) else c }

  /** The name of what is made: the submitted one, or the default for its id. */
  function NameDue(req: Request, ri: string): string {
    if IsResource(req.content) && req.content.rn != "" then req.content.rn else Prefix(req.content) + ri
  }

  /**
   The creator of what is made: the originator when a null creator was submitted, and of a subscription also when
   some notification URI is not the originator itself.
   */
  function CreatorDue(req: Request): string {
    match req.content
    case Container(_, _, _, _, _, _) => if req.vsi == Some("cnt_creator_null") then req.from else ""
    case Cin(_, _, _, _, _, _) => if req.vsi == Some("cin_creator_null") then req.from else ""
    case Sub(_, _, _, _, nus, _, _, _, _) =>
      if req.vsi == Some("sub_creator_null") || exists nu :: nu in nus && nu != "" && nu != req.from then req.from else ""
    case _ => ""
  }

  /** Which resources may sit directly under which (oneM2M TS-0001, the subset implemented). */
  predicate LegalChild(parent: Attrs, child: Content) {
    match child
    case Ae(_, _, _, _, _, _) => parent.CseAttrs?
    case Container(_, _, _, _, _, _) => parent.CseAttrs? || parent.AeAttrs? || parent.CntAttrs?
    case Cin(_, _, _, _, _, _) => parent.CntAttrs?
    case Sub(_, _, _, _, _, _, _, _, _) => parent.CseAttrs? || parent.AeAttrs? || parent.CntAttrs?
    case _ => false
  }

  predicate Accepts(t: Tables, t': Tables, c: Created, req: Request, parent: Row) {
    && IsResource(c.content) && c.content == Stored(req.content)
    && c.ri == IdFor(t, req) && c.rn == NameDue(req, c.ri) && ValidName(c.rn) && c.creator == CreatorDue(req)
    && c.pi == parent.ri && LegalChild(parent.attrs, c.content)
    && (c.content.Cin? ==> !Full(t.rows, parent, c.content.cs))
    && (c.content.Ae? && !Anonymous(req.from) ==> !HasAe(t.aes, req.from))
    && Insert(t.rows, RowOf(c, "")) == Some(t'.rows) && t'.nextId == t.nextId + 1
    && t'.aes == Registered(t.aes, RowOf(c, ""))
  }

  /** A refused create saves nothing; an accepted one inserts the row it answers with, below the target. */
  predicate Outcome(t: Tables, t': Tables, reply: Reply, req: Request, target: string) {
    match reply.created
    case None => reply.code != CREATED && t'.rows == t.rows && t'.aes == t.aes && t.nextId <= t'.nextId <= t.nextId + 1
    case Some(c) =>
      reply.code == CREATED && Load(t.rows, target).Some? && Accepts(t, t', c, req, Load(t.rows, target).value)
  }

  lemma AeOutcome(t: Tables, req: Request, target: string)
    requires req.content.Ae?
    ensures var (t', reply) := CreateAe(t, req.content, req, target); Outcome(t, t', reply, req, target)
  {
    hide Load, Insert, ValidName, HasAe, HasChildNamed, GeneratedId, RowOf;
  }

  lemma VendorTexts()
    ensures "cnt" + "_creator_null" == "cnt_creator_null" && "cin" + "_creator_null" == "cin_creator_null"
  {
  }

  lemma ContainerOutcome(t: Tables, req: Request, target: string)
    requires req.content.Container?
    ensures var (t', reply) := CreateContainer(t, req.content, req, target); Outcome(t, t', reply, req, target)
  {
    VendorTexts();
    hide Load, Insert, ValidName, GeneratedId, RowOf, CreatorRefused;
  }

  lemma CinOutcome(t: Tables, req: Request, target: string)
    requires req.content.Cin?
    ensures var (t', reply) := CreateCin(t, req.content, req, target); Outcome(t, t', reply, req, target)
  {
    VendorTexts();
    hide Load, Insert, ValidName, GeneratedId, ValidContentInfo, Full, RowOf, CreatorRefused;
  }

  lemma SubCreator(req: Request)
    requires req.content.Sub?
    ensures CreatorDue(req) == SubscriptionCreator(req, req.content.nus)
  {
    var nus := req.content.nus;
    if i :| 0 <= i < |nus| && nus[i] != "" && nus[i] != req.from { assert nus[i] in nus; }
    if nu :| nu in nus && nu != "" && nu != req.from {
      var i :| 0 <= i < |nus| && nus[i] == nu;
      assert nus[i] != "" && nus[i] != req.from;
    }
  }

  lemma SubOutcome(t: Tables, req: Request, target: string, net: Net)
    requires req.content.Sub?
    ensures var (t', reply) := CreateSub(t, req.content, req, target, net); Outcome(t, t', reply, req, target)
  {
    SubCreator(req);
    hide Load, Insert, ValidName, GeneratedId, EventTypesRefused, Verified, PathOf, RowOf, CreatorRefused,
         CreatorDue, SubscriptionCreator, Watchable;
  }

  /** The canonical path an address leads to in this CSE, if it is valid here. */
  function Addressed(rows: seq<Row>, cseRi: string, spid: string, to: string): Option<string> {
    match CseBase(rows, cseRi)
    case None => None
    case Some(cse) =>
      match Target(cse, spid, to)
      case Invalid(_) => None
      case Valid(path) => Some(path)
  }

  /**
   Every create request, whatever it holds, has one of the two outcomes at the path its address leads to;
   without such a path it is refused and changes nothing.
   */
  lemma CreateOutcome(t: Tables, cseRi: string, spid: string, req: Request, net: Net)
    ensures var (t', reply) := Create(t, cseRi, spid, req, net);
            match Addressed(t.rows, cseRi, spid, req.to)
            case None => t' == t && reply.created.None? && reply.code != CREATED
            case Some(target) => Outcome(t, t', reply, req, target)
  {
    hide CreateAe, CreateContainer, CreateCin, CreateSub, Outcome, Load;
    var (t', reply) := Create(t, cseRi, spid, req, net);
    var cse := CseBase(t.rows, cseRi);
    if cse.Some? && Target(cse.value, spid, req.to).Valid? {
      var target := Target(cse.value, spid, req.to).path;
      if (req.from == "" && req.ty != Some(AE_TYPE)) || !IsResource(req.content) { RefusedOutcome(t, reply, req, target); }
      else if req.content.Ae? { AeOutcome(t, req, target); }
      else if req.content.Container? { ContainerOutcome(t, req, target); }
      else if req.content.Cin? { CinOutcome(t, req, target); }
      else { SubOutcome(t, req, target, net); }
    }
  }

  lemma RefusedOutcome(t: Tables, reply: Reply, req: Request, target: string)
    requires reply.created.None? && reply.code != CREATED
    ensures Outcome(t, t, reply, req, target)
  {
  }

  lemma CreatedIsResource(t: Tables, cseRi: string, spid: string, req: Request, net: Net)
    ensures var reply := Create(t, cseRi, spid, req, net).1;
            && (reply.created.Some? ==> IsResource(reply.created.value.content))
            && (reply.created.Some? <==> reply.code == CREATED)
  {
    hide Create, Load, Full, Insert, LegalChild, ValidName, RowOf;
    CreateOutcome(t, cseRi, spid, req, net);
  }

  // ------------------------------------------------------------------ retrieving

  /** MatchesResourceTarget. */
  predicate MatchesTarget(rows: seq<Row>, w: Row, target: string) {
    var path := PathOf(rows, w.ri);
    path.Some? &&
    (path.value == target || StripSlash(path.value) == StripSlash(target) || w.ri == StripSlash(target)
     || w.rn == StripSlash(target) || path.value + "/la" == target || path.value + "/ol" == target)
  }

  const ADMIN := "CAdmin"
  const GUARD := 32

  /** The upward loop of IsAllowedForContainer, with guard turns already taken. */
  predicate AllowedFrom(rows: seq<Row>, from: string, current: string, guard: nat)
    requires guard <= GUARD
    decreases GUARD - guard
  {
    if current == "" || guard == GUARD then false
    else
      match Load(rows, current)
      case None => false
      case Some(w) =>
        match w.attrs
        case AeAttrs(aei, _) => from == aei
        case CntAttrs(_, _, _) => AllowedFrom(rows, from, w.pi, guard + 1)
        case CseAttrs(csi) => from == csi
        case _ => false
  }

  predicate Allowed(rows: seq<Row>, from: string, cnt: Row) { from == ADMIN || AllowedFrom(rows, from, cnt.pi, 0) }

  datatype Answer = Answer(code: Rsc, found: Option<Found>)

  /** The retrieved resource; a container carries its computed instance count and size. */
  datatype Found = Found(row: Row, cni: nat, cbs: int)

  function RefuseRead(code: Rsc): Answer { Answer(code, None) }

  function RetrieveCin(rows: seq<Row>, from: string, cin: Row, target: string): Answer {
    if !MatchesTarget(rows, cin, target) then RefuseRead(NOT_FOUND)
    else
      var parent := if cin.pi == "" then None else Load(rows, cin.pi);
      if parent.None? then RefuseRead(NOT_FOUND)
      else if !parent.value.attrs.CntAttrs? then RefuseRead(INTERNAL_SERVER_ERROR)
      else if parent.value.attrs.disr == Some(true) then RefuseRead(OPERATION_NOT_ALLOWED)
      else if !Allowed(rows, from, parent.value) then RefuseRead(ORIGINATOR_HAS_NO_PRIVILEGE)
      else if Unpack(cin.acpi) != [] then
        RefuseRead(if Unpack(parent.value.acpi) == [] then BAD_REQUEST else NOT_IMPLEMENTED)
      else Answer(OK, Some(Found(cin, 0, 0)))
  }

  function RetrieveContainer(rows: seq<Row>, from: string, cnt: Row, target: string): Answer
    requires cnt.attrs.CntAttrs?
  {
    var path := PathOf(rows, cnt.ri);
    if !MatchesTarget(rows, cnt, target) then RefuseRead(NOT_FOUND)
    else if !Allowed(rows, from, cnt) then RefuseRead(ORIGINATOR_HAS_NO_PRIVILEGE)
    else if cnt.attrs.disr == Some(true) then RefuseRead(OPERATION_NOT_ALLOWED)
    else if path.value + "/la" == target || path.value + "/ol" == target then
      match LoadEndChild(rows, cnt.ri, IsCin, path.value + "/la" == target)
      case None => RefuseRead(NOT_FOUND)
      case Some(ri) =>
        var cin := Load(rows, ri);
        if cin.None? then RefuseRead(NOT_FOUND) else RetrieveCin(rows, from, cin.value, ri)
    else
      var ids := LoadChildren(rows, cnt.ri, IsCin);
      Answer(OK, Some(Found(cnt, if ids.None? then 0 else |ids.value|, ContainerSize(rows, cnt.ri))))
  }

  /** OneM2MService::Retrieve after the target is normalised. Targets shorter than 3 have no third character from the end. */
  function RetrieveTarget(rows: seq<Row>, cse: Row, from: string, target: string): Answer {
    var parent := if |target| >= 3 && target[|target| - 3] == '/' then target[..|target| - 3] else target;
    var found := if target == cse.rn then Some(cse) else Load(rows, parent);
    match found
    case None => RefuseRead(NOT_FOUND)
    case Some(w) =>
      match w.attrs
      case CseAttrs(_) =>
        if target != w.rn then RefuseRead(NOT_FOUND)
        else if from != ADMIN then RefuseRead(ORIGINATOR_HAS_NO_PRIVILEGE)
        else Answer(OK, Some(Found(w, 0, 0)))
      case AeAttrs(aei, _) =>
        if !MatchesTarget(rows, w, target) then RefuseRead(NOT_FOUND)
        else if from == "" || aei == "" || from != aei then RefuseRead(ORIGINATOR_HAS_NO_PRIVILEGE)
        else Answer(OK, Some(Found(w, 0, 0)))
      case CntAttrs(_, _, _) => RetrieveContainer(rows, from, w, target)
      case CinAttrs(_) => RetrieveCin(rows, from, w, target)
      case SubAttrs(s) =>
        if !MatchesTarget(rows, w, target) then RefuseRead(NOT_FOUND)
        else if from != s.creator then RefuseRead(ORIGINATOR_HAS_NO_PRIVILEGE)
        else Answer(OK, Some(Found(w, 0, 0)))
  }

  function Retrieve(rows: seq<Row>, cseRi: string, spid: string, from: string, to: string): Answer {
    match CseBase(rows, cseRi)
    case None => RefuseRead(BAD_REQUEST)
    case Some(cse) =>
      match Target(cse, spid, to)
      case Invalid(wrong) => RefuseRead(TargetRefusal(wrong))
      case Valid(target) => RetrieveTarget(rows, cse, from, target)
  }

  // ------------------------------------------------------------------ booting

  /** The row Initialize seeds. */
  function CseRow(cfg: Config): Row { Row(cfg.ri, cfg.name, "", cfg.name, "", "", CseAttrs(cfg.csi)) }

  /** Initialize: seeds an empty store and learns the SP-ID; a store with a CSEBase is resumed without it. */
  function Boot(t: Tables, cfg: Config): (Tables, string) {
    if CseBase(t.rows, cfg.ri).Some? then (t, "")
    else
      match Insert(t.rows, CseRow(cfg))
      case None => (t, cfg.spid)
      case Some(rows) => (t.(rows := rows), cfg.spid)
  }
}
