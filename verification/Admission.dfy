/**
 What a create is answered with: the chains of checks in the four Create functions against conditions spelled out
 here, and which creates are accepted.
 */
module Admission {
  import opened Options
  import opened Text
  import opened Packing
  import opened Store
  import opened OneM2M
  import opened ResourceTree
  import opened History
  import Addressing

  // ------------------------------------------------------------------ conditions on any create

  /** The resource type numbers of oneM2M TS-0004. */
  function TypeNumber(c: Content): nat {
    if c.Ae? then 2 else if c.Container? then 3 else if c.Cin? then 4 else 23
  }

  /** The unreserved characters of RFC 3986, section 2.3. */
  predicate Unreserved(c: char) {
    || '0' <= c <= '9' || 'A' <= c <= 'Z' || 'a' <= c <= 'z'
    || c == '-' || c == '.' || c == '_' || c == '~'
  }

  predicate NameChars(s: string) { s != "" && forall i :: 0 <= i < |s| ==> Unreserved(s[i]) }

  /** The submitted name, or the default one, is a name. */
  predicate NameAllowed(t: Tables, req: Request)
    requires IsResource(req.content)
  {
    NameChars(if req.content.rn != "" then req.content.rn else Prefix(req.content) + IdFor(t, req))
  }

  lemma NameCharsIff(s: string)
    ensures ValidName(s) <==> NameChars(s)
  {
    assert forall i :: 0 <= i < |s| ==> (IsNameChar(s[i]) <==> Unreserved(s[i]));
  }

  /** No creator was given, or it was given as null by someone known. */
  predicate CreatorAllowed(req: Request, kind: string) {
    req.vsi != Some(kind + "_creator_present") && (req.vsi == Some(kind + "_creator_null") ==> req.from != "")
  }

  lemma CreatorsAgree(req: Request, kind: string)
    ensures CreatorAllowed(req, kind) <==> !CreatorRefused(req, kind)
  {
  }

  /** Containers and subscriptions go under the CSE, an AE or a container. */
  predicate HoldsContainers(a: Attrs) { !a.CinAttrs? && !a.SubAttrs? }

  // ------------------------------------------------------------------ application entities

  /** Release 4 registration takes an application id of N or R, an earlier one of r. */
  predicate AppIdAllowed(api: string, rvi: Option<string>) {
    api != "" && (if rvi == None || rvi == Some("4") then api[0] == 'R' || api[0] == 'N' else api[0] == 'r')
  }

  predicate NoSibling(rows: seq<Row>, parent: Row, rn: string) {
    rn != "" ==> forall k :: 0 <= k < |rows| ==> rows[k].pi != parent.ri || rows[k].rn != rn
  }

  /** The originator is the CSE's own id, with its slash or without. */
  predicate IsCseId(csi: string, from: string) { from != "" && (csi == "/" + from || (csi == from && from[0] != '/')) }

  /** An originator of its own that is registered. */
  predicate Registered(t: Tables, from: string) { from != "" && from != "C" && HasAe(t.aes, from) }

  /** The answer to an AE: the first condition that fails decides. */
  function AeAnswer(t: Tables, req: Request, parent: Row): Rsc
    requires req.content.Ae?
  {
    var c := req.content;
    if !parent.attrs.CseAttrs? then INVALID_CHILD_RESOURCE_TYPE
    else if req.vsi == Some("has_creator") || !AppIdAllowed(c.api, req.rvi) then BAD_REQUEST
    else if c.csz != [] then NOT_IMPLEMENTED
    else if !NoSibling(t.rows, parent, c.rn) then CONFLICT
    else if IsCseId(parent.attrs.csi, req.from) then SECURITY_ASSOCIATION_REQUIRED
    else if Registered(t, req.from) then ORIGINATOR_HAS_ALREADY_REGISTERED
    else if !NameAllowed(t, req) then BAD_REQUEST
    else CREATED
  }

  /** An id is drawn once nothing but the originator and the name is left to check. */
  predicate AeDraws(t: Tables, req: Request, parent: Row)
    requires req.content.Ae?
  {
    var c := req.content;
    && parent.attrs.CseAttrs? && req.vsi != Some("has_creator") && AppIdAllowed(c.api, req.rvi) && c.csz == []
    && NoSibling(t.rows, parent, c.rn) && !IsCseId(parent.attrs.csi, req.from)
  }

  lemma SiblingIff(rows: seq<Row>, parent: Row, rn: string)
    requires parent.ri != ""
    ensures NoSibling(rows, parent, rn) <==> !HasChildNamed(rows, parent.ri, rn)
  {
  }

  lemma CseIdIff(csi: string, from: string)
    ensures IsCseId(csi, from) <==> from != "" && from == StripSlash(csi)
  {
    if csi != "" && csi[0] == '/' { assert csi == "/" + csi[1..]; }
  }

  lemma AeAnswered(t: Tables, req: Request, target: string)
    requires req.content.Ae? && Saves(t, target) && (Load(t.rows, target).Some? ==> Load(t.rows, target).value.ri != "")
    ensures CreateAe(t, req.content, req, target).1.code
            == if Load(t.rows, target).None? then NOT_FOUND else AeAnswer(t, req, Load(t.rows, target).value)
    ensures CreateAe(t, req.content, req, target).0.nextId
            == t.nextId + if Load(t.rows, target).Some? && AeDraws(t, req, Load(t.rows, target).value) then 1 else 0
  {
    var c := req.content;
    var rn := Named(c.rn, "AE", IdFor(t, req));
    NameCharsIff(rn);
    if Load(t.rows, target).Some? && Load(t.rows, target).value.attrs.CseAttrs? {
      var parent := Load(t.rows, target).value;
      SiblingIff(t.rows, parent, c.rn);
      CseIdIff(parent.attrs.csi, req.from);
    }
    hide Load, SaveCreated, ValidName, NameChars, HasAe, HasChildNamed, NoSibling, GeneratedId, StripSlash, IsCseId;
  }

  // ------------------------------------------------------------------ containers

  function ContainerAnswer(t: Tables, req: Request, parent: Row): Rsc
    requires req.content.Container?
  {
    if !HoldsContainers(parent.attrs) then INVALID_CHILD_RESOURCE_TYPE
    else if NameAllowed(t, req) && CreatorAllowed(req, "cnt") then CREATED else BAD_REQUEST
  }

  lemma ContainerAnswered(t: Tables, req: Request, target: string)
    requires req.content.Container? && Saves(t, target)
    ensures CreateContainer(t, req.content, req, target).1.code
            == if Load(t.rows, target).None? then NOT_FOUND else ContainerAnswer(t, req, Load(t.rows, target).value)
    ensures CreateContainer(t, req.content, req, target).0.nextId
            == t.nextId + if Load(t.rows, target).Some? && HoldsContainers(Load(t.rows, target).value.attrs) then 1 else 0
  {
    NameCharsIff(Named(req.content.rn, "cnt", GeneratedId(t.nextId)));
    CreatorsAgree(req, "cnt");
    hide Load, SaveCreated, ValidName, NameChars, GeneratedId, CreatorAllowed, CreatorRefused;
  }

  // ------------------------------------------------------------------ content instances

  /** media "/" subtype ":" encoding, with an encoding number up to 8 (oneM2M TS-0004, contentInfo). */
  ghost predicate IsContentInfo(s: string) {
    exists media: string, sub: string, encoding: string ::
      s == InfoText(media, sub, encoding) && InfoParts(media, sub, encoding)
  }

  function InfoText(media: string, sub: string, encoding: string): string { media + ("/" + (sub + (":" + encoding))) }

  predicate InfoParts(media: string, sub: string, encoding: string) {
    && media != "" && '/' !in media && ':' !in media && sub != "" && '/' !in sub && ':' !in sub
    && encoding != "" && Digits(encoding) && Spelled(encoding) <= 8
  }

  lemma ContentInfoIff(s: string)
    ensures ValidContentInfo(s) <==> s == "" || IsContentInfo(s)
  {
    hide ValidContentInfo, InfoText, InfoParts;
    assert ValidContentInfo("") by { NoInfo(); }
    if s != "" && ValidContentInfo(s) { var media, sub, encoding := InfoSplits(s); }
    if IsContentInfo(s) {
      var media, sub, encoding :| s == InfoText(media, sub, encoding) && InfoParts(media, sub, encoding);
      InfoJoins(media, sub, encoding);
    }
  }

  lemma NoInfo()
    ensures ValidContentInfo("")
  {
  }

  lemma CutAt(s: string, head: string, c: char, tail: string)
    requires c !in head && s == head + ([c] + tail)
    ensures Before(s, c) == head && |head| < |s| && s[|head| + 1..] == tail
  {
    BeforeOf(head, c, [c] + tail);
    hide Before;
  }

  lemma InfoSplits(s: string) returns (media: string, sub: string, encoding: string)
    requires s != "" && ValidContentInfo(s)
    ensures s == InfoText(media, sub, encoding) && InfoParts(media, sub, encoding)
  {
    media := Before(s, '/');
    var rest := s[|media| + 1..];
    sub := Before(rest, ':');
    encoding := rest[|sub| + 1..];
    EncodingIs(encoding);
    CutBack(s, '/');
    CutBack(rest, ':');
    hide Before, DecValue, Spelled;
  }

  lemma CutBack(s: string, c: char)
    requires |Before(s, c)| < |s|
    ensures s == Before(s, c) + ([c] + s[|Before(s, c)| + 1..])
  {
    hide Before;
  }

  lemma EncodingIs(s: string)
    ensures (forall c :: c in s ==> IsDigit(c)) <==> Digits(s)
    ensures Digits(s) ==> DecValue(s, 0) == Spelled(s)
  {
    if forall c :: c in s ==> IsDigit(c) {
      assert forall i :: 0 <= i < |s| ==> s[i] in s;
    }
    if Digits(s) { SpelledByLoop(s); }
    hide DecValue, Spelled;
  }

  lemma InfoJoins(media: string, sub: string, encoding: string)
    requires InfoParts(media, sub, encoding)
    ensures ValidContentInfo(InfoText(media, sub, encoding))
  {
    var s, rest := InfoText(media, sub, encoding), sub + (":" + encoding);
    EncodingIs(encoding);
    hide Before, DecValue, Spelled;
    CutAt(s, media, '/', rest);
    CutAt(rest, sub, ':', encoding);
    hide InfoText;
  }

  /** Room in the container: neither limit is passed with the new instance in it. */
  predicate Room(rows: seq<Row>, cnt: Row, size: int)
    requires cnt.attrs.CntAttrs?
  {
    var mni, mbs := cnt.attrs.mni, cnt.attrs.mbs;
    && (mbs.Some? && mbs.value != 0 ==> ContainerSize(rows, cnt.ri) + size <= mbs.value)
    && (mni.Some? && mni.value != 0 ==> |ChildIds(rows, cnt.ri, IsCin)| + 1 <= mni.value)
  }

  /** Room is the converse of the source's two capacity checks for a container found in a tree. */
  lemma RoomIffNotFull(rows: seq<Row>, cfg: Config, p: nat, size: int)
    requires Tree(rows, cfg) && p < |rows| && rows[p].attrs.CntAttrs?
    ensures Room(rows, rows[p], size) <==> !Full(rows, rows[p], size)
  {
    assert FoundById(rows, p);
    hide Resolve, RowOk, FoundById, ContainerSize, ChildIds;
  }

  /** The size that counts: the submitted one if it is positive, else the length of the content. */
  function SizeOf(c: Content): int
    requires c.Cin?
  {
    if c.cs > 0 then c.cs else |c.con|
  }

  ghost function CinAnswer(t: Tables, req: Request, parent: Row): Rsc
    requires req.content.Cin?
  {
    var c := req.content;
    if !parent.attrs.CntAttrs? then INVALID_CHILD_RESOURCE_TYPE
    else if c.cnf.Some? && c.cnf.value != "" && !IsContentInfo(c.cnf.value) then BAD_REQUEST
    else if !CreatorAllowed(req, "cin") || req.vsi == Some("cin_has_acpi") then BAD_REQUEST
    else if !Room(t.rows, parent, SizeOf(c)) then NOT_ACCEPTABLE
    else if !NameAllowed(t, req) then BAD_REQUEST
    else CREATED
  }

  /** An id is drawn once there is room. */
  ghost predicate CinDraws(t: Tables, req: Request, parent: Row)
    requires req.content.Cin?
  {
    var c := req.content;
    && parent.attrs.CntAttrs? && (c.cnf.Some? && c.cnf.value != "" ==> IsContentInfo(c.cnf.value))
    && CreatorAllowed(req, "cin") && req.vsi != Some("cin_has_acpi") && Room(t.rows, parent, SizeOf(c))
  }

  lemma CinAnswered(t: Tables, cfg: Config, req: Request, target: string)
    requires req.content.Cin? && Saves(t, target) && Tree(t.rows, cfg)
    ensures CreateCin(t, req.content, req, target).1.code
            == if Load(t.rows, target).None? then NOT_FOUND else CinAnswer(t, req, Load(t.rows, target).value)
    ensures CreateCin(t, req.content, req, target).0.nextId
            == t.nextId + if Load(t.rows, target).Some? && CinDraws(t, req, Load(t.rows, target).value) then 1 else 0
  {
    var parent := Load(t.rows, target);
    if parent.Some? && parent.value.attrs.CntAttrs? {
      RoomIffNotFull(t.rows, cfg, Resolve(t.rows, target), EffectiveSize(req.content));
    }
    if req.content.cnf.Some? { ContentInfoIff(req.content.cnf.value); }
    NameCharsIff(Named(req.content.rn, "cin", GeneratedId(t.nextId)));
    CreatorsAgree(req, "cin");
    hide Load, SaveCreated, ValidName, NameChars, GeneratedId, Full, Room, ValidContentInfo, IsContentInfo, Tree,
         CreatorAllowed, CreatorRefused;
  }

  // ------------------------------------------------------------------ subscriptions

  /** Some resource with this type number may sit under the parent. */
  ghost predicate IsChildType(parent: Attrs, ty: nat) {
    exists c: Content :: IsResource(c) && TypeNumber(c) == ty && LegalChild(parent, c)
  }

  /** A subscription may watch exactly the types that may sit beside it. */
  lemma WatchableIff(parent: Attrs, ty: nat)
    requires HoldsContainers(parent)
    ensures ty in WatchableTypes(parent) <==> IsChildType(parent, ty)
  {
    var ae := Ae("", [], [], "", [], []);
    var cnt := Container("", [], [], None, None, None);
    var cin := Cin("", [], [], None, 0, "");
    var sub := Sub("", [], [], Enc([], [], [], None, None, None, None, [], false), [], false, None, None, None);
    assert IsResource(ae) && IsResource(cnt) && IsResource(cin) && IsResource(sub);
    assert TypeNumber(ae) == 2 && TypeNumber(cnt) == 3 && TypeNumber(cin) == 4 && TypeNumber(sub) == 23;
  }

  /** A blocking update (7) stands alone unless a content type is given, and comes with nothing but attributes. */
  predicate BlockingAllowed(c: Content, net: Net)
    requires c.Sub?
  {
    && (c.nctGiven || |c.enc.net| == 1) && |c.nus| == 1 && (c.nus[0] in net.remote || c.enc.attributes != [])
    && c.batchNumber.None? && c.enc.stateTagBigger.None? && c.enc.sizeAbove.None? && c.enc.sizeBelow.None?
    && c.enc.labels == [] && c.enc.chty == [] && !c.enc.otherFilters
  }

  /** Missing data points (8) are watched on time series only. */
  predicate EventTypesAllowed(c: Content, net: Net)
    requires c.Sub?
  {
    8 !in c.enc.net && (7 in c.enc.net ==> BlockingAllowed(c, net))
  }

  lemma EventTypesIff(c: Content, net: Net)
    requires c.Sub?
    ensures EventTypesAllowed(c, net) <==> !EventTypesRefused(c, net)
  {
    if |c.nus| == 1 {
      assert (forall nu :: nu in c.nus ==> nu !in net.remote) <==> c.nus[0] !in net.remote;
    }
    if 7 in c.enc.net { assert |c.enc.net| >= 1; }
  }

  /** No subscription is refused for its event types when they are neither of the two. */
  lemma OtherEventTypes(c: Content, net: Net)
    requires c.Sub? && 7 !in c.enc.net && 8 !in c.enc.net
    ensures !EventTypesRefused(c, net)
  {
    EventTypesIff(c, net);
    hide EventTypesRefused;
  }

  /** An id is reached through the AE the subscription is put under, a URL if its host answers. */
  predicate Answers(parent: Row, nu: string, net: Net) {
    && nu != ""
    && if nu[0] == 'C' || nu[0] == 'S' then parent.attrs.AeAttrs? && parent.attrs.poa != ""
       else "http://" < nu && nu in net.answering
  }

  predicate SomeAnswers(parent: Row, nus: seq<string>, net: Net) { exists nu :: nu in nus && Answers(parent, nu, net) }

  ghost predicate AreChildTypes(parent: Attrs, chty: seq<nat>) { forall ty :: ty in chty ==> IsChildType(parent, ty) }

  ghost function SubAnswer(t: Tables, req: Request, parent: Row, net: Net): Rsc
    requires req.content.Sub?
  {
    var c := req.content;
    if !HoldsContainers(parent.attrs) then INVALID_CHILD_RESOURCE_TYPE
    else if !NameAllowed(t, req) || !CreatorAllowed(req, "sub") || !EventTypesAllowed(c, net)
            || !AreChildTypes(parent.attrs, c.enc.chty)
      then BAD_REQUEST
    else if SomeAnswers(parent, c.nus, net) then CREATED
    else SUBSCRIPTION_VERIFICATION_INITIATION_FAILED
  }

  lemma WatchedIff(parent: Attrs, chty: seq<nat>)
    requires HoldsContainers(parent)
    ensures Watchable(chty, parent) <==> AreChildTypes(parent, chty)
  {
    forall ty: nat ensures ty in WatchableTypes(parent) <==> IsChildType(parent, ty) { WatchableIff(parent, ty); }
    hide IsChildType, WatchableTypes;
    if ty :| ty in chty && !IsChildType(parent, ty) {
      var i :| 0 <= i < |chty| && chty[i] == ty;
      assert chty[i] !in WatchableTypes(parent);
    }
    if i :| 0 <= i < |chty| && chty[i] !in WatchableTypes(parent) {
      assert chty[i] in chty && !IsChildType(parent, chty[i]);
    }
  }

  lemma HttpIff(nu: string)
    ensures IsHttp(nu) <==> "http://" < nu
  {
  }

  lemma VerifiedIff(rows: seq<Row>, cfg: Config, p: nat, nus: seq<string>, net: Net)
    requires Tree(rows, cfg) && p < |rows| && !rows[p].attrs.SubAttrs?
    ensures Verified(rows, rows[p].ri, nus, net) <==> SomeAnswers(rows[p], nus, net)
  {
    assert FoundById(rows, p);
    assert Load(rows, rows[p].ri) == Some(rows[p]);
    hide Load, Tree, FoundById, Pieces;
    forall nu | nu in nus ensures Reachable(rows, rows[p].ri, nu, net) <==> Answers(rows[p], nu, net) { HttpIff(nu); }
    hide Reachable, Answers;
  }

  lemma SubAnswered(t: Tables, cfg: Config, req: Request, target: string, net: Net)
    requires req.content.Sub? && Saves(t, target) && Tree(t.rows, cfg)
    ensures CreateSub(t, req.content, req, target, net).1.code
            == if Load(t.rows, target).None? then NOT_FOUND else SubAnswer(t, req, Load(t.rows, target).value, net)
    ensures CreateSub(t, req.content, req, target, net).0.nextId
            == t.nextId + if Load(t.rows, target).Some? && HoldsContainers(Load(t.rows, target).value.attrs) then 1 else 0
  {
    var c, parent := req.content, Load(t.rows, target);
    if parent.Some? && HoldsContainers(parent.value.attrs) {
      var p := Resolve(t.rows, target);
      FindById(t.rows, cfg, p);
      assert PathOf(t.rows, parent.value.ri).Some?;
      VerifiedIff(t.rows, cfg, p, c.nus, net);
      WatchedIff(parent.value.attrs, c.enc.chty);
    }
    EventTypesIff(c, net);
    NameCharsIff(Named(c.rn, "sub", GeneratedId(t.nextId)));
    CreatorsAgree(req, "sub");
    hide Load, SaveCreated, ValidName, NameChars, GeneratedId, EventTypesRefused, EventTypesAllowed, Verified, PathOf,
         Watchable, SubscriptionCreator, Tree, CreatorAllowed, CreatorRefused, AreChildTypes, SomeAnswers;
  }

  // ------------------------------------------------------------------ every create

  /** What a create below this parent is answered with. */
  ghost function AnswerBelow(t: Tables, req: Request, parent: Row, net: Net): Rsc {
    match req.content
    case NoContent => BAD_REQUEST
    case Unsupported => BAD_REQUEST
    case Ae(_, _, _, _, _, _) => AeAnswer(t, req, parent)
    case Container(_, _, _, _, _, _) => ContainerAnswer(t, req, parent)
    case Cin(_, _, _, _, _, _) => CinAnswer(t, req, parent)
    case Sub(_, _, _, _, _, _, _, _, _) => SubAnswer(t, req, parent, net)
  }

  /** What a create is answered with: its address, its originator and its content are looked at first. */
  ghost function AnswerDue(cfg: Config, w: World, req: Request, net: Net): Rsc {
    match Target(CseRow(cfg), w.spid, req.to)
    case Invalid(wrongSpid) => if wrongSpid then NOT_FOUND else BAD_REQUEST
    case Valid(path) =>
      if (req.from == "" && req.ty != Some(2)) || !IsResource(req.content) then BAD_REQUEST
      else
        match Load(w.tables.rows, path)
        case None => NOT_FOUND
        case Some(parent) => AnswerBelow(w.tables, req, parent, net)
  }

  /** The create gets as far as drawing an id, whether it is accepted or not. */
  ghost predicate DrawsBelow(t: Tables, req: Request, parent: Row) {
    match req.content
    case NoContent => false
    case Unsupported => false
    case Ae(_, _, _, _, _, _) => AeDraws(t, req, parent)
    case Container(_, _, _, _, _, _) => HoldsContainers(parent.attrs)
    case Cin(_, _, _, _, _, _) => CinDraws(t, req, parent)
    case Sub(_, _, _, _, _, _, _, _, _) => HoldsContainers(parent.attrs)
  }

  ghost predicate Draws(cfg: Config, w: World, req: Request) {
    var target := Target(CseRow(cfg), w.spid, req.to);
    && target.Valid? && (req.from != "" || req.ty == Some(2))
    && Load(w.tables.rows, target.path).Some? && DrawsBelow(w.tables, req, Load(w.tables.rows, target.path).value)
  }

  /**
   In a tree every create, accepted or refused, is answered with the code its first failing condition calls for, and
   the counter moves exactly when it gets as far as drawing an id.
   */
  lemma Answered(cfg: Config, w: World, req: Request, net: Net)
    requires ConfigOk(cfg) && Inv(cfg, w)
    ensures Create(w.tables, cfg.ri, w.spid, req, net).1.code == AnswerDue(cfg, w, req, net)
    ensures Create(w.tables, cfg.ri, w.spid, req, net).0.nextId == w.tables.nextId + if Draws(cfg, w, req) then 1 else 0
  {
    var t := w.tables;
    assert FoundById(t.rows, 0);
    assert CseBase(t.rows, cfg.ri) == Some(CseRow(cfg));
    hide CseBase, Resolve, Tree, Logged, CreateAe, CreateContainer, CreateCin, CreateSub, Load, SaveCreated, Target,
         AnswerBelow, DrawsBelow, Saves;
    if !IsResource(req.content) { NothingDrawn(t, req); }
    match Target(CseRow(cfg), w.spid, req.to)
    case Invalid(_) =>
    case Valid(target) =>
      assert Saves(t, target) && (Load(t.rows, target).Some? ==> Load(t.rows, target).value.ri != "") by {
        SavesIn(t, cfg, target);
      }
      if IsResource(req.content) { AnsweredBelow(t, cfg, req, target, net); }
  }

  lemma NothingDrawn(t: Tables, req: Request)
    requires !IsResource(req.content)
    ensures forall parent :: !DrawsBelow(t, req, parent)
  {
  }

  lemma AnsweredBelow(t: Tables, cfg: Config, req: Request, target: string, net: Net)
    requires IsResource(req.content) && Saves(t, target) && Tree(t.rows, cfg)
    requires Load(t.rows, target).Some? ==> Load(t.rows, target).value.ri != ""
    ensures var c := req.content;
            var code := if Load(t.rows, target).None? then NOT_FOUND else AnswerBelow(t, req, Load(t.rows, target).value, net);
            var next := t.nextId
                        + if Load(t.rows, target).Some? && DrawsBelow(t, req, Load(t.rows, target).value) then 1 else 0;
            && (c.Ae? ==> var (t', r) := CreateAe(t, c, req, target); r.code == code && t'.nextId == next)
            && (c.Container? ==> var (t', r) := CreateContainer(t, c, req, target); r.code == code && t'.nextId == next)
            && (c.Cin? ==> var (t', r) := CreateCin(t, c, req, target); r.code == code && t'.nextId == next)
            && (c.Sub? ==> var (t', r) := CreateSub(t, c, req, target, net); r.code == code && t'.nextId == next)
  {
    hide Tree, CreateAe, CreateContainer, CreateCin, CreateSub, Load, AeAnswer, ContainerAnswer, CinAnswer,
         SubAnswer, AeDraws, CinDraws, Saves;
    if req.content.Ae? { AeAnswered(t, req, target); }
    else if req.content.Container? { ContainerAnswered(t, req, target); }
    else if req.content.Cin? { CinAnswered(t, cfg, req, target); }
    else { SubAnswered(t, cfg, req, target, net); }
  }

  lemma SavesIn(t: Tables, cfg: Config, target: string)
    requires ConfigOk(cfg) && Tree(t.rows, cfg)
    ensures Saves(t, target) && (Load(t.rows, target).Some? ==> Load(t.rows, target).value.ri != "")
  {
    hide SaveCreated;
    if Load(t.rows, target).Some? {
      assert FoundById(t.rows, Resolve(t.rows, target));
      hide Load, Tree;
      SavesBelow(t, cfg, target);
    }
  }

  /** A create whose target is found and whose conditions hold is accepted. */
  lemma Admits(cfg: Config, w: World, req: Request, net: Net, path: string, parent: Row)
    requires ConfigOk(cfg) && Inv(cfg, w) && Target(CseRow(cfg), w.spid, req.to) == Addressing.Valid(path)
    requires req.from != "" && IsResource(req.content) && Load(w.tables.rows, path) == Some(parent)
    requires AnswerBelow(w.tables, req, parent, net) == CREATED
    ensures Accepted(cfg, w, req, net)
  {
    hide *;
    AcceptedIff(cfg, w, req, net);
  }

  /**
   In a tree a create is accepted if and only if its address is valid here, it has an originator or registers an
   AE, its target exists, and the conditions of its type hold.
   */
  lemma AcceptedIff(cfg: Config, w: World, req: Request, net: Net)
    requires ConfigOk(cfg) && Inv(cfg, w)
    ensures Accepted(cfg, w, req, net) <==>
            var target := Target(CseRow(cfg), w.spid, req.to);
            && target.Valid? && (req.from != "" || req.ty == Some(2)) && IsResource(req.content)
            && Load(w.tables.rows, target.path).Some?
            && AnswerBelow(w.tables, req, Load(w.tables.rows, target.path).value, net) == CREATED
  {
    CreatedIsResource(w.tables, cfg.ri, w.spid, req, net);
    Answered(cfg, w, req, net);
    hide Create, Inv, Load, Target, AeAnswer, ContainerAnswer, CinAnswer, SubAnswer;
  }
}
