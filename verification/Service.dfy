/** The service object of onem2m_service.cpp, method by method, against the functions of module OneM2M. */
module OneM2MService {
  import opened Options
  import opened Text
  import opened Packing
  import opened Store
  import opened OneM2M

  // ------------------------------------------------------------------ checks made by loops

  method IsValidResourceName(rn: string) returns (ok: bool)
    ensures ok == ValidName(rn)
  {
    if rn == "" { return false; }
    for i := 0 to |rn|
      invariant forall k :: 0 <= k < i ==> IsNameChar(rn[k])
    {
      if !IsNameChar(rn[i]) { return false; }
    }
    return true;
  }

  /** The places of the first slash and of the first colon after it decide what ValidContentInfo looks at. */
  lemma ContentInfoParts(s: string, slash: nat, colon: nat)
    requires slash < colon < |s| && s[slash] == '/' && s[colon] == ':'
    requires forall k :: 0 <= k < |s| && k != slash ==> s[k] != '/'
    requires forall k :: 0 <= k < |s| && k != colon ==> s[k] != ':'
    ensures var encoding := s[colon + 1..];
            ValidContentInfo(s) <==>
            slash > 0 && colon > slash + 1 && encoding != "" && (forall c :: c in encoding ==> IsDigit(c))
            && DecValue(encoding, 0) <= 8
  {
    var rest, n := s[slash + 1..], colon - slash - 1;
    hide Before, DecValue, ValidContentInfo;
    BeforeAt(s, '/', slash);
    BeforeAt(rest, ':', n);
    assert rest[n + 1..] == s[colon + 1..];
    InfoUnfold(s, s[..slash], rest[..n]);
  }

  lemma InfoUnfold(s: string, media: string, sub: string)
    requires |media| < |s| && Before(s, '/') == media
    requires var rest := s[|media| + 1..]; |sub| < |rest| && Before(rest, ':') == sub
    ensures var encoding := s[|media| + 1..][|sub| + 1..];
            ValidContentInfo(s) <==>
            && media != "" && ':' !in media && sub != "" && '/' !in sub
            && encoding != "" && (forall c :: c in encoding ==> IsDigit(c)) && DecValue(encoding, 0) <= 8
  {
    hide Before, DecValue;
  }

  /** A valid content info has exactly one slash, and after it exactly one colon. */
  lemma ContentInfoMarks(s: string)
    requires s != "" && ValidContentInfo(s)
    ensures exists slash, colon :: 0 <= slash < colon < |s| && s[slash] == '/' && s[colon] == ':'
                   && (forall k :: 0 <= k < |s| && k != slash ==> s[k] != '/')
                   && (forall k :: 0 <= k < |s| && k != colon ==> s[k] != ':')
  {
    var media := Before(s, '/');
    var slash := |media|;
    var rest := s[slash + 1..];
    var sub := Before(rest, ':');
    var colon := slash + 1 + |sub|;
    var encoding := rest[|sub| + 1..];
    hide Before, DecValue;
    forall k | 0 <= k < |s| && k != slash && k != colon ensures s[k] != '/' && s[k] != ':' {
      if k < slash {
        assert s[k] == media[k] && media[k] in media;
      } else if k < colon {
        assert s[k] == sub[k - slash - 1] && sub[k - slash - 1] in sub;
      } else {
        assert s[k] == encoding[k - colon - 1] && encoding[k - colon - 1] in encoding;
      }
    }
    assert s[slash] == '/' && s[colon] == ':';
  }

  lemma {:induction false} DecValueGrows(s: string, acc: nat)
    requires forall c :: c in s ==> IsDigit(c)
    ensures DecValue(s, acc) >= acc
  {
    if s != "" { DecValueGrows(s[1..], acc * 10 + DigitValue(s[0])); }
  }

  method IsValidContentInfo(text: string) returns (ok: bool)
    ensures ok == ValidContentInfo(text)
  {
    hide ValidContentInfo, DecValue;
    if text == "" {
      assert ValidContentInfo("") by { EmptyInfo(); }
      return true;
    }
    if ValidContentInfo(text) { ContentInfoMarks(text); }
    var slash, colon := None, None;
    for p := 0 to |text|
      invariant slash.Some? ==> 0 <= slash.value < p && text[slash.value] == '/'
      invariant colon.Some? ==> 0 <= colon.value < p && text[colon.value] == ':'
      invariant forall k :: 0 <= k < p && text[k] == '/' ==> slash == Some(k)
      invariant forall k :: 0 <= k < p && text[k] == ':' ==> colon == Some(k)
    {
      if text[p] == '/' {
        if slash.Some? { return false; }
        slash := Some(p);
      } else if text[p] == ':' {
        if colon.Some? { return false; }
        colon := Some(p);
      }
    }
    if slash.None? || colon.None? || slash.value > colon.value { return false; }
    ContentInfoParts(text, slash.value, colon.value);
    if slash.value == 0 || colon.value == slash.value + 1 || colon.value + 1 == |text| { return false; }
    var encoding := text[colon.value + 1..];
    for p := 0 to |encoding|
      invariant forall k :: 0 <= k < p ==> IsDigit(encoding[k])
    {
      if !IsDigit(encoding[p]) { return false; }
    }
    var charset := 0;
    assert encoding[0..] == encoding;
    for p := 0 to |encoding|
      invariant 0 <= charset <= 8
      invariant DecValue(encoding, 0) == DecValue(encoding[p..], charset)
    {
      DecStep(encoding[p..], charset);
      assert encoding[p..][1..] == encoding[p + 1..];
      charset := charset * 10 + DigitValue(encoding[p]);
      if charset > 8 {
        DecValueGrows(encoding[p + 1..], charset);
        return false;
      }
    }
    DecStep("", charset);
    return true;
  }

  lemma EmptyInfo()
    ensures ValidContentInfo("")
  {
  }

  lemma DecStep(s: string, acc: nat)
    requires forall c :: c in s ==> IsDigit(c)
    ensures s == "" ==> DecValue(s, acc) == acc
    ensures s != "" ==> DecValue(s, acc) == DecValue(s[1..], acc * 10 + DigitValue(s[0]))
  {
  }

  method MatchesLabels(required: seq<string>, labels: seq<string>) returns (ok: bool)
    ensures ok <==> forall l :: l in required ==> l in labels
  {
    for i := 0 to |required|
      invariant forall k :: 0 <= k < i ==> required[k] in labels
    {
      var found := false;
      for j := 0 to |labels|
        invariant !found && required[i] !in labels[..j]
      {
        if labels[j] == required[i] {
          found := true;
          break;
        }
      }
      if !found {
        assert labels[..|labels|] == labels;
        return false;
      }
    }
    return true;
  }

  method MatchesChildType(types: seq<int>, ty: nat) returns (ok: bool)
    ensures ok <==> types == [] || ty in types
  {
    if types == [] { return true; }
    for i := 0 to |types|
      invariant ty !in types[..i]
    {
      if types[i] == ty { return true; }
    }
    return false;
  }

  /** The four matching functions in turn. */
  method MatchesAll(k: Criteria, c: Content) returns (ok: bool)
    requires IsResource(c)
    ensures ok == MatchesCriteria(k, c)
  {
    if CREATE_OF_DIRECT_CHILD !in k.net { return false; }
    var types := MatchesChildType(k.chty, TypeOf(c));
    if !types { return false; }
    var labels := MatchesLabels(k.labels, c.labels);
    if !labels { return false; }
    var size := if c.Cin? then c.cs else 0;
    if k.sizeAbove.Some? && size <= k.sizeAbove.value { return false; }
    if k.sizeBelow.Some? && size >= k.sizeBelow.value { return false; }
    return true;
  }

  /** The upward loop: guard counts its turns. */
  method IsAllowedForContainer(from: string, rows: seq<Row>, cnt: Row) returns (ok: bool)
    ensures ok == Allowed(rows, from, cnt)
  {
    hide Load, AllowedFrom;
    if from == ADMIN { return true; }
    var current, guard := cnt.pi, 0;
    while current != "" && guard < GUARD
      invariant 0 <= guard <= GUARD
      invariant Allowed(rows, from, cnt) == AllowedFrom(rows, from, current, guard)
      decreases GUARD - guard
    {
      AllowedTurn(rows, from, current, guard);
      guard := guard + 1;
      var parent := Load(rows, current);
      if parent.None? { break; }
      match parent.value.attrs
      case AeAttrs(aei, _) => return from == aei;
      case CntAttrs(_, _, _) => current := parent.value.pi;
      case CseAttrs(csi) => return from == csi;
      case _ => break;
    }
    AllowedTurn(rows, from, current, guard);
    return false;
  }

  /** One turn of the upward loop. */
  lemma AllowedTurn(rows: seq<Row>, from: string, current: string, guard: nat)
    requires guard <= GUARD
    ensures current == "" || guard == GUARD ==> !AllowedFrom(rows, from, current, guard)
    ensures current != "" && guard < GUARD ==>
              AllowedFrom(rows, from, current, guard) ==
              match Load(rows, current)
              case None => false
              case Some(w) =>
                match w.attrs
                case AeAttrs(aei, _) => from == aei
                case CntAttrs(_, _, _) => AllowedFrom(rows, from, w.pi, guard + 1)
                case CseAttrs(csi) => from == csi
                case _ => false
  {
    hide Load;
  }

  /** SendSubscriptionVerification: stops at the first notification URI that can be reached. */
  method SendSubscriptionVerification(rows: seq<Row>, pi: string, nus: seq<string>, net: Net) returns (ok: bool)
    ensures ok <==> exists nu :: nu in nus && Reachable(rows, pi, nu, net)
  {
    hide Load, Unpack;
    var i := 0;
    while i < |nus|
      invariant 0 <= i <= |nus|
      invariant forall j :: 0 <= j < i ==> !Reachable(rows, pi, nus[j], net)
    {
      var nu := nus[i];
      assert nu in nus;
      i := i + 1;
      if nu == "" { continue; }
      if nu[0] == 'C' || nu[0] == 'S' {
        var parent := Load(rows, pi);
        if parent.Some? && parent.value.attrs.AeAttrs? && Unpack(parent.value.attrs.poa) != [] { return true; }
      } else if IsHttp(nu) {
        if nu in net.answering { return true; }
      }
    }
    return false;
  }

  /** The vendor information tells a creator attribute that was given from one given as null. */
  method ReadCreator(req: Request, kind: string) returns (refused: bool, creator: string)
    ensures refused == CreatorRefused(req, kind)
    ensures !refused ==> creator == CreatorOf(req, kind)
  {
    refused, creator := false, "";
    if req.vsi == Some(kind + "_creator_present") {
      refused := true;
    } else if req.vsi == Some(kind + "_creator_null") {
      if req.from == "" { refused := true; }
      creator := req.from;
    }
  }

  /** The two capacity limits of a container. */
  method IsFull(rows: seq<Row>, cnt: Row, size: int) returns (full: bool)
    requires cnt.attrs.CntAttrs?
    ensures full == Full(rows, cnt, size)
  {
    hide ContainerSize, LoadChildren;
    var mbs, mni := cnt.attrs.mbs, cnt.attrs.mni;
    if mbs.Some? && mbs.value != 0 {
      var currentBytes := ContainerSize(rows, cnt.ri);
      // the count looked up for an empty id
      var currentNrOfInstances := 0;
      if mni.Some? && mni.value != 0 && currentNrOfInstances > mni.value { return true; }
      if currentBytes + size > mbs.value { return true; }
    }
    if mni.Some? && mni.value != 0 {
      var instances := LoadChildren(rows, cnt.ri, IsCin);
      var count := if instances.Some? then |instances.value| else 0;
      if count + 1 > mni.value { return true; }
    }
    return false;
  }

  method IsWatchable(chty: seq<nat>, parent: Attrs) returns (ok: bool)
    ensures ok == Watchable(chty, parent)
  {
    for i := 0 to |chty|
      invariant forall k :: 0 <= k < i ==> chty[k] in WatchableTypes(parent)
    {
      if chty[i] !in WatchableTypes(parent) { return false; }
    }
    return true;
  }

  /** Some notification URI is not the originator. */
  method DiffersFrom(nus: seq<string>, from: string) returns (differs: bool)
    ensures differs == Differs(nus, from)
  {
    for i := 0 to |nus|
      invariant forall k :: 0 <= k < i ==> nus[k] == "" || nus[k] == from
    {
      if nus[i] != "" && nus[i] != from { return true; }
    }
    return false;
  }

  lemma NoAttempts(rows: seq<Row>, c: Content)
    requires IsResource(c)
    ensures AttemptsForAll(rows, [], c) == []
  {
  }

  lemma NextAttempts(rows: seq<Row>, ids: seq<string>, i: nat, c: Content)
    requires IsResource(c) && i < |ids|
    ensures AttemptsForAll(rows, ids[..i + 1], c) == AttemptsForAll(rows, ids[..i], c) + AttemptsFor(rows, ids[i], c)
  {
    assert ids[..i + 1][..i] == ids[..i];
    hide AttemptsFor;
  }

  // ------------------------------------------------------------------ the service

  class Service {
    const db: Database
    var cseRi: string
    var spid: string
    var initialized: bool
    /** The (subscription, notification URI) pairs handed to DeliverTarget so far. */
    var deliveries: seq<(string, string)>

    constructor (db: Database)
      ensures this.db == db && !initialized && spid == "" && deliveries == []
    {
      this.db, cseRi, spid, initialized, deliveries := db, "", "", false, [];
    }

    method GetId() returns (id: string)
      modifies db`nextId
      ensures id == GeneratedId(old(db.nextId)) && db.nextId == old(db.nextId) + 1
    {
      id := db.GenerateResourceId();
    }

    /** Opens the store, which clean empties first, and seeds the CSEBase unless the store has one. */
    method Initialize(cfg: Config, clean: bool)
      modifies this, db
      ensures deliveries == old(deliveries)
      ensures old(initialized) ==> db.Now() == old(db.Now()) && cseRi == old(cseRi) && spid == old(spid) && initialized
      ensures !old(initialized) && old(spid) == "" ==>
                cseRi == cfg.ri && (db.Now(), spid) == Boot(if clean then Tables([], 1, map[]) else old(db.Now()), cfg)
    {
      if initialized { return; }
      if clean { db.DeleteFile(); }
      cseRi := cfg.ri;
      var existing := CseBase(db.rows, cseRi);
      if existing.Some? {
        initialized := true;
        return;
      }
      spid := cfg.spid;
      var ok := db.Save(CseRow(cfg));
      if !ok { return; }
      initialized := true;
    }

    /** Saves an accepted resource and answers with it. */
    method SaveAndReply(c: Created) returns (r: Reply)
      requires IsResource(c.content)
      modifies db`rows, db`aes
      ensures (db.Now(), r) == SaveCreated(old(db.Now()), c)
    {
      var ok := db.Save(RowOf(c, ""));
      r := if ok then Reply(CREATED, Some(c)) else Refuse(INTERNAL_SERVER_ERROR);
    }

    method CreateAE(ae: Content, req: Request, target: string) returns (r: Reply)
      requires ae.Ae?
      modifies db
      ensures (db.Now(), r) == CreateAe(old(db.Now()), ae, req, target)
    {
      hide Load, HasAe, HasChildNamed, SaveCreated, ValidName;
      var parent := Load(db.rows, target);
      if parent.None? { return Refuse(NOT_FOUND); }
      var cse := parent.value;
      if !cse.attrs.CseAttrs? { return Refuse(INVALID_CHILD_RESOURCE_TYPE); }
      if req.vsi == Some("has_creator") { return Refuse(BAD_REQUEST); }
      if ae.api == "" { return Refuse(BAD_REQUEST); }
      var prefix := ae.api[0];
      if req.rvi.None? || req.rvi.value == "4" {
        if prefix != 'R' && prefix != 'N' { return Refuse(BAD_REQUEST); }
      } else if prefix != 'r' {
        return Refuse(BAD_REQUEST);
      }
      if ae.csz != [] { return Refuse(NOT_IMPLEMENTED); }
      if HasChildNamed(db.rows, cse.ri, ae.rn) { return Refuse(CONFLICT); }
      if req.from != "" && req.from == StripSlash(cse.attrs.csi) { return Refuse(SECURITY_ASSOCIATION_REQUIRED); }
      var ri := GetId();
      if !Anonymous(req.from) {
        if HasAe(db.aes, req.from) { return Refuse(ORIGINATOR_HAS_ALREADY_REGISTERED); }
        ri := req.from;
      }
      var rn := ae.rn;
      if rn == "" { rn := "AE" + ri; }
      var named := IsValidResourceName(rn);
      if !named { return Refuse(BAD_REQUEST); }
      r := SaveAndReply(Created(ri, rn, cse.ri, "", ae));
    }

    method CreateContainer(con: Content, req: Request, target: string) returns (r: Reply)
      requires con.Container?
      modifies db
      ensures (db.Now(), r) == OneM2M.CreateContainer(old(db.Now()), con, req, target)
    {
      hide Load, SaveCreated, ValidName, CreatorRefused, CreatorOf;
      var parent := Load(db.rows, target);
      if parent.None? { return Refuse(NOT_FOUND); }
      if !MayHoldContainers(parent.value.attrs) { return Refuse(INVALID_CHILD_RESOURCE_TYPE); }
      var ri := GetId();
      var rn := con.rn;
      if rn == "" { rn := "cnt" + ri; }
      var named := IsValidResourceName(rn);
      if !named { return Refuse(BAD_REQUEST); }
      var refused, creator := ReadCreator(req, "cnt");
      if refused { return Refuse(BAD_REQUEST); }
      r := SaveAndReply(Created(ri, rn, parent.value.ri, creator, con));
    }

    method CreateContentInstance(cin: Content, req: Request, target: string) returns (r: Reply)
      requires cin.Cin?
      modifies db
      ensures (db.Now(), r) == CreateCin(old(db.Now()), cin, req, target)
    {
      hide Load, SaveCreated, ValidName, Full, ValidContentInfo, CreatorRefused, CreatorOf;
      var parent := Load(db.rows, target);
      if parent.None? { return Refuse(NOT_FOUND); }
      var cnt := parent.value;
      if !cnt.attrs.CntAttrs? { return Refuse(INVALID_CHILD_RESOURCE_TYPE); }
      var info := IsValidContentInfo(if cin.cnf.Some? then cin.cnf.value else "");
      assert ValidContentInfo("") by { EmptyInfo(); }
      if !info { return Refuse(BAD_REQUEST); }
      var refused, creator := ReadCreator(req, "cin");
      if refused { return Refuse(BAD_REQUEST); }
      if req.vsi == Some("cin_has_acpi") { return Refuse(BAD_REQUEST); }
      var size := cin.cs;
      if size <= 0 { size := |cin.con|; }
      var full := IsFull(db.rows, cnt, size);
      if full { return Refuse(NOT_ACCEPTABLE); }
      var ri := GetId();
      var rn := cin.rn;
      if rn == "" { rn := "cin" + ri; }
      var named := IsValidResourceName(rn);
      if !named { return Refuse(BAD_REQUEST); }
      r := SaveAndReply(Created(ri, rn, cnt.ri, creator, cin.(cs := size)));
    }

    method CreateSubscription(sub: Content, req: Request, target: string, net: Net) returns (r: Reply)
      requires sub.Sub?
      modifies db
      ensures (db.Now(), r) == CreateSub(old(db.Now()), sub, req, target, net)
    {
      hide Load, SaveCreated, ValidName, PathOf, Reachable, EventTypesRefused, Watchable, Differs, CreatorRefused;
      var parent := Load(db.rows, target);
      if parent.None? { return Refuse(NOT_FOUND); }
      if !MayHoldContainers(parent.value.attrs) { return Refuse(INVALID_CHILD_RESOURCE_TYPE); }
      var ri := GetId();
      var rn := sub.rn;
      if rn == "" { rn := "sub" + ri; }
      var named := IsValidResourceName(rn);
      if !named { return Refuse(BAD_REQUEST); }
      var watchable := IsWatchable(sub.enc.chty, parent.value.attrs);
      if !watchable { return Refuse(BAD_REQUEST); }
      var differs := DiffersFrom(sub.nus, req.from);
      var refused, creator := ReadCreator(req, "sub");
      if refused { return Refuse(BAD_REQUEST); }
      if req.vsi != Some("sub_creator_null") && differs { creator := req.from; }
      assert "sub" + "_creator_null" == "sub_creator_null";
      if EventTypesRefused(sub, net) { return Refuse(BAD_REQUEST); }
      if PathOf(db.rows, parent.value.ri).None? { return Refuse(NOT_FOUND); }
      var verified := SendSubscriptionVerification(db.rows, parent.value.ri, sub.nus, net);
      if !verified { return Refuse(SUBSCRIPTION_VERIFICATION_INITIATION_FAILED); }
      r := SaveAndReply(Created(ri, rn, parent.value.ri, creator, sub));
    }

    /** Tells every matching subscription beside the new resource. */
    method SendNotification(changed: Created)
      requires IsResource(changed.content)
      modifies this`deliveries
      ensures deliveries == old(deliveries) + Attempts(db.rows, changed)
    {
      hide LoadChildren, AttemptsForAll, AttemptsFor;
      var subs := LoadChildren(db.rows, changed.pi, IsSub);
      if subs.None? { return; }
      var ids := subs.value;
      assert AttemptsForAll(db.rows, ids[..0], changed.content) == [] && old(deliveries) + [] == deliveries by {
        NoAttempts(db.rows, changed.content);
      }
      for i := 0 to |ids|
        invariant deliveries == old(deliveries) + AttemptsForAll(db.rows, ids[..i], changed.content)
      {
        NextAttempts(db.rows, ids, i, changed.content);
        Notify(ids[i], changed.content);
      }
      assert ids[..|ids|] == ids;
    }

    /** One turn of the notification loop. */
    method Notify(subRi: string, changed: Content)
      requires IsResource(changed)
      modifies this`deliveries
      ensures deliveries == old(deliveries) + AttemptsFor(db.rows, subRi, changed)
    {
      hide Load, LoadSubscription, MatchesCriteria;
      var found := Load(db.rows, subRi);
      assert old(deliveries) + [] == deliveries;
      if found.None? || !found.value.attrs.SubAttrs? { return; }
      var sub := LoadSubscription(found.value.attrs.sub);
      var due := MatchesAll(sub.criteria, changed);
      if !due { return; }
      var i := 0;
      ghost var all := Pairs(found.value.ri, sub.nus);
      assert sub.nus[0..] == sub.nus;
      while i < |sub.nus|
        invariant 0 <= i <= |sub.nus|
        invariant deliveries + Pairs(found.value.ri, sub.nus[i..]) == old(deliveries) + all
      {
        assert sub.nus[i..][1..] == sub.nus[i + 1..];
        deliveries := deliveries + [(found.value.ri, sub.nus[i])];
        i := i + 1;
      }
      assert deliveries + [] == deliveries;
    }

    /** A create request from its target to its notifications. */
    method Create(req: Request, net: Net) returns (r: Reply)
      modifies this, db
      ensures cseRi == old(cseRi) && spid == old(spid) && initialized == old(initialized)
      ensures (db.Now(), r) == OneM2M.Create(old(db.Now()), cseRi, spid, req, net)
      ensures deliveries == old(deliveries) + CreateAttempts(old(db.Now()), cseRi, spid, req, net)
    {
      hide CseBase, Target, CreateAe, OneM2M.CreateContainer, CreateCin, CreateSub, Attempts;
      r := Dispatch(req, net);
      CreatedIsResource(old(db.Now()), cseRi, spid, req, net);
      if r.code != CREATED { return; }
      if !r.created.value.content.Sub? { SendNotification(r.created.value); }
    }

    method Dispatch(req: Request, net: Net) returns (r: Reply)
      modifies db
      ensures (db.Now(), r) == OneM2M.Create(old(db.Now()), cseRi, spid, req, net)
    {
      hide Load, Target, CreateAe, OneM2M.CreateContainer, CreateCin, CreateSub;
      var cse := CseBase(db.rows, cseRi);
      if cse.None? { return Refuse(INTERNAL_SERVER_ERROR); }
      var canonical := Target(cse.value, spid, req.to);
      if canonical.Invalid? { return Refuse(if canonical.wrongSpid then NOT_FOUND else BAD_REQUEST); }
      var target := canonical.path;
      if req.from == "" && req.ty != Some(AE_TYPE) { return Refuse(BAD_REQUEST); }
      match req.content
      case NoContent => r := Refuse(BAD_REQUEST);
      case Unsupported => r := Refuse(BAD_REQUEST);
      case Ae(_, _, _, _, _, _) => r := CreateAE(req.content, req, target);
      case Container(_, _, _, _, _, _) => r := CreateContainer(req.content, req, target);
      case Cin(_, _, _, _, _, _) => r := CreateContentInstance(req.content, req, target);
      case Sub(_, _, _, _, _, _, _, _, _) => r := CreateSubscription(req.content, req, target, net);
    }
  }
}
