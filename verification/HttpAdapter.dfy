/**
 The HTTP binding of http_adapter.cpp: oneM2M request primitives as HTTP requests and back, down to the bytes on
 the wire. A primitive's content is its serialised text.
 */
module HttpAdapter {
  import opened Options
  import opened Text
  import opened HttpText
  import HttpRequests

  datatype Operation = Create | Retrieve | Update | Delete | Notify | Unsupported

  datatype Primitive = Primitive(
    op: Operation, to: string, from: string, rqi: string, ty: Option<int>,
    rvi: Option<string>, ot: Option<string>, rqet: Option<string>, rset: Option<string>, oet: Option<string>,
    gid: Option<string>, content: string)

  const ORIGIN := "X-M2M-Origin"
  const REQUEST_ID := "X-M2M-RI"
  const RELEASE_VERSION := "X-M2M-RVI"
  const ORIG_TIMESTAMP := "X-M2M-OT"
  const REQ_EXP_TS := "X-M2M-RQET"
  const RES_EXP_TS := "X-M2M-RSET"
  const OP_EXEC_TIME := "X-M2M-OET"
  const GROUP_REQ_ID := "X-M2M-GID"
  const ACCEPT := "Accept"
  const CONTENT_TYPE := "Content-Type"
  const RESOURCE_TYPE := "X-M2M-TY"
  const JSON := "application/json"

  function OperationToMethod(op: Operation): HttpRequests.Method {
    match op
    case Create => HttpRequests.POST
    case Retrieve => HttpRequests.GET
    case Update => HttpRequests.PUT
    case Delete => HttpRequests.DELETE
    case Notify => HttpRequests.POST
    case Unsupported => HttpRequests.UNKNOWN
  }

  /** POST is a create when a resource type came with it, and a notification when none did. */
  function MethodToOperation(m: HttpRequests.Method, hasResourceType: bool): Operation {
    match m
    case POST => if hasResourceType then Create else Notify
    case GET => Retrieve
    case PUT => Update
    case DELETE => Delete
    case _ => Unsupported
  }

  // ------------------------------------------------------------------ encoding

  /** A header field that is written when it has a value. */
  datatype Entry = Entry(name: string, value: Option<string>)

  function Present(es: seq<Entry>): seq<Field> {
    if es == [] then []
    else (if es[0].value.None? then [] else [Field(es[0].name, es[0].value.value)]) + Present(es[1..])
  }

  function Media(acceptType: string): string { if acceptType == "" then JSON else acceptType }

  function ContentType(p: Primitive, acceptType: string): string {
    Media(acceptType) + (if p.op == Create && p.ty.Some? then ";ty=" + IntText(p.ty.value) else "")
  }

  /** The fields encodeRequest pushes, in their order. */
  function Entries(p: Primitive, acceptType: string): seq<Entry> {
    [Entry(ORIGIN, Some(p.from)), Entry(REQUEST_ID, Some(p.rqi)), Entry(RELEASE_VERSION, p.rvi),
     Entry(ORIG_TIMESTAMP, p.ot), Entry(REQ_EXP_TS, p.rqet), Entry(RES_EXP_TS, p.rset), Entry(OP_EXEC_TIME, p.oet),
     Entry(GROUP_REQ_ID, p.gid), Entry(ACCEPT, if acceptType == "" then None else Some(acceptType)),
     Entry(CONTENT_TYPE, if p.content == "" then None else Some(ContentType(p, acceptType)))]
  }

  function TargetOf(p: Primitive, baseUrl: string): string { if p.to == "" then baseUrl else p.to }

  function Encode(p: Primitive, baseUrl: string, acceptType: string): HttpRequests.Request {
    var t := TargetOf(p, baseUrl);
    HttpRequests.Request(OperationToMethod(p.op), t, HttpRequests.PathOf(t), HttpRequests.QueryOf(t), "",
                         Present(Entries(p, acceptType)), p.content)
  }

  lemma {:induction false} PresentSnoc(es: seq<Entry>, e: Entry)
    ensures Present(es + [e]) == Present(es) + (if e.value.None? then [] else [Field(e.name, e.value.value)])
  {
    var last := if e.value.None? then [] else [Field(e.name, e.value.value)];
    PresentUnfold(es + [e]);
    if es == [] {
      assert es + [e] == [e] && [e][1..] == [] && Present([]) == [];
    } else {
      PresentUnfold(es);
      assert (es + [e])[0] == es[0] && (es + [e])[1..] == es[1..] + [e];
      hide Present;
      PresentSnoc(es[1..], e);
      if es[0].value.Some? {
        var f := Field(es[0].name, es[0].value.value);
        assert [f] + (Present(es[1..]) + last) == [f] + Present(es[1..]) + last;
      }
    }
  }

  /** One header field, pushed when it has a value. */
  method Push(fields: seq<Field>, name: string, value: Option<string>, ghost es: seq<Entry>) returns (r: seq<Field>)
    requires fields == Present(es)
    ensures r == Present(es + [Entry(name, value)])
  {
    PresentSnoc(es, Entry(name, value));
    r := fields;
    if value.Some? { r := r + [Field(name, value.value)]; }
  }

  /** Where the path of a target ends. */
  method FindQuery(t: string) returns (path: string, query: string)
    ensures path == HttpRequests.PathOf(t) && query == HttpRequests.QueryOf(t)
  {
    path := "";
    var i := 0;
    while i < |t| && t[i] != '?'
      invariant 0 <= i <= |t| && path == t[..i] && '?' !in path
    {
      path := path + [t[i]];
      i := i + 1;
    }
    assert t == path + t[i..];
    BeforeOf(path, '?', t[i..]);
    query := if i < |t| then t[i + 1..] else "";
  }

  /** encodeRequest, with the content's text for its serialisation. */
  method EncodeRequest(p: Primitive, baseUrl: string, acceptType: string) returns (r: HttpRequests.Request)
    ensures r == Encode(p, baseUrl, acceptType)
  {
    hide Present, HttpRequests.PathOf, HttpRequests.QueryOf, OperationToMethod, ContentType;
    var target := p.to;
    if target == "" { target := baseUrl; }
    var path, query := FindQuery(target);
    ghost var es := Entries(p, acceptType);
    assert Present([]) == [] by { NonePresent(); }
    var fields := Push([], ORIGIN, Some(p.from), []);
    assert [] + [es[0]] == es[..1];
    fields := Push(fields, REQUEST_ID, Some(p.rqi), es[..1]);
    assert es[..1] + [es[1]] == es[..2];
    fields := Push(fields, RELEASE_VERSION, p.rvi, es[..2]);
    assert es[..2] + [es[2]] == es[..3];
    fields := Push(fields, ORIG_TIMESTAMP, p.ot, es[..3]);
    assert es[..3] + [es[3]] == es[..4];
    fields := Push(fields, REQ_EXP_TS, p.rqet, es[..4]);
    assert es[..4] + [es[4]] == es[..5];
    fields := Push(fields, RES_EXP_TS, p.rset, es[..5]);
    assert es[..5] + [es[5]] == es[..6];
    fields := Push(fields, OP_EXEC_TIME, p.oet, es[..6]);
    assert es[..6] + [es[6]] == es[..7];
    fields := Push(fields, GROUP_REQ_ID, p.gid, es[..7]);
    assert es[..7] + [es[7]] == es[..8];
    fields := Push(fields, ACCEPT, if acceptType == "" then None else Some(acceptType), es[..8]);
    assert es[..8] + [es[8]] == es[..9];
    fields := Push(fields, CONTENT_TYPE, if p.content == "" then None else Some(ContentType(p, acceptType)), es[..9]);
    assert es[..9] + [es[9]] == es;
    r := HttpRequests.Request(OperationToMethod(p.op), target, path, query, "", fields, p.content);
  }

  lemma NonePresent()
    ensures Present([]) == []
  {
  }

  // ------------------------------------------------------------------ decoding

  /** The resource type in a Content-Type: a number after the first "ty=" of its parameters. */
  function ContentTypeTy(ct: string): Option<int> {
    var media := Before(ct, ';');
    if |media| == |ct| then None
    else
      var params := ct[|media| + 1..];
      var k := Find(params, "ty=");
      if k == |params| then None
      else
        match ReadNumber(params[k + 3..])
        case None => None
        case Some((n, rest)) => if rest == "" || rest[0] == ' ' then Some(n) else None
  }

  function FetchHeader(fs: seq<Field>, name: string): Option<string> {
    var v := GetHeader(fs, name);
    if v == "" then None else Some(v)
  }

  function FetchTy(fs: seq<Field>): Option<int> {
    var inContentType := ContentTypeTy(GetHeader(fs, CONTENT_TYPE));
    if inContentType.Some? then inContentType else WholeNumber(GetHeader(fs, RESOURCE_TYPE))
  }

  function Decode(r: HttpRequests.Request): Primitive {
    var ty := FetchTy(r.fields);
    var op := MethodToOperation(r.meth, ty.Some?);
    Primitive(if op == Unsupported then Retrieve else op, r.path, GetHeader(r.fields, ORIGIN),
              GetHeader(r.fields, REQUEST_ID), ty,
              FetchHeader(r.fields, RELEASE_VERSION), FetchHeader(r.fields, ORIG_TIMESTAMP),
              FetchHeader(r.fields, REQ_EXP_TS), FetchHeader(r.fields, RES_EXP_TS),
              FetchHeader(r.fields, OP_EXEC_TIME), FetchHeader(r.fields, GROUP_REQ_ID), r.body)
  }

  /** GetHeader's loop. */
  method FindHeader(fs: seq<Field>, name: string) returns (v: string)
    ensures v == GetHeader(fs, name)
  {
    var i := 0;
    while i < |fs|
      invariant 0 <= i <= |fs| && GetHeader(fs, name) == GetHeader(fs[i..], name)
    {
      assert fs[i..][1..] == fs[i + 1..];
      if fs[i].name == name { return fs[i].value; }
      i := i + 1;
    }
    v := "";
  }

  method FetchOptional(fs: seq<Field>, name: string) returns (v: Option<string>)
    ensures v == FetchHeader(fs, name)
  {
    var value := FindHeader(fs, name);
    v := if value == "" then None else Some(value);
  }

  /** decodeRequestHeaders' resource type: from the Content-Type, or from its own field. */
  method FindType(fs: seq<Field>) returns (ty: Option<int>)
    ensures ty == FetchTy(fs)
  {
    hide GetHeader, ContentTypeTy, WholeNumber;
    var ct := FindHeader(fs, CONTENT_TYPE);
    ty := ContentTypeTy(ct);
    if ty.None? {
      var number := FindHeader(fs, RESOURCE_TYPE);
      ty := WholeNumber(number);
    }
  }

  /** decodeRequest: the record is filled from the fields, then the operation is read from the method. */
  method DecodeRequest(r: HttpRequests.Request) returns (p: Primitive)
    ensures p == Decode(r)
  {
    hide GetHeader, FetchHeader, FetchTy;
    p := Primitive(Unsupported, "", "", "", None, None, None, None, None, None, None, "");
    var from := FindHeader(r.fields, ORIGIN);
    var rqi := FindHeader(r.fields, REQUEST_ID);
    var rvi := FetchOptional(r.fields, RELEASE_VERSION);
    var ot := FetchOptional(r.fields, ORIG_TIMESTAMP);
    var rqet := FetchOptional(r.fields, REQ_EXP_TS);
    var rset := FetchOptional(r.fields, RES_EXP_TS);
    var oet := FetchOptional(r.fields, OP_EXEC_TIME);
    var gid := FetchOptional(r.fields, GROUP_REQ_ID);
    p := p.(from := from, rqi := rqi, rvi := rvi, ot := ot, rqet := rqet, rset := rset, oet := oet, gid := gid);
    var ty := FindType(r.fields);
    var op := MethodToOperation(r.meth, ty.Some?);
    if op == Unsupported { op := Retrieve; }
    p := p.(ty := ty, op := op, to := r.path, content := r.body);
  }

  // ------------------------------------------------------------------ looking fields up

  predicate Distinct(es: seq<Entry>) { forall i, j :: 0 <= i < j < |es| ==> es[i].name != es[j].name }

  lemma PresentUnfold(es: seq<Entry>)
    requires es != []
    ensures es[0].value.Some? ==> Present(es) == [Field(es[0].name, es[0].value.value)] + Present(es[1..])
    ensures es[0].value.None? ==> Present(es) == Present(es[1..])
  {
    assert [] + Present(es[1..]) == Present(es[1..]);
  }

  lemma HeaderUnfold(f: Field, more: seq<Field>, name: string)
    ensures GetHeader([f] + more, name) == if f.name == name then f.value else GetHeader(more, name)
  {
    assert ([f] + more)[1..] == more;
  }

  lemma PresentStep(es: seq<Entry>, rest: seq<Field>, name: string)
    requires es != []
    ensures GetHeader(Present(es) + rest, name) ==
            if es[0].value.Some? && es[0].name == name then es[0].value.value
            else GetHeader(Present(es[1..]) + rest, name)
  {
    hide *;
    PresentUnfold(es);
    if es[0].value.Some? {
      var f, more := Field(es[0].name, es[0].value.value), Present(es[1..]);
      assert ([f] + more) + rest == [f] + (more + rest);
      HeaderUnfold(f, more + rest, name);
    }
  }

  lemma {:induction false} LookupAbsent(es: seq<Entry>, rest: seq<Field>, name: string)
    requires forall i :: 0 <= i < |es| ==> es[i].name != name
    ensures GetHeader(Present(es) + rest, name) == GetHeader(rest, name)
  {
    if es == [] {
      assert Present(es) + rest == rest;
    } else {
      hide Present, GetHeader;
      PresentStep(es, rest, name);
      LookupAbsent(es[1..], rest, name);
    }
  }

  /** An entry's value is found by its name; one without a value is not. */
  lemma {:induction false} Lookup(es: seq<Entry>, rest: seq<Field>, k: nat)
    requires Distinct(es) && k < |es|
    ensures GetHeader(Present(es) + rest, es[k].name) ==
            if es[k].value.Some? then es[k].value.value else GetHeader(rest, es[k].name)
  {
    hide Present, GetHeader;
    PresentStep(es, rest, es[k].name);
    if k == 0 {
      LookupAbsent(es[1..], rest, es[0].name);
    } else {
      assert es[1..][k - 1] == es[k];
      Lookup(es[1..], rest, k - 1);
    }
  }

  const NAMES := [ORIGIN, REQUEST_ID, RELEASE_VERSION, ORIG_TIMESTAMP, REQ_EXP_TS, RES_EXP_TS, OP_EXEC_TIME,
                  GROUP_REQ_ID, ACCEPT, CONTENT_TYPE]

  /** The length and the eighth character tell the names apart. */
  function Tag(name: string): (nat, char) { (|name|, if |name| > 7 then name[7] else ' ') }

  const TAGS := [(12, 'r'), (8, 'I'), (9, 'V'), (8, 'T'), (10, 'Q'), (10, 'S'), (9, 'E'), (9, 'I'), (6, ' '), (12, '-')]

  lemma NameTags(i: nat)
    requires i < 10
    ensures Tag(NAMES[i]) == TAGS[i]
  {
  }

  lemma OtherTags(name: string)
    requires HttpRequests.Reserved(name) || name == RESOURCE_TYPE
    ensures Tag(name) in {(4, ' '), (10, 'i'), (10, 'e'), (14, '-'), (8, 'Y')}
  {
  }

  lemma NamesAreDistinct(p: Primitive, acceptType: string)
    ensures var es := Entries(p, acceptType);
            && Distinct(es)
            && forall i :: 0 <= i < 10 ==> es[i].name == NAMES[i] && NAMES[i] != RESOURCE_TYPE && !HttpRequests.Reserved(NAMES[i])
  {
    hide ContentType, Tag, HttpRequests.Reserved;
    forall i | 0 <= i < 10 ensures Tag(NAMES[i]) == TAGS[i] && NAMES[i] != RESOURCE_TYPE && !HttpRequests.Reserved(NAMES[i]) {
      NameTags(i);
      if NAMES[i] == RESOURCE_TYPE || HttpRequests.Reserved(NAMES[i]) { OtherTags(NAMES[i]); }
    }
    var es := Entries(p, acceptType);
    assert forall i :: 0 <= i < 10 ==> es[i].name == NAMES[i] by { EntryNames(p, acceptType); }
    assert forall i, j :: 0 <= i < j < 10 ==> TAGS[i] != TAGS[j];
    hide Entries;
  }

  lemma EntryNames(p: Primitive, acceptType: string)
    ensures forall i :: 0 <= i < 10 ==> Entries(p, acceptType)[i].name == NAMES[i]
  {
    hide ContentType;
  }

  lemma NamesAreSafe(i: nat)
    requires i < 10
    ensures SafeName(NAMES[i])
  {
  }

  // ------------------------------------------------------------------ over the wire and back

  predicate SafeOption(o: Option<string>) { o.Some? ==> SafeValue(o.value) }

  /** Every part of the primitive can stand in a header block; the target has no query, the media type no parameter. */
  predicate Safe(p: Primitive, baseUrl: string, acceptType: string) {
    var t := TargetOf(p, baseUrl);
    && t != "" && Plain(t) && ' ' !in t && '?' !in t
    && SafeValue(p.from) && SafeValue(p.rqi) && SafeOption(p.rvi) && SafeOption(p.ot) && SafeOption(p.rqet)
    && SafeOption(p.rset) && SafeOption(p.oet) && SafeOption(p.gid)
    && SafeValue(acceptType) && ';' !in acceptType
    && (p.ty.Some? ==> p.ty.value >= 0) && NUL !in p.content
  }

  /** An empty header value is read as an absent one. */
  function Given(o: Option<string>): Option<string> { if o == Some("") then None else o }

  /** The resource type travels only in the Content-Type of a create that has content. */
  function TypeSent(p: Primitive): Option<int> { if p.op == Create && p.content != "" then p.ty else None }

  function OperationReceived(p: Primitive): Operation {
    match p.op
    case Create => if TypeSent(p).Some? then Create else Notify
    case Unsupported => Retrieve
    case op => op
  }

  function Received(p: Primitive, baseUrl: string): Primitive {
    Primitive(OperationReceived(p), TargetOf(p, baseUrl), p.from, p.rqi, TypeSent(p), Given(p.rvi), Given(p.ot),
              Given(p.rqet), Given(p.rset), Given(p.oet), Given(p.gid), p.content)
  }

  lemma {:induction false} KeptPresent(es: seq<Entry>)
    requires forall i :: 0 <= i < |es| ==> es[i].name != "" && !HttpRequests.Reserved(es[i].name)
    ensures HttpRequests.Kept(Present(es)) == Present(es)
  {
    if es != [] {
      KeptPresent(es[1..]);
      hide HttpRequests.Reserved;
      assert es[0].name != "" && !HttpRequests.Reserved(es[0].name);
      if es[0].value.Some? {
        var f, rest := Field(es[0].name, es[0].value.value), Present(es[1..]);
        assert Present(es) == [f] + rest && ([f] + rest)[1..] == rest;
      } else {
        assert Present(es) == Present(es[1..]);
      }
    }
  }

  lemma {:induction false} PresentIsSafe(es: seq<Entry>)
    requires forall i :: 0 <= i < |es| ==> SafeName(es[i].name) && SafeOption(es[i].value)
    ensures forall f :: f in Present(es) ==> SafeField(f)
  {
    hide SafeName, SafeValue;
    if es != [] {
      PresentIsSafe(es[1..]);
      assert SafeName(es[0].name) && SafeOption(es[0].value);
    }
  }

  lemma MediaIsSafe(acceptType: string)
    requires SafeValue(acceptType) && ';' !in acceptType
    ensures Media(acceptType) != "" && SafeValue(Media(acceptType)) && ';' !in Media(acceptType)
  {
  }

  lemma TypedIsSafe(media: string, d: string)
    requires media != "" && SafeValue(media) && d != "" && SafeValue(d)
    ensures SafeValue(media + (";ty=" + d))
  {
    PlainConcat(media, ";ty=" + d);
    PlainConcat(";ty=", d);
    assert Plain(";ty=");
    hide Plain;
    var ct := media + (";ty=" + d);
    assert ct[0] == media[0] && ct[|ct| - 1] == d[|d| - 1];
  }

  lemma UntypedContentType(media: string)
    requires ';' !in media
    ensures ContentTypeTy(media) == None
  {
    BeforeOf(media, ';', "");
    assert media + "" == media;
  }

  lemma ContentTypeIsSafe(p: Primitive, acceptType: string)
    requires SafeValue(acceptType) && ';' !in acceptType && (p.ty.Some? ==> p.ty.value >= 0)
    ensures SafeValue(ContentType(p, acceptType))
    ensures ContentTypeTy(ContentType(p, acceptType)) == if p.op == Create then p.ty else None
  {
    var media, ct := Media(acceptType), ContentType(p, acceptType);
    MediaIsSafe(acceptType);
    hide Media, Dec, SafeValue, ContentTypeTy;
    if p.op == Create && p.ty.Some? {
      TypeParameter(media, p.ty.value);
      HttpRequests.DecIsSafe(p.ty.value);
      TypedIsSafe(media, Dec(p.ty.value));
      assert ct == media + (";ty=" + Dec(p.ty.value));
    } else {
      UntypedContentType(media);
      assert ct == media;
    }
  }

  lemma TypeParameter(media: string, n: nat)
    requires ';' !in media
    ensures ContentTypeTy(media + (";ty=" + Dec(n))) == Some(n)
  {
    var d := Dec(n);
    var ct, params := media + (";ty=" + d), "ty=" + d;
    hide Dec, Before, ReadNumber;
    assert ";ty=" + d == ";" + params;
    BeforeOf(media, ';', ";" + params);
    assert ct[|media| + 1..] == params;
    assert Occurs(params, 0, "ty=") && params[3..] == d;
    ReadNumberOfDec(n, "");
    assert d + "" == d;
    assert Find(params, "ty=") == 0 by { hide Find; var k := Find(params, "ty="); assert k == 0; }
    hide Find;
  }

  /** A field of the primitive, looked up among all fields that were written. */
  lemma FieldFound(p: Primitive, baseUrl: string, acceptType: string, host: string, userAgent: string, k: nat)
    requires k < 10
    ensures var fs := HttpRequests.Fields(Encode(p, baseUrl, acceptType), host, userAgent);
            var v := Entries(p, acceptType)[k].value;
            GetHeader(fs, NAMES[k]) == if v.Some? then v.value else ""
  {
    var q, es := Encode(p, baseUrl, acceptType), Entries(p, acceptType);
    NamesAreDistinct(p, acceptType);
    FieldsAre(p, baseUrl, acceptType, host, userAgent);
    assert !HttpRequests.Reserved(NAMES[k]) && es[k].name == NAMES[k];
    Lookup(es, HttpRequests.LengthField(q.body) + [HttpRequests.CLOSE], k);
    ReservedAbsent(q.body, host, userAgent, Present(es), NAMES[k]);
  }

  lemma FieldsAre(p: Primitive, baseUrl: string, acceptType: string, host: string, userAgent: string)
    ensures var q := Encode(p, baseUrl, acceptType);
            HttpRequests.Fields(q, host, userAgent) ==
            (HttpRequests.Optional("Host", host) + HttpRequests.Optional("User-Agent", userAgent))
            + (Present(Entries(p, acceptType)) + (HttpRequests.LengthField(q.body) + [HttpRequests.CLOSE]))
  {
    var es := Entries(p, acceptType);
    NamesAreDistinct(p, acceptType);
    forall i | 0 <= i < 10 ensures es[i].name != "" { NamesAreSafe(i); }
    hide ContentType, HttpRequests.Reserved, Entries, HttpRequests.Optional, HttpRequests.LengthField, Present;
    KeptPresent(es);
  }

  /** The added fields answer for none of the other names. */
  lemma ReservedAbsent(body: string, host: string, userAgent: string, own: seq<Field>, name: string)
    requires !HttpRequests.Reserved(name)
    ensures var tail := HttpRequests.LengthField(body) + [HttpRequests.CLOSE];
            && GetHeader(tail, name) == ""
            && GetHeader((HttpRequests.Optional("Host", host) + HttpRequests.Optional("User-Agent", userAgent)) + (own + tail), name)
               == GetHeader(own + tail, name)
  {
    var tail := HttpRequests.LengthField(body) + [HttpRequests.CLOSE];
    GetHeaderConcat(HttpRequests.Optional("Host", host) + HttpRequests.Optional("User-Agent", userAgent), own + tail, name);
    GetHeaderConcat(tail, [], name);
    assert tail + [] == tail;
  }

  lemma NoTypeField(p: Primitive, baseUrl: string, acceptType: string, host: string, userAgent: string)
    ensures GetHeader(HttpRequests.Fields(Encode(p, baseUrl, acceptType), host, userAgent), RESOURCE_TYPE) == ""
  {
    var q, es := Encode(p, baseUrl, acceptType), Entries(p, acceptType);
    NamesAreDistinct(p, acceptType);
    FieldsAre(p, baseUrl, acceptType, host, userAgent);
    assert !HttpRequests.Reserved(RESOURCE_TYPE);
    LookupAbsent(es, HttpRequests.LengthField(q.body) + [HttpRequests.CLOSE], RESOURCE_TYPE);
    ReservedAbsent(q.body, host, userAgent, Present(es), RESOURCE_TYPE);
  }

  lemma EncodedIsSafe(p: Primitive, baseUrl: string, acceptType: string, host: string, userAgent: string)
    requires Safe(p, baseUrl, acceptType) && SafeValue(host) && SafeValue(userAgent)
    ensures HttpRequests.Safe(Encode(p, baseUrl, acceptType), host, userAgent)
  {
    var q, es := Encode(p, baseUrl, acceptType), Entries(p, acceptType);
    NamesAreDistinct(p, acceptType);
    ContentTypeIsSafe(p, acceptType);
    forall i | 0 <= i < 10 ensures SafeName(es[i].name) { NamesAreSafe(i); }
    hide SafeName, SafeValue, ContentType, ContentTypeTy, HttpRequests.Reserved, Plain, Before;
    PresentIsSafe(es);
    hide Present, Entries, HttpRequests.Kept;
    assert HttpRequests.BuildTarget(q) == TargetOf(p, baseUrl);
  }

  lemma TypeFound(p: Primitive, baseUrl: string, acceptType: string, host: string, userAgent: string)
    requires Safe(p, baseUrl, acceptType)
    ensures FetchTy(HttpRequests.Fields(Encode(p, baseUrl, acceptType), host, userAgent)) == TypeSent(p)
  {
    FieldFound(p, baseUrl, acceptType, host, userAgent, 9);
    NoTypeField(p, baseUrl, acceptType, host, userAgent);
    ContentTypeIsSafe(p, acceptType);
    assert NAMES[9] == CONTENT_TYPE && WholeNumber("") == None && ContentTypeTy("") == None;
    hide ContentTypeTy, WholeNumber, HttpRequests.Fields, ContentType, GetHeader, Encode;
  }

  lemma OptionFound(p: Primitive, baseUrl: string, acceptType: string, host: string, userAgent: string, k: nat)
    requires 2 <= k < 8
    ensures FetchHeader(HttpRequests.Fields(Encode(p, baseUrl, acceptType), host, userAgent), NAMES[k])
            == Given(Entries(p, acceptType)[k].value)
  {
    FieldFound(p, baseUrl, acceptType, host, userAgent, k);
    hide HttpRequests.Fields, GetHeader, Entries, Encode;
  }

  /** The operation read from the method sent: creates and notifications share POST and are told apart by the type. */
  lemma OperationFound(p: Primitive)
    ensures var m := OperationToMethod(p.op);
            var op := MethodToOperation(if m == HttpRequests.UNKNOWN then HttpRequests.GET else m, TypeSent(p).Some?);
            (if op == Unsupported then Retrieve else op) == OperationReceived(p)
  {
  }

  /** A request decoded from the fields that were written for a primitive. */
  lemma DecodeWritten(p: Primitive, baseUrl: string, acceptType: string, host: string, userAgent: string,
                      r: HttpRequests.Request)
    requires Safe(p, baseUrl, acceptType)
    requires var m := OperationToMethod(p.op); r.meth == if m == HttpRequests.UNKNOWN then HttpRequests.GET else m
    requires r.path == TargetOf(p, baseUrl) && r.body == p.content
    requires r.fields == HttpRequests.Fields(Encode(p, baseUrl, acceptType), host, userAgent)
    ensures Decode(r) == Received(p, baseUrl)
  {
    TypeFound(p, baseUrl, acceptType, host, userAgent);
    OperationFound(p);
    FieldFound(p, baseUrl, acceptType, host, userAgent, 0);
    FieldFound(p, baseUrl, acceptType, host, userAgent, 1);
    OptionFound(p, baseUrl, acceptType, host, userAgent, 2);
    OptionFound(p, baseUrl, acceptType, host, userAgent, 3);
    OptionFound(p, baseUrl, acceptType, host, userAgent, 4);
    OptionFound(p, baseUrl, acceptType, host, userAgent, 5);
    OptionFound(p, baseUrl, acceptType, host, userAgent, 6);
    OptionFound(p, baseUrl, acceptType, host, userAgent, 7);
    hide HttpRequests.Fields, GetHeader, FetchHeader, FetchTy, Encode, Safe, ContentType, TypeSent, OperationReceived, Given,
         MethodToOperation, OperationToMethod;
  }

  /**
   A primitive that is encoded, serialised, received with any bytes after it, parsed and decoded comes back with
   its operation, target, originator, identifiers and content; its type too, if it is a create with content.
   A create without one comes back as a notification.
   */
  lemma WireRoundTrip(p: Primitive, baseUrl: string, acceptType: string, host: string, userAgent: string, extra: string)
    requires Safe(p, baseUrl, acceptType) && SafeValue(host) && SafeValue(userAgent)
    ensures var q := Encode(p, baseUrl, acceptType);
            var r := HttpRequests.Parse(HttpRequests.Serialize(q, host, userAgent) + q.body + extra);
            r.Some? && Decode(r.value) == Received(p, baseUrl)
  {
    var q := Encode(p, baseUrl, acceptType);
    EncodedIsSafe(p, baseUrl, acceptType, host, userAgent);
    HttpRequests.RoundTrip(q, host, userAgent, extra);
    var t := TargetOf(p, baseUrl);
    HttpRequests.PathOfPlain(t);
    hide HttpRequests.Parse, HttpRequests.Serialize, HttpRequests.Safe, Safe, HttpRequests.Fields, Decode, Received,
         HttpRequests.PathOf, HttpRequests.QueryOf, OperationToMethod, Present, Entries;
    DecodeWritten(p, baseUrl, acceptType, host, userAgent, HttpRequests.Received(q, host, userAgent));
  }
}
