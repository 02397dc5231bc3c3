/**
 What is on the wire, written out: the texts of a request and of a response, the fields that come back from them,
 and the header fields that carry a primitive.
 */
module HttpWire {
  import opened Options
  import opened Text
  import opened HttpText
  import HttpRequests
  import HttpResponses
  import HttpAdapter

  /** Field lines, each ended by CR LF. */
  function FieldText(fs: seq<Field>): string {
    if fs == [] then ""
    else
      var n := |fs| - 1;
      FieldText(fs[..n]) + (fs[n].name + ": " + fs[n].value + "\r\n")
  }

  lemma {:induction false} BlockIsText(line: string, fs: seq<Field>)
    ensures Block(line, fs) == line + "\r\n" + FieldText(fs)
  {
    hide Block;
    BlockStart(line);
    if fs == [] {
      assert line + "\r\n" + FieldText(fs) == line + "\r\n";
    } else {
      var n := |fs| - 1;
      var f := fs[n];
      assert fs == fs[..n] + [f];
      BlockIsText(line, fs[..n]);
      BlockSnoc(line, fs[..n], f);
      LineAppended(line + "\r\n", FieldText(fs[..n]), f);
    }
  }

  lemma LineAppended(a: string, b: string, f: Field)
    ensures a + b + f.name + ": " + f.value + "\r\n" == a + (b + (f.name + ": " + f.value + "\r\n"))
  {
    var x, y, z, w := f.name, ": ", f.value, "\r\n";
    assert a + b + x + y + z + w == a + (b + (x + y + z + w));
  }

  /** The value of the last field with this name, "" when there is none. */
  function LastValue(fs: seq<Field>, name: string): string {
    if fs == [] then ""
    else
      var n := |fs| - 1;
      if fs[n].name == name then fs[n].value else LastValue(fs[..n], name)
  }

  // ------------------------------------------------------------------ responses

  /** The caller's fields with a name and a value, in their order. */
  function Carried(fs: seq<Field>): seq<Field> {
    if fs == [] then []
    else
      var n := |fs| - 1;
      Carried(fs[..n]) + (if fs[n].name != "" && fs[n].value != "" then [fs[n]] else [])
  }

  predicate Names(fs: seq<Field>, name: string) { exists i :: 0 <= i < |fs| && fs[i].name == name }

  /** Server, the caller's fields, the body's length unless the caller gave one, Connection. */
  function Answered(r: HttpResponses.Response, server: string): seq<Field> {
    var own := Carried(r.fields);
    [Field("Server", server)] + own
    + (if Names(own, "Content-Length") then [] else [Field("Content-Length", Dec(|r.body|))])
    + [Field("Connection", "close")]
  }

  lemma {:induction false} CarriedIsWritten(fs: seq<Field>)
    ensures HttpResponses.Written(fs) == Carried(fs)
  {
    if fs != [] {
      var n := |fs| - 1;
      assert fs == fs[..n] + [fs[n]];
      CarriedIsWritten(fs[..n]);
      WrittenSnoc(fs[..n], fs[n]);
    }
  }

  lemma {:induction false} WrittenSnoc(fs: seq<Field>, f: Field)
    ensures HttpResponses.Written(fs + [f]) == HttpResponses.Written(fs) + (if f.name != "" && f.value != "" then [f] else [])
  {
    var last := if f.name != "" && f.value != "" then [f] else [];
    if fs == [] {
      assert fs + [f] == [f] && [f][1..] == [] && HttpResponses.Written([]) == [];
    } else {
      assert (fs + [f])[0] == fs[0] && (fs + [f])[1..] == fs[1..] + [f];
      WrittenSnoc(fs[1..], f);
      var head := if fs[0].name == "" || fs[0].value == "" then [] else [fs[0]];
      assert head + (HttpResponses.Written(fs[1..]) + last) == head + HttpResponses.Written(fs[1..]) + last;
    }
  }

  lemma AnsweredIsFields(r: HttpResponses.Response, server: string)
    ensures HttpResponses.Fields(r, server) == Answered(r, server)
  {
    CarriedIsWritten(r.fields);
    hide HttpResponses.Written, Carried;
  }

  /** The header block of a response: status line, fields, blank line. */
  lemma ResponseText(r: HttpResponses.Response, reason: string, server: string)
    requires r.status >= 0
    ensures HttpResponses.Serialize(r, reason, server)
            == "HTTP/1.1 " + Dec(r.status) + " " + reason + "\r\n" + FieldText(Answered(r, server)) + "\r\n"
  {
    AnsweredIsFields(r, server);
    BlockIsText(HttpResponses.StatusLine(r.status, reason), Answered(r, server));
    hide HttpResponses.Fields, Answered, FieldText, Join, FieldLines, Dec;
  }

  lemma {:induction false} AddKeeps(fs: seq<Field>, f: Field, name: string)
    ensures GetHeader(HttpResponses.AddField(fs, f), name) == if f.name == name then f.value else GetHeader(fs, name)
    ensures Names(HttpResponses.AddField(fs, f), name) <==> f.name == name || Names(fs, name)
  {
    NamesCons(f, [], name);
    if fs != [] {
      NamesCons(fs[0], fs[1..], name);
      NamesCons(f, fs[1..], name);
      NamesCons(fs[0], HttpResponses.AddField(fs[1..], f), name);
      assert fs == [fs[0]] + fs[1..];
      AddKeeps(fs[1..], f, name);
      hide Names;
    }
  }

  lemma NamesCons(f: Field, fs: seq<Field>, name: string)
    ensures Names([f] + fs, name) <==> f.name == name || Names(fs, name)
    ensures [f] + fs == [f] + ([] + fs) && (fs == [] ==> [f] + fs == [f])
  {
    var all := [f] + fs;
    assert all[0] == f && forall i :: 0 <= i < |fs| ==> all[i + 1] == fs[i];
    if i :| 0 <= i < |all| && all[i].name == name { assert i > 0 ==> fs[i - 1].name == name; }
  }

  lemma {:induction false} AddStaysDistinct(fs: seq<Field>, f: Field)
    requires HttpResponses.Distinct(fs)
    ensures HttpResponses.Distinct(HttpResponses.AddField(fs, f))
    ensures forall x :: x in HttpResponses.AddField(fs, f) ==> x == f || x in fs
  {
    if fs != [] && fs[0].name != f.name {
      var rest := HttpResponses.AddField(fs[1..], f);
      AddStaysDistinct(fs[1..], f);
      AddKeeps(fs[1..], f, fs[0].name);
      var all := [fs[0]] + rest;
      forall i, j | 0 <= i < j < |all| ensures all[i].name != all[j].name {
        assert all[j] == rest[j - 1];
        if i > 0 { assert all[i] == rest[i - 1]; } else { assert !Names(fs[1..], fs[0].name) && !Names(rest, fs[0].name); }
      }
    }
  }

  lemma {:induction false} AddAllSnoc(fs: seq<Field>, more: seq<Field>, f: Field)
    ensures HttpResponses.AddAll(fs, more + [f]) == HttpResponses.AddField(HttpResponses.AddAll(fs, more), f)
    decreases |more|
  {
    if more == [] {
      assert more + [f] == [f] && [f][1..] == [];
    } else {
      assert (more + [f])[0] == more[0] && (more + [f])[1..] == more[1..] + [f];
      hide HttpResponses.AddField;
      AddAllSnoc(HttpResponses.AddField(fs, more[0]), more[1..], f);
    }
  }

  /** Of fields with the same name the last one counts, and each name is there once. */
  lemma {:induction false} AddedFields(more: seq<Field>, name: string)
    ensures var fs := HttpResponses.AddAll([], more);
            && GetHeader(fs, name) == LastValue(more, name)
            && HttpResponses.Distinct(fs) && forall x :: x in fs ==> x in more
  {
    if more != [] {
      var n := |more| - 1;
      assert more == more[..n] + [more[n]];
      AddedFields(more[..n], name);
      AddAllSnoc([], more[..n], more[n]);
      hide HttpResponses.AddField, HttpResponses.AddAll;
      AddKeeps(HttpResponses.AddAll([], more[..n]), more[n], name);
      AddStaysDistinct(HttpResponses.AddAll([], more[..n]), more[n]);
      hide HttpResponses.Distinct;
    }
  }

  predicate Once(fs: seq<Field>) { forall i, j :: 0 <= i < j < |fs| ==> fs[i].name != fs[j].name }

  /**
   What a client gets of a response: status and body, each name once with the value sent for it last. Fields of
   different names, none of them Server or Connection, come back as they were sent, with nothing added or lost.
   */
  lemma ResponseReceived(r: HttpResponses.Response, reason: string, server: string, extra: string, name: string)
    requires HttpResponses.Safe(r, reason, server) && |r.body| <= 4096
    ensures var got := HttpResponses.Parse(HttpResponses.Serialize(r, reason, server) + r.body + extra);
            var own := Carried(r.fields);
            && got.Some? && got.value.status == r.status && got.value.body == r.body
            && GetHeader(got.value.fields, name) == LastValue(Answered(r, server), name) && Once(got.value.fields)
            && (forall f :: f in got.value.fields ==> f in Answered(r, server))
            && (Once(own) && !Names(own, "Server") && !Names(own, "Connection") ==> got.value.fields == Answered(r, server))
  {
    hide HttpResponses.Parse, HttpResponses.Serialize, HttpResponses.Safe, HttpResponses.Fields, HttpResponses.AddAll, Answered;
    HttpResponses.RoundTrip(r, reason, server, extra);
    AnsweredIsFields(r, server);
    var all := Answered(r, server);
    AddedFields(all, name);
    if Once(Carried(r.fields)) && !Names(Carried(r.fields), "Server") && !Names(Carried(r.fields), "Connection") {
      AnsweredOnce(r, server);
      assert [] + all == all;
      HttpResponses.AddAllDistinct([], all);
    }
    hide LastValue, GetHeader, Carried, Names;
  }

  lemma AnsweredOnce(r: HttpResponses.Response, server: string)
    requires var own := Carried(r.fields); Once(own) && !Names(own, "Server") && !Names(own, "Connection")
    ensures HttpResponses.Distinct(Answered(r, server))
  {
    hide Carried, Dec;
    var own, all := Carried(r.fields), Answered(r, server);
    var k := |own|;
    assert forall i :: 0 <= i < k ==> all[i + 1] == own[i] && own[i].name != "Server" && own[i].name != "Connection";
    assert "Server" != "Content-Length" && "Server" != "Connection" && "Content-Length" != "Connection";
    assert all[|all| - 1].name == "Connection" && all[0].name == "Server";
    if !Names(own, "Content-Length") {
      assert all[k + 1].name == "Content-Length" && |all| == k + 3;
    } else {
      assert |all| == k + 2;
    }
    hide Answered;
  }

  // ------------------------------------------------------------------ requests

  /** The caller's fields that are not the serialiser's own, in their order. */
  function Passed(fs: seq<Field>): seq<Field> {
    if fs == [] then []
    else
      var n := |fs| - 1;
      Passed(fs[..n])
      + (if fs[n].name in {"", "Host", "Connection", "User-Agent", "Content-Length"} then [] else [fs[n]])
  }

  function Given(name: string, value: string): seq<Field> { if value == "" then [] else [Field(name, value)] }

  /** Host and User-Agent when known, the caller's fields, the length of a body, Connection. */
  function Asked(r: HttpRequests.Request, host: string, userAgent: string): seq<Field> {
    Given("Host", host) + Given("User-Agent", userAgent) + Passed(r.fields)
    + Given("Content-Length", if r.body == "" then "" else Dec(|r.body|)) + [Field("Connection", "close")]
  }

  lemma {:induction false} PassedIsKept(fs: seq<Field>)
    ensures HttpRequests.Kept(fs) == Passed(fs)
  {
    if fs != [] {
      var n := |fs| - 1;
      assert fs == fs[..n] + [fs[n]];
      PassedIsKept(fs[..n]);
      KeptSnoc(fs[..n], fs[n]);
    }
  }

  lemma {:induction false} KeptSnoc(fs: seq<Field>, f: Field)
    ensures HttpRequests.Kept(fs + [f]) == HttpRequests.Kept(fs)
            + (if f.name in {"", "Host", "Connection", "User-Agent", "Content-Length"} then [] else [f])
  {
    var last := if f.name in {"", "Host", "Connection", "User-Agent", "Content-Length"} then [] else [f];
    if fs == [] {
      assert fs + [f] == [f] && [f][1..] == [] && HttpRequests.Kept([]) == [];
    } else {
      assert (fs + [f])[0] == fs[0] && (fs + [f])[1..] == fs[1..] + [f];
      KeptSnoc(fs[1..], f);
      var head := if fs[0].name == "" || HttpRequests.Reserved(fs[0].name) then [] else [fs[0]];
      hide HttpRequests.Reserved;
      assert head + (HttpRequests.Kept(fs[1..]) + last) == head + HttpRequests.Kept(fs[1..]) + last;
    }
  }

  lemma AskedIsFields(r: HttpRequests.Request, host: string, userAgent: string)
    ensures HttpRequests.Fields(r, host, userAgent) == Asked(r, host, userAgent)
  {
    PassedIsKept(r.fields);
    hide HttpRequests.Kept, Passed, Dec;
  }

  const VERBS := ["GET", "HEAD", "POST", "PUT", "DELETE", "PATCH", "OPTIONS", "TRACE", "CONNECT"]
  const METHODS := [HttpRequests.GET, HttpRequests.HEAD, HttpRequests.POST, HttpRequests.PUT, HttpRequests.DELETE,
                    HttpRequests.PATCH, HttpRequests.OPTIONS, HttpRequests.TRACE, HttpRequests.CONNECT]

  /** The method's own name, and the target as given or put together from its parts. */
  function RequestLine(verb: string, r: HttpRequests.Request): string {
    verb + " "
    + (if r.target != "" then r.target
       else (if r.path == "" then "/" else r.path) + (if r.query == "" then "" else "?" + r.query))
    + " HTTP/1.1"
  }

  /** The header block of a request: request line, fields, blank line. */
  lemma RequestText(r: HttpRequests.Request, host: string, userAgent: string, k: nat)
    requires k < 9 && (r.meth == METHODS[k] || (r.meth == HttpRequests.UNKNOWN && k == 0))
    ensures HttpRequests.Serialize(r, host, userAgent)
            == RequestLine(VERBS[k], r) + "\r\n" + FieldText(Asked(r, host, userAgent)) + "\r\n"
  {
    AskedIsFields(r, host, userAgent);
    LineWritten(r, k);
    BlockIsText(HttpRequests.RequestLine(r), Asked(r, host, userAgent));
    hide HttpRequests.Fields, HttpRequests.RequestLine, RequestLine, Asked, FieldText, Join, FieldLines;
  }

  lemma LineWritten(r: HttpRequests.Request, k: nat)
    requires k < 9 && (r.meth == METHODS[k] || (r.meth == HttpRequests.UNKNOWN && k == 0))
    ensures HttpRequests.RequestLine(r) == RequestLine(VERBS[k], r)
  {
    assert HttpRequests.MethodText(r.meth) == VERBS[k];
    hide HttpRequests.MethodText;
  }

  /** What a server gets of a request: the fields as they were sent, and the target split at its question mark. */
  lemma RequestReceived(r: HttpRequests.Request, host: string, userAgent: string, extra: string, k: nat,
                        path: string, query: string)
    requires HttpRequests.Safe(r, host, userAgent)
    requires k < 9 && (r.meth == METHODS[k] || (r.meth == HttpRequests.UNKNOWN && k == 0))
    requires r.target == path + (if query == "" then "" else "?" + query) && path != "" && '?' !in path
    ensures HttpRequests.Parse(HttpRequests.Serialize(r, host, userAgent) + r.body + extra)
            == Some(HttpRequests.Request(METHODS[k], r.target, path, query, "HTTP/1.1", Asked(r, host, userAgent), r.body))
  {
    hide HttpRequests.Parse, HttpRequests.Serialize, HttpRequests.Safe, HttpRequests.Fields, Asked;
    HttpRequests.RoundTrip(r, host, userAgent, extra);
    AskedIsFields(r, host, userAgent);
    assert METHODS[0] == HttpRequests.GET;
    BeforeOf(path, '?', if query == "" then "" else "?" + query);
    assert query != "" ==> r.target[|path| + 1..] == query;
    assert query == "" ==> r.target == path;
    hide Before;
  }

  // ------------------------------------------------------------------ the binding

  const HEADERS := ["X-M2M-Origin", "X-M2M-RI", "X-M2M-RVI", "X-M2M-OT", "X-M2M-RQET", "X-M2M-RSET", "X-M2M-OET",
                    "X-M2M-GID", "Accept", "Content-Type"]

  /** What each of these header fields carries; None leaves it out. */
  function Carries(p: HttpAdapter.Primitive, acceptType: string): seq<Option<string>> {
    var media := if acceptType == "" then "application/json" else acceptType;
    var typed := if p.op == HttpAdapter.Create && p.ty.Some? then media + ";ty=" + IntText(p.ty.value) else media;
    [Some(p.from), Some(p.rqi), p.rvi, p.ot, p.rqet, p.rset, p.oet, p.gid,
     if acceptType == "" then None else Some(acceptType), if p.content == "" then None else Some(typed)]
  }

  lemma HeaderNames()
    ensures HttpAdapter.NAMES == HEADERS
  {
  }

  /** Each part of a primitive travels in its header field, and the operation in the method. */
  lemma PrimitiveHeaders(p: HttpAdapter.Primitive, baseUrl: string, acceptType: string, k: nat)
    requires k < 10
    ensures var q := HttpAdapter.Encode(p, baseUrl, acceptType);
            var v := Carries(p, acceptType)[k];
            && GetHeader(q.fields, HEADERS[k]) == (if v.Some? then v.value else "")
            && (v.Some? <==> Names(q.fields, HEADERS[k]))
            && q.target == (if p.to == "" then baseUrl else p.to) && q.body == p.content
            && (p.op == HttpAdapter.Create || p.op == HttpAdapter.Notify ==> q.meth == HttpRequests.POST)
            && (p.op == HttpAdapter.Retrieve ==> q.meth == HttpRequests.GET)
            && (p.op == HttpAdapter.Update ==> q.meth == HttpRequests.PUT)
            && (p.op == HttpAdapter.Delete ==> q.meth == HttpRequests.DELETE)
  {
    HeaderNames();
    var es := HttpAdapter.Entries(p, acceptType);
    HttpAdapter.NamesAreDistinct(p, acceptType);
    EntryValues(p, acceptType);
    hide HttpAdapter.Entries, HttpAdapter.Distinct, HttpRequests.Reserved, HttpAdapter.Present, GetHeader, Carries;
    HttpAdapter.Lookup(es, [], k);
    assert HttpAdapter.Present(es) + [] == HttpAdapter.Present(es);
    assert GetHeader([], HEADERS[k]) == "" by { NoHeader(HEADERS[k]); }
    PresentNames(es, k);
  }

  lemma NoHeader(name: string)
    ensures GetHeader([], name) == ""
  {
  }

  lemma EntryValues(p: HttpAdapter.Primitive, acceptType: string)
    ensures var es := HttpAdapter.Entries(p, acceptType);
            |es| == 10 && forall k :: 0 <= k < 10 ==> es[k].value == Carries(p, acceptType)[k]
  {
    var media := if acceptType == "" then "application/json" else acceptType;
    hide IntText;
    if p.ty.Some? {
      var d := IntText(p.ty.value);
      assert media + (";ty=" + d) == media + ";ty=" + d;
    }
    assert HttpAdapter.ContentType(p, acceptType)
        == if p.op == HttpAdapter.Create && p.ty.Some? then media + ";ty=" + IntText(p.ty.value) else media;
    hide HttpAdapter.ContentType;
  }

  /** A field of that name is there exactly when the entry has a value. */
  lemma {:induction false} PresentNames(es: seq<HttpAdapter.Entry>, k: nat)
    requires HttpAdapter.Distinct(es) && k < |es|
    ensures Names(HttpAdapter.Present(es), es[k].name) <==> es[k].value.Some?
  {
    HttpAdapter.PresentUnfold(es);
    var rest := HttpAdapter.Present(es[1..]);
    if es[0].value.Some? { NamesCons(Field(es[0].name, es[0].value.value), rest, es[k].name); }
    hide HttpAdapter.Present, Names;
    if k > 0 {
      assert es[1..][k - 1] == es[k];
      PresentNames(es[1..], k - 1);
    } else {
      NotPresent(es[1..], es[0].name);
    }
  }

  lemma {:induction false} NotPresent(es: seq<HttpAdapter.Entry>, name: string)
    requires forall i :: 0 <= i < |es| ==> es[i].name != name
    ensures !Names(HttpAdapter.Present(es), name)
  {
    if es != [] {
      HttpAdapter.PresentUnfold(es);
      var rest := HttpAdapter.Present(es[1..]);
      NotPresent(es[1..], name);
      if es[0].value.Some? { NamesCons(Field(es[0].name, es[0].value.value), rest, name); }
    }
  }

  /** A request that names its resource type in a field of its own, and no Content-Type. */
  lemma TypeInOwnField(r: HttpRequests.Request, n: nat)
    requires GetHeader(r.fields, "Content-Type") == "" && GetHeader(r.fields, "X-M2M-TY") == Dec(n)
    ensures var p := HttpAdapter.Decode(r);
            p.ty == Some(n) && (r.meth == HttpRequests.POST ==> p.op == HttpAdapter.Create)
  {
    WholeNumberOfDec(n);
    assert HttpAdapter.ContentTypeTy("") == None;
    hide GetHeader, WholeNumber, HttpAdapter.ContentTypeTy, HttpAdapter.FetchHeader;
  }
}
