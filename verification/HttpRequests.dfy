/** HTTP requests: http_codec.cpp's ParseRequest and SerializeRequest, and how they undo each other. */
module HttpRequests {
  import opened Options
  import opened Text
  import opened HttpText

  datatype Method = GET | HEAD | POST | PUT | DELETE | PATCH | OPTIONS | TRACE | CONNECT | UNKNOWN

  datatype Request = Request(
    meth: Method, target: string, path: string, query: string, version: string, fields: seq<Field>, body: string)

  const CLEARED := Request(UNKNOWN, "", "", "", "", [], "")
  const MAX_HEADERS := 16

  function ParseMethodToken(t: string): Method {
    if t == "GET" then GET else if t == "HEAD" then HEAD else if t == "POST" then POST else if t == "PUT" then PUT
    else if t == "DELETE" then DELETE else if t == "PATCH" then PATCH else if t == "OPTIONS" then OPTIONS
    else if t == "TRACE" then TRACE else if t == "CONNECT" then CONNECT else UNKNOWN
  }

  /** What SerializeRequest writes; an unknown method is written as GET. */
  function MethodText(m: Method): string {
    match m
    case GET => "GET" case HEAD => "HEAD" case OPTIONS => "OPTIONS" case TRACE => "TRACE" case PUT => "PUT"
    case DELETE => "DELETE" case POST => "POST" case PATCH => "PATCH" case CONNECT => "CONNECT" case UNKNOWN => "GET"
  }

  // ------------------------------------------------------------------ parsing

  function PathOf(target: string): string { Before(target, '?') }

  function QueryOf(target: string): string {
    var p := Before(target, '?');
    if |p| < |target| then target[|p| + 1..] else ""
  }

  function ParseRequestLine(line: string): Option<Request> {
    var m := Before(line, ' ');
    if |m| == |line| then None
    else
      var rest := line[|m| + 1..];
      var t := Before(rest, ' ');
      if |t| == |rest| || ParseMethodToken(m) == UNKNOWN then None
      else Some(Request(ParseMethodToken(m), t, PathOf(t), QueryOf(t), rest[|t| + 1..], [], ""))
  }

  /** The line loop: empty lines are skipped, the first other one is the request line. */
  function ParseLines(lines: seq<string>, first: bool, r: Request): Option<Request> {
    if lines == [] then Some(r)
    else if lines[0] == "" then ParseLines(lines[1..], first, r)
    else if first then
      match ParseRequestLine(lines[0])
      case None => None
      case Some(r') => ParseLines(lines[1..], false, r')
    else
      match ParseField(lines[0])
      case None => None
      case Some(f) => ParseLines(lines[1..], false, r.(fields := r.fields + [f]))
  }

  /** Bytes of body announced; a value that reads as negative is left out of the model. */
  function ContentLength(fs: seq<Field>): int {
    var v := GetHeader(fs, "Content-Length");
    if v == "" then 0 else Atoi(v)
  }

  /** The body after the blank line at h. */
  function ParseBody(s: string, h: nat, r: Request): Option<Request>
    requires h + 4 <= |s|
  {
    var n := ContentLength(r.fields);
    if n == 0 then Some(r)
    else if n < 0 || h + 4 + n > |s| then None
    else Some(r.(body := CString(s[h + 4..h + 4 + n])))
  }

  /** ParseRequest: None is BadRequest. A header that ends at 16 is taken for a missing one. */
  function Parse(s: string): Option<Request> {
    var h := FirstBlank(s);
    if h == |s| || h == MAX_HEADERS then None
    else
      match ParseLines(LfLines(s[..h + 2]), true, CLEARED)
      case None => None
      case Some(r) => ParseBody(s, h, r)
  }

  // ------------------------------------------------------------------ serialising

  function BuildTarget(r: Request): (t: string)
    ensures t != ""
  {
    if r.target != "" then r.target
    else (if r.path != "" then r.path else "/") + (if r.query != "" then "?" + r.query else "")
  }

  predicate Reserved(name: string) {
    name == "Host" || name == "Connection" || name == "User-Agent" || name == "Content-Length"
  }

  /** The caller's header fields that are written. */
  function Kept(fs: seq<Field>): (r: seq<Field>)
    ensures forall f :: f in r ==> f in fs && f.name != "" && !Reserved(f.name)
  {
    if fs == [] then []
    else (if fs[0].name == "" || Reserved(fs[0].name) then [] else [fs[0]]) + Kept(fs[1..])
  }

  function Optional(name: string, value: string): seq<Field> { if value == "" then [] else [Field(name, value)] }

  /** The length field of a message with a body. */
  function LengthField(body: string): seq<Field> {
    if body == "" then [] else [Field("Content-Length", Dec(|body|))]
  }

  const CLOSE := Field("Connection", "close")

  /** The fields before the length field. */
  function LeadingFields(r: Request, host: string, userAgent: string): seq<Field> {
    Optional("Host", host) + Optional("User-Agent", userAgent) + Kept(r.fields)
  }

  function Fields(r: Request, host: string, userAgent: string): seq<Field> {
    LeadingFields(r, host, userAgent) + LengthField(r.body) + [CLOSE]
  }

  function RequestLine(r: Request): string { MethodText(r.meth) + " " + BuildTarget(r) + " HTTP/1.1" }

  function Lines(r: Request, host: string, userAgent: string): seq<string> {
    [RequestLine(r)] + FieldLines(Fields(r, host, userAgent))
  }

  /** The header block SerializeRequest writes. */
  function Serialize(r: Request, host: string, userAgent: string): string {
    Join(Lines(r, host, userAgent)) + CRLF
  }

  // ------------------------------------------------------------------ undoing each other

  /** Nothing in the request breaks a line or is trimmed away. */
  predicate Safe(r: Request, host: string, userAgent: string) {
    && Plain(BuildTarget(r)) && ' ' !in BuildTarget(r)
    && SafeValue(host) && SafeValue(userAgent)
    && (forall f :: f in Kept(r.fields) ==> SafeField(f))
    && NUL !in r.body
  }

  /** The request line's part of what comes back: the target split at its first question mark. */
  function Head(r: Request): Request {
    var t := BuildTarget(r);
    Request(if r.meth == UNKNOWN then GET else r.meth, t, PathOf(t), QueryOf(t), "HTTP/1.1", [], "")
  }

  /** What comes back: the method, the target and its parts, the fields written, the body. */
  function Received(r: Request, host: string, userAgent: string): Request {
    Head(r).(fields := Fields(r, host, userAgent), body := r.body)
  }

  lemma MethodRoundTrip(m: Method)
    ensures ParseMethodToken(MethodText(m)) == (if m == UNKNOWN then GET else m)
    ensures ' ' !in MethodText(m) && Plain(MethodText(m)) && |MethodText(m)| >= 3
  {
  }

  /** A request line of a method, a target without a space, and a version. */
  lemma SplitRequestLine(m: string, t: string, v: string)
    requires ' ' !in m && ' ' !in t && ParseMethodToken(m) != UNKNOWN
    ensures ParseRequestLine(m + " " + t + " " + v)
            == Some(Request(ParseMethodToken(m), t, PathOf(t), QueryOf(t), v, [], ""))
  {
    var line, rest := m + " " + t + " " + v, t + " " + v;
    hide ParseMethodToken, PathOf, QueryOf;
    assert line == m + (" " + rest) && line[|m| + 1..] == rest;
    BeforeOf(m, ' ', " " + rest);
    assert rest == t + (" " + v) && rest[|t| + 1..] == v;
    BeforeOf(t, ' ', " " + v);
    hide Before;
  }

  lemma RequestLineParses(r: Request)
    requires ' ' !in BuildTarget(r)
    ensures ParseRequestLine(RequestLine(r)) == Some(Head(r))
  {
    var m, t := MethodText(r.meth), BuildTarget(r);
    MethodRoundTrip(r.meth);
    hide Plain, BuildTarget, MethodText, ParseMethodToken, ParseRequestLine, PathOf, QueryOf;
    SplitRequestLine(m, t, "HTTP/1.1");
    assert RequestLine(r) == m + " " + t + " " + "HTTP/1.1";
    hide RequestLine;
  }

  lemma RequestLineRoundTrip(r: Request)
    requires Plain(BuildTarget(r)) && ' ' !in BuildTarget(r)
    ensures PlainLine(RequestLine(r)) && |RequestLine(r)| >= 14
    ensures ParseRequestLine(RequestLine(r)) == Some(Head(r))
  {
    RequestLineParses(r);
    MethodRoundTrip(r.meth);
    hide Plain, MethodText, ParseRequestLine, Head, BuildTarget;
    RequestLineIsPlain(MethodText(r.meth), BuildTarget(r));
  }

  lemma RequestLineIsPlain(m: string, t: string)
    requires Plain(m) && Plain(t) && |m| >= 3 && t != ""
    ensures PlainLine(m + " " + t + " HTTP/1.1") && |m + " " + t + " HTTP/1.1"| >= 13 + |t|
  {
    PlainConcat(m + " " + t, " HTTP/1.1");
    PlainConcat(m + " ", t);
    PlainConcat(m, " ");
  }

  lemma NextField(line: string, rest: seq<string>, r: Request, f: Field)
    requires line != "" && ParseField(line) == Some(f)
    ensures ParseLines([line] + rest, false, r) == ParseLines(rest, false, r.(fields := r.fields + [f]))
  {
    assert ([line] + rest)[1..] == rest;
    hide ParseField, ParseRequestLine;
  }

  lemma SnocFields(r: Request, f: Field, fs: seq<Field>)
    ensures var r1 := r.(fields := r.fields + [f]); r1.(fields := r1.fields + fs) == r.(fields := r.fields + ([f] + fs))
  {
    assert (r.fields + [f]) + fs == r.fields + ([f] + fs);
  }

  /** Field lines are read back into the fields, after those already read. */
  lemma {:induction false} ParseFieldLines(fs: seq<Field>, r: Request)
    requires forall i :: 0 <= i < |fs| ==> SafeField(fs[i])
    ensures ParseLines(FieldLines(fs), false, r) == Some(r.(fields := r.fields + fs))
  {
    if fs == [] {
      assert r.fields + fs == r.fields;
    } else {
      var f, rest := fs[0], fs[1..];
      assert FieldLines(fs) == [FieldLine(f)] + FieldLines(rest) && fs == [f] + rest;
      assert forall i :: 0 <= i < |rest| ==> SafeField(rest[i]);
      hide *;
      FieldRoundTrip(f);
      NotEmpty(FieldLine(f));
      NextField(FieldLine(f), FieldLines(rest), r, f);
      ParseFieldLines(rest, r.(fields := r.fields + [f]));
      SnocFields(r, f, rest);
    }
  }

  lemma NotEmpty(line: string)
    requires PlainLine(line)
    ensures line != ""
  {
  }

  lemma DecIsSafe(n: nat)
    ensures SafeValue(Dec(n))
  {
    var d := Dec(n);
    hide Dec;
    assert forall i :: 0 <= i < |d| ==> d[i] in d;
  }

  lemma OptionalIsSafe(name: string, value: string)
    requires SafeName(name) && SafeValue(value)
    ensures forall f :: f in Optional(name, value) ==> SafeField(f)
  {
    hide SafeName, SafeValue;
  }

  lemma LengthIsSafe(body: string)
    ensures forall f :: f in LengthField(body) ==> SafeField(f)
  {
    DecIsSafe(|body|);
    assert SafeName("Content-Length");
    hide SafeName, SafeValue, Dec;
  }

  lemma FieldsAreSafe(r: Request, host: string, userAgent: string)
    requires Safe(r, host, userAgent)
    ensures var fs := Fields(r, host, userAgent); forall i :: 0 <= i < |fs| ==> SafeField(fs[i])
  {
    CloseIsSafe();
    LengthIsSafe(r.body);
    assert SafeName("Host") && SafeName("User-Agent");
    OptionalIsSafe("Host", host);
    OptionalIsSafe("User-Agent", userAgent);
    assert forall f :: f in Kept(r.fields) ==> SafeField(f);
    hide Dec, Kept, BuildTarget, SafeValue, SafeName, Optional, LengthField, Safe, SafeField;
  }

  lemma CloseIsSafe()
    ensures SafeField(CLOSE)
  {
  }

  lemma LinesArePlain(r: Request, host: string, userAgent: string)
    requires Safe(r, host, userAgent)
    ensures var lines := Lines(r, host, userAgent);
            && |lines| >= 2 && |lines[0]| >= 14 && lines[|lines| - 1] == FieldLine(CLOSE)
            && forall i :: 0 <= i < |lines| ==> PlainLine(lines[i])
  {
    var fs := Fields(r, host, userAgent);
    RequestLineRoundTrip(r);
    FieldsAreSafe(r, host, userAgent);
    assert fs[|fs| - 1] == CLOSE;
    hide Fields, RequestLine, PlainLine, FieldLine, SafeField;
    var lines := Lines(r, host, userAgent);
    forall i | 0 <= i < |lines| ensures PlainLine(lines[i]) {
      if i > 0 {
        assert lines[i] == FieldLine(fs[i - 1]);
        FieldRoundTrip(fs[i - 1]);
      }
    }
  }

  /** A serialised request's header ends past 16, so the parser never takes it for a missing one. */
  lemma HeaderEnds(r: Request, host: string, userAgent: string, rest: string)
    requires Safe(r, host, userAgent)
    ensures var text := Serialize(r, host, userAgent);
            FirstBlank(text + rest) == |text| - 4 && |text| - 4 > MAX_HEADERS
  {
    LinesArePlain(r, host, userAgent);
    var lines := Lines(r, host, userAgent);
    hide Lines, Safe, PlainLine, FirstBlank;
    JoinLength(lines);
    FirstBlankOfJoin(lines, rest);
    assert |FieldLine(CLOSE)| == 17;
  }

  /** The header lines of a serialised request, read back. */
  lemma HeaderRoundTrip(r: Request, host: string, userAgent: string)
    requires Safe(r, host, userAgent)
    ensures ParseLines(LfLines(Join(Lines(r, host, userAgent))), true, CLEARED)
            == Some(Received(r, host, userAgent).(body := ""))
  {
    var lines, fs := Lines(r, host, userAgent), Fields(r, host, userAgent);
    LinesArePlain(r, host, userAgent);
    LfLinesOfJoin(lines) by { hide Lines, Safe; }
    RequestLineRoundTrip(r);
    FieldsAreSafe(r, host, userAgent);
    assert lines[1..] == FieldLines(fs) && lines[0] == RequestLine(r);
    hide *;
    ParseFieldLines(fs, Head(r));
    FirstLine(lines, Head(r));
    HeadHasNoFields(r, fs);
    ReceivedIs(r, host, userAgent);
  }

  lemma HeadHasNoFields(r: Request, fs: seq<Field>)
    ensures Head(r).fields + fs == fs && Head(r).body == ""
  {
    hide BuildTarget;
  }

  lemma ReceivedIs(r: Request, host: string, userAgent: string)
    ensures Received(r, host, userAgent).(body := "") == Head(r).(fields := Fields(r, host, userAgent))
  {
    hide Fields, BuildTarget;
  }

  lemma FirstLine(lines: seq<string>, r: Request)
    requires lines != [] && lines[0] != "" && ParseRequestLine(lines[0]) == Some(r)
    ensures ParseLines(lines, true, CLEARED) == ParseLines(lines[1..], false, r)
  {
    hide ParseRequestLine;
  }

  /** The announced length of a serialised request is the length of its body. */
  lemma LengthOfFields(r: Request, host: string, userAgent: string)
    ensures ContentLength(Fields(r, host, userAgent)) == |r.body|
  {
    var before := LeadingFields(r, host, userAgent);
    var rest := LengthField(r.body) + [CLOSE];
    assert Fields(r, host, userAgent) == before + rest;
    GetHeaderConcat(before, rest, "Content-Length");
    AtoiOfDec(|r.body|, "");
    assert Dec(|r.body|) + "" == Dec(|r.body|);
    hide Kept, Dec, Atoi;
    if r.body == "" {
      assert rest == [CLOSE] && [CLOSE][1..] == [];
    } else {
      assert rest[0] == Field("Content-Length", Dec(|r.body|));
    }
  }

  /** A message whose header block is read: what is left is its body. */
  lemma ParseFrom(s: string, h: nat, lines: seq<string>, r: Request)
    requires FirstBlank(s) == h && h < |s| && h != MAX_HEADERS
    requires LfLines(s[..h + 2]) == lines && ParseLines(lines, true, CLEARED) == Some(r)
    ensures Parse(s) == ParseBody(s, h, r)
  {
    hide FirstBlank, LfLines, ParseLines, ParseBody;
  }

  /** A serialised request followed by any bytes: the parser gets to the body with the fields read back. */
  lemma ParseSerialized(r: Request, host: string, userAgent: string, rest: string)
    requires Safe(r, host, userAgent)
    ensures var text := Serialize(r, host, userAgent);
            && |text| >= 4
            && Parse(text + rest) == ParseBody(text + rest, |text| - 4, Received(r, host, userAgent).(body := ""))
            && ContentLength(Received(r, host, userAgent).fields) == |r.body|
  {
    var joined, text := Join(Lines(r, host, userAgent)), Serialize(r, host, userAgent);
    hide *;
    HeaderEnds(r, host, userAgent, rest);
    HeaderRoundTrip(r, host, userAgent);
    LengthOfFields(r, host, userAgent);
    SerializeIs(r, host, userAgent, rest);
    ReceivedFields(r, host, userAgent);
    ParseFrom(text + rest, |text| - 4, LfLines(joined), Received(r, host, userAgent).(body := ""));
  }

  lemma SerializeIs(r: Request, host: string, userAgent: string, rest: string)
    ensures var text, joined := Serialize(r, host, userAgent), Join(Lines(r, host, userAgent));
            text == joined + CRLF && (text + rest)[..|text| - 2] == joined
  {
    hide Join, Lines;
  }

  lemma ReceivedFields(r: Request, host: string, userAgent: string)
    ensures Received(r, host, userAgent).fields == Fields(r, host, userAgent)
  {
    hide Fields, Head;
  }

  lemma BodyIs(s: string, h: nat, r: Request, body: string)
    requires h + 4 + |body| <= |s| && s[h + 4..h + 4 + |body|] == body && NUL !in body
    requires ContentLength(r.fields) == |body|
    ensures ParseBody(s, h, r.(body := "")) == Some(r.(body := body))
  {
    hide ContentLength;
  }

  /** Parsing undoes serialising for every safe request, whatever bytes follow its body. */
  lemma RoundTrip(r: Request, host: string, userAgent: string, extra: string)
    requires Safe(r, host, userAgent)
    ensures Parse(Serialize(r, host, userAgent) + r.body + extra) == Some(Received(r, host, userAgent))
  {
    var text := Serialize(r, host, userAgent);
    assert NUL !in r.body;
    ReceivedBody(r, host, userAgent);
    hide *;
    ParseSerialized(r, host, userAgent, r.body + extra);
    BodyInside(text, r.body, extra);
    BodyIs(text + (r.body + extra), |text| - 4, Received(r, host, userAgent), r.body);
  }

  lemma BodyInside(text: string, body: string, extra: string)
    ensures text + (body + extra) == text + body + extra
    ensures (text + (body + extra))[|text|..|text| + |body|] == body
  {
  }

  lemma ReceivedBody(r: Request, host: string, userAgent: string)
    ensures Received(r, host, userAgent).(body := r.body) == Received(r, host, userAgent)
  {
    hide Fields, Head;
  }

  /** Every strict prefix of a serialised request with its body is rejected. */
  lemma PrefixRejected(r: Request, host: string, userAgent: string, n: nat)
    requires Safe(r, host, userAgent) && n < |Serialize(r, host, userAgent) + r.body|
    ensures Parse((Serialize(r, host, userAgent) + r.body)[..n]) == None
  {
    var text := Serialize(r, host, userAgent);
    var s := text + r.body;
    if n < |text| {
      HeaderEnds(r, host, userAgent, r.body);
      NoBlankBefore(s, n);
      hide FirstBlank, Safe, Serialize;
    } else {
      var rest := r.body[..n - |text|];
      ParseSerialized(r, host, userAgent, rest);
      hide Parse, ContentLength, Safe, Serialize, Fields;
      assert s[..n] == text + rest;
    }
  }

  /**
   A header block of any lines, and any bytes after it: it is read line by line and then by its body, unless it
   ends at 16; then it is rejected, whatever the lines say.
   */
  lemma SixteenIsMissing(lines: seq<string>, rest: string)
    requires lines != [] && forall i :: 0 <= i < |lines| ==> PlainLine(lines[i])
    ensures |Join(lines)| >= 2
    ensures var s, h := Join(lines) + CRLF + rest, |Join(lines)| - 2;
            Parse(s) ==
            if h == MAX_HEADERS then None
            else match ParseLines(lines, true, CLEARED) case None => None case Some(r) => ParseBody(s, h, r)
  {
    assert forall i :: 0 <= i < |lines| ==> Plain(lines[i]);
    hide *;
    FirstBlankOfJoin(lines, rest);
    LfLinesOfJoin(lines);
    HeadOf(Join(lines), rest);
    ParseAt(Join(lines) + CRLF + rest, |Join(lines)| - 2, lines);
  }

  lemma HeadOf(joined: string, rest: string)
    ensures (joined + CRLF + rest)[..|joined|] == joined && |joined + CRLF + rest| == |joined| + 2 + |rest|
  {
  }

  /** A text whose header block ends at h and reads as these lines. */
  lemma ParseAt(s: string, h: nat, lines: seq<string>)
    requires FirstBlank(s) == h && h < |s| && LfLines(s[..h + 2]) == lines
    ensures h + 4 <= |s|
    ensures Parse(s) ==
            if h == MAX_HEADERS then None
            else match ParseLines(lines, true, CLEARED) case None => None case Some(r) => ParseBody(s, h, r)
  {
    hide FirstBlank, LfLines, ParseLines, ParseBody;
  }

  lemma PathOfPlain(t: string)
    requires '?' !in t
    ensures PathOf(t) == t && QueryOf(t) == ""
  {
    BeforeOf(t, '?', "");
    assert t + "" == t;
  }

  lemma SixteenAlone(line: string, rest: string)
    requires PlainLine(line) && |line| == MAX_HEADERS
    ensures Parse(line + CRLF + CRLF + rest) == None
  {
    OneLine(line);
    hide Join, PlainLine, Parse, ParseLines;
    SixteenIsMissing([line], rest);
  }

  lemma SixteenRead()
    ensures ParseRequestLine("GET" + " " + "/ab" + " " + "HTTP/1.1")
            == Some(Request(GET, "/ab", "/ab", "", "HTTP/1.1", [], ""))
  {
    SplitRequestLine("GET", "/ab", "HTTP/1.1");
    PathOfPlain("/ab");
    hide ParseRequestLine, PathOf, QueryOf;
  }

  lemma SixteenText()
    ensures "GET" + " " + "/ab" + " " + "HTTP/1.1" == "GET /ab HTTP/1.1"
    ensures |"GET /ab HTTP/1.1"| == MAX_HEADERS && PlainLine("GET /ab HTTP/1.1")
  {
  }

  /** "GET /ab HTTP/1.1" has 16 characters: a sound request line, but the request is rejected. */
  lemma SixteenCharacterLine(rest: string)
    ensures var line := "GET /ab HTTP/1.1";
            && ParseRequestLine(line) == Some(Request(GET, "/ab", "/ab", "", "HTTP/1.1", [], ""))
            && Parse(line + CRLF + CRLF + rest) == None
  {
    hide *;
    SixteenText();
    SixteenRead();
    SixteenAlone("GET /ab HTTP/1.1", rest);
  }

  lemma OneLine(line: string)
    ensures Join([line]) == line + CRLF
  {
    assert [line][1..] == [] && Join([]) == "";
  }

  /** So is a block with a field that ends there, its lines being read without complaint. */
  lemma SixteenCharacterBlock(rest: string)
    ensures var lines := ["GET / ", "Host: ab"];
            && ParseLines(lines, true, CLEARED) == Some(Request(GET, "/", "/", "", "", [Field("Host", "ab")], ""))
            && Parse(Join(lines) + CRLF + rest) == None
  {
    hide *;
    HostBlockText();
    HostBlockRead();
    SixteenTogether("GET / ", "Host: ab", rest);
  }

  lemma SixteenTogether(line: string, field: string, rest: string)
    requires PlainLine(line) && PlainLine(field) && |line| + 2 + |field| == MAX_HEADERS
    ensures Parse(Join([line, field]) + CRLF + rest) == None
  {
    OneLine(field);
    assert [line, field][1..] == [field];
    assert |Join([line, field])| == |line| + 2 + |field| + 2;
    hide Join, PlainLine, Parse, ParseLines;
    SixteenIsMissing([line, field], rest);
  }

  lemma HostBlockText()
    ensures PlainLine("GET / ") && PlainLine("Host: ab") && |"GET / "| + 2 + |"Host: ab"| == MAX_HEADERS
  {
  }

  lemma HostLineRead()
    ensures "GET / " != "" && ParseRequestLine("GET / ") == Some(Request(GET, "/", "/", "", "", [], ""))
  {
    SplitRequestLine("GET", "/", "");
    PathOfPlain("/");
    hide ParseRequestLine, PathOf, QueryOf;
    assert "GET" + " " + "/" + " " + "" == "GET / ";
  }

  lemma HostFieldRead()
    ensures SafeField(Field("Host", "ab")) && FieldLine(Field("Host", "ab")) == "Host: ab"
  {
  }

  lemma LineAndField(line: string, f: Field, r: Request)
    requires line != "" && ParseRequestLine(line) == Some(r) && r.fields == [] && SafeField(f)
    ensures ParseLines([line, FieldLine(f)], true, CLEARED) == Some(r.(fields := [f]))
  {
    assert FieldLines([f]) == [FieldLine(f)];
    hide ParseRequestLine, ParseLines, FieldLine, FieldLines, SafeField;
    FirstLine([line, FieldLine(f)], r);
    assert [line, FieldLine(f)][1..] == [FieldLine(f)] && [] + [f] == [f];
    ParseFieldLines([f], r);
  }

  lemma HostBlockRead()
    ensures ParseLines(["GET / ", "Host: ab"], true, CLEARED)
            == Some(Request(GET, "/", "/", "", "", [Field("Host", "ab")], ""))
  {
    hide *;
    HostLineRead();
    HostFieldRead();
    LineAndField("GET / ", Field("Host", "ab"), Request(GET, "/", "/", "", "", [], ""));
  }
}
