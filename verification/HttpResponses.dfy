/** HTTP responses: http_codec.cpp's SerializeResponse and ParseResponse, and how they undo each other. */
module HttpResponses {
  import opened Options
  import opened Text
  import opened HttpText

  datatype Response = Response(status: int, fields: seq<Field>, body: string)

  const MAX_CONTENT_SIZE := 4096
  const OK_STATUS := 200

  // ------------------------------------------------------------------ parsing

  predicate IsBreak(c: char) { c == '\r' || c == '\n' }

  /** The first CR or LF, or |s|. */
  function LineEnd(s: string): (e: nat)
    ensures e <= |s| && (e < |s| ==> IsBreak(s[e]))
    ensures forall k :: 0 <= k < e ==> !IsBreak(s[k])
  {
    if s == "" || IsBreak(s[0]) then 0 else 1 + LineEnd(s[1..])
  }

  /** The first LF LF, or |s|. */
  function DoubleLf(s: string): (i: nat)
    ensures i <= |s|
    ensures i < |s| ==> i + 1 < |s| && s[i] == '\n' && s[i + 1] == '\n'
    ensures forall k :: 0 <= k < i && k + 1 < |s| ==> !(s[k] == '\n' && s[k + 1] == '\n')
  {
    if |s| < 2 then |s| else if s[0] == '\n' && s[1] == '\n' then 0 else 1 + DoubleLf(s[1..])
  }

  /** Where the body starts: after CRLF CRLF or, when there is none, after LF LF. */
  function BodyStart(s: string): (r: Option<nat>)
    ensures r.Some? ==> 2 <= r.value <= |s|
  {
    var h := FirstBlank(s);
    if h < |s| then Some(h + 4)
    else
      var d := DoubleLf(s);
      if d < |s| then Some(d + 2) else None
  }

  function Lower(c: char): char { if 'A' <= c <= 'Z' then (c as int + 32) as char else c }

  /** strncasecmp with the 14 characters of Content-Length: any name that starts so. */
  predicate LengthName(name: string) {
    |name| >= 14 && seq(14, i requires 0 <= i < 14 => Lower(name[i])) == "content-length"
  }

  /** AddHeader: a field of the same name takes the new value. */
  function AddField(fs: seq<Field>, f: Field): seq<Field> {
    if fs == [] then [f]
    else if fs[0].name == f.name then [f] + fs[1..]
    else [fs[0]] + AddField(fs[1..], f)
  }

  datatype Scan = Scan(first: bool, status: int, fields: seq<Field>, length: Option<int>)

  const START := Scan(true, OK_STATUS, [], None)

  function TakeStatusLine(line: string, st: Scan): Option<Scan> {
    var version := Before(line, ' ');
    if |version| == |line| then None
    else
      var status := WholeNumber(Before(line[|version| + 1..], ' '));
      if !("HTTP/" <= version) || status.None? then None
      else Some(st.(first := false, status := status.value))
  }

  /** A line without a colon is skipped. */
  function TakeFieldLine(line: string, st: Scan): Option<Scan> {
    match ParseField(line)
    case None => Some(st)
    case Some(f) =>
      if !LengthName(f.name) then Some(st.(fields := AddField(st.fields, f)))
      else
        match WholeNumber(f.value)
        case None => None
        case Some(n) => Some(st.(fields := AddField(st.fields, f), length := Some(n)))
  }

  function TakeLine(line: string, st: Scan): Option<Scan> {
    if st.first then TakeStatusLine(line, st) else TakeFieldLine(line, st)
  }

  /** Where the next line starts after the break at e. */
  function After(s: string, e: nat): (n: nat)
    requires e < |s|
    ensures e < n <= |s|
  {
    if s[e] == '\r' && e + 1 < |s| && s[e + 1] == '\n' then e + 2 else e + 1
  }

  /** The line loop: it ends at an empty line. */
  function Walk(s: string, st: Scan): Option<Scan>
    decreases |s|
  {
    var e := LineEnd(s);
    if e == |s| then Some(st)
    else
      var line := CString(s[..e]);
      if line == "" then Some(st)
      else
        match TakeLine(line, st)
        case None => None
        case Some(st') => Walk(s[After(s, e)..], st')
  }

  /** The body after the header block: all the rest, or as much as was announced. */
  function TakeBody(rest: string, st: Scan): Option<Response> {
    if st.length.Some? && !(0 <= st.length.value <= |rest|) then None
    else
      var n := if st.length.Some? then st.length.value else |rest|;
      if n > MAX_CONTENT_SIZE then None else Some(Response(st.status, st.fields, CString(rest[..n])))
  }

  /** ParseResponse: None is its false. */
  function Parse(s: string): Option<Response> {
    match BodyStart(s)
    case None => None
    case Some(e) =>
      match Walk(s[..e], START)
      case None => None
      case Some(st) => TakeBody(s[e..], st)
  }

  // ------------------------------------------------------------------ serialising

  /** The caller's fields that are written. */
  function Written(fs: seq<Field>): (r: seq<Field>)
    ensures forall f :: f in r ==> f in fs && f.name != "" && f.value != ""
  {
    if fs == [] then [] else (if fs[0].name == "" || fs[0].value == "" then [] else [fs[0]]) + Written(fs[1..])
  }

  predicate HasLength(fs: seq<Field>) { exists i :: 0 <= i < |fs| && fs[i].name == "Content-Length" }

  function LengthField(r: Response): seq<Field> {
    if HasLength(Written(r.fields)) then [] else [Field("Content-Length", Dec(|r.body|))]
  }

  const CLOSE := Field("Connection", "close")

  /** The fields written, after the server's name. */
  function Fields(r: Response, server: string): seq<Field> {
    [Field("Server", server)] + Written(r.fields) + LengthField(r) + [CLOSE]
  }

  function StatusLine(status: nat, reason: string): string { "HTTP/1.1 " + Dec(status) + " " + reason }

  function Lines(r: Response, reason: string, server: string): seq<string>
    requires r.status >= 0
  {
    [StatusLine(r.status, reason)] + FieldLines(Fields(r, server))
  }

  /** The header block SerializeResponse writes; reason is the status's entry in its table. */
  function Serialize(r: Response, reason: string, server: string): string
    requires r.status >= 0
  {
    Join(Lines(r, reason, server)) + CRLF
  }

  // ------------------------------------------------------------------ undoing each other

  /** Nothing breaks a line, is trimmed away, or announces another length than the body's. */
  predicate Safe(r: Response, reason: string, server: string) {
    && r.status >= 0 && Plain(reason) && SafeValue(server)
    && (forall f :: f in Written(r.fields) ==> SafeField(f) && (LengthName(f.name) ==> f.value == Dec(|r.body|)))
    && NUL !in r.body
  }

  function AddAll(fs: seq<Field>, more: seq<Field>): seq<Field>
    decreases |more|
  {
    if more == [] then fs else AddAll(AddField(fs, more[0]), more[1..])
  }

  function Received(r: Response, server: string): Response {
    Response(r.status, AddAll([], Fields(r, server)), r.body)
  }

  predicate Distinct(fs: seq<Field>) { forall i, j :: 0 <= i < j < |fs| ==> fs[i].name != fs[j].name }

  lemma {:induction false} AddNew(fs: seq<Field>, f: Field)
    requires forall i :: 0 <= i < |fs| ==> fs[i].name != f.name
    ensures AddField(fs, f) == fs + [f]
  {
    if fs != [] {
      AddNew(fs[1..], f);
      assert fs + [f] == [fs[0]] + (fs[1..] + [f]);
    }
  }

  /** Fields of different names come back as they were written. */
  lemma {:induction false} AddAllDistinct(fs: seq<Field>, more: seq<Field>)
    requires Distinct(fs + more)
    ensures AddAll(fs, more) == fs + more
    decreases |more|
  {
    if more == [] {
      assert fs + more == fs;
    } else {
      var all := fs + more;
      assert forall i :: 0 <= i < |fs| ==> all[i] == fs[i];
      assert all[|fs|] == more[0];
      AddNew(fs, more[0]);
      assert (fs + [more[0]]) + more[1..] == all;
      AddAllDistinct(fs + [more[0]], more[1..]);
    }
  }

  lemma NoSpaceInDec(n: nat)
    ensures ' ' !in Dec(n) && Plain(Dec(n)) && Trimmed(Dec(n))
  {
    var d := Dec(n);
    hide Dec;
    assert forall i :: 0 <= i < |d| ==> d[i] in d;
  }

  lemma StatusLineRoundTrip(status: nat, reason: string, st: Scan)
    requires Plain(reason)
    ensures PlainLine(StatusLine(status, reason))
    ensures TakeStatusLine(StatusLine(status, reason), st) == Some(st.(first := false, status := status))
  {
    var d := Dec(status);
    NoSpaceInDec(status);
    WholeNumberOfDec(status);
    hide Dec, WholeNumber;
    StatusLineIsPlain(d, reason);
    hide Plain;
    var line, rest := StatusLine(status, reason), d + (" " + reason);
    assert line == "HTTP/1.1" + (" " + rest);
    BeforeOf("HTTP/1.1", ' ', " " + rest);
    assert line[9..] == rest;
    BeforeOf(d, ' ', " " + reason);
    assert "HTTP/" <= "HTTP/1.1";
    hide Before;
  }

  lemma StatusLineIsPlain(d: string, reason: string)
    requires Plain(d) && Plain(reason)
    ensures PlainLine("HTTP/1.1 " + d + " " + reason)
  {
    PlainConcat("HTTP/1.1 " + d + " ", reason);
    PlainConcat("HTTP/1.1 " + d, " ");
    PlainConcat("HTTP/1.1 ", d);
  }

  /** One line of the block, and what is left. */
  lemma WalkLine(line: string, rest: string, st: Scan)
    requires PlainLine(line)
    ensures Walk(line + CRLF + rest, st) == match TakeLine(line, st) case None => None case Some(st') => Walk(rest, st')
  {
    var s := line + CRLF + rest;
    hide TakeLine;
    assert LineEnd(s) == |line| by {
      hide LineEnd;
      assert forall k :: 0 <= k < |line| ==> s[k] == line[k] && PlainChar(line[k]);
      assert s[|line|] == '\r';
    }
    assert s[..|line|] == line && CString(line) == line by { PlainIsCString(line); }
    assert s[After(s, |line|)..] == rest;
  }

  lemma PlainIsCString(line: string)
    requires Plain(line)
    ensures CString(line) == line
  {
    assert forall i :: 0 <= i < |line| ==> PlainChar(line[i]);
  }

  lemma WalkEnd(st: Scan)
    ensures Walk(CRLF, st) == Some(st)
  {
    assert LineEnd(CRLF) == 0 && CRLF[..0] == "" && CString("") == "";
    hide TakeLine;
  }

  /** The last announced length among fields that all announce n, if any does. */
  function Announced(fs: seq<Field>, n: int, before: Option<int>): Option<int> {
    if exists i :: 0 <= i < |fs| && LengthName(fs[i].name) then Some(n) else before
  }

  lemma TakeSafeField(f: Field, n: nat, st: Scan)
    requires SafeField(f) && !st.first && (LengthName(f.name) ==> f.value == Dec(n))
    ensures TakeLine(FieldLine(f), st)
            == Some(st.(fields := AddField(st.fields, f), length := Announced([f], n, st.length)))
  {
    FieldRoundTrip(f);
    WholeNumberOfDec(n);
    hide WholeNumber, Dec, ParseField, FieldLine, LengthName, AddField;
    assert [f][0] == f;
  }

  /** Field lines are read back into the fields; the length they announce is found. */
  lemma {:induction false} WalkFields(fs: seq<Field>, n: nat, st: Scan)
    requires !st.first
    requires forall i :: 0 <= i < |fs| ==> SafeField(fs[i]) && (LengthName(fs[i].name) ==> fs[i].value == Dec(n))
    ensures Walk(Join(FieldLines(fs)) + CRLF, st)
            == Some(st.(fields := AddAll(st.fields, fs), length := Announced(fs, n, st.length)))
  {
    if fs == [] {
      assert Join(FieldLines(fs)) + CRLF == CRLF;
      WalkEnd(st);
    } else {
      var f, rest := fs[0], fs[1..];
      assert forall i :: 0 <= i < |rest| ==> rest[i] == fs[i + 1];
      var st1 := st.(fields := AddField(st.fields, f), length := Announced([f], n, st.length));
      AnnouncedStep(fs, n, st.length);
      assert FieldLines(fs) == [FieldLine(f)] + FieldLines(rest);
      var more := Join(FieldLines(rest)) + CRLF;
      assert Join(FieldLines(fs)) + CRLF == FieldLine(f) + CRLF + more by { JoinCons(FieldLine(f), FieldLines(rest)); }
      hide LengthName, SafeField, Dec, Walk, TakeLine, Join, FieldLines, FieldLine, AddField, Announced, PlainLine;
      TakeSafeField(f, n, st);
      FieldRoundTrip(f);
      WalkLine(FieldLine(f), more, st);
      WalkFields(rest, n, st1);
    }
  }

  lemma JoinCons(line: string, rest: seq<string>)
    ensures Join([line] + rest) + CRLF == line + CRLF + (Join(rest) + CRLF)
  {
    assert ([line] + rest)[1..] == rest;
    assert line + CRLF + Join(rest) + CRLF == line + CRLF + (Join(rest) + CRLF);
  }

  lemma AnnouncedStep(fs: seq<Field>, n: int, before: Option<int>)
    requires fs != []
    ensures Announced(fs, n, before) == Announced(fs[1..], n, Announced([fs[0]], n, before))
  {
    hide LengthName;
    assert [fs[0]][0] == fs[0];
    assert forall i :: 0 <= i < |fs[1..]| ==> fs[1..][i] == fs[i + 1];
    if i :| 0 <= i < |fs| && LengthName(fs[i].name) {
      assert i > 0 ==> fs[1..][i - 1] == fs[i];
    }
  }

  lemma FieldsAreSafe(r: Response, reason: string, server: string)
    requires Safe(r, reason, server)
    ensures var fs := Fields(r, server);
            && (forall i :: 0 <= i < |fs| ==> SafeField(fs[i]) && (LengthName(fs[i].name) ==> fs[i].value == Dec(|r.body|)))
            && (exists i :: 0 <= i < |fs| && LengthName(fs[i].name))
  {
    var fs, w, l := Fields(r, server), Written(r.fields), LengthField(r);
    NoSpaceInDec(|r.body|);
    NamesOfOurs();
    hide Dec, Written, LengthName, SafeValue, SafeName;
    assert forall f :: f in w ==> SafeField(f) && (LengthName(f.name) ==> f.value == Dec(|r.body|));
    assert forall f :: f in l ==> SafeField(f) && f.value == Dec(|r.body|) by { assert SafeValue(Dec(|r.body|)) by { DecSafe(|r.body|); } }
    if HasLength(w) {
      var i :| 0 <= i < |w| && w[i].name == "Content-Length";
      assert fs[i + 1] == w[i];
    } else {
      assert fs[|w| + 1] == l[0];
    }
    hide LengthField, HasLength, Safe;
  }

  lemma DecSafe(n: nat)
    ensures SafeValue(Dec(n))
  {
    NoSpaceInDec(n);
    hide Dec, Plain, Trimmed;
  }

  lemma NamesOfOurs()
    ensures SafeName("Server") && SafeName("Content-Length") && SafeField(CLOSE)
    ensures LengthName("Content-Length") && !LengthName("Server") && !LengthName("Connection")
  {
    var name := "Content-Length";
    assert seq(14, i requires 0 <= i < 14 => Lower(name[i])) == "content-length";
  }

  lemma LinesArePlain(r: Response, reason: string, server: string)
    requires Safe(r, reason, server)
    ensures var lines := Lines(r, reason, server);
            lines != [] && forall i :: 0 <= i < |lines| ==> PlainLine(lines[i])
  {
    var fs := Fields(r, server);
    StatusLineRoundTrip(r.status, reason, START);
    FieldsAreSafe(r, reason, server);
    hide Fields, StatusLine, PlainLine, FieldLine, SafeField, LengthName, TakeStatusLine;
    var lines := Lines(r, reason, server);
    forall i | 0 <= i < |lines| ensures PlainLine(lines[i]) {
      if i > 0 {
        assert lines[i] == FieldLine(fs[i - 1]);
        FieldRoundTrip(fs[i - 1]);
      }
    }
  }

  /** The header block of a serialised response, read back. */
  lemma WalkSerialized(r: Response, reason: string, server: string)
    requires Safe(r, reason, server)
    ensures Walk(Serialize(r, reason, server), START)
            == Some(Scan(false, r.status, Received(r, server).fields, Some(|r.body|)))
  {
    var fs, line := Fields(r, server), StatusLine(r.status, reason);
    StatusLineRoundTrip(r.status, reason, START);
    FieldsAreSafe(r, reason, server);
    JoinCons(line, FieldLines(fs));
    var more := Join(FieldLines(fs)) + CRLF;
    assert Serialize(r, reason, server) == line + CRLF + more;
    hide Fields, StatusLine, PlainLine, SafeField, LengthName, TakeStatusLine, Join, FieldLines, Walk, Serialize, Safe, Dec;
    WalkLine(line, more, START);
    WalkFields(fs, |r.body|, Scan(false, r.status, [], None));
  }

  /** No two LFs meet in a header block whose lines are not empty. */
  lemma {:induction false} NoDoubleLf(lines: seq<string>, k: nat)
    requires forall i :: 0 <= i < |lines| ==> PlainLine(lines[i])
    requires k + 1 < |Join(lines) + CRLF|
    ensures var s := Join(lines) + CRLF; !(s[k] == '\n' && s[k + 1] == '\n')
  {
    if lines != [] {
      var a := lines[0];
      var tail := Join(lines[1..]) + CRLF;
      var s := Join(lines) + CRLF;
      assert s == a + CRLF + tail;
      assert PlainLine(a);
      assert k < |a| ==> s[k] == a[k] && PlainChar(a[k]);
      assert |lines| > 1 ==> PlainLine(lines[1]) && tail[0] == lines[1][0];
      if k >= |a| + 2 { NoDoubleLf(lines[1..], k - |a| - 2); }
      hide Plain;
    }
  }

  /** Where a serialised response's header block ends, whatever follows; before its end no block is found. */
  lemma HeaderEnds(r: Response, reason: string, server: string, rest: string)
    requires Safe(r, reason, server)
    ensures var text := Serialize(r, reason, server);
            && BodyStart(text + rest) == Some(|text|)
            && forall n :: 0 <= n < |text| ==> BodyStart((text + rest)[..n]) == None
  {
    LinesArePlain(r, reason, server);
    var lines, text := Lines(r, reason, server), Serialize(r, reason, server);
    assert text == Join(lines) + CRLF;
    hide Lines, Serialize, Safe, PlainLine, FirstBlank, DoubleLf, Join;
    FirstBlankOfJoin(lines, rest);
    forall n | 0 <= n < |text| ensures BodyStart((text + rest)[..n]) == None {
      NoBlankBefore(text + rest, n);
      var cut := (text + rest)[..n];
      assert forall k :: 0 <= k < n ==> cut[k] == text[k];
      var d := DoubleLf(cut);
      if d < n { NoDoubleLf(lines, d); }
    }
  }

  /** A message with the header block text: what is left is its body. */
  lemma ParseFrom(text: string, rest: string, st: Scan)
    requires BodyStart(text + rest) == Some(|text|) && Walk(text, START) == Some(st)
    ensures Parse(text + rest) == TakeBody(rest, st)
  {
    hide BodyStart, Walk, TakeBody;
    assert (text + rest)[..|text|] == text && (text + rest)[|text|..] == rest;
  }

  /** Parsing undoes serialising for every safe response, whatever bytes follow its body, up to a body's largest size. */
  lemma RoundTrip(r: Response, reason: string, server: string, extra: string)
    requires Safe(r, reason, server)
    ensures Parse(Serialize(r, reason, server) + r.body + extra)
            == if |r.body| <= 4096 then Some(Received(r, server)) else None
  {
    var text, rest := Serialize(r, reason, server), r.body + extra;
    assert NUL !in r.body;
    hide *;
    HeaderEnds(r, reason, server, rest);
    WalkSerialized(r, reason, server);
    ParseFrom(text, rest, Scan(false, r.status, Received(r, server).fields, Some(|r.body|)));
    assert text + rest == text + r.body + extra;
    BodyIs(r, server, extra);
  }

  lemma BodyIs(r: Response, server: string, extra: string)
    requires NUL !in r.body
    ensures TakeBody(r.body + extra, Scan(false, r.status, Received(r, server).fields, Some(|r.body|)))
            == if |r.body| <= 4096 then Some(Received(r, server)) else None
  {
    assert (r.body + extra)[..|r.body|] == r.body;
    hide AddAll, Fields;
  }

  /** Every strict prefix of a serialised response with its body is rejected. */
  lemma PrefixRejected(r: Response, reason: string, server: string, n: nat)
    requires Safe(r, reason, server) && n < |Serialize(r, reason, server) + r.body|
    ensures Parse((Serialize(r, reason, server) + r.body)[..n]) == None
  {
    var text := Serialize(r, reason, server);
    if n < |text| {
      hide Serialize, BodyStart, Walk;
      HeaderEnds(r, reason, server, r.body);
    } else {
      hide Safe, Serialize, BodyStart, Walk, AddAll, Fields, Parse;
      var rest := r.body[..n - |text|];
      HeaderEnds(r, reason, server, rest);
      WalkSerialized(r, reason, server);
      ParseFrom(text, rest, Scan(false, r.status, Received(r, server).fields, Some(|r.body|)));
      assert (text + r.body)[..n] == text + rest;
    }
  }
}
