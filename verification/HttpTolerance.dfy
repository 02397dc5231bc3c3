/** The parsers on input that no serialiser here writes: what they let pass, and what they refuse. */
module HttpTolerance {
  import opened Options
  import opened Text
  import opened HttpText
  import HttpRequests
  import HttpResponses
  import HttpAdapter
  import HttpDaemon
  import HttpWire

  // ------------------------------------------------------------------ header fields

  predicate Blanks(s: string) { forall i :: 0 <= i < |s| ==> s[i] == ' ' || s[i] == '\t' }

  lemma {:induction false} LeftBlanksGo(pre: string, v: string)
    requires Blanks(pre)
    ensures TrimLeft(pre + v) == TrimLeft(v)
  {
    if pre == "" {
      assert pre + v == v;
    } else {
      assert (pre + v)[0] == pre[0] && (pre + v)[1..] == pre[1..] + v;
      LeftBlanksGo(pre[1..], v);
    }
  }

  lemma {:induction false} RightBlanksGo(v: string, post: string)
    requires Blanks(post)
    ensures TrimRight(v + post) == TrimRight(v)
    decreases |post|
  {
    if post == "" {
      assert v + post == v;
    } else {
      var n := |post| - 1;
      assert (v + post)[|v| + n] == post[n] && (v + post)[..|v| + n] == v + post[..n];
      RightBlanksGo(v, post[..n]);
    }
  }

  predicate NoBlankAtEnds(v: string) {
    v == "" || (v[0] != ' ' && v[0] != '\t' && v[|v| - 1] != ' ' && v[|v| - 1] != '\t')
  }

  /** A field is read alike however many blanks and tabs stand around its value. */
  lemma BlanksAroundValue(name: string, pre: string, v: string, post: string)
    requires ':' !in name && Blanks(pre) && Blanks(post) && NoBlankAtEnds(v)
    ensures ParseField(name + (":" + (pre + v + post))) == Some(Field(name, v))
  {
    var line, value := name + (":" + (pre + v + post)), pre + v + post;
    BeforeOf(name, ':', ":" + value);
    assert line[|name| + 1..] == value;
    TrimInner(pre, v, post);
    hide Before, Trim;
  }

  lemma TrimInner(pre: string, v: string, post: string)
    requires Blanks(pre) && Blanks(post) && NoBlankAtEnds(v)
    ensures Trim(pre + v + post) == v
  {
    assert pre + v + post == pre + (v + post);
    LeftBlanksGo(pre, v + post);
    if v == "" {
      assert v + post == post && post + "" == post;
      LeftBlanksGo(post, "");
    } else {
      assert (v + post)[0] == v[0];
      assert TrimLeft(v + post) == v + post;
      RightBlanksGo(v, post);
    }
  }

  // ------------------------------------------------------------------ requests

  /** A request line needs two spaces and one of the nine methods; the rest of it is not looked at. */
  lemma RequestLineRead(m: string, t: string, v: string)
    requires ' ' !in m && ' ' !in t
    ensures HttpRequests.ParseRequestLine(m) == None && HttpRequests.ParseRequestLine(m + " " + t) == None
    ensures HttpRequests.ParseRequestLine(m + " " + t + " " + v).Some? <==> m in HttpWire.VERBS
  {
    KnownVerbs(m);
    TooFewWords(m, t);
    if m in HttpWire.VERBS {
      HttpRequests.SplitRequestLine(m, t, v);
    } else {
      ThreeWords(m, t, v);
    }
    hide HttpRequests.ParseMethodToken, HttpRequests.ParseRequestLine;
  }

  lemma TooFewWords(m: string, t: string)
    requires ' ' !in m && ' ' !in t
    ensures HttpRequests.ParseRequestLine(m) == None && HttpRequests.ParseRequestLine(m + " " + t) == None
  {
    BeforeOf(m, ' ', "");
    assert m + "" == m;
    var two := m + " " + t;
    assert two == m + (" " + t) && two[|m| + 1..] == t;
    BeforeOf(m, ' ', " " + t);
    BeforeOf(t, ' ', "");
    assert t + "" == t;
    hide Before, HttpRequests.ParseMethodToken;
  }

  lemma KnownVerbs(m: string)
    ensures HttpRequests.ParseMethodToken(m) != HttpRequests.UNKNOWN <==> m in HttpWire.VERBS
  {
  }

  lemma ThreeWords(m: string, t: string, v: string)
    requires ' ' !in m && ' ' !in t && HttpRequests.ParseMethodToken(m) == HttpRequests.UNKNOWN
    ensures HttpRequests.ParseRequestLine(m + " " + t + " " + v) == None
  {
    var line := m + " " + t + " " + v;
    assert line == m + (" " + (t + " " + v));
    BeforeOf(m, ' ', " " + (t + " " + v));
    hide Before, HttpRequests.ParseMethodToken;
  }

  /** The lines that are not empty. */
  function Filled(lines: seq<string>): seq<string> {
    if lines == [] then [] else (if lines[0] == "" then [] else [lines[0]]) + Filled(lines[1..])
  }

  /** Empty lines in a header block make no difference. */
  lemma {:induction false} EmptyLinesSkipped(lines: seq<string>, first: bool, r: HttpRequests.Request)
    ensures HttpRequests.ParseLines(lines, first, r) == HttpRequests.ParseLines(Filled(lines), first, r)
  {
    hide HttpRequests.ParseRequestLine, ParseField;
    if lines != [] {
      var rest := lines[1..];
      if lines[0] == "" {
        EmptyLinesSkipped(rest, first, r);
        assert Filled(lines) == Filled(rest);
      } else {
        var filled := Filled(lines);
        assert filled[0] == lines[0] && filled[1..] == Filled(rest);
        if first {
          match HttpRequests.ParseRequestLine(lines[0])
          case None =>
          case Some(r') => EmptyLinesSkipped(rest, false, r');
        } else {
          match ParseField(lines[0])
          case None =>
          case Some(f) => EmptyLinesSkipped(rest, false, r.(fields := r.fields + [f]));
        }
      }
    }
  }

  /** Whatever bytes arrive in place of a body, as many as were announced: they count up to the first NUL. */
  lemma BodyCutAtNul(r: HttpRequests.Request, host: string, userAgent: string, bytes: string, extra: string)
    requires HttpRequests.Safe(r, host, userAgent) && |bytes| == |r.body|
    ensures HttpRequests.Parse(HttpRequests.Serialize(r, host, userAgent) + bytes + extra)
            == Some(HttpRequests.Received(r, host, userAgent).(body := Before(bytes, NUL)))
  {
    var text := HttpRequests.Serialize(r, host, userAgent);
    var got := HttpRequests.Received(r, host, userAgent);
    CStringIsBefore(bytes);
    hide *;
    HttpRequests.ParseSerialized(r, host, userAgent, bytes + extra);
    HttpRequests.BodyInside(text, bytes, extra);
    BytesTaken(text + (bytes + extra), |text| - 4, got, bytes);
  }

  lemma {:induction false} CStringIsBefore(s: string)
    ensures CString(s) == Before(s, NUL)
  {
    if s != "" && s[0] != NUL { CStringIsBefore(s[1..]); }
  }

  lemma BytesTaken(s: string, h: nat, r: HttpRequests.Request, bytes: string)
    requires h + 4 + |bytes| <= |s| && s[h + 4..h + 4 + |bytes|] == bytes
    requires HttpRequests.ContentLength(r.fields) == |bytes| && CString(bytes) == Before(bytes, NUL)
    ensures HttpRequests.ParseBody(s, h, r.(body := "")) == Some(r.(body := Before(bytes, NUL)))
  {
    hide HttpRequests.ContentLength, Before, CString;
    if bytes == "" { assert Before("", NUL) == "" by { EmptyBefore(); } }
  }

  lemma EmptyBefore()
    ensures Before("", NUL) == ""
  {
  }

  // ------------------------------------------------------------------ responses: single lines

  /** A field announces the length when its name starts with Content-Length in any mix of cases. */
  lemma LengthNameIff(name: string)
    ensures HttpResponses.LengthName(name) <==>
            |name| >= 14 && forall i :: 0 <= i < 14 ==> name[i] == "content-length"[i] || name[i] == "CONTENT-LENGTH"[i]
  {
    if |name| >= 14 {
      var low := seq(14, i requires 0 <= i < 14 => HttpResponses.Lower(name[i]));
      assert low == "content-length" <==> forall i :: 0 <= i < 14 ==> low[i] == "content-length"[i];
      forall i | 0 <= i < 14
        ensures low[i] == "content-length"[i] <==> name[i] == "content-length"[i] || name[i] == "CONTENT-LENGTH"[i]
      {
        LowerIff(name[i], i);
      }
    }
  }

  lemma LowerIff(c: char, i: nat)
    requires i < 14
    ensures HttpResponses.Lower(c) == "content-length"[i] <==> c == "content-length"[i] || c == "CONTENT-LENGTH"[i]
  {
  }

  /** A status line needs a version that starts with HTTP/ and a whole number; a reason need not follow. */
  lemma StatusLineRead(version: string, code: string, rest: string, st: HttpResponses.Scan)
    requires ' ' !in version && ' ' !in code && (rest == "" || rest[0] == ' ')
    ensures HttpResponses.TakeStatusLine(version, st) == None
    ensures HttpResponses.TakeStatusLine(version + (" " + (code + rest)), st)
            == if |version| >= 5 && version[..5] == "HTTP/" && WholeNumber(code).Some?
               then Some(st.(first := false, status := WholeNumber(code).value)) else None
  {
    var line := version + (" " + (code + rest));
    BeforeOf(version, ' ', "");
    assert version + "" == version;
    BeforeOf(version, ' ', " " + (code + rest));
    assert line[|version| + 1..] == code + rest;
    BeforeOf(code, ' ', rest);
    hide Before, WholeNumber;
    assert "HTTP/" <= version <==> |version| >= 5 && version[..5] == "HTTP/";
  }

  /** A field that announces a length which is no whole number. */
  predicate NoNumber(line: string) {
    var f := ParseField(line);
    f.Some? && HttpResponses.LengthName(f.value.name) && WholeNumber(f.value.value).None?
  }

  /** A line without a colon is passed over; a length that is no number refuses the response. */
  lemma OddFieldLine(line: string, rest: string, st: HttpResponses.Scan)
    requires PlainLine(line) && !st.first
    ensures ':' !in line ==> HttpResponses.Walk(line + CRLF + rest, st) == HttpResponses.Walk(rest, st)
    ensures NoNumber(line) ==> HttpResponses.Walk(line + CRLF + rest, st) == None
  {
    HttpResponses.WalkLine(line, rest, st);
    if ':' !in line {
      BeforeOf(line, ':', "");
      assert line + "" == line && ParseField(line) == None;
    }
    hide HttpResponses.Walk, WholeNumber, HttpResponses.LengthName, Before, Trim;
  }

  // ------------------------------------------------------------------ responses: whole messages

  /** A response whose fields announce no length: its body is all that follows, up to the largest size. */
  lemma BodyToTheEnd(status: nat, reason: string, fs: seq<Field>, body: string)
    requires Plain(reason) && NUL !in body
    requires forall i :: 0 <= i < |fs| ==> SafeField(fs[i]) && !HttpResponses.LengthName(fs[i].name)
    ensures HttpResponses.Parse(Block(HttpResponses.StatusLine(status, reason), fs) + CRLF + body)
            == if |body| <= 4096 then Some(HttpResponses.Response(status, HttpResponses.AddAll([], fs), body)) else None
  {
    var line := HttpResponses.StatusLine(status, reason);
    var text := Join([line] + FieldLines(fs)) + CRLF;
    var st := HttpResponses.Scan(false, status, HttpResponses.AddAll([], fs), None);
    hide *;
    BlockIs(line, fs);
    HttpResponses.StatusLineRoundTrip(status, reason, HttpResponses.START);
    BlockLinesArePlain(line, fs);
    BlockEnds([line] + FieldLines(fs), body);
    WalkBlock(line, fs, status, reason);
    HttpResponses.ParseFrom(text, body, st);
    AllOfIt(body, st);
  }

  lemma BlockIs(line: string, fs: seq<Field>)
    ensures Block(line, fs) == Join([line] + FieldLines(fs))
  {
    hide Join, FieldLines;
  }

  lemma AllOfIt(body: string, st: HttpResponses.Scan)
    requires NUL !in body && st.length == None
    ensures HttpResponses.TakeBody(body, st)
            == if |body| <= 4096 then Some(HttpResponses.Response(st.status, st.fields, body)) else None
  {
    assert body[..|body|] == body;
  }

  lemma BlockLinesArePlain(line: string, fs: seq<Field>)
    requires PlainLine(line) && forall i :: 0 <= i < |fs| ==> SafeField(fs[i])
    ensures var lines := [line] + FieldLines(fs); forall i :: 0 <= i < |lines| ==> PlainLine(lines[i])
  {
    var lines := [line] + FieldLines(fs);
    hide PlainLine, SafeField, FieldLine;
    forall i | 0 <= i < |lines| ensures PlainLine(lines[i]) {
      if i > 0 {
        assert lines[i] == FieldLine(fs[i - 1]);
        FieldRoundTrip(fs[i - 1]);
      }
    }
  }

  lemma BlockEnds(lines: seq<string>, rest: string)
    requires lines != [] && forall i :: 0 <= i < |lines| ==> PlainLine(lines[i])
    ensures var text := Join(lines) + CRLF; HttpResponses.BodyStart(text + rest) == Some(|text|)
  {
    FirstBlankOfJoin(lines, rest);
    hide PlainLine, FirstBlank, HttpResponses.DoubleLf, Join;
  }

  lemma WalkBlock(line: string, fs: seq<Field>, status: nat, reason: string)
    requires line == HttpResponses.StatusLine(status, reason) && Plain(reason)
    requires forall i :: 0 <= i < |fs| ==> SafeField(fs[i]) && !HttpResponses.LengthName(fs[i].name)
    ensures HttpResponses.Walk(Join([line] + FieldLines(fs)) + CRLF, HttpResponses.START)
            == Some(HttpResponses.Scan(false, status, HttpResponses.AddAll([], fs), None))
  {
    HttpResponses.StatusLineRoundTrip(status, reason, HttpResponses.START);
    HttpResponses.JoinCons(line, FieldLines(fs));
    var more := Join(FieldLines(fs)) + CRLF;
    assert HttpResponses.Announced(fs, 0, None) == None by { hide HttpResponses.LengthName; }
    hide HttpResponses.StatusLine, PlainLine, SafeField, HttpResponses.LengthName, HttpResponses.TakeStatusLine,
         Join, FieldLines,
         HttpResponses.Walk, HttpResponses.Announced, Dec;
    HttpResponses.WalkLine(line, more, HttpResponses.START);
    HttpResponses.WalkFields(fs, 0, HttpResponses.Scan(false, status, [], None));
  }

  /** A header block without a line is taken for a status of 200. */
  lemma EmptyBlock(body: string)
    requires NUL !in body && |body| <= 4096
    ensures HttpResponses.Parse("\r\n\r\n" + body) == Some(HttpResponses.Response(200, [], body))
  {
    var s := "\r\n\r\n" + body;
    assert FirstBlank(s) == 0 by { assert BlankAt(s, 0); }
    assert s[..4] == "\r\n\r\n" && s[4..] == body && body[..|body|] == body;
    assert "\r\n\r\n" == CRLF + CRLF;
    assert HttpResponses.LineEnd("\r\n\r\n") == 0 && "\r\n\r\n"[..0] == "" && CString("") == "";
    hide FirstBlank, HttpResponses.TakeLine, HttpResponses.LineEnd;
  }

  // ------------------------------------------------------------------ responses: lines that end in LF alone

  function LfJoin(lines: seq<string>): string { if lines == [] then "" else lines[0] + "\n" + LfJoin(lines[1..]) }

  lemma LfWalkLine(line: string, rest: string, st: HttpResponses.Scan)
    requires PlainLine(line)
    ensures HttpResponses.Walk(line + "\n" + rest, st)
            == match HttpResponses.TakeLine(line, st) case None => None case Some(st') => HttpResponses.Walk(rest, st')
  {
    var s := line + "\n" + rest;
    hide HttpResponses.TakeLine;
    assert HttpResponses.LineEnd(s) == |line| by {
      hide HttpResponses.LineEnd;
      assert forall k :: 0 <= k < |line| ==> s[k] == line[k] && PlainChar(line[k]);
      assert s[|line|] == '\n';
    }
    assert s[..|line|] == line && CString(line) == line by { HttpResponses.PlainIsCString(line); }
    assert s[HttpResponses.After(s, |line|)..] == rest;
  }

  /** Line by line the two ways of ending a line come to the same. */
  lemma {:induction false} LfWalk(lines: seq<string>, st: HttpResponses.Scan)
    requires forall i :: 0 <= i < |lines| ==> PlainLine(lines[i])
    ensures HttpResponses.Walk(LfJoin(lines) + "\n", st) == HttpResponses.Walk(Join(lines) + CRLF, st)
  {
    if lines == [] {
      assert LfJoin(lines) + "\n" == "\n" && Join(lines) + CRLF == CRLF;
      HttpResponses.WalkEnd(st);
      LfWalkEnd(st);
    } else {
      var line, rest := lines[0], lines[1..];
      FirstOfJoins(lines);
      hide *;
      LfWalkLine(line, LfJoin(rest) + "\n", st);
      HttpResponses.WalkLine(line, Join(rest) + CRLF, st);
      match HttpResponses.TakeLine(line, st)
      case None =>
      case Some(st') => LfWalk(rest, st');
    }
  }

  lemma FirstOfJoins(lines: seq<string>)
    requires lines != []
    ensures LfJoin(lines) + "\n" == lines[0] + "\n" + (LfJoin(lines[1..]) + "\n")
    ensures Join(lines) + CRLF == lines[0] + CRLF + (Join(lines[1..]) + CRLF)
  {
    var line, rest := lines[0], lines[1..];
    assert line + "\n" + LfJoin(rest) + "\n" == line + "\n" + (LfJoin(rest) + "\n");
    assert line + CRLF + Join(rest) + CRLF == line + CRLF + (Join(rest) + CRLF);
  }

  lemma LfWalkEnd(st: HttpResponses.Scan)
    ensures HttpResponses.Walk("\n", st) == Some(st)
  {
    assert HttpResponses.LineEnd("\n") == 0 && "\n"[..0] == "" && CString("") == "";
    hide HttpResponses.TakeLine;
  }

  /** The first LF LF of a block of lines is at its end. */
  lemma {:induction false} DoubleLfOfJoin(lines: seq<string>, rest: string)
    requires lines != [] && forall i :: 0 <= i < |lines| ==> PlainLine(lines[i])
    ensures LfJoin(lines) != "" && HttpResponses.DoubleLf(LfJoin(lines) + "\n" + rest) == |LfJoin(lines)| - 1
  {
    var a := lines[0];
    var tail := LfJoin(lines[1..]) + "\n" + rest;
    var s := LfJoin(lines) + "\n" + rest;
    assert s == a + "\n" + tail;
    assert PlainLine(a);
    assert forall k :: 0 <= k < |a| ==> s[k] == a[k] && PlainChar(a[k]);
    assert s[|a|] == '\n';
    if |lines| > 1 {
      assert PlainLine(lines[1]) && tail[0] == lines[1][0] && PlainChar(lines[1][0]);
      DoubleLfOfJoin(lines[1..], rest);
      DoubleLfShift(a + "\n", tail);
      assert a + "\n" + tail == (a + "\n") + tail;
    } else {
      assert tail == "\n" + rest && s[|a| + 1] == '\n';
      DoubleLfAt(s, |a|);
    }
  }

  lemma DoubleLfAt(s: string, k: nat)
    requires k + 1 < |s| && s[k] == '\n' && s[k + 1] == '\n' && forall j :: 0 <= j < k ==> s[j] != '\n'
    ensures HttpResponses.DoubleLf(s) == k
  {
    var d := HttpResponses.DoubleLf(s);
    hide HttpResponses.DoubleLf;
  }

  lemma DoubleLfShift(a: string, tail: string)
    requires a != "" && tail != "" && tail[0] != '\n' && (forall j :: 0 <= j < |a| - 1 ==> a[j] != '\n')
    requires HttpResponses.DoubleLf(tail) < |tail|
    ensures HttpResponses.DoubleLf(a + tail) == |a| + HttpResponses.DoubleLf(tail)
  {
    var s := a + tail;
    var d, e := HttpResponses.DoubleLf(s), HttpResponses.DoubleLf(tail);
    hide HttpResponses.DoubleLf;
    assert forall j :: 0 <= j < |tail| ==> s[|a| + j] == tail[j];
    assert forall j :: 0 <= j < |a| ==> s[j] == a[j];
    assert s[|a| + e] == '\n' && s[|a| + e + 1] == '\n';
  }

  /**
   A serialised response whose lines end in LF alone is read alike, unless a CR LF CR LF further on is taken for the
   end of its header block.
   */
  lemma LfResponse(r: HttpResponses.Response, reason: string, server: string, extra: string)
    requires HttpResponses.Safe(r, reason, server)
    requires var s := LfJoin(HttpResponses.Lines(r, reason, server)) + "\n" + (r.body + extra);
             forall k :: 0 <= k < |s| ==> !BlankAt(s, k)
    ensures HttpResponses.Parse(LfJoin(HttpResponses.Lines(r, reason, server)) + "\n" + (r.body + extra))
            == HttpResponses.Parse(HttpResponses.Serialize(r, reason, server) + r.body + extra)
  {
    var lines, rest := HttpResponses.Lines(r, reason, server), r.body + extra;
    var text, lf := HttpResponses.Serialize(r, reason, server), LfJoin(lines) + "\n";
    assert text == Join(lines) + CRLF;
    assert text + r.body + extra == text + rest;
    hide *;
    HttpResponses.LinesArePlain(r, reason, server);
    HttpResponses.HeaderEnds(r, reason, server, rest);
    HttpResponses.WalkSerialized(r, reason, server);
    LfWalk(lines, HttpResponses.START);
    DoubleLfOfJoin(lines, rest);
    NoBlankAnywhere(lf + rest);
    BodyAfterLf(lf, rest);
    var st := HttpResponses.Scan(false, r.status, HttpResponses.Received(r, server).fields, Some(|r.body|));
    HttpResponses.ParseFrom(text, rest, st);
    HttpResponses.ParseFrom(lf, rest, st);
  }

  lemma NoBlankAnywhere(s: string)
    requires forall k :: 0 <= k < |s| ==> !BlankAt(s, k)
    ensures FirstBlank(s) == |s|
  {
    var i := FirstBlank(s);
    hide FirstBlank;
  }

  lemma BodyAfterLf(lf: string, rest: string)
    requires FirstBlank(lf + rest) == |lf + rest| && |lf| >= 2 && HttpResponses.DoubleLf(lf + rest) == |lf| - 2
    ensures HttpResponses.BodyStart(lf + rest) == Some(|lf|)
  {
    hide FirstBlank, HttpResponses.DoubleLf;
  }

  // ------------------------------------------------------------------ the binding

  /** The operation a request's method stands for; any other method is read as a retrieve. */
  lemma MethodRead(r: HttpRequests.Request)
    ensures var p := HttpAdapter.Decode(r);
            match r.meth
            case POST => p.op == if p.ty.Some? then HttpAdapter.Create else HttpAdapter.Notify
            case PUT => p.op == HttpAdapter.Update
            case DELETE => p.op == HttpAdapter.Delete
            case _ => p.op == HttpAdapter.Retrieve
  {
    hide HttpAdapter.FetchTy, HttpAdapter.FetchHeader, GetHeader;
  }

  /** The type in a Content-Type may be followed by a blank, but by nothing else. */
  lemma TypeParameterEnds(media: string, n: nat, rest: string)
    requires ';' !in media && (rest == "" || !IsDigit(rest[0]))
    ensures HttpAdapter.ContentTypeTy(media + (";ty=" + (Dec(n) + rest)))
            == if rest == "" || rest[0] == ' ' then Some(n) else None
  {
    var d := Dec(n);
    var ct, params := media + (";ty=" + (d + rest)), "ty=" + (d + rest);
    hide Dec, Before, ReadNumber;
    assert ";ty=" + (d + rest) == ";" + params;
    BeforeOf(media, ';', ";" + params);
    assert ct[|media| + 1..] == params;
    assert Occurs(params, 0, "ty=") && params[3..] == d + rest;
    ReadNumberOfDec(n, rest);
    assert Find(params, "ty=") == 0 by { hide Find; var k := Find(params, "ty="); assert k == 0; }
    hide Find;
  }

  /** Without "ty=" among its parameters a Content-Type gives no type. */
  lemma TypeParameterAbsent(media: string, params: string)
    requires ';' !in media && forall k :: 0 <= k < |params| ==> !Occurs(params, k, "ty=")
    ensures HttpAdapter.ContentTypeTy(media + (";" + params)) == None
  {
    var ct := media + (";" + params);
    BeforeOf(media, ';', ";" + params);
    assert ct[|media| + 1..] == params;
    var k := Find(params, "ty=");
    hide Before, ReadNumber, Find;
    assert k < |params| ==> Occurs(params, k, "ty=");
  }

  // ------------------------------------------------------------------ the worker

  /** Where the number of an announced length starts: after the first of the usual name, else of the lower-case one. */
  predicate NumberAt(text: string, k: nat) {
    var l := Find(text, HttpDaemon.LENGTH);
    var m := Find(text, HttpDaemon.LOWER_LENGTH);
    if l < |text| then k == l + 16 else m < |text| && k == m + 16
  }

  lemma LengthNames()
    ensures HttpDaemon.LENGTH == "Content-Length: " && HttpDaemon.LOWER_LENGTH == "content-length: "
  {
  }

  /** The length awaited is the number that is there. */
  lemma AwaitedNumber(text: string, k: nat, n: nat, after: string)
    requires NUL !in text && n < 0x1_0000_0000_0000_0000 && (after == "" || !IsDigit(after[0])) && k <= |text|
    requires NumberAt(text, k) && text[k..] == Dec(n) + after
    ensures HttpDaemon.Awaited(text) == n
  {
    hide *;
    AtoiOfDec(n, after);
    AwaitedFrom(text, k);
    Wraps(n);
  }

  /** A negative number is awaited as the size_t it wraps to. */
  lemma AwaitedNegative(text: string, k: nat, n: nat, after: string)
    requires NUL !in text && 0 < n < 0x1_0000_0000_0000_0000 && (after == "" || !IsDigit(after[0])) && k <= |text|
    requires NumberAt(text, k) && text[k..] == "-" + (Dec(n) + after)
    ensures HttpDaemon.Awaited(text) == 0x1_0000_0000_0000_0000 - n
  {
    hide *;
    NegativeAtoi(n, after);
    AwaitedFrom(text, k);
    Wraps(n);
  }

  /** A conversion to a 64-bit size_t. */
  function Wrap(i: int): nat { i % HttpDaemon.SIZE_T }

  /** What Awaited looks at, for a text without a NUL. */
  function Announced(text: string, l: nat, m: nat): int {
    if l < |text| && l + 16 <= |text| then Atoi(text[l + 16..])
    else if m < |text| && m + 16 <= |text| then Atoi(text[m + 16..]) else 0
  }

  lemma AwaitedUnfold(text: string)
    requires NUL !in text
    ensures var l, m := Find(text, HttpDaemon.LENGTH), Find(text, HttpDaemon.LOWER_LENGTH);
            && (l < |text| ==> l + 16 <= |text|) && (m < |text| ==> m + 16 <= |text|)
            && HttpDaemon.Awaited(text) == Wrap(Announced(text, l, m))
  {
    LengthsAre();
    hide Atoi, Find, HttpDaemon.LENGTH, HttpDaemon.LOWER_LENGTH, HttpDaemon.SIZE_T;
    assert CString(text) == text;
    hide CString;
  }

  lemma LengthsAre()
    ensures |HttpDaemon.LENGTH| == 16 && |HttpDaemon.LOWER_LENGTH| == 16
  {
  }

  lemma AwaitedFrom(text: string, k: nat)
    requires NUL !in text && k <= |text|
    ensures NumberAt(text, k) ==> HttpDaemon.Awaited(text) == Wrap(Atoi(text[k..]))
    ensures (forall j :: 0 <= j <= |text| ==> !NumberAt(text, j)) ==> HttpDaemon.Awaited(text) == 0
  {
    Wraps(0);
    AwaitedUnfold(text);
    var l, m := Find(text, HttpDaemon.LENGTH), Find(text, HttpDaemon.LOWER_LENGTH);
    hide HttpDaemon.Awaited, Atoi, Find, Wrap, HttpDaemon.LENGTH, HttpDaemon.LOWER_LENGTH;
    assert l < |text| ==> Announced(text, l, m) == Atoi(text[l + 16..]);
    assert l < |text| ==> NumberAt(text, l + 16);
    assert l == |text| && m < |text| ==> NumberAt(text, m + 16);
  }

  lemma Wraps(n: nat)
    requires n < 0x1_0000_0000_0000_0000
    ensures Wrap(n) == n && (n > 0 ==> Wrap(0 - n) == 0x1_0000_0000_0000_0000 - n)
  {
    assert HttpDaemon.SIZE_T == 0x1_0000_0000_0000_0000;
  }

  lemma NegativeAtoi(n: nat, after: string)
    requires after == "" || !IsDigit(after[0])
    ensures Atoi("-" + (Dec(n) + after)) == 0 - n
  {
    var t := "-" + (Dec(n) + after);
    assert t[1..] == Dec(n) + after && SkipSpaces(t) == t;
    LeadingDigitsOf(Dec(n), after);
    DecRoundTrip(n);
    hide Dec, LeadingDigits, DecValue;
  }
}
