/**
 ParseResponse and SerializeResponse as http_codec.cpp runs them. The parse loop has a branch that goes round
 without moving on: the line break under it has just become a NUL.
 */
module HttpResponseCodec {
  import opened Options
  import opened Text
  import opened HttpText
  import opened HttpResponses
  import opened CBuffer

  method FindDoubleLf(b: array<char>, length: nat) returns (d: nat)
    requires length <= b.Length
    ensures d == DoubleLf(b[..length])
  {
    ghost var s := b[..length];
    hide DoubleLf;
    d := 0;
    while d + 1 < length
      invariant 0 <= d <= length
      invariant forall k :: 0 <= k < d && k + 1 < length ==> !(s[k] == '\n' && s[k + 1] == '\n')
    {
      if b[d] == '\n' && b[d + 1] == '\n' {
        assert s[d] == '\n' && s[d + 1] == '\n';
        return;
      }
      d := d + 1;
    }
    d := length;
  }

  method FindBodyStart(b: array<char>, length: nat) returns (e: Option<nat>)
    requires length <= b.Length
    ensures e == BodyStart(b[..length])
  {
    hide FirstBlank, DoubleLf;
    var h := FindBlank(b, length);
    if h < length { return Some(h + 4); }
    var d := FindDoubleLf(b, length);
    e := if d < length then Some(d + 2) else None;
  }

  method StatusLineAt(b: array<char>, p: nat, st: Scan, ghost line: string) returns (r: Option<Scan>)
    requires Holds(b, p, line)
    modifies b
    ensures r == TakeStatusLine(line, st)
    ensures forall j :: 0 <= j < b.Length && !(p <= j <= p + |line|) ==> b[j] == old(b[j])
  {
    hide Before, WholeNumber, Holds;
    var version, next := TakeToken(b, p, line);
    if version.None? { return None; }
    ghost var rest := line[|version.value| + 1..];
    var token, _ := TakeToken(b, next, rest);
    var statusText: string;
    if token.Some? {
      statusText := token.value;
    } else {
      assert Before(rest, ' ') == rest by { BeforeAll(rest); }
      statusText := ReadString(b, next, rest);
    }
    if !("HTTP/" <= version.value) { return None; }
    var status := WholeNumber(statusText);
    if status.None? { return None; }
    r := Some(st.(first := false, status := status.value));
  }

  lemma BeforeAll(s: string)
    requires |Before(s, ' ')| == |s|
    ensures Before(s, ' ') == s
  {
    assert s[..|s|] == s;
  }

  /** One line that is not empty: the status line first, then field lines; skip tells the branch without a colon. */
  method FieldLineAt(b: array<char>, p: nat, st: Scan, ghost line: string) returns (ok: bool, skip: bool, st': Scan)
    requires Holds(b, p, line)
    modifies b
    ensures TakeFieldLine(line, st) == if ok then Some(st') else None
    ensures skip ==> ok && st' == st
    ensures b[p + |line|] == NUL
    ensures forall j :: 0 <= j < b.Length && !(p <= j <= p + |line|) ==> b[j] == old(b[j])
  {
    hide ParseField, WholeNumber, LengthName, AddField;
    ok, skip, st' := true, false, st;
    var f := ParseHeaderLineAt(b, p, line);
    if f.None? {
      skip := true;
      return;
    }
    if LengthName(f.value.name) {
      var n := WholeNumber(f.value.value);
      if n.None? {
        ok := false;
        return;
      }
      st' := st'.(length := n);
    }
    st' := st'.(fields := AddField(st.fields, f.value));
  }

  method TakeLineAt(b: array<char>, p: nat, st: Scan, ghost line: string) returns (ok: bool, skip: bool, st': Scan)
    requires Holds(b, p, line)
    modifies b
    ensures TakeLine(line, st) == if ok then Some(st') else None
    ensures skip ==> b[p + |line|] == NUL
    ensures forall j :: 0 <= j < b.Length && !(p <= j <= p + |line|) ==> b[j] == old(b[j])
  {
    hide TakeStatusLine, TakeFieldLine;
    if st.first {
      var taken := StatusLineAt(b, p, st, line);
      ok, skip, st' := taken.Some?, false, if taken.Some? then taken.value else st;
    } else {
      ok, skip, st' := FieldLineAt(b, p, st, line);
    }
  }

  lemma WalkRest(s: string, e: nat, st: Scan)
    requires e < |s| && IsBreak(s[e]) && forall k :: 0 <= k < e ==> !IsBreak(s[k])
    ensures CString(s[..e]) == "" ==> Walk(s, st) == Some(st)
    ensures CString(s[..e]) != "" ==>
              Walk(s, st) ==
              match TakeLine(CString(s[..e]), st) case None => None case Some(st') => Walk(s[After(s, e)..], st')
  {
    var at := LineEnd(s);
    assert at == e by { hide LineEnd; }
    hide TakeLine, CString;
  }

  lemma WalkNoBreak(s: string, st: Scan)
    requires forall k :: 0 <= k < |s| ==> !IsBreak(s[k])
    ensures Walk(s, st) == Some(st)
  {
    assert LineEnd(s) == |s| by { hide LineEnd; }
    hide TakeLine;
  }

  /** The text from the line's start when its end is reached at i. */
  lemma LineReached(was: string, lineStart: nat, i: nat, end: nat, st: Scan) returns (line: string, next: nat)
    requires lineStart <= i < end <= |was| && IsBreak(was[i])
    requires forall j :: lineStart <= j < i ==> !IsBreak(was[j])
    ensures line == CString(was[lineStart..i]) && |line| <= i - lineStart
    ensures next == if was[i] == '\r' && i + 1 < end && was[i + 1] == '\n' then i + 2 else i + 1
    ensures line == "" ==> Walk(was[lineStart..end], st) == Some(st)
    ensures line != "" ==>
              Walk(was[lineStart..end], st) ==
              match TakeLine(line, st) case None => None case Some(st') => Walk(was[next..end], st')
  {
    hide Walk, TakeLine, CString, LineEnd;
    var s, e := was[lineStart..end], i - lineStart;
    var n := After(s, e);
    line, next := CString(was[lineStart..i]), lineStart + n;
    CStringPrefix(was[lineStart..i]);
    assert s[..e] == was[lineStart..i] && s[n..] == was[next..end];
    WalkRest(s, e, st);
  }

  /** The characters of the line up to its first NUL are a C string once its end is a NUL. */
  lemma LineIsHeld(b: array<char>, was: string, lineStart: nat, i: nat)
    requires |was| == b.Length && lineStart <= i < |was| && b[i] == NUL
    requires forall j :: lineStart <= j < i ==> b[j] == was[j]
    ensures Holds(b, lineStart, CString(was[lineStart..i]))
  {
    hide CString, Holds;
    var s := was[lineStart..i];
    CStringPrefix(s);
    assert forall j :: 0 <= j < |s| ==> s[j] == b[lineStart + j];
    PrefixIsHeld(b, lineStart, s, CString(s));
  }

  lemma PrefixIsHeld(b: array<char>, p: nat, s: string, t: string)
    requires p + |s| < b.Length && b[p + |s|] == NUL && (forall j :: 0 <= j < |s| ==> s[j] == b[p + j])
    requires |t| <= |s| && t == s[..|t|] && NUL !in t && (|t| < |s| ==> s[|t|] == NUL)
    ensures Holds(b, p, t)
  {
    assert b[p..p + |t|] == t;
  }

  /** The line loop over the header block, which ends before end. */
  method WalkLines(b: array<char>, end: nat) returns (r: Option<Scan>)
    requires end <= b.Length
    modifies b
    ensures r == Walk(old(b[..])[..end], START)
    ensures forall j :: end <= j < b.Length ==> b[j] == old(b[j])
  {
    hide Walk, TakeLine, CString, Holds;
    ghost var was := b[..];
    var st, lineStart, i := START, 0, 0;
    assert was[0..end] == was[..end];
    while i < end
      invariant lineStart <= i + 1 && i <= end && lineStart <= end
      invariant i + 1 == lineStart ==> b[i] == NUL
      invariant forall j :: lineStart <= j < b.Length ==> b[j] == was[j]
      invariant forall j :: lineStart <= j < i ==> !IsBreak(was[j])
      invariant Walk(was[..end], START) == Walk(was[lineStart..end], st)
      decreases end - i, if i < end && IsBreak(b[i]) then 1 else 0
    {
      if IsBreak(b[i]) {
        ghost var line, next := LineReached(was, lineStart, i, end, st);
        var newline := b[i];
        b[i] := NUL;
        LineIsHeld(b, was, lineStart, i);
        if newline == '\r' && i + 1 < end && b[i + 1] == '\n' {
          i := i + 1;
          EndBreak(b, lineStart, i, line);
        }
        HeldEmpty(b, lineStart, line);
        if b[lineStart] == NUL { return Some(st); }
        var ok, skip;
        ok, skip, st := TakeLineAt(b, lineStart, st, line);
        if !ok { return None; }
        lineStart := i + 1;
        if skip { continue; }
      }
      i := i + 1;
    }
    WalkNoBreak(was[lineStart..end], st);
    r := Some(st);
  }

  /** The LF after a CR becomes a NUL too. */
  method EndBreak(b: array<char>, p: nat, i: nat, ghost line: string)
    requires Holds(b, p, line) && p + |line| < i < b.Length
    modifies b
    ensures Holds(b, p, line) && b[i] == NUL
    ensures forall j :: 0 <= j < b.Length && j != i ==> b[j] == old(b[j])
  {
    b[i] := NUL;
    assert b[p..p + |line|] == old(b[p..p + |line|]);
  }

  /** Parses the first length bytes of the buffer. */
  method ParseResponse(buffer: array<char>, length: nat) returns (r: Option<Response>)
    requires length <= buffer.Length
    modifies buffer
    ensures r == Parse(old(buffer[..length]))
  {
    hide Walk, BodyStart, CString;
    ghost var s := buffer[..length];
    assert forall j :: 0 <= j < length ==> s[j] == buffer[j];
    if length == 0 {
      assert BodyStart("") == None by { NoBody(); }
      return None;
    }
    var headerEnd := FindBodyStart(buffer, length);
    if headerEnd.None? { return None; }
    var end := headerEnd.value;
    assert buffer[..][..end] == s[..end];
    var st := WalkLines(buffer, end);
    if st.None? { return None; }
    var bodyLength := length - end;
    var announced := st.value.length;
    if announced.Some? {
      if announced.value < 0 || announced.value > bodyLength { return None; }
      bodyLength := announced.value;
    }
    if bodyLength > MAX_CONTENT_SIZE { return None; }
    SameSlice(buffer, s, end, end + bodyLength);
    assert s[end..end + bodyLength] == s[end..][..bodyLength];
    r := Some(Response(st.value.status, st.value.fields, CString(buffer[end..end + bodyLength])));
  }

  lemma NoBody()
    ensures BodyStart("") == None
  {
  }

  // ------------------------------------------------------------------ SerializeResponse

  lemma {:induction false} WrittenSnoc(fs: seq<Field>, f: Field)
    ensures Written(fs + [f]) == if f.name == "" || f.value == "" then Written(fs) else Written(fs) + [f]
  {
    if fs == [] {
      assert fs + [f] == [f] && [f][1..] == [] && Written([]) == [];
    } else {
      assert (fs + [f])[0] == fs[0] && (fs + [f])[1..] == fs[1..] + [f];
      WrittenSnoc(fs[1..], f);
      var head := if fs[0].name == "" || fs[0].value == "" then [] else [fs[0]];
      assert head + (Written(fs[1..]) + [f]) == head + Written(fs[1..]) + [f];
    }
  }

  lemma BlockIs(r: Response, reason: string, server: string)
    requires r.status >= 0
    ensures Serialize(r, reason, server) == Block(StatusLine(r.status, reason), Fields(r, server)) + CRLF
  {
  }

  /** The loop over the caller's fields, which also looks for a length among them. */
  method AppendWritten(text: string, fields: seq<Field>, ghost line: string, ghost fs: seq<Field>)
      returns (out: string, hasContentLength: bool)
    requires text == Block(line, fs)
    ensures out == Block(line, fs + Written(fields)) && hasContentLength == HasLength(Written(fields))
  {
    hide Block, Written, HasLength;
    out, hasContentLength := text, false;
    NoneWritten();
    assert fields[..0] == [] && fs + [] == fs;
    for i := 0 to |fields|
      invariant out == Block(line, fs + Written(fields[..i]))
      invariant hasContentLength == HasLength(Written(fields[..i]))
    {
      var name, value := fields[i].name, fields[i].value;
      assert fields[..i + 1] == fields[..i] + [fields[i]];
      WrittenSnoc(fields[..i], fields[i]);
      if name == "" || value == "" { continue; }
      HasLengthSnoc(Written(fields[..i]), fields[i]);
      if name == "Content-Length" { hasContentLength := true; }
      BlockSnoc(line, fs + Written(fields[..i]), fields[i]);
      assert fs + Written(fields[..i]) + [fields[i]] == fs + (Written(fields[..i]) + [fields[i]]);
      out := out + name + ": " + value + CRLF;
    }
    assert fields[..|fields|] == fields;
  }

  method SerializeResponse(r: Response, reason: string, server: string) returns (out: string)
    requires r.status >= 0
    ensures out == Serialize(r, reason, server)
  {
    hide Block, Written, Dec, Serialize, Join, HasLength;
    ghost var line, name := StatusLine(r.status, reason), [Field("Server", server)];
    out := "HTTP/1.1 " + Dec(r.status) + " " + reason + CRLF;
    BlockStart(line);
    BlockSnoc(line, [], Field("Server", server));
    assert [] + name == name;
    out := out + "Server" + ": " + server + CRLF;
    var hasContentLength;
    out, hasContentLength := AppendWritten(out, r.fields, line, name);
    ghost var fs := name + Written(r.fields);
    if !hasContentLength {
      BlockSnoc(line, fs, Field("Content-Length", Dec(|r.body|)));
      out := out + "Content-Length" + ": " + Dec(|r.body|) + CRLF;
    }
    assert fs + [] == fs;
    BlockSnoc(line, fs + LengthField(r), CLOSE);
    out := out + "Connection" + ": " + "close" + CRLF + CRLF;
    BlockIs(r, reason, server);
  }

  lemma NoneWritten()
    ensures Written([]) == [] && !HasLength([])
  {
  }

  lemma HasLengthSnoc(fs: seq<Field>, f: Field)
    ensures HasLength(fs + [f]) <==> HasLength(fs) || f.name == "Content-Length"
  {
    if HasLength(fs) {
      var i :| 0 <= i < |fs| && fs[i].name == "Content-Length";
      assert (fs + [f])[i] == fs[i];
    }
    assert (fs + [f])[|fs|] == f;
  }
}
