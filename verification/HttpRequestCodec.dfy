/**
 ParseRequest and SerializeRequest as http_codec.cpp runs them: the parser scans one buffer and ends its C
 strings by writing NULs into it; the serialiser appends to a text.
 */
module HttpRequestCodec {
  import opened Options
  import opened Text
  import opened HttpText
  import opened HttpRequests
  import opened CBuffer

  // ------------------------------------------------------------------ lines

  /** The target up to its first question mark, which is made a NUL, and after it. */
  method SplitTarget(b: array<char>, p: nat, ghost t: string) returns (path: string, query: string)
    requires Holds(b, p, t)
    modifies b
    ensures path == PathOf(t) && query == QueryOf(t)
    ensures forall j :: 0 <= j < b.Length && !(p <= j < p + |t|) ==> b[j] == old(b[j])
  {
    hide Before;
    var q := StrChr(b, p, '?', t);
    ghost var head := Before(t, '?');
    if b[q] == '?' {
      SplitAt(b, p, q - p, t);
      path := ReadString(b, p, head);
      query := ReadString(b, q + 1, t[|head| + 1..]);
    } else {
      path := ReadString(b, p, t);
      query := "";
    }
  }

  method ParseRequestLineAt(b: array<char>, p: nat, ghost line: string) returns (r: Option<Request>)
    requires Holds(b, p, line)
    modifies b
    ensures r == ParseRequestLine(line)
    ensures forall j :: 0 <= j < b.Length && !(p <= j < p + |line|) ==> b[j] == old(b[j])
  {
    hide Before, ParseMethodToken, PathOf, QueryOf, Holds;
    var name, sp1 := TakeToken(b, p, line);
    if name.None? { return None; }
    ghost var rest := line[|name.value| + 1..];
    var target, sp2 := TakeToken(b, sp1, rest);
    if target.None? { return None; }
    var meth := ParseMethodToken(name.value);
    if meth == UNKNOWN { return None; }
    var version := ReadString(b, sp2, rest[|target.value| + 1..]);
    var path, query := SplitTarget(b, sp1, target.value);
    r := Some(Request(meth, target.value, path, query, version, [], ""));
  }

  // ------------------------------------------------------------------ ParseRequest

  /** What the line loop has made of the characters from lineStart to i. */
  ghost predicate Scanned(b: array<char>, was: string, lineStart: nat, i: nat)
    reads b
  {
    && |was| == b.Length && lineStart <= i <= |was|
    && (forall j :: i <= j < |was| ==> b[j] == was[j])
    && (forall j :: lineStart <= j < i ==> was[j] != '\n' && b[j] == if was[j] == '\r' then NUL else was[j])
  }

  lemma CutPrefix(s: string)
    ensures var t := Cut(s);
            && |t| <= |s| && t == s[..|t|] && NUL !in t && '\r' !in t
            && (|t| < |s| ==> s[|t|] == NUL || s[|t|] == '\r')
  {
    CStringPrefix(s);
    var c := CString(s);
    hide CString;
    var t := Before(c, '\r');
    hide Before;
    assert t == c[..|t|];
    assert forall x :: x in t ==> x in c;
  }

  /** A text without line breaks, ended by CR, NUL or the line's end, is held once CR and the end are NUL. */
  lemma HeldLine(b: array<char>, was: string, lineStart: nat, i: nat, t: string)
    requires |was| == b.Length && lineStart + |t| <= i < |was| && b[i] == NUL
    requires forall j :: lineStart <= j < i ==> b[j] == if was[j] == '\r' then NUL else was[j]
    requires NUL !in t && '\r' !in t && (forall j :: 0 <= j < |t| ==> t[j] == was[lineStart + j])
    requires lineStart + |t| < i ==> was[lineStart + |t|] == NUL || was[lineStart + |t|] == '\r'
    ensures Holds(b, lineStart, t)
  {
    forall j | 0 <= j < |t| ensures b[lineStart + j] == t[j] {
      assert t[j] in t;
    }
    assert b[lineStart..lineStart + |t|] == t;
  }

  /** At a line's end the buffer holds the line as a C string. */
  lemma LineHeld(b: array<char>, was: string, lineStart: nat, i: nat)
    requires |was| == b.Length && lineStart <= i < |was| && b[i] == NUL
    requires forall j :: lineStart <= j < i ==> b[j] == if was[j] == '\r' then NUL else was[j]
    ensures Holds(b, lineStart, Cut(was[lineStart..i]))
  {
    hide Cut, Holds;
    var s := was[lineStart..i];
    var t := Cut(s);
    CutPrefix(s);
    assert forall j :: 0 <= j < |t| ==> t[j] == s[j];
    HeldLine(b, was, lineStart, i, t);
  }

  lemma LfLinesUnfold(head: string, rest: string)
    requires '\n' !in head
    ensures LfLines(head + ("\n" + rest)) == [Cut(head)] + LfLines(rest)
  {
    BeforeOf(head, '\n', "\n" + rest);
    assert (head + ("\n" + rest))[|head| + 1..] == rest;
    hide Cut, Before;
  }

  lemma NextLfLine(was: string, lineStart: nat, i: nat, end: nat)
    requires lineStart <= i < end <= |was| && was[i] == '\n'
    requires forall j :: lineStart <= j < i ==> was[j] != '\n'
    ensures LfLines(was[lineStart..end]) == [Cut(was[lineStart..i])] + LfLines(was[i + 1..end])
  {
    hide LfLines, Cut;
    LfLinesUnfold(was[lineStart..i], was[i + 1..end]);
    assert was[lineStart..end] == was[lineStart..i] + ("\n" + was[i + 1..end]);
  }

  lemma NoMoreLines(was: string, lineStart: nat, end: nat)
    requires lineStart <= end <= |was| && forall j :: lineStart <= j < end ==> was[j] != '\n'
    ensures LfLines(was[lineStart..end]) == []
  {
    var s := was[lineStart..end];
    BeforeOf(s, '\n', "");
    assert s + "" == s;
    hide Cut;
  }

  lemma NextLine(line: string, rest: seq<string>, first: bool, r: Request)
    ensures line == "" ==> ParseLines([line] + rest, first, r) == ParseLines(rest, first, r)
    ensures line != "" && first ==>
              ParseLines([line] + rest, first, r) ==
              match ParseRequestLine(line) case None => None case Some(r') => ParseLines(rest, false, r')
    ensures line != "" && !first ==>
              ParseLines([line] + rest, first, r) ==
              match ParseField(line) case None => None
              case Some(f) => ParseLines(rest, false, r.(fields := r.fields + [f]))
  {
    assert ([line] + rest)[1..] == rest;
    hide ParseRequestLine, ParseField;
  }

  /** One finished line: the request line first, then header lines; an empty one is skipped. */
  method TakeLine(b: array<char>, p: nat, first: bool, r: Request, ghost line: string)
      returns (ok: bool, first': bool, r': Request)
    requires Holds(b, p, line)
    modifies b
    ensures forall j :: 0 <= j < b.Length && !(p <= j <= p + |line|) ==> b[j] == old(b[j])
    ensures forall rest :: ParseLines([line] + rest, first, r) == if ok then ParseLines(rest, first', r') else None
  {
    hide ParseRequestLine, ParseField, ParseLines;
    forall rest: seq<string> { NextLine(line, rest, first, r); }
    first', r' := first, r;
    HeldEmpty(b, p, line);
    if b[p] == NUL {
      ok := true;
    } else if first {
      var parsed := ParseRequestLineAt(b, p, line);
      ok := parsed.Some?;
      if ok { first', r' := false, parsed.value; }
    } else {
      var parsed := ParseHeaderLineAt(b, p, line);
      ok := parsed.Some?;
      if ok { r' := r.(fields := r.fields + [parsed.value]); }
    }
  }

  /** The line loop over the header block, which ends before h + 2. */
  method ParseHead(b: array<char>, h: nat) returns (r: Option<Request>)
    requires h + 2 <= b.Length
    modifies b
    ensures r == ParseLines(LfLines(old(b[..])[..h + 2]), true, CLEARED)
    ensures forall j :: h + 2 <= j < b.Length ==> b[j] == old(b[j])
  {
    hide LfLines, ParseLines, Cut;
    ghost var was := b[..];
    var first, request := true, CLEARED;
    var lineStart := 0;
    assert was[0..h + 2] == was[..h + 2];
    for i := 0 to h + 2
      invariant Scanned(b, was, lineStart, i)
      invariant ParseLines(LfLines(was[..h + 2]), true, CLEARED) == ParseLines(LfLines(was[lineStart..h + 2]), first, request)
    {
      if b[i] == '\r' { b[i] := NUL; }
      if b[i] == '\n' {
        b[i] := NUL;
        ghost var line := Cut(was[lineStart..i]);
        LineHeld(b, was, lineStart, i);
        CutPrefix(was[lineStart..i]);
        NextLfLine(was, lineStart, i, h + 2);
        var ok;
        ok, first, request := TakeLine(b, lineStart, first, request, line);
        if !ok { return None; }
        lineStart := i + 1;
      }
    }
    NoMoreLines(was, lineStart, h + 2);
    r := Some(request);
    assert ParseLines([], first, request) == Some(request) by { NoLines(first, request); }
  }

  lemma NoLines(first: bool, r: Request)
    ensures ParseLines([], first, r) == Some(r)
  {
  }

  /** Parses the first length bytes of the buffer. */
  method ParseRequest(buffer: array<char>, length: nat) returns (r: Option<Request>)
    requires length <= buffer.Length
    modifies buffer
    ensures r == Parse(old(buffer[..length]))
  {
    hide LfLines, ParseLines, FirstBlank, ContentLength, CString;
    if length == 0 { return None; }
    ghost var s := buffer[..length];
    assert forall j :: 0 <= j < length ==> s[j] == buffer[j];
    var headerEnd := FindBlank(buffer, length);
    if headerEnd == length || headerEnd == MAX_HEADERS { return None; }
    assert BlankAt(s, headerEnd);
    assert buffer[..][..headerEnd + 2] == s[..headerEnd + 2];
    var head := ParseHead(buffer, headerEnd);
    if head.None? { return None; }
    var bodyOffset := headerEnd + 4;
    var contentLength := ContentLength(head.value.fields);
    if contentLength == 0 { return head; }
    if contentLength < 0 || bodyOffset + contentLength > length { return None; }
    assert forall j :: bodyOffset <= j < length ==> buffer[j] == s[j];
    SameSlice(buffer, s, bodyOffset, bodyOffset + contentLength);
    r := Some(head.value.(body := CString(buffer[bodyOffset..bodyOffset + contentLength])));
  }

  // ------------------------------------------------------------------ SerializeRequest

  lemma {:induction false} KeptSnoc(fs: seq<Field>, f: Field)
    ensures Kept(fs + [f]) == if f.name == "" || Reserved(f.name) then Kept(fs) else Kept(fs) + [f]
  {
    if fs == [] {
      assert fs + [f] == [f] && [f][1..] == [] && Kept([]) == [];
    } else {
      assert (fs + [f])[1..] == fs[1..] + [f];
      KeptSnoc(fs[1..], f);
      hide Reserved;
    }
  }

  /** A field line that is written when it has a value. */
  method AppendOptional(text: string, name: string, value: string, ghost line: string, ghost fs: seq<Field>) returns (out: string)
    requires text == Block(line, fs)
    ensures out == Block(line, fs + Optional(name, value))
  {
    hide Block;
    out := text;
    assert fs + [] == fs;
    if |value| > 0 {
      BlockSnoc(line, fs, Field(name, value));
      out := out + name + ": " + value + CRLF;
    }
  }

  /** The loop over the caller's fields. */
  method AppendKept(text: string, fields: seq<Field>, ghost line: string, ghost fs: seq<Field>) returns (out: string)
    requires text == Block(line, fs)
    ensures out == Block(line, fs + Kept(fields))
  {
    hide Block, Kept, Reserved;
    out := text;
    assert Kept(fields[..0]) == [] && fs + [] == fs by { KeptNone(); }
    for i := 0 to |fields|
      invariant out == Block(line, fs + Kept(fields[..i]))
    {
      var name, value := fields[i].name, fields[i].value;
      assert fields[..i + 1] == fields[..i] + [fields[i]];
      KeptSnoc(fields[..i], fields[i]);
      if name == "" || Reserved(name) { continue; }
      BlockSnoc(line, fs + Kept(fields[..i]), fields[i]);
      assert fs + Kept(fields[..i]) + [fields[i]] == fs + (Kept(fields[..i]) + [fields[i]]);
      out := out + name + ": " + value + CRLF;
    }
    assert fields[..|fields|] == fields;
  }

  method SerializeRequest(r: Request, host: string, userAgent: string) returns (out: string)
    ensures out == Serialize(r, host, userAgent)
  {
    hide Block, BuildTarget, MethodText, Kept, Dec, Serialize, Join, Optional;
    var target := BuildTarget(r);
    ghost var line := RequestLine(r);
    out := MethodText(r.meth) + " " + target + " HTTP/1.1" + CRLF;
    BlockStart(line);
    ghost var hosted, lead := Optional("Host", host), LeadingFields(r, host, userAgent);
    out := AppendOptional(out, "Host", host, line, []);
    assert [] + hosted == hosted;
    out := AppendOptional(out, "User-Agent", userAgent, line, hosted);
    out := AppendKept(out, r.fields, line, hosted + Optional("User-Agent", userAgent));
    if |r.body| > 0 {
      BlockSnoc(line, lead, Field("Content-Length", Dec(|r.body|)));
      out := out + "Content-Length" + ": " + Dec(|r.body|) + CRLF;
    }
    assert lead + [] == lead;
    BlockSnoc(line, lead + LengthField(r.body), CLOSE);
    out := out + "Connection" + ": " + "close" + CRLF + CRLF;
    BlockIs(r, host, userAgent);
  }

  lemma KeptNone()
    ensures Kept([]) == []
  {
  }

  lemma BlockIs(r: Request, host: string, userAgent: string)
    ensures Serialize(r, host, userAgent) == Block(RequestLine(r), Fields(r, host, userAgent)) + CRLF
  {
  }
}
