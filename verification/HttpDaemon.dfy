/**
 The receiving half of http_daemon.cpp's worker: a request is put together from whatever pieces the socket
 delivers. The socket is a list of pieces that nobody chose.
 */
module HttpDaemon {
  import opened Options
  import opened Text
  import opened HttpText
  import opened CBuffer
  import HttpRequests

  function Concat(chunks: seq<string>): string {
    if chunks == [] then "" else chunks[0] + Concat(chunks[1..])
  }

  class Socket {
    /** Pieces not delivered yet; the peer closes or the receive times out after the last one. */
    var incoming: seq<string>

    constructor (chunks: seq<string>)
      requires "" !in chunks
      ensures incoming == chunks
    {
      incoming := chunks;
    }

    ghost predicate Valid()
      reads this
    {
      "" !in incoming
    }

    ghost function Stream(): string
      reads this
    {
      Concat(incoming)
    }

    /** Delivers one piece, or as much of it as there is room for, into the buffer. */
    method Receive(buf: array<char>, at: nat, room: nat) returns (n: nat)
      requires Valid() && at + room <= buf.Length && room > 0
      modifies this, buf
      ensures Valid() && n <= room && n <= |old(Stream())|
      ensures n == 0 <==> old(incoming) == []
      ensures old(incoming) != [] ==> n == if |old(incoming)[0]| < room then |old(incoming)[0]| else room
      ensures Stream() == old(Stream())[n..]
      ensures buf[..at + n] == old(buf[..at]) + old(Stream())[..n]
      ensures forall j :: at + n <= j < buf.Length ==> buf[j] == old(buf[j])
    {
      if incoming == [] { return 0; }
      var chunk := incoming[0];
      n := if |chunk| < room then |chunk| else room;
      assert incoming[0] in incoming;
      forall j | 0 <= j < n { buf[at + j] := chunk[j]; }
      assert Stream() == chunk[..n] + (chunk[n..] + Concat(incoming[1..]));
      assert buf[..at + n] == old(buf[..at]) + chunk[..n];
      if n == |chunk| {
        incoming := incoming[1..];
      } else {
        incoming := [chunk[n..]] + incoming[1..];
        assert incoming[1..] == old(incoming)[1..];
      }
    }
  }

  // ------------------------------------------------------------------ what a worker does

  const LENGTH := "Content-Length: "
  const LOWER_LENGTH := "content-length: "

  /** One more than the largest size_t. */
  const SIZE_T := 0x1_0000_0000_0000_0000

  /**
   The body length the worker waits for: the number after the first "Content-Length: " of the header block. A
   negative one becomes a size_t by wrapping around.
   */
  function Awaited(header: string): nat {
    var text := CString(header);
    var k := Find(text, LENGTH);
    var l := Find(text, LOWER_LENGTH);
    (if k < |text| then Atoi(text[k + 16..]) else if l < |text| then Atoi(text[l + 16..]) else 0) % SIZE_T
  }

  /** NoRoom: the worker would write its NUL one byte past the buffer. */
  datatype Outcome = Closed | Refused | NoRoom | Handed(bytes: string)

  /** Where a text's header block ends, with its blank line. */
  function HeaderEnd(s: string): (e: Option<nat>)
    ensures e.Some? ==> 4 <= e.value <= |s|
  {
    var h := FirstBlank(s);
    if h < |s| then Some(h + 4) else None
  }

  /** What the first receive delivers. */
  function FirstLength(chunks: seq<string>, bufSize: nat): (n: nat)
    ensures n <= bufSize && n <= |Concat(chunks)|
  {
    if chunks == [] then 0 else if |chunks[0]| < bufSize then |chunks[0]| else bufSize
  }

  function Min(a: nat, b: nat): nat { if a < b then a else b }

  /** How much of a stream is received in all, n bytes of it at first. */
  function Received(all: string, n: nat, wanted: nat): nat { if n >= wanted then n else Min(wanted, |all|) }

  /** What becomes of a stream when the first receive delivers n bytes: only these and the buffer's size matter. */
  function Result(all: string, n: nat, bufSize: nat): Outcome
    requires n <= |all| && n <= bufSize
  {
    if n == 0 then Closed
    else
      match HeaderEnd(all[..n])
      case None => Refused
      case Some(e) =>
        var needed := e + Awaited(all[..e]);
        var total := Received(all, n, Min(needed, bufSize));
        if e == bufSize then NoRoom
        else if needed % SIZE_T > bufSize then Closed
        else if total == bufSize then NoRoom
        else Handed(all[..total])
  }

  /** The two receive loops: what has been received is always the header block and part of the body. */
  method AwaitBody(s: Socket, buf: array<char>, headerEnd: nat, already: nat, contentLength: nat, ghost all: string)
      returns (totalRecv: nat)
    requires s.Valid() && headerEnd <= already <= buf.Length && already <= |all|
    requires buf[..already] == all[..already] && s.Stream() == all[already..]
    modifies s, buf
    ensures s.Valid() && totalRecv <= buf.Length && totalRecv <= |all|
    ensures buf[..totalRecv] == all[..totalRecv] && s.Stream() == all[totalRecv..]
    ensures var needed := headerEnd + contentLength;
            totalRecv == Received(all, already, Min(needed, buf.Length))
  {
    totalRecv := already;
    var bodyReceived := totalRecv - headerEnd;
    while bodyReceived < contentLength
      invariant s.Valid() && totalRecv == headerEnd + bodyReceived
      invariant already <= totalRecv <= buf.Length && totalRecv <= |all|
      invariant bodyReceived <= contentLength || totalRecv == already
      invariant buf[..totalRecv] == all[..totalRecv] && s.Stream() == all[totalRecv..]
    {
      var spaceLeft := buf.Length - totalRecv;
      if spaceLeft == 0 { break; }
      var remaining := contentLength - bodyReceived;
      var toRead := if remaining < spaceLeft then remaining else spaceLeft;
      ghost var left := s.Stream();
      ghost var closed := s.incoming == [];
      NothingLeft(s.incoming);
      var n := s.Receive(buf, totalRecv, toRead);
      assert left == all[totalRecv..];
      if n == 0 { break; }
      assert all[..totalRecv] + left[..n] == all[..totalRecv + n] && left[n..] == all[totalRecv + n..];
      totalRecv := totalRecv + n;
      bodyReceived := bodyReceived + n;
    }
  }

  lemma NothingLeft(chunks: seq<string>)
    requires "" !in chunks
    ensures Concat(chunks) == "" <==> chunks == []
  {
    if chunks != [] { assert chunks[0] in chunks; }
  }

  lemma ResultIs(all: string, n: nat, bufSize: nat)
    requires 0 < n <= |all| && n <= bufSize
    ensures var blank := FirstBlank(all[..n]);
            if blank == n then Result(all, n, bufSize) == Refused
            else
              var e := blank + 4;
              var needed := e + Awaited(all[..e]);
              var total := Received(all, n, Min(needed, bufSize));
              Result(all, n, bufSize) ==
              if e == bufSize then NoRoom
              else if needed % SIZE_T > bufSize then Closed
              else if total == bufSize then NoRoom
              else Handed(all[..total])
  {
    hide FirstBlank, Awaited;
  }

  /** What follows the first piece: its header block says how much more to wait for. */
  method Assemble(s: Socket, buf: array<char>, nRecv: nat, ghost all: string) returns (r: Outcome)
    requires s.Valid() && 0 < nRecv <= buf.Length && nRecv <= |all|
    requires buf[..nRecv] == all[..nRecv] && s.Stream() == all[nRecv..]
    modifies s, buf
    ensures r == Result(all, nRecv, buf.Length)
  {
    hide FirstBlank, Awaited, Result;
    ResultIs(all, nRecv, buf.Length);
    var blank := FindBlank(buf, nRecv);
    if blank == nRecv { return Refused; }
    var headerEnd := blank + 4;
    if headerEnd == buf.Length { return NoRoom; }
    assert buf[..headerEnd] == buf[..nRecv][..headerEnd] == all[..headerEnd];
    var contentLength := Awaited(buf[..headerEnd]);
    var totalRecv := AwaitBody(s, buf, headerEnd, nRecv, contentLength, all);
    if (headerEnd + contentLength) % SIZE_T > buf.Length { return Closed; }
    totalRecv := AwaitBody(s, buf, headerEnd, totalRecv, contentLength, all);
    if totalRecv == buf.Length { return NoRoom; }
    ghost var received := buf[..totalRecv];
    buf[totalRecv] := NUL;
    assert buf[..totalRecv] == received;
    r := Handed(buf[..totalRecv]);
  }

  /** One connection up to the parser: what is handed to it, or why nothing is. */
  method Worker(s: Socket, bufSize: nat) returns (r: Outcome)
    requires s.Valid() && bufSize > 0
    modifies s
    ensures r == Result(old(s.Stream()), FirstLength(old(s.incoming), bufSize), bufSize)
  {
    hide FirstBlank, Awaited, Result, HeaderEnd;
    var buf := new char[bufSize](_ => NUL);
    ghost var all, chunks := s.Stream(), s.incoming;
    var nRecv := s.Receive(buf, 0, bufSize);
    assert nRecv == FirstLength(chunks, bufSize);
    if nRecv == 0 {
      assert Result(all, 0, bufSize) == Closed by { NothingReceived(all, bufSize); }
      return Closed;
    }
    assert buf[..nRecv] == all[..nRecv];
    r := Assemble(s, buf, nRecv, all);
  }

  lemma NothingReceived(all: string, bufSize: nat)
    ensures Result(all, 0, bufSize) == Closed
  {
  }

  // ------------------------------------------------------------------ what the pieces do not change

  /** Where a message ends in a stream: its header block and the body that announces. */
  function MessageEnd(all: string): Option<nat> {
    match HeaderEnd(all)
    case None => None
    case Some(e) => Some(e + Awaited(all[..e]))
  }

  /** A first piece that holds the stream's header block shows the same one. */
  lemma HeaderOfStream(all: string, n: nat)
    requires n <= |all| && HeaderEnd(all).Some? && HeaderEnd(all).value <= n
    ensures HeaderEnd(all[..n]) == HeaderEnd(all)
  {
    var i, j := FirstBlank(all), FirstBlank(all[..n]);
    hide FirstBlank;
    assert BlankAt(all[..n], i);
    assert j < n ==> BlankAt(all, j);
  }

  /**
   A message sent alone, whose header block arrives in the first piece, is handed over whole, however the rest
   is cut into pieces, if and only if the buffer has at least one byte more than the message.
   */
  lemma PiecesDoNotMatter(all: string, n: nat, bufSize: nat)
    requires n <= |all| && n <= bufSize < SIZE_T && MessageEnd(all) == Some(|all|) && HeaderEnd(all).value <= n
    ensures Result(all, n, bufSize) == Handed(all) <==> |all| < bufSize
  {
    HeaderOfStream(all, n);
    var e := HeaderEnd(all).value;
    assert |all| == e + Awaited(all[..e]) by { hide HeaderEnd, Awaited; }
    hide *;
    ResultOfStream(all, n, bufSize, e);
  }

  lemma ResultOfStream(all: string, n: nat, bufSize: nat, e: nat)
    requires n <= |all| && n <= bufSize < SIZE_T && HeaderEnd(all[..n]) == Some(e) && |all| == e + Awaited(all[..e])
    ensures Result(all, n, bufSize) == Handed(all) <==> |all| < bufSize
  {
    hide Awaited, HeaderEnd;
    if |all| < bufSize { assert all[..|all|] == all && |all| % SIZE_T == |all|; }
  }

  /** The announced length stands once in the header block, and not at all when there is no body. */
  ghost predicate AnnouncedOnce(text: string, body: string) {
    && (forall i: nat, j: nat :: Occurs(text, i, LENGTH) && Occurs(text, j, LENGTH) ==> i == j)
    && (body == "" ==> forall i: nat :: !Occurs(text, i, LENGTH) && !Occurs(text, i, LOWER_LENGTH))
  }

  /** A serialised request with a body has its length line inside. */
  lemma LengthLine(r: HttpRequests.Request, host: string, userAgent: string) returns (before: string, after: string)
    requires r.body != ""
    ensures HttpRequests.Serialize(r, host, userAgent) == before + (LENGTH + (Dec(|r.body|) + (CRLF + after)))
  {
    var d := Dec(|r.body|);
    var f := Field("Content-Length", d);
    var a := [HttpRequests.RequestLine(r)] + FieldLines(HttpRequests.LeadingFields(r, host, userAgent));
    var last := FieldLines([HttpRequests.CLOSE]);
    LinesAre(r, host, userAgent);
    JoinConcat(a, [FieldLine(f)] + last);
    JoinFirst(FieldLine(f), last);
    before, after := Join(a), Join(last) + CRLF;
    assert FieldLine(f) == LENGTH + d by { hide Dec; }
    assert HttpRequests.Serialize(r, host, userAgent) == Join(a + ([FieldLine(f)] + last)) + CRLF by {
      hide HttpRequests.Lines, Join, FieldLines, HttpRequests.LeadingFields, HttpRequests.RequestLine;
    }
    hide *;
    Regroup(before, LENGTH, d, CRLF, Join(last), CRLF);
  }

  lemma Regroup(a: string, l: string, d: string, c: string, x: string, e: string)
    ensures (a + (l + d + c + x)) + e == a + (l + (d + (c + (x + e))))
  {
  }

  lemma LinesAre(r: HttpRequests.Request, host: string, userAgent: string)
    requires r.body != ""
    ensures HttpRequests.Lines(r, host, userAgent)
            == ([HttpRequests.RequestLine(r)] + FieldLines(HttpRequests.LeadingFields(r, host, userAgent)))
               + ([FieldLine(Field("Content-Length", Dec(|r.body|)))] + FieldLines([HttpRequests.CLOSE]))
  {
    var lead := HttpRequests.LeadingFields(r, host, userAgent);
    var f := Field("Content-Length", Dec(|r.body|));
    hide HttpRequests.LeadingFields, HttpRequests.RequestLine, Dec, FieldLines, FieldLine;
    assert HttpRequests.Fields(r, host, userAgent) == lead + ([f] + [HttpRequests.CLOSE]);
    hide HttpRequests.Fields;
    FieldLinesConcat(lead, [f] + [HttpRequests.CLOSE]);
    FieldLinesConcat([f], [HttpRequests.CLOSE]);
    OneFieldLine(f);
  }

  lemma OneFieldLine(f: Field)
    ensures FieldLines([f]) == [FieldLine(f)]
  {
  }

  lemma JoinFirst(line: string, rest: seq<string>)
    ensures Join([line] + rest) == line + CRLF + Join(rest)
  {
    assert ([line] + rest)[1..] == rest;
  }

  lemma TextIsCString(r: HttpRequests.Request, host: string, userAgent: string)
    requires HttpRequests.Safe(r, host, userAgent)
    ensures CString(HttpRequests.Serialize(r, host, userAgent)) == HttpRequests.Serialize(r, host, userAgent)
  {
    var lines := HttpRequests.Lines(r, host, userAgent);
    HttpRequests.LinesArePlain(r, host, userAgent);
    hide HttpRequests.Lines, HttpRequests.Safe, PlainLine;
    JoinHasNoNul(lines);
  }

  lemma {:induction false} JoinHasNoNul(lines: seq<string>)
    requires forall i :: 0 <= i < |lines| ==> PlainLine(lines[i])
    ensures NUL !in Join(lines)
  {
    if lines != [] {
      assert PlainLine(lines[0]);
      JoinHasNoNul(lines[1..]);
    }
  }

  /** The length the worker waits for is the length of the body the parser cuts off. */
  lemma AwaitedIsBodyLength(r: HttpRequests.Request, host: string, userAgent: string)
    requires HttpRequests.Safe(r, host, userAgent) && |r.body| < SIZE_T
    requires AnnouncedOnce(HttpRequests.Serialize(r, host, userAgent), r.body)
    ensures Awaited(HttpRequests.Serialize(r, host, userAgent)) == |r.body|
  {
    var text := HttpRequests.Serialize(r, host, userAgent);
    TextIsCString(r, host, userAgent);
    hide HttpRequests.Serialize, HttpRequests.Safe, Atoi, CString, Find, Occurs;
    if r.body == "" {
      NothingAwaited(text);
    } else {
      var before, after := LengthLine(r, host, userAgent);
      AwaitedFrom(text, before, |r.body|, after);
    }
  }

  lemma NothingAwaited(text: string)
    requires CString(text) == text && forall i: nat :: !Occurs(text, i, LENGTH) && !Occurs(text, i, LOWER_LENGTH)
    ensures Awaited(text) == 0
  {
    hide CString, Find, Atoi, Occurs;
  }

  lemma AwaitedFrom(text: string, before: string, n: nat, after: string)
    requires n < SIZE_T && text == before + (LENGTH + (Dec(n) + (CRLF + after))) && CString(text) == text
    requires forall i: nat, j: nat :: Occurs(text, i, LENGTH) && Occurs(text, j, LENGTH) ==> i == j
    ensures Awaited(text) == n
  {
    var rest := Dec(n) + (CRLF + after);
    hide CString, Dec, Find;
    assert |LENGTH| == 16 && text[|before|..|before| + 16] == LENGTH && text[|before| + 16..] == rest;
    var k := Find(text, LENGTH);
    assert Occurs(text, |before|, LENGTH) && k <= |before|;
    hide Atoi, Occurs;
    AtoiOfDec(n, CRLF + after);
  }

  /**
   From the wire to the parser: a serialised request, followed by anything, whose header block arrives in the
   first n bytes. The worker hands bytes over if and only if the buffer has a byte more than the first piece and
   than the message, and the parser turns those bytes back into the request.
   */
  lemma WorkerFeedsParser(r: HttpRequests.Request, host: string, userAgent: string, extra: string, n: nat, bufSize: nat)
    requires HttpRequests.Safe(r, host, userAgent)
    requires AnnouncedOnce(HttpRequests.Serialize(r, host, userAgent), r.body)
    requires var message := HttpRequests.Serialize(r, host, userAgent) + r.body;
             |message| < SIZE_T && |HttpRequests.Serialize(r, host, userAgent)| <= n <= |message + extra|
    requires n <= bufSize
    ensures var message := HttpRequests.Serialize(r, host, userAgent) + r.body;
            var result := Result(message + extra, n, bufSize);
            && (result.Handed? <==> n < bufSize && |message| < bufSize)
            && (result.Handed? ==> HttpRequests.Parse(result.bytes) == Some(HttpRequests.Received(r, host, userAgent)))
  {
    var text, body := HttpRequests.Serialize(r, host, userAgent), r.body;
    hide *;
    var tail, more := CutAtText(text, body, extra, n, bufSize);
    AwaitedIsBodyLength(r, host, userAgent);
    HttpRequests.HeaderEnds(r, host, userAgent, tail);
    HeaderEndIs(text, tail);
    ResultOfMessage(text, body, extra, n, bufSize);
    HttpRequests.RoundTrip(r, host, userAgent, more);
  }

  /** The first n bytes, and what is received in the end, as the text and what follows it. */
  lemma CutAtText(text: string, body: string, extra: string, n: nat, bufSize: nat) returns (tail: string, more: string)
    requires |text| <= n <= |text + body + extra|
    ensures (text + body + extra)[..n] == text + tail
    ensures |text + body| < bufSize ==>
              var all := text + body + extra;
              all[..Received(all, n, Min(|text| + |body|, bufSize))] == text + body + more
  {
    var all := text + body + extra;
    tail := all[|text|..n];
    assert all[..n] == text + tail;
    if |text + body| < bufSize {
      var m := Received(all, n, Min(|text| + |body|, bufSize));
      more := all[|text| + |body|..m];
      assert all[..m] == text + body + more;
    } else {
      more := "";
    }
  }

  lemma HeaderEndIs(text: string, tail: string)
    requires |text| >= 4 && FirstBlank(text + tail) == |text| - 4
    ensures HeaderEnd(text + tail) == Some(|text|)
  {
    hide FirstBlank;
  }

  lemma ResultOfMessage(text: string, body: string, extra: string, n: nat, bufSize: nat)
    requires 0 < |text| <= n <= |text + body + extra| && n <= bufSize && |text + body| < SIZE_T
    requires HeaderEnd((text + body + extra)[..n]) == Some(|text|) && Awaited(text) == |body|
    ensures var all := text + body + extra;
            var result := Result(all, n, bufSize);
            && (result.Handed? <==> n < bufSize && |text + body| < bufSize)
            && (result.Handed? ==> result.bytes == all[..Received(all, n, Min(|text| + |body|, bufSize))])
  {
    var all := text + body + extra;
    assert all[..|text|] == text;
    assert (|text| + |body|) % SIZE_T == |text| + |body|;
    hide *;
    ResultAt(all, n, bufSize, |text|, |text| + |body|);
  }

  /** The result when the header block ends at e and the message, which does not wrap, at needed. */
  lemma ResultAt(all: string, n: nat, bufSize: nat, e: nat, needed: nat)
    requires 0 < n <= |all| && n <= bufSize && e <= n && e <= needed <= |all| && needed % SIZE_T == needed
    requires HeaderEnd(all[..n]) == Some(e) && e + Awaited(all[..e]) == needed
    ensures var result := Result(all, n, bufSize);
            && (result.Handed? <==> n < bufSize && needed < bufSize)
            && (result.Handed? ==> result.bytes == all[..Received(all, n, Min(needed, bufSize))])
  {
    hide Awaited, HeaderEnd;
  }
}
