/**
 The jsmn tokenizer of jsmn.h (non-strict, no parent links), as a step function over its state.
 One definition serves both runs: with cap == None nothing is stored and tokens are only counted
 (tokens == NULL in the source), with cap == Some(n) they are stored in n slots.
 */
module Jsmn {
  import opened Options
  import opened Text

  datatype TokenType = Undefined | Object | Array | Str | Primitive

  datatype Token = Token(typ: TokenType, start: int, end: int, size: int)

  const NOMEM := -1
  const INVAL := -2
  const PART := -3

  /**
   pos: offset in the text; toks: the tokens allocated so far (tokens[0..toknext]); super: toksuper,
   the index that receives the next child, or -1; count: the running result of jsmn_parse;
   orphans: how many tokens were stored while super was -1.
   */
  datatype State = State(pos: nat, toks: seq<Token>, super: int, count: int, orphans: nat)

  const INIT := State(0, [], -1, 0, 0)

  predicate IsContainer(t: Token) { t.typ == Array || t.typ == Object }

  predicate IsOpen(t: Token) { t.start != -1 && t.end == -1 }

  predicate IsOpenContainer(t: Token) { IsContainer(t) && IsOpen(t) }

  /** The backward scan: the last index below n whose token satisfies f, or -1. */
  function LastWhere(toks: seq<Token>, n: nat, f: Token -> bool): (i: int)
    requires n <= |toks|
    ensures -1 <= i < n
    ensures 0 <= i ==> f(toks[i])
    ensures forall k :: i < k < n ==> !f(toks[k])
  {
    if n == 0 then -1 else if f(toks[n - 1]) then n - 1 else LastWhere(toks, n - 1, f)
  }

  // ------------------------------------------------------------------ scalars

  datatype Scan = At(end: nat) | Bad(code: int)

  predicate IsHex(c: char) { '0' <= c <= '9' || 'A' <= c <= 'F' || 'a' <= c <= 'f' }

  predicate IsSimpleEscape(c: char) { c in "\"/\\bfrnt" }

  /** At most n hexadecimal digits from p on; the text may end early, another character may not come. */
  function ScanHex(js: string, p: nat, n: nat): (s: Scan)
    ensures s.At? && p <= |js| ==> p <= s.end <= |js|
    ensures s.Bad? ==> s.code == INVAL
    decreases n
  {
    if n == 0 || p >= |js| || js[p] == NUL then At(p)
    else if !IsHex(js[p]) then Bad(INVAL)
    else ScanHex(js, p + 1, n - 1)
  }

  /** From inside a string literal to its closing quote. */
  function ScanString(js: string, p: nat): (s: Scan)
    requires p <= |js|
    ensures s.At? ==> p <= s.end < |js| && js[s.end] == '"'
    ensures s.Bad? ==> s.code in {INVAL, PART}
    decreases |js| - p
  {
    if p >= |js| || js[p] == NUL then Bad(PART)
    else if js[p] == '"' then At(p)
    else if js[p] == '\\' && p + 1 < |js| then
      if IsSimpleEscape(js[p + 1]) then ScanString(js, p + 2)
      else if js[p + 1] == 'u' then
        var h := ScanHex(js, p + 2, 4);
        if h.Bad? then h else ScanString(js, h.end)
      else Bad(INVAL)
    else ScanString(js, p + 1)
  }

  predicate EndsPrimitive(c: char) { c in ":\t\r\n ,]}" }

  predicate IsPrintable(c: char) { 32 <= c as int < 127 }

  function ScanPrimitive(js: string, p: nat): (s: Scan)
    requires p <= |js|
    ensures s.At? ==> p <= s.end <= |js|
    ensures s.At? && p < |js| && js[p] != NUL && !EndsPrimitive(js[p]) ==> p < s.end
    ensures s.Bad? ==> s.code == INVAL
    decreases |js| - p
  {
    if p >= |js| || js[p] == NUL || EndsPrimitive(js[p]) then At(p)
    else if !IsPrintable(js[p]) then Bad(INVAL)
    else ScanPrimitive(js, p + 1)
  }

  // ------------------------------------------------------------------ one step of jsmn_parse

  datatype Outcome = Next(st: State) | Halt(code: int)

  predicate Live(js: string, pos: nat) { pos < |js| && js[pos] != NUL }

  predicate Wf(st: State) { -1 <= st.super < |st.toks| }

  /** tokens[toksuper].size++, when there is such a token. */
  function Bump(toks: seq<Token>, super: int): (r: seq<Token>)
    requires -1 <= super < |toks|
    ensures |r| == |toks|
  {
    if super == -1 then toks else toks[super := toks[super].(size := toks[super].size + 1)]
  }

  /** One more token: counted in either run, stored and charged to its parent in the filling run. */
  function Emit(st: State, cap: Option<nat>, t: Token): (o: Outcome)
    requires Wf(st)
    ensures o.Next? ==> Wf(o.st) && o.st.pos == st.pos && o.st.super == st.super
    ensures o.Halt? ==> o.code == NOMEM
  {
    match cap
    case None => Next(st.(count := st.count + 1))
    case Some(n) =>
      if |st.toks| >= n then Halt(NOMEM)
      else Next(st.(toks := Bump(st.toks, st.super) + [t], count := st.count + 1,
                    orphans := if st.super == -1 then st.orphans + 1 else st.orphans))
  }

  function BracketType(c: char): TokenType {
    if c == '{' || c == '}' then Object else Array
  }

  predicate IsOpener(c: char) { c == '{' || c == '[' }

  predicate IsCloser(c: char) { c == '}' || c == ']' }

  predicate IsBlank(c: char) { c in "\t\r\n " }

  function Close(st: State, c: char): (o: Outcome)
    requires Wf(st)
    ensures o.Next? ==> Wf(o.st) && o.st.pos == st.pos + 1
    ensures o.Halt? ==> o.code == INVAL
  {
    var i := LastWhere(st.toks, |st.toks|, IsOpen);
    if i == -1 || st.toks[i].typ != BracketType(c) then Halt(INVAL)
    else
      var toks := st.toks[i := st.toks[i].(end := st.pos + 1)];
      Next(st.(pos := st.pos + 1, toks := toks, super := LastWhere(toks, i + 1, IsOpen)))
  }

  function Comma(st: State): (o: State)
    requires Wf(st)
    ensures Wf(o) && o.pos == st.pos + 1
  {
    var i := if st.super != -1 && !IsContainer(st.toks[st.super])
             then LastWhere(st.toks, |st.toks|, IsOpenContainer) else -1;
    st.(pos := st.pos + 1, super := if i == -1 then st.super else i)
  }

  function Scalar(st: State, cap: Option<nat>, s: Scan, t: Token, after: nat): (o: Outcome)
    requires Wf(st) && after > st.pos
    ensures o.Next? ==> Wf(o.st) && o.st.pos == after
  {
    if s.Bad? then Halt(s.code)
    else
      var o := Emit(st, cap, t);
      if o.Halt? then o else Next(o.st.(pos := after))
  }

  /** One turn of the main loop, the final pos++ included. */
  function Step(js: string, st: State, cap: Option<nat>): (o: Outcome)
    requires Live(js, st.pos) && Wf(st)
    ensures o.Next? ==> Wf(o.st) && st.pos < o.st.pos <= |js|
  {
    var c := js[st.pos];
    if IsOpener(c) then
      var o := Emit(st, cap, Token(BracketType(c), st.pos, -1, 0));
      if o.Halt? then o
      else Next(o.st.(pos := st.pos + 1, super := if cap.None? then st.super else |o.st.toks| - 1))
    else if IsCloser(c) then
      if cap.None? then Next(st.(pos := st.pos + 1)) else Close(st, c)
    else if c == '"' then
      var s := ScanString(js, st.pos + 1);
      var e := if s.At? then s.end else st.pos;
      Scalar(st, cap, s, Token(Str, st.pos + 1, e, 0), e + 1)
    else if IsBlank(c) then Next(st.(pos := st.pos + 1))
    else if c == ':' then Next(st.(pos := st.pos + 1, super := |st.toks| - 1))
    else if c == ',' then
      if cap.None? then Next(st.(pos := st.pos + 1)) else Next(Comma(st))
    else
      var s := ScanPrimitive(js, st.pos);
      var e := if s.At? then s.end else st.pos + 1;
      Scalar(st, cap, s, Token(Primitive, st.pos, e, 0), e)
  }

  // ------------------------------------------------------------------ the whole run

  datatype Result = Done(st: State) | Failed(code: int)

  function Finish(st: State, cap: Option<nat>): Result
    requires Wf(st)
  {
    if cap.Some? && LastWhere(st.toks, |st.toks|, IsOpen) != -1 then Failed(PART) else Done(st)
  }

  function Run(js: string, st: State, cap: Option<nat>): (r: Result)
    requires st.pos <= |js| && Wf(st)
    ensures r.Done? ==> Wf(r.st)
    decreases |js| - st.pos
  {
    if !Live(js, st.pos) then Finish(st, cap)
    else
      match Step(js, st, cap)
      case Halt(code) => Failed(code)
      case Next(st') => Run(js, st', cap)
  }

  /** The value jsmn_parse returns: the number of tokens, or a negative error code. */
  function Code(r: Result): int {
    match r case Done(st) => st.count case Failed(code) => code
  }
}
