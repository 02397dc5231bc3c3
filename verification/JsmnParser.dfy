/**
 The tokenizer in the source's own form: a parser object whose fields move and a token array filled in
 place. Every method is proved against the step function of module Jsmn.
 */
module JsmnParser {
  import opened Options
  import opened Text
  import opened Jsmn

  class Parser {
    var pos: nat
    var toknext: nat
    var toksuper: int
    ghost var orphans: nat

    /** jsmn_init. */
    constructor ()
      ensures pos == 0 && toknext == 0 && toksuper == -1 && orphans == 0
    {
      pos, toknext, toksuper, orphans := 0, 0, -1, 0;
    }

    ghost predicate Valid(js: string, tokens: array?<Token>, slots: nat)
      reads this
    {
      && pos <= |js|
      && if tokens == null then toknext == 0 && toksuper == -1
         else -1 <= toksuper < toknext <= slots <= tokens.Length
    }

    ghost function Tokens(tokens: array?<Token>): seq<Token>
      reads this, tokens
      requires tokens != null ==> toknext <= tokens.Length
    {
      if tokens == null then [] else tokens[..toknext]
    }

    ghost function Abs(js: string, tokens: array?<Token>, slots: nat, count: int): (st: State)
      reads this, tokens
      requires Valid(js, tokens, slots)
      ensures Wf(st)
    {
      State(pos, Tokens(tokens), toksuper, count, orphans)
    }

    /** jsmn_alloc_token followed by jsmn_fill_token: the next free slot, or -1 when there is none. */
    method AllocFill(tokens: array<Token>, slots: nat, t: Token) returns (index: int)
      requires toknext <= slots <= tokens.Length
      modifies this`toknext, tokens
      ensures index == -1 <==> old(toknext) >= slots
      ensures index == -1 ==> toknext == old(toknext) && tokens[..] == old(tokens[..])
      ensures index != -1 ==> index == old(toknext) && toknext == index + 1 <= slots
                              && tokens[..toknext] == old(tokens[..toknext]) + [t]
    {
      if toknext >= slots { return -1; }
      index := toknext;
      toknext := toknext + 1;
      tokens[index] := t;
    }

    /** jsmn_parse_primitive: stops on the last character of the primitive. */
    method ParsePrimitive(js: string, tokens: array?<Token>, slots: nat) returns (r: int)
      requires Valid(js, tokens, slots)
      requires Live(js, pos) && !EndsPrimitive(js[pos])
      modifies this`pos, this`toknext, tokens
      ensures var s := ScanPrimitive(js, old(pos));
              match s
              case Bad(code) => r == code && toknext == old(toknext) && (tokens != null ==> tokens[..] == old(tokens[..]))
              case At(e) =>
                if tokens != null && old(toknext) >= slots then r == NOMEM
                else r == 0 && pos == e - 1
                     && (if tokens == null then toknext == old(toknext)
                         else toknext == old(toknext) + 1 <= slots
                              && tokens[..toknext] == old(tokens[..toknext]) + [Token(Primitive, old(pos), e, 0)])
    {
      var start := pos;
      while pos < |js| && js[pos] != NUL && !EndsPrimitive(js[pos])
        invariant start <= pos <= |js|
        invariant ScanPrimitive(js, start) == ScanPrimitive(js, pos)
        invariant toknext == old(toknext)
        invariant tokens != null ==> tokens[..] == old(tokens[..])
      {
        if !IsPrintable(js[pos]) {
          pos := start;
          return INVAL;
        }
        pos := pos + 1;
      }
      if tokens != null {
        var i := AllocFill(tokens, slots, Token(Primitive, start, pos, 0));
        if i == -1 {
          pos := start;
          return NOMEM;
        }
      }
      pos := pos - 1;
      r := 0;
    }

    /** From a backslash to the last character of the escape sequence it starts. */
    method SkipEscape(js: string) returns (r: int)
      requires pos + 1 < |js| && js[pos] == '\\'
      modifies this`pos
      ensures if r == 0 then old(pos) < pos < |js| && ScanString(js, old(pos)) == ScanString(js, pos + 1)
              else r == INVAL && ScanString(js, old(pos)) == Bad(INVAL)
    {
      pos := pos + 1;
      if IsSimpleEscape(js[pos]) { return 0; }
      if js[pos] != 'u' { return INVAL; }
      pos := pos + 1;
      var i := 0;
      while i < 4 && pos < |js| && js[pos] != NUL
        invariant 0 <= i <= 4 && old(pos) + 2 + i == pos <= |js|
        invariant ScanHex(js, old(pos) + 2, 4) == ScanHex(js, pos, 4 - i)
      {
        if !IsHex(js[pos]) { return INVAL; }
        pos := pos + 1;
        i := i + 1;
      }
      pos := pos - 1;
      r := 0;
    }

    /** jsmn_parse_string: from the opening quote to the closing one. */
    method ParseString(js: string, tokens: array?<Token>, slots: nat) returns (r: int)
      requires Valid(js, tokens, slots)
      requires Live(js, pos)
      modifies this`pos, this`toknext, tokens
      ensures var s := ScanString(js, old(pos) + 1);
              match s
              case Bad(code) => r == code && toknext == old(toknext) && (tokens != null ==> tokens[..] == old(tokens[..]))
              case At(e) =>
                if tokens != null && old(toknext) >= slots then r == NOMEM
                else r == 0 && pos == e
                     && (if tokens == null then toknext == old(toknext)
                         else toknext == old(toknext) + 1 <= slots
                              && tokens[..toknext] == old(tokens[..toknext]) + [Token(Str, old(pos) + 1, e, 0)])
    {
      var start := pos;
      pos := pos + 1;
      while pos < |js| && js[pos] != NUL
        invariant start < pos <= |js|
        invariant ScanString(js, start + 1) == ScanString(js, pos)
        invariant toknext == old(toknext)
        invariant tokens != null ==> tokens[..] == old(tokens[..])
        decreases |js| - pos
      {
        var c := js[pos];
        if c == '"' {
          if tokens == null { return 0; }
          var i := AllocFill(tokens, slots, Token(Str, start + 1, pos, 0));
          if i == -1 {
            pos := start;
            return NOMEM;
          }
          return 0;
        }
        if c == '\\' && pos + 1 < |js| {
          var e := SkipEscape(js);
          if e < 0 {
            pos := start;
            return e;
          }
        }
        pos := pos + 1;
      }
      pos := start;
      r := PART;
    }

    /** A backward for-loop over the array: the last token below n that is open (and a container, if asked). */
    method ScanBack(tokens: array<Token>, n: nat, containersOnly: bool) returns (i: int)
      requires n <= toknext <= tokens.Length
      ensures i == LastWhere(tokens[..toknext], n, if containersOnly then IsOpenContainer else IsOpen)
    {
      ghost var f: Token -> bool := if containersOnly then IsOpenContainer else IsOpen;
      i := n - 1;
      while i >= 0
        invariant -1 <= i < n
        invariant LastWhere(tokens[..toknext], n, f) == LastWhere(tokens[..toknext], i + 1, f)
      {
        if (!containersOnly || IsContainer(tokens[i])) && IsOpen(tokens[i]) { return; }
        i := i - 1;
      }
    }

    /** The cases '}' and ']' of the main loop. */
    method CloseToken(js: string, tokens: array<Token>, slots: nat, c: char, ghost count: int) returns (r: int)
      requires Valid(js, tokens, slots) && Live(js, pos)
      modifies this`toksuper, tokens
      ensures var o := Close(old(Abs(js, tokens, slots, count)), c);
              match o
              case Halt(code) => r == code
              case Next(st) => r == 0 && Valid(js, tokens, slots)
                               && tokens[..toknext] == st.toks && toksuper == st.super
    {
      var i := ScanBack(tokens, toknext, false);
      if i == -1 { return INVAL; }
      if tokens[i].typ != BracketType(c) { return INVAL; }
      tokens[i] := tokens[i].(end := pos + 1);
      toksuper := ScanBack(tokens, i + 1, false);
      assert tokens[..toknext] == old(tokens[..toknext])[i := old(tokens[..toknext][i]).(end := pos + 1)];
      r := 0;
    }

    /** tokens[toksuper].size++, when there is a parent. */
    method ChargeParent(tokens: array<Token>, ghost had: seq<Token>)
      requires -1 <= toksuper < |had| <= toknext <= tokens.Length && tokens[..|had|] == had
      modifies this`orphans, tokens
      ensures tokens[..toknext] == Bump(had, toksuper) + old(tokens[..toknext])[|had|..]
      ensures orphans == old(orphans) + if toksuper == -1 then 1 else 0
    {
      if toksuper != -1 {
        tokens[toksuper] := tokens[toksuper].(size := tokens[toksuper].size + 1);
        assert tokens[..|had|] == Bump(had, toksuper);
      } else {
        orphans := orphans + 1;
      }
      assert tokens[..toknext] == tokens[..|had|] + tokens[|had|..toknext];
      assert old(tokens[..toknext])[|had|..] == tokens[|had|..toknext];
    }

    /** The case of a token that becomes the current parent: '{' or '['. */
    method OpenToken(js: string, tokens: array<Token>, slots: nat, ghost count: int) returns (r: int)
      requires Valid(js, tokens, slots) && Live(js, pos) && IsOpener(js[pos])
      modifies this`toknext, this`toksuper, this`orphans, tokens
      ensures match Step(js, old(Abs(js, tokens, slots, count)), Some(slots))
              case Halt(code) => r == code < 0
              case Next(st) => r == 0 && Valid(js, tokens, slots) && Abs(js, tokens, slots, count + 1).(pos := pos + 1) == st
    {
      ghost var had := tokens[..toknext];
      var i := AllocFill(tokens, slots, Token(BracketType(js[pos]), pos, -1, 0));
      if i == -1 { return NOMEM; }
      ChargeParent(tokens, had);
      toksuper := toknext - 1;
      r := 0;
    }

    /** The cases of a string or a primitive. */
    method ScalarToken(js: string, tokens: array?<Token>, slots: nat, ghost count: int) returns (r: int)
      requires Valid(js, tokens, slots) && Live(js, pos)
      requires js[pos] == '"' || !(IsOpener(js[pos]) || EndsPrimitive(js[pos]))
      modifies this`pos, this`toknext, this`orphans, tokens
      ensures var cap := if tokens == null then None else Some(slots);
              match Step(js, old(Abs(js, tokens, slots, count)), cap)
              case Halt(code) => r == code < 0
              case Next(st) => r == 0 && pos < |js| && Valid(js, tokens, slots)
                               && Abs(js, tokens, slots, count + 1).(pos := pos + 1) == st
    {
      hide ScanString, ScanPrimitive, LastWhere;
      ghost var had := Tokens(tokens);
      if js[pos] == '"' {
        r := ParseString(js, tokens, slots);
      } else {
        r := ParsePrimitive(js, tokens, slots);
      }
      if r < 0 { return; }
      if tokens != null { ChargeParent(tokens, had); }
    }

    /** The case ','. */
    method CommaToken(js: string, tokens: array?<Token>, slots: nat, ghost count: int)
      requires Valid(js, tokens, slots) && Live(js, pos)
      modifies this`toksuper
      ensures Valid(js, tokens, slots)
      ensures Abs(js, tokens, slots, count).(pos := pos + 1)
              == if tokens == null then old(Abs(js, tokens, slots, count)).(pos := pos + 1)
                 else Comma(old(Abs(js, tokens, slots, count)))
    {
      if tokens != null && toksuper != -1 && !IsContainer(tokens[toksuper]) {
        var i := ScanBack(tokens, toknext, true);
        if i != -1 { toksuper := i; }
      }
    }

    /** One turn of the main loop. */
    method Turn(js: string, tokens: array?<Token>, slots: nat, count: int) returns (r: int, count': int)
      requires Valid(js, tokens, slots) && Live(js, pos)
      modifies this, tokens
      ensures var cap := if tokens == null then None else Some(slots);
              match Step(js, old(Abs(js, tokens, slots, count)), cap)
              case Halt(code) => r == code < 0
              case Next(st) => r == 0 && Valid(js, tokens, slots) && Abs(js, tokens, slots, count') == st
    {
      hide ScanString, ScanPrimitive, LastWhere;
      var c := js[pos];
      r, count' := 0, count;
      if IsOpener(c) {
        count' := count + 1;
        if tokens != null { r := OpenToken(js, tokens, slots, count); }
      } else if IsCloser(c) {
        if tokens != null { r := CloseToken(js, tokens, slots, c, count); }
      } else if IsBlank(c) {
      } else if c == ':' {
        toksuper := toknext - 1;
      } else if c == ',' {
        CommaToken(js, tokens, slots, count);
      } else {
        r := ScalarToken(js, tokens, slots, count);
        count' := count + 1;
      }
      if r == 0 { pos := pos + 1; }
    }

    /** jsmn_parse: fills the slots, or only counts when tokens is null. */
    method Parse(js: string, tokens: array?<Token>, slots: nat) returns (r: int)
      requires Valid(js, tokens, slots)
      modifies this, tokens
      ensures var cap := if tokens == null then None else Some(slots);
              var q := Run(js, old(Abs(js, tokens, slots, toknext)), cap);
              && r == Code(q)
              && (q.Done? ==> Valid(js, tokens, slots) && Abs(js, tokens, slots, r) == q.st)
    {
      var count: int := toknext;
      ghost var cap := if tokens == null then None else Some(slots);
      ghost var q := Run(js, Abs(js, tokens, slots, count), cap);
      while pos < |js| && js[pos] != NUL
        invariant Valid(js, tokens, slots)
        invariant q == Run(js, Abs(js, tokens, slots, count), cap)
        decreases |js| - pos
      {
        var e;
        e, count := Turn(js, tokens, slots, count);
        if e < 0 { return e; }
      }
      if tokens != null {
        var i := ScanBack(tokens, toknext, false);
        if i != -1 { return PART; }
      }
      r := count;
    }
  }
}
