/** The tokenizer on grammatical texts: from any state, the text of a Doc leaves exactly the Doc's tokens. */
module JsonTokenizing {
  import opened Options
  import opened Text
  import opened Jsmn
  import opened JsonTree
  import opened JsonGrammar
  import JsmnReference

  // ------------------------------------------------------------------ scanning literals

  /** The scanners test for the characters of the grammar. */
  lemma CharsAgree(c: char)
    ensures IsSimpleEscape(c) <==> IsEscapable(c)
    ensures IsHex(c) <==> IsHexDigit(c)
    ensures IsBlank(c) <==> IsWhite(c)
    ensures EndsPrimitive(c) <==> EndsWord(c)
    ensures IsPrintable(c) && !EndsPrimitive(c) <==> InWord(c)
  {
  }

  lemma {:induction false} ScanHexRun(js: string, p: nat, n: nat)
    requires p + n <= |js| && forall i :: p <= i < p + n ==> IsHexDigit(js[i])
    ensures ScanHex(js, p, n) == At(p + n)
    decreases n
  {
    if n > 0 {
      CharsAgree(js[p]);
      ScanHexRun(js, p + 1, n - 1);
    }
  }

  /** The scan passes over the first unit of a body. */
  lemma ScanUnit(js: string, p: nat, body: string) returns (n: nat)
    requires IsBody(body) && body != [] && Has(js, p, body)
    ensures 0 < n <= |body| && IsBody(body[n..]) && Has(js, p + n, body[n..])
    ensures p + n <= |js| && ScanString(js, p) == ScanString(js, p + n)
  {
    HasAt(js, p, body, 0);
    n := if body[0] == '\\' then if IsEscapable(body[1]) then 2 else 6 else 1;
    if n > 1 {
      HasAt(js, p, body, 1);
      CharsAgree(body[1]);
    }
    assert body == body[..n] + body[n..];
    HasSplit(js, p, body[..n], body[n..]);
    if n == 6 {
      forall i | p + 2 <= i < p + 6 ensures IsHexDigit(js[i]) { HasAt(js, p, body, i - p); }
      ScanHexRun(js, p + 2, 4);
    }
  }

  lemma {:induction false} ScanBody(js: string, p: nat, body: string)
    requires IsBody(body) && Has(js, p, body + "\"")
    ensures ScanString(js, p) == At(p + |body|)
    decreases |body|
  {
    hide *;
    HasSplit(js, p, body, "\"");
    if body == [] {
      ScanQuote(js, p);
    } else {
      var n := ScanUnit(js, p, body);
      HasSplit(js, p + n, body[n..], "\"");
      ScanBody(js, p + n, body[n..]);
    }
  }

  lemma ScanQuote(js: string, p: nat)
    requires Has(js, p, "\"")
    ensures ScanString(js, p) == At(p)
  {
    HasAt(js, p, "\"", 0);
  }

  /** A hexadecimal scan that stops at another character has read all its digits. */
  lemma {:induction false} ScanHexAll(js: string, p: nat, n: nat)
    requires p <= |js| && ScanHex(js, p, n).At?
    ensures var q := ScanHex(js, p, n).end;
            q < |js| && js[q] != NUL ==> q == p + n && forall i :: p <= i < q ==> IsHexDigit(js[i])
    decreases n
  {
    if n > 0 && p < |js| && js[p] != NUL {
      CharsAgree(js[p]);
      ScanHexAll(js, p + 1, n - 1);
    }
  }

  lemma {:induction false} ScannedIsBody(js: string, p: nat)
    requires p <= |js| && ScanString(js, p).At?
    ensures IsBody(js[p..ScanString(js, p).end])
    decreases |js| - p
  {
    var e := ScanString(js, p).end;
    if e > p {
      var n := if js[p] != '\\' then 1 else if IsSimpleEscape(js[p + 1]) then 2 else 6;
      if js[p] == '\\' { CharsAgree(js[p + 1]); }
      if n == 6 { ScanHexAll(js, p + 2, 4); }
      ScannedIsBody(js, p + n);
      assert js[p..e][n..] == js[p + n..e];
      if n == 6 { assert forall i :: 2 <= i < 6 ==> js[p..e][i] == js[p + i]; }
      hide ScanString, ScanHex;
    }
  }

  /**
   A string scan ends at e exactly when e is a quote and what lies before it is a string body, in which quotes
   stand only in escapes: e is the first quote that is not escaped.
   */
  lemma ScanStringIff(js: string, p: nat, e: nat)
    requires p <= |js|
    ensures ScanString(js, p) == At(e) <==> p <= e < |js| && js[e] == '"' && IsBody(js[p..e])
  {
    if ScanString(js, p) == At(e) { ScannedIsBody(js, p); }
    if p <= e < |js| && js[e] == '"' && IsBody(js[p..e]) {
      assert js[p..e + 1] == js[p..e] + "\"";
      ScanBody(js, p, js[p..e]);
    }
    hide ScanString, IsBody;
  }

  /** A literal whose text ends, or meets a NUL, before its closing quote is cut short. */
  lemma {:induction false} StringCutShort(js: string, p: nat, body: string)
    requires IsBody(body) && Has(js, p, body) && (p + |body| == |js| || js[p + |body|] == NUL)
    ensures ScanString(js, p) == Bad(PART)
    decreases |body|
  {
    if body != [] {
      var n := ScanUnit(js, p, body);
      hide ScanString, IsBody, Has;
      StringCutShort(js, p + n, body[n..]);
    }
  }

  /** A backslash before any other character is malformed. */
  lemma {:induction false} StringBadEscape(js: string, p: nat, body: string)
    requires IsBody(body) && Has(js, p, body + "\\") && p + |body| + 1 < |js|
    requires !IsEscapable(js[p + |body| + 1]) && js[p + |body| + 1] != 'u'
    ensures ScanString(js, p) == Bad(INVAL)
    decreases |body|
  {
    hide *;
    HasSplit(js, p, body, "\\");
    if body == [] {
      ScanBackslash(js, p);
    } else {
      var n := ScanUnit(js, p, body);
      HasSplit(js, p + n, body[n..], "\\");
      StringBadEscape(js, p + n, body[n..]);
    }
  }

  lemma ScanBackslash(js: string, p: nat)
    requires Has(js, p, "\\") && p + 1 < |js| && !IsEscapable(js[p + 1]) && js[p + 1] != 'u'
    ensures ScanString(js, p) == Bad(INVAL)
  {
    HasAt(js, p, "\\", 0);
    CharsAgree(js[p + 1]);
  }

  predicate Delimited(js: string, p: nat) { p >= |js| || EndsWord(js[p]) }

  lemma {:induction false} ScanWord(js: string, p: nat, w: string)
    requires forall i :: 0 <= i < |w| ==> InWord(w[i])
    requires Has(js, p, w) && Delimited(js, p + |w|)
    ensures ScanPrimitive(js, p) == At(p + |w|)
    decreases |w|
  {
    if p < |js| { CharsAgree(js[p]); }
    if w != [] {
      HasAt(js, p, w, 0);
      assert w == w[..1] + w[1..];
      HasSplit(js, p, w[..1], w[1..]);
      ScanWord(js, p + 1, w[1..]);
    }
  }

  /** A primitive scan ends at e exactly when what lies before it is visible text and what stands there ends it. */
  lemma {:induction false} ScanPrimitiveIff(js: string, p: nat, e: nat)
    requires p <= |js|
    ensures ScanPrimitive(js, p) == At(e) <==>
            && p <= e <= |js| && (forall i :: p <= i < e ==> InWord(js[i]))
            && (e == |js| || js[e] == NUL || EndsWord(js[e]))
    decreases |js| - p
  {
    if p < |js| {
      CharsAgree(js[p]);
      if js[p] != NUL && !EndsWord(js[p]) && InWord(js[p]) { ScanPrimitiveIff(js, p + 1, e); }
    }
  }

  // ------------------------------------------------------------------ runs over pieces of text

  lemma BlankStep(js: string, st: State, cap: nat)
    requires Wf(st) && st.pos < |js| && IsWhite(js[st.pos])
    ensures Run(js, st, Some(cap)) == Run(js, st.(pos := st.pos + 1), Some(cap))
  {
    CharsAgree(js[st.pos]);
    hide LastWhere, ScanString, ScanPrimitive;
  }

  lemma {:induction false} SkipBlanks(js: string, st: State, ws: string, cap: nat)
    requires Wf(st) && Blanks(ws) && Has(js, st.pos, ws)
    ensures Run(js, st, Some(cap)) == Run(js, st.(pos := st.pos + |ws|), Some(cap))
    decreases |ws|
  {
    if ws != [] {
      HasAt(js, st.pos, ws, 0);
      CharsAgree(ws[0]);
      assert ws == ws[..1] + ws[1..];
      HasSplit(js, st.pos, ws[..1], ws[1..]);
      hide *;
      BlankStep(js, st, cap);
      var next := st.(pos := st.pos + 1);
      BlanksTail(ws);
      SkipBlanks(js, next, ws[1..], cap);
      assert next.(pos := next.pos + |ws[1..]|) == st.(pos := st.pos + |ws|);
    }
  }

  lemma BlanksTail(ws: string)
    requires Blanks(ws) && ws != []
    ensures Blanks(ws[1..])
  {
  }

  function Nearest(toks: seq<Token>): int { LastWhere(toks, |toks|, IsOpen) }

  /** The parser after the text of d: d's tokens are appended and its parent is charged one child. */
  function After(st: State, d: Doc): (r: State)
    requires Wf(st)
    ensures Wf(r)
  {
    State(st.pos + |Flatten(d)|,
          Bump(st.toks, st.super) + TokensOf(d, st.pos),
          if d.ListOf? || d.MapOf? then Nearest(st.toks) else st.super,
          st.count + |TokensOf(d, st.pos)|,
          if st.super == -1 then st.orphans + 1 else st.orphans)
  }

  /** Charge(toks, i, n): the parent i has received n children. */
  function Charge(toks: seq<Token>, i: nat, n: nat): (r: seq<Token>)
    requires i < |toks|
    ensures |r| == |toks|
  {
    toks[i := toks[i].(size := toks[i].size + n)]
  }

  /** Sizes and later closed tokens do not change which token is the nearest open one. */
  lemma NearestAfter(toks: seq<Token>, super: int, more: seq<Token>)
    requires -1 <= super < |toks|
    requires forall i :: 0 <= i < |more| ==> more[i].end >= 0
    ensures Nearest(Bump(toks, super) + more) == Nearest(toks)
  {
    var all := Bump(toks, super) + more;
    forall k | Nearest(toks) < k < |all| ensures !IsOpen(all[k]) {
      if k < |toks| { assert !IsOpen(toks[k]); }
    }
    JsmnReference.LastWhereIsUnique(all, |all|, IsOpen, Nearest(toks));
  }

  // ------------------------------------------------------------------ one step at a time

  /** One more token, its parent charged, the parser at p with the given parent. */
  function Stored(st: State, t: Token, p: nat, super: int): (r: State)
    requires Wf(st) && -1 <= super <= |st.toks|
    ensures Wf(r)
  {
    State(p, Bump(st.toks, st.super) + [t], super, st.count + 1,
          if st.super == -1 then st.orphans + 1 else st.orphans)
  }

  lemma RunNext(js: string, st: State, st': State, cap: nat)
    requires Wf(st) && Live(js, st.pos) && Step(js, st, Some(cap)) == Next(st')
    ensures Run(js, st, Some(cap)) == Run(js, st', Some(cap))
  {
    hide Step;
  }

  lemma OpenStep(js: string, st: State, typ: TokenType, cap: nat)
    requires Wf(st) && |st.toks| < cap && (typ == Array || typ == Object)
    requires Has(js, st.pos, if typ == Array then "[" else "{")
    ensures Run(js, st, Some(cap)) == Run(js, Stored(st, Token(typ, st.pos, -1, 0), st.pos + 1, |st.toks|), Some(cap))
  {
    HasAt(js, st.pos, if typ == Array then "[" else "{", 0);
  }

  lemma StringStep(js: string, st: State, body: string, cap: nat)
    requires Wf(st) && |st.toks| < cap && IsBody(body)
    requires Has(js, st.pos, "\"" + body + "\"")
    ensures Run(js, st, Some(cap))
            == Run(js, Stored(st, Token(Str, st.pos + 1, st.pos + 1 + |body|, 0), st.pos + |body| + 2, st.super), Some(cap))
  {
    assert "\"" + body + "\"" == "\"" + (body + "\"");
    HasSplit(js, st.pos, "\"", body + "\"");
    HasAt(js, st.pos, "\"", 0);
    ScanBody(js, st.pos + 1, body);
    hide Run, ScanString, ScanPrimitive, IsBody, LastWhere;
    var e := st.pos + 1 + |body|;
    RunNext(js, st, Stored(st, Token(Str, st.pos + 1, e, 0), e + 1, st.super), cap);
  }

  lemma WordStep(js: string, st: State, w: string, cap: nat)
    requires Wf(st) && |st.toks| < cap && IsWord(w)
    requires Has(js, st.pos, w) && Delimited(js, st.pos + |w|)
    ensures Run(js, st, Some(cap))
            == Run(js, Stored(st, Token(Primitive, st.pos, st.pos + |w|, 0), st.pos + |w|, st.super), Some(cap))
  {
    ScanWord(js, st.pos, w);
    HasAt(js, st.pos, w, 0);
    CharsAgree(w[0]);
  }

  lemma ColonStep(js: string, st: State, cap: nat)
    requires Wf(st) && Has(js, st.pos, ":")
    ensures Run(js, st, Some(cap)) == Run(js, st.(pos := st.pos + 1, super := |st.toks| - 1), Some(cap))
  {
    HasAt(js, st.pos, ":", 0);
  }

  /** After an element or a member, the comma makes the container the parent again, whatever the value was. */
  lemma CommaStep(js: string, st: State, at: nat, cap: nat)
    requires Wf(st) && Has(js, st.pos, ",")
    requires at < |st.toks| && Nearest(st.toks) == at && IsContainer(st.toks[at])
    requires st.super == at || (at < st.super && !IsContainer(st.toks[st.super]))
    ensures Run(js, st, Some(cap)) == Run(js, st.(pos := st.pos + 1, super := at), Some(cap))
  {
    HasAt(js, st.pos, ",", 0);
    JsmnReference.LastWhereIsUnique(st.toks, |st.toks|, IsOpenContainer, at);
  }

  lemma CloseStep(js: string, st: State, at: nat, typ: TokenType, cap: nat)
    requires Wf(st) && Has(js, st.pos, if typ == Array then "]" else "}")
    requires at < |st.toks| && Nearest(st.toks) == at && st.toks[at].typ == typ && (typ == Array || typ == Object)
    ensures var toks := st.toks[at := st.toks[at].(end := st.pos + 1)];
            Run(js, st, Some(cap))
            == Run(js, st.(pos := st.pos + 1, toks := toks, super := Nearest(st.toks[..at])), Some(cap))
  {
    HasAt(js, st.pos, if typ == Array then "]" else "}", 0);
    var toks := st.toks[at := st.toks[at].(end := st.pos + 1)];
    var i := LastWhere(toks, at + 1, IsOpen);
    forall k | i < k < at ensures !IsOpen(st.toks[..at][k]) {
      assert !IsOpen(toks[k]);
    }
    JsmnReference.LastWhereIsUnique(st.toks[..at], at, IsOpen, i);
  }

  // ------------------------------------------------------------------ where the pieces of a text lie

  lemma BracketParts(js: string, p: nat, open: string, inner: string, close: string)
    requires Has(js, p, open + (inner + close))
    ensures Has(js, p, open) && Has(js, p + |open|, inner + close)
    ensures Has(js, p + |open|, inner) && Has(js, p + |open| + |inner|, close)
  {
    HasSplit(js, p, open, inner + close);
    HasSplit(js, p + |open|, inner, close);
  }

  /** What follows a value inside a container: blanks, then a comma and the rest, or the closing bracket. */
  lemma TailParts<T>(js: string, p: nat, after: string, s: seq<T>, tail: string, close: string)
    requires Has(js, p, after + (Separator(s) + tail) + close) && Blanks(after)
    requires |s| <= 1 ==> tail == ""
    requires close == "]" || close == "}"
    ensures Delimited(js, p) && Has(js, p, after)
    ensures |s| > 1 ==> Has(js, p + |after|, ",")
    ensures Has(js, p + |after| + |Separator(s)|, tail + close)
  {
    var sep := Separator(s);
    TailDelimits(js, p, after, sep, tail, close);
    hide *;
    SeparatorIs(s);
    Regroup(after, sep, tail, close);
    HasSplit(js, p, after, sep + (tail + close));
    HasSplit(js, p + |after|, sep, tail + close);
  }

  lemma SeparatorIs<T>(s: seq<T>)
    ensures |s| > 1 ==> Separator(s) == ","
  {
  }

  lemma TailDelimits(js: string, p: nat, after: string, sep: string, tail: string, close: string)
    requires Has(js, p, after + (sep + tail) + close) && Blanks(after)
    requires sep == "," || (sep == "" && tail == "")
    requires close == "]" || close == "}"
    ensures Delimited(js, p)
  {
    var text := after + (sep + tail) + close;
    HasAt(js, p, text, 0);
    hide Has;
    assert after != "" ==> text[0] == after[0] && IsWhite(after[0]);
  }

  lemma Regroup(a: string, b: string, c: string, d: string)
    ensures (a + (b + c)) + d == a + (b + (c + d))
    ensures (b + c) + d == b + (c + d)
  {
  }

  lemma HasBound(js: string, p: nat, s: string)
    requires Has(js, p, s)
    ensures p + |s| <= |js|
  {
  }

  lemma EntryParts<T>(js: string, p: nat, before: string, value: string, after: string, s: seq<T>, tail: string,
                      close: string)
    requires Has(js, p, (before + (value + (after + (Separator(s) + tail)))) + close)
    requires Blanks(after) && (|s| <= 1 ==> tail == "") && (close == "]" || close == "}")
    ensures var p1 := p + |before|;
            var p2 := p1 + |value|;
            var p4 := p2 + |after| + |Separator(s)|;
            && Has(js, p, before) && Has(js, p1, value) && Delimited(js, p2) && Has(js, p2, after)
            && (|s| > 1 ==> Has(js, p2 + |after|, ","))
            && Has(js, p4, tail + close)
            && p4 + |tail| < |js|
  {
    var last := after + (Separator(s) + tail);
    HasBound(js, p, (before + (value + last)) + close);
    hide *;
    Regroup(before, value, last, close);
    BracketParts(js, p, before, value, last + close);
    TailParts(js, p + |before| + |value|, after, s, tail, close);
  }

  lemma ItemParts(js: string, p: nat, items: seq<Item>)
    requires items != [] && Has(js, p, FlattenItems(items) + "]") && Blanks(items[0].after)
    ensures var it := items[0];
            var p1 := p + |it.before|;
            var p2 := p1 + |Flatten(it.doc)|;
            var p4 := p2 + |it.after| + |Separator(items)|;
            && Has(js, p, it.before) && Has(js, p1, Flatten(it.doc)) && Delimited(js, p2) && Has(js, p2, it.after)
            && (|items| > 1 ==> Has(js, p2 + |it.after|, ","))
            && Has(js, p4, FlattenItems(items[1..]) + "]")
            && p + |FlattenItems(items)| == p4 + |FlattenItems(items[1..])|
            && p + |FlattenItems(items)| < |js|
  {
    hide Has, Flatten, Blanks, Delimited;
    var it := items[0];
    EntryParts(js, p, it.before, Flatten(it.doc), it.after, items, FlattenItems(items[1..]), "]");
  }

  lemma HeadLength(pair: Pair)
    ensures forall p: nat :: p + |HeadText(pair)| == ValueOffset(pair, p) + |Flatten(pair.doc)|
  {
  }

  lemma PairsParts(js: string, p: nat, pairs: seq<Pair>)
    requires pairs != [] && Has(js, p, FlattenPairs(pairs) + "}") && Blanks(pairs[0].after)
    ensures var pair := pairs[0];
            var p2 := ValueOffset(pair, p) + |Flatten(pair.doc)|;
            var p4 := p2 + |pair.after| + |Separator(pairs)|;
            && Has(js, p, HeadText(pair)) && Delimited(js, p2) && Has(js, p2, pair.after)
            && (|pairs| > 1 ==> Has(js, p2 + |pair.after|, ","))
            && Has(js, p4, FlattenPairs(pairs[1..]) + "}")
            && p + |FlattenPairs(pairs)| == p4 + |FlattenPairs(pairs[1..])|
            && p + |FlattenPairs(pairs)| < |js|
  {
    hide Has, HeadText, Flatten, Blanks, Delimited;
    var pair := pairs[0];
    HeadLength(pair);
    EntryParts(js, p, "", HeadText(pair), pair.after, pairs, FlattenPairs(pairs[1..]), "}") by {
      assert FlattenPairs(pairs) == "" + (HeadText(pair) + (pair.after + (Separator(pairs) + FlattenPairs(pairs[1..]))));
    }
  }

  // ------------------------------------------------------------------ whole values

  lemma {:induction false} LexDoc(js: string, st: State, d: Doc, cap: nat)
    requires WellFormed(d) && Has(js, st.pos, Flatten(d)) && Delimited(js, st.pos + |Flatten(d)|)
    requires Wf(st) && st.count == |st.toks| && |st.toks| + |TokensOf(d, st.pos)| <= cap
    ensures Run(js, st, Some(cap)) == Run(js, After(st, d), Some(cap))
    decreases d, 1
  {
    hide Run;
    match d
    case Word(t) => WordStep(js, st, t, cap);
    case Quoted(b) => StringStep(js, st, b, cap);
    case ListOf(ws, items) => LexList(js, st, ws, items, cap);
    case MapOf(ws, pairs) => LexMap(js, st, ws, pairs, cap);
  }

  lemma OpenedNearest(st: State, typ: TokenType)
    requires Wf(st)
    ensures Nearest(Stored(st, Token(typ, st.pos, -1, 0), st.pos + 1, |st.toks|).toks) == |st.toks|
    ensures Nearest(Stored(st, Token(typ, st.pos, -1, 0), st.pos + 1, |st.toks|).toks[..|st.toks|]) == Nearest(st.toks)
  {
    NearestAfter(st.toks, st.super, []);
    var toks := Stored(st, Token(typ, st.pos, -1, 0), st.pos + 1, |st.toks|).toks;
    assert toks[..|st.toks|] == Bump(st.toks, st.super) + [];
  }

  lemma {:induction false} LexList(js: string, st: State, ws: string, items: seq<Item>, cap: nat)
    requires WellFormed(ListOf(ws, items)) && Has(js, st.pos, Flatten(ListOf(ws, items)))
    requires Wf(st) && st.count == |st.toks| && |st.toks| + |TokensOf(ListOf(ws, items), st.pos)| <= cap
    ensures Run(js, st, Some(cap)) == Run(js, After(st, ListOf(ws, items)), Some(cap))
    decreases ListOf(ws, items), 0
  {
    hide Run, Has, LastWhere, Bump, FlattenItems, FlattenPairs, ItemTokens, PairTokens, Blanks;
    var inner := if items == [] then ws else FlattenItems(items);
    BracketParts(js, st.pos, "[", inner, "]");
    OpenStep(js, st, Array, cap);
    var st1 := Stored(st, Token(Array, st.pos, -1, 0), st.pos + 1, |st.toks|);
    OpenedNearest(st, Array);
    var at := |st.toks|;
    if items == [] {
      SkipBlanks(js, st1, ws, cap);
      EmptyTexts(st1.pos);
      assert Charge(st1.toks, at, 0) + [] == st1.toks;
    } else {
      LexItems(js, st1, items, at, cap);
    }
    CloseAfter(js, st, st1, at, |items|, ItemTokens(items, st1.pos), st1.pos + |inner|, at, Array, cap) by {
      ItemTokensAreClosed(items, st1.pos);
    }
  }

  lemma NearestAfterCharge(toks: seq<Token>, at: nat, n: nat, more: seq<Token>)
    requires at < |toks| && forall i :: 0 <= i < |more| ==> more[i].end >= 0
    ensures Nearest(Charge(toks, at, n) + more) == Nearest(toks)
  {
    var all := Charge(toks, at, n) + more;
    forall k | Nearest(toks) < k < |all| ensures !IsOpen(all[k]) {
      if k < |toks| { assert !IsOpen(toks[k]); }
    }
    JsmnReference.LastWhereIsUnique(all, |all|, IsOpen, Nearest(toks));
  }

  /** A container whose entries have been read: n children charged, their tokens stored. */
  function Filled(st: State, at: nat, n: nat, more: seq<Token>, p: nat, super: int): State
    requires at < |st.toks|
  {
    State(p, Charge(st.toks, at, n) + more, super, st.count + |more|, st.orphans)
  }

  /** Closing the container opened at st1, after its entries. */
  lemma CloseAfter(js: string, st: State, st1: State, at: nat, n: nat, more: seq<Token>, p: nat, super: int,
                   typ: TokenType, cap: nat)
    requires Wf(st) && at == |st.toks| && (typ == Array || typ == Object)
    requires st1 == Stored(st, Token(typ, st.pos, -1, 0), st.pos + 1, at)
    requires forall i :: 0 <= i < |more| ==> more[i].end >= 0
    requires -1 <= super < at + 1 + |more| && Has(js, p, if typ == Array then "]" else "}")
    ensures Run(js, Filled(st1, at, n, more, p, super), Some(cap))
            == Run(js, State(p + 1, Bump(st.toks, st.super) + ([Token(typ, st.pos, p + 1, n)] + more),
                             Nearest(st.toks), st.count + 1 + |more|, st1.orphans), Some(cap))
  {
    hide Run;
    var st2 := Filled(st1, at, n, more, p, super);
    OpenedNearest(st, typ);
    NearestAfterCharge(st1.toks, at, n, more);
    CloseStep(js, st2, at, typ, cap);
    assert st2.toks[..at] == st1.toks[..at];
    assert st2.toks[at := st2.toks[at].(end := p + 1)]
        == Bump(st.toks, st.super) + ([Token(typ, st.pos, p + 1, n)] + more);
  }

  /** The elements of an array, up to its closing bracket. */
  lemma {:induction false} LexItems(js: string, st: State, items: seq<Item>, at: nat, cap: nat)
    requires items != [] && forall i :: 0 <= i < |items| ==> WellFormedItem(items[i])
    requires Has(js, st.pos, FlattenItems(items) + "]")
    requires Wf(st) && st.count == |st.toks| && |st.toks| + |ItemTokens(items, st.pos)| <= cap
    requires at < |st.toks| && st.super == at && Nearest(st.toks) == at && IsContainer(st.toks[at])
    ensures st.pos + |FlattenItems(items)| <= |js|
    ensures Run(js, st, Some(cap))
            == Run(js, Filled(st, at, |items|, ItemTokens(items, st.pos), st.pos + |FlattenItems(items)|, at), Some(cap))
    decreases items, 0
  {
    hide Run, Has, LastWhere, Bump, Flatten, FlattenItems, ItemTokens, TokensOf, WellFormed, Blanks, Delimited;
    var it := items[0];
    ItemParts(js, st.pos, items);
    assert WellFormedItem(it);
    var p1 := st.pos + |it.before|;
    var p4 := p1 + |Flatten(it.doc)| + |it.after| + |Separator(items)|;
    ItemTokensUnfold(items, st.pos);
    var st2 := LexItem(js, st, it, at, cap);
    SkipBlanks(js, st2, it.after, cap);
    var st3 := st2.(pos := st2.pos + |it.after|);
    var more := TokensOf(it.doc, p1);
    if |items| > 1 {
      CommaStep(js, st3, at, cap);
      var st4 := st3.(pos := st3.pos + 1);
      LexItems(js, st4, items[1..], at, cap);
      assert Charge(st4.toks, at, |items| - 1) + ItemTokens(items[1..], st4.pos)
          == Charge(st.toks, at, |items|) + (more + ItemTokens(items[1..], st4.pos));
    } else {
      assert items[1..] == [];
      EmptyTexts(p4);
      assert Charge(st.toks, at, 1) + more == Filled(st, at, 1, more + [], p4, at).toks;
    }
  }

  lemma ItemTokensUnfold(items: seq<Item>, p: nat)
    requires items != []
    ensures var it := items[0];
            var q := p + |it.before|;
            ItemTokens(items, p) == TokensOf(it.doc, q)
              + ItemTokens(items[1..], q + |Flatten(it.doc)| + |it.after| + |Separator(items)|)
  {
  }

  lemma PairTokensUnfold(pairs: seq<Pair>, p: nat)
    requires pairs != []
    ensures var pair := pairs[0];
            var q := ValueOffset(pair, p);
            PairTokens(pairs, p) == [KeyToken(pair.key, p + |pair.before|)] + TokensOf(pair.doc, q)
              + PairTokens(pairs[1..], q + |Flatten(pair.doc)| + |pair.after| + |Separator(pairs)|)
  {
  }

  lemma EmptyTexts(p: nat)
    ensures FlattenItems([]) == "" && FlattenPairs([]) == "" && ItemTokens([], p) == [] && PairTokens([], p) == []
  {
  }

  lemma BumpIsCharge(toks: seq<Token>, at: nat)
    requires at < |toks|
    ensures Bump(toks, at) == Charge(toks, at, 1)
  {
  }

  /** One element with the blanks before it. */
  lemma {:induction false} LexItem(js: string, st: State, it: Item, at: nat, cap: nat) returns (st': State)
    requires WellFormedItem(it)
    requires Has(js, st.pos, it.before) && Has(js, st.pos + |it.before|, Flatten(it.doc))
    requires Delimited(js, st.pos + |it.before| + |Flatten(it.doc)|)
    requires Wf(st) && st.count == |st.toks| && |st.toks| + |TokensOf(it.doc, st.pos + |it.before|)| <= cap
    requires at < |st.toks| && st.super == at && Nearest(st.toks) == at
    ensures st' == Filled(st, at, 1, TokensOf(it.doc, st.pos + |it.before|),
                          st.pos + |it.before| + |Flatten(it.doc)|, at)
    ensures Nearest(st'.toks) == at && Wf(st')
    ensures Run(js, st, Some(cap)) == Run(js, st', Some(cap))
    decreases it
  {
    hide Run, Has, LastWhere, Bump, Delimited, Flatten, TokensOf, WellFormed, Blanks;
    var p1 := st.pos + |it.before|;
    BumpIsCharge(st.toks, at);
    HasBound(js, p1, Flatten(it.doc));
    SkipBlanks(js, st, it.before, cap);
    LexDoc(js, st.(pos := p1), it.doc, cap);
    st' := After(st.(pos := p1), it.doc);
    TokensAreClosed(it.doc, p1);
    NearestAfter(st.toks, at, TokensOf(it.doc, p1));
  }

  lemma {:induction false} LexMap(js: string, st: State, ws: string, pairs: seq<Pair>, cap: nat)
    requires WellFormed(MapOf(ws, pairs)) && Has(js, st.pos, Flatten(MapOf(ws, pairs)))
    requires Wf(st) && st.count == |st.toks| && |st.toks| + |TokensOf(MapOf(ws, pairs), st.pos)| <= cap
    ensures Run(js, st, Some(cap)) == Run(js, After(st, MapOf(ws, pairs)), Some(cap))
    decreases MapOf(ws, pairs), 0
  {
    hide Run, Has, LastWhere, Bump, FlattenItems, FlattenPairs, ItemTokens, PairTokens, Blanks;
    var inner := if pairs == [] then ws else FlattenPairs(pairs);
    BracketParts(js, st.pos, "{", inner, "}");
    OpenStep(js, st, Object, cap);
    var st1 := Stored(st, Token(Object, st.pos, -1, 0), st.pos + 1, |st.toks|);
    OpenedNearest(st, Object);
    var at := |st.toks|;
    var super := at;
    if pairs == [] {
      SkipBlanks(js, st1, ws, cap);
      EmptyTexts(st1.pos);
      assert Charge(st1.toks, at, 0) + [] == st1.toks;
    } else {
      super := LexPairs(js, st1, pairs, at, cap);
    }
    CloseAfter(js, st, st1, at, |pairs|, PairTokens(pairs, st1.pos), st1.pos + |inner|, super, Object, cap) by {
      PairTokensAreClosed(pairs, st1.pos);
    }
  }

  /** "key" mid : gap - from the opening quote to the value; the key becomes the parent. */
  function AfterKey(st: State, at: nat, key: string, p: nat): (r: State)
    requires Wf(st) && at < |st.toks|
    ensures Wf(r)
  {
    State(p, Charge(st.toks, at, 1) + [KeyToken(key, st.pos).(size := 0)], |st.toks|, st.count + 1, st.orphans)
  }

  lemma LexKey(js: string, st: State, pair: Pair, at: nat, cap: nat)
    requires IsBody(pair.key) && Blanks(pair.mid) && Blanks(pair.gap)
    requires Has(js, st.pos, "\"" + pair.key + "\"")
    requires Has(js, st.pos + |pair.key| + 2, pair.mid)
    requires Has(js, st.pos + |pair.key| + 2 + |pair.mid|, ":")
    requires Has(js, st.pos + |pair.key| + 2 + |pair.mid| + 1, pair.gap)
    requires Wf(st) && at < |st.toks| < cap && st.super == at
    ensures var p := st.pos + |pair.key| + 2 + |pair.mid| + 1 + |pair.gap|;
            Run(js, st, Some(cap)) == Run(js, AfterKey(st, at, pair.key, p), Some(cap))
  {
    hide Run;
    StringStep(js, st, pair.key, cap);
    var p1 := st.pos + |pair.key| + 2;
    var st1 := AfterKey(st, at, pair.key, p1).(super := at);
    assert st1 == Stored(st, Token(Str, st.pos + 1, st.pos + 1 + |pair.key|, 0), p1, at);
    SkipBlanks(js, st1, pair.mid, cap);
    var st2 := st1.(pos := p1 + |pair.mid|);
    ColonStep(js, st2, cap);
    SkipBlanks(js, st2.(pos := st2.pos + 1, super := |st.toks|), pair.gap, cap);
  }

  lemma ChargeKey(toks: seq<Token>, key: string, p: nat)
    ensures Bump(toks + [KeyToken(key, p).(size := 0)], |toks|) == toks + [KeyToken(key, p)]
  {
  }

  /** One key and its value: the key token is charged the value, the map's token the key. */
  lemma {:induction false} LexPair(js: string, st: State, pair: Pair, at: nat, cap: nat) returns (st': State)
    requires WellFormedPair(pair)
    requires Has(js, st.pos, HeadText(pair))
    requires Delimited(js, ValueOffset(pair, st.pos) + |Flatten(pair.doc)|)
    requires Wf(st) && st.count == |st.toks|
    requires |st.toks| + 1 + |TokensOf(pair.doc, ValueOffset(pair, st.pos))| <= cap
    requires at < |st.toks| && st.super == at && Nearest(st.toks) == at
    ensures Wf(st') && st'.pos <= |js| && Run(js, st, Some(cap)) == Run(js, st', Some(cap))
    ensures st'.pos == ValueOffset(pair, st.pos) + |Flatten(pair.doc)|
    ensures st'.toks == Charge(st.toks, at, 1) + [KeyToken(pair.key, st.pos + |pair.before|)]
                        + TokensOf(pair.doc, ValueOffset(pair, st.pos))
    ensures st'.super == at || st'.super == |st.toks|
    ensures st'.count == |st'.toks| && st'.orphans == st.orphans
    decreases pair
  {
    hide Run, Has, LastWhere, Bump, Delimited, Flatten, TokensOf, WellFormed, IsBody;
    HasBound(js, st.pos, HeadText(pair));
    HeadLength(pair);
    var key := "\"" + pair.key + "\"";
    var v := Flatten(pair.doc);
    HasSplit(js, st.pos, pair.before, key + (pair.mid + (":" + (pair.gap + v))));
    var p1 := st.pos + |pair.before|;
    HasSplit(js, p1, key, pair.mid + (":" + (pair.gap + v)));
    HasSplit(js, p1 + |key|, pair.mid, ":" + (pair.gap + v));
    HasSplit(js, p1 + |key| + |pair.mid|, ":", pair.gap + v);
    HasSplit(js, p1 + |key| + |pair.mid| + 1, pair.gap, v);
    SkipBlanks(js, st, pair.before, cap);
    var st1 := st.(pos := p1);
    LexKey(js, st1, pair, at, cap);
    var q := ValueOffset(pair, st.pos);
    var st2 := AfterKey(st1, at, pair.key, q);
    LexDoc(js, st2, pair.doc, cap);
    st' := After(st2, pair.doc);
    ChargeKey(Charge(st.toks, at, 1), pair.key, p1);
    NearestAfterCharge(st.toks, at, 1, [KeyToken(pair.key, p1).(size := 0)]);
  }

  /** The members of an object, up to its closing brace. */
  lemma {:induction false} LexPairs(js: string, st: State, pairs: seq<Pair>, at: nat, cap: nat) returns (super: int)
    requires pairs != [] && forall i :: 0 <= i < |pairs| ==> WellFormedPair(pairs[i])
    requires Has(js, st.pos, FlattenPairs(pairs) + "}")
    requires Wf(st) && st.count == |st.toks| && |st.toks| + |PairTokens(pairs, st.pos)| <= cap
    requires at < |st.toks| && st.super == at && Nearest(st.toks) == at && IsContainer(st.toks[at])
    ensures -1 <= super < |st.toks| + |PairTokens(pairs, st.pos)| && st.pos + |FlattenPairs(pairs)| <= |js|
    ensures Run(js, st, Some(cap))
            == Run(js, Filled(st, at, |pairs|, PairTokens(pairs, st.pos), st.pos + |FlattenPairs(pairs)|, super), Some(cap))
    decreases pairs, 0
  {
    hide Run, Has, LastWhere, Bump, Flatten, FlattenPairs, HeadText, PairTokens, TokensOf, WellFormed, Blanks,
         Delimited, IsBody;
    var pair := pairs[0];
    assert WellFormedPair(pair);
    PairsParts(js, st.pos, pairs);
    var q := ValueOffset(pair, st.pos);
    var p4 := q + |Flatten(pair.doc)| + |pair.after| + |Separator(pairs)|;
    PairTokensUnfold(pairs, st.pos);
    var st2 := LexPair(js, st, pair, at, cap);
    SkipBlanks(js, st2, pair.after, cap);
    var st3 := st2.(pos := st2.pos + |pair.after|);
    var more := [KeyToken(pair.key, st.pos + |pair.before|)] + TokensOf(pair.doc, q);
    assert st3.toks == Charge(st.toks, at, 1) + more;
    TokensAreClosed(pair.doc, q);
    NearestAfterCharge(st.toks, at, 1, more);
    if |pairs| > 1 {
      CommaStep(js, st3, at, cap);
      var st4 := st3.(pos := st3.pos + 1, super := at);
      super := LexPairs(js, st4, pairs[1..], at, cap);
      assert Charge(st4.toks, at, |pairs| - 1) + PairTokens(pairs[1..], st4.pos)
          == Charge(st.toks, at, |pairs|) + (more + PairTokens(pairs[1..], st4.pos));
    } else {
      super := st3.super;
      assert pairs[1..] == [];
      EmptyTexts(p4);
      assert Charge(st.toks, at, 1) + more == Filled(st, at, 1, more + [], p4, super).toks;
    }
  }

  /** A whole document with white space around it, given enough slots. */
  lemma LexText(js: string, pre: string, d: Doc, post: string, cap: nat)
    requires js == pre + Flatten(d) + post
    requires WellFormed(d) && Blanks(pre) && Blanks(post)
    requires |TokensOf(d, |pre|)| <= cap
    ensures var r := Run(js, INIT, Some(cap)); r.Done? && r.st.toks == TokensOf(d, |pre|) && Code(r) == |r.st.toks|
  {
    TextParts(pre, Flatten(d), post);
    LexAll(js, pre, d, post, cap);
    var st := After(INIT.(pos := |pre|), d).(pos := |js|);
    TokensAreClosed(d, |pre|);
    NearestAfter([], -1, TokensOf(d, |pre|));
    assert st.toks == TokensOf(d, |pre|) && Bump([], -1) + TokensOf(d, |pre|) == TokensOf(d, |pre|);
  }

  lemma TextParts(a: string, b: string, c: string)
    ensures Has(a + b + c, 0, a) && Has(a + b + c, |a|, b) && Has(a + b + c, |a| + |b|, c)
  {
  }

  lemma DelimitedByBlanks(js: string, p: nat, ws: string)
    requires Has(js, p, ws) && p + |ws| == |js| && Blanks(ws)
    ensures Delimited(js, p)
  {
    if ws != [] { HasAt(js, p, ws, 0); }
  }

  lemma LexAll(js: string, pre: string, d: Doc, post: string, cap: nat)
    requires |js| == |pre| + |Flatten(d)| + |post|
    requires Has(js, 0, pre) && Has(js, |pre|, Flatten(d)) && Has(js, |pre| + |Flatten(d)|, post)
    requires WellFormed(d) && Blanks(pre) && Blanks(post)
    requires |TokensOf(d, |pre|)| <= cap
    ensures Run(js, INIT, Some(cap)) == Run(js, After(INIT.(pos := |pre|), d).(pos := |js|), Some(cap))
  {
    var st := INIT.(pos := |pre|);
    AfterMoves(st, d);
    hide *;
    DelimitedByBlanks(js, |pre| + |Flatten(d)|, post);
    HasBound(js, |pre|, Flatten(d));
    SkipBlanks(js, INIT, pre, cap);
    LexDoc(js, st, d, cap);
    var end := After(st, d);
    SkipBlanks(js, end, post, cap);
    assert end.pos + |post| == |js| && INIT.(pos := INIT.pos + |pre|) == st;
  }

  lemma AfterMoves(st: State, d: Doc)
    requires Wf(st)
    ensures After(st, d).pos == st.pos + |Flatten(d)|
    ensures Wf(INIT) && Wf(st) && Wf(After(st, d)) && |INIT.toks| == 0 && INIT.super == -1 && INIT.pos == 0
  {
    hide Flatten, TokensOf, Bump;
  }
}
