/**
 The grammar of RFC 8259, section 2, as concrete syntax trees: a Doc is a text together with its structure,
 white space included. Docs are the reference for the tokenizer: for each one, the tokens and the value the
 text must give.
 */
module JsonGrammar {
  import opened Text
  import opened Jsmn
  import opened JsonTree

  /** A list or map without entries keeps its inner white space in blank. */
  datatype Doc =
    | Word(text: string)
    | Quoted(body: string)
    | ListOf(blank: string, items: seq<Item>)
    | MapOf(blank: string, pairs: seq<Pair>)

  datatype Item = Item(before: string, doc: Doc, after: string)

  /** before "key" mid : gap doc after */
  datatype Pair = Pair(before: string, key: string, mid: string, gap: string, doc: Doc, after: string)

  function Flatten(d: Doc): (s: string)
    ensures |s| > 0 || d.Word?
  {
    match d
    case Word(t) => t
    case Quoted(b) => "\"" + b + "\""
    case ListOf(ws, items) => "[" + ((if items == [] then ws else FlattenItems(items)) + "]")
    case MapOf(ws, pairs) => "{" + ((if pairs == [] then ws else FlattenPairs(pairs)) + "}")
  }

  function Separator<T>(s: seq<T>): string { if |s| > 1 then "," else "" }

  function FlattenItems(items: seq<Item>): string {
    if items == [] then ""
    else items[0].before + (Flatten(items[0].doc) + (items[0].after + (Separator(items) + FlattenItems(items[1..]))))
  }

  /** A member up to and including its value. */
  function HeadText(pair: Pair): string {
    pair.before + ("\"" + pair.key + "\"" + (pair.mid + (":" + (pair.gap + Flatten(pair.doc)))))
  }

  function FlattenPairs(pairs: seq<Pair>): string {
    if pairs == [] then ""
    else HeadText(pairs[0]) + (pairs[0].after + (Separator(pairs) + FlattenPairs(pairs[1..])))
  }

  // ------------------------------------------------------------------ well-formed texts

  /** White space (RFC 8259, section 2). */
  predicate IsWhite(c: char) { c == ' ' || c == '\t' || c == '\n' || c == '\r' }

  predicate Blanks(s: string) { forall i :: 0 <= i < |s| ==> IsWhite(s[i]) }

  /** What makes an escape sequence with a backslash alone (RFC 8259, section 7). */
  predicate IsEscapable(c: char) {
    c == '"' || c == '\\' || c == '/' || c == 'b' || c == 'f' || c == 'n' || c == 'r' || c == 't'
  }

  predicate IsHexDigit(c: char) { '0' <= c <= '9' || 'a' <= c <= 'f' || 'A' <= c <= 'F' }

  /** The inside of a string literal: plain characters and escape sequences. Control characters are let through. */
  predicate IsBody(b: string) {
    b == [] ||
    if b[0] == '\\' then
      |b| >= 2 &&
      if IsEscapable(b[1]) then IsBody(b[2..])
      else b[1] == 'u' && |b| >= 6 && (forall i :: 2 <= i < 6 ==> IsHexDigit(b[i])) && IsBody(b[6..])
    else b[0] != '"' && b[0] != NUL && IsBody(b[1..])
  }

  /** White space and the structural characters that can follow a value or a key. */
  predicate EndsWord(c: char) { IsWhite(c) || c == ',' || c == ':' || c == ']' || c == '}' }

  /** Visible ASCII that does not end a word. */
  predicate InWord(c: char) { '!' <= c <= '~' && !EndsWord(c) }

  /** A literal name or a number, and whatever else has no bracket or quote at the front. */
  predicate IsWord(t: string) {
    t != [] && (forall i :: 0 <= i < |t| ==> InWord(t[i])) && t[0] != '"' && t[0] != '[' && t[0] != '{'
  }

  predicate WellFormed(d: Doc) {
    match d
    case Word(t) => IsWord(t)
    case Quoted(b) => IsBody(b)
    case ListOf(ws, items) =>
      Blanks(ws) && forall i :: 0 <= i < |items| ==> WellFormedItem(items[i])
    case MapOf(ws, pairs) =>
      Blanks(ws) && forall i :: 0 <= i < |pairs| ==> WellFormedPair(pairs[i])
  }

  predicate WellFormedItem(i: Item) { Blanks(i.before) && Blanks(i.after) && WellFormed(i.doc) }

  predicate WellFormedPair(p: Pair) {
    Blanks(p.before) && IsBody(p.key) && Blanks(p.mid) && Blanks(p.gap) && Blanks(p.after) && WellFormed(p.doc)
  }

  // ------------------------------------------------------------------ the value and the tokens of a text

  /** What the text denotes to this parser: string bodies stay escaped. */
  function ValueOf(d: Doc): Json {
    match d
    case Word(t) => PrimitiveValue(t)
    case Quoted(b) => Text(b)
    case ListOf(_, items) => Arr(ItemValues(items))
    case MapOf(_, pairs) => Obj(PairValues(pairs))
  }

  function ItemValues(items: seq<Item>): seq<Json> {
    if items == [] then [] else [ValueOf(items[0].doc)] + ItemValues(items[1..])
  }

  function PairValues(pairs: seq<Pair>): seq<Member> {
    if pairs == [] then [] else [Member(pairs[0].key, ValueOf(pairs[0].doc))] + PairValues(pairs[1..])
  }

  /** The tokens of d printed at offset p, parents before children. A key has one child, its value. */
  function TokensOf(d: Doc, p: nat): (toks: seq<Token>)
    ensures toks != []
  {
    match d
    case Word(t) => [Token(Primitive, p, p + |t|, 0)]
    case Quoted(b) => [Token(Str, p + 1, p + 1 + |b|, 0)]
    case ListOf(_, items) => [Token(Array, p, p + |Flatten(d)|, |items|)] + ItemTokens(items, p + 1)
    case MapOf(_, pairs) => [Token(Object, p, p + |Flatten(d)|, |pairs|)] + PairTokens(pairs, p + 1)
  }

  function ItemTokens(items: seq<Item>, p: nat): seq<Token> {
    if items == [] then []
    else
      var q := p + |items[0].before|;
      TokensOf(items[0].doc, q)
      + ItemTokens(items[1..], q + |Flatten(items[0].doc)| + |items[0].after| + |Separator(items)|)
  }

  function KeyToken(key: string, p: nat): Token { Token(Str, p + 1, p + 1 + |key|, 1) }

  function ValueOffset(pair: Pair, p: nat): nat {
    p + |pair.before| + |pair.key| + 2 + |pair.mid| + 1 + |pair.gap|
  }

  function PairTokens(pairs: seq<Pair>, p: nat): seq<Token> {
    if pairs == [] then []
    else
      var q := ValueOffset(pairs[0], p);
      [KeyToken(pairs[0].key, p + |pairs[0].before|)] + TokensOf(pairs[0].doc, q)
      + PairTokens(pairs[1..], q + |Flatten(pairs[0].doc)| + |pairs[0].after| + |Separator(pairs)|)
  }

  lemma {:induction false} TokensAreClosed(d: Doc, p: nat)
    ensures forall i :: 0 <= i < |TokensOf(d, p)| ==> TokensOf(d, p)[i].end >= 0
    decreases d, 0
  {
    match d
    case Word(_) =>
    case Quoted(_) =>
    case ListOf(_, items) => ItemTokensAreClosed(items, p + 1);
    case MapOf(_, pairs) => PairTokensAreClosed(pairs, p + 1);
  }

  lemma {:induction false} ItemTokensAreClosed(items: seq<Item>, p: nat)
    ensures forall i :: 0 <= i < |ItemTokens(items, p)| ==> ItemTokens(items, p)[i].end >= 0
    decreases items, 1
  {
    if items != [] {
      var q := p + |items[0].before|;
      TokensAreClosed(items[0].doc, q);
      ItemTokensAreClosed(items[1..], q + |Flatten(items[0].doc)| + |items[0].after| + |Separator(items)|);
    }
  }

  lemma {:induction false} PairTokensAreClosed(pairs: seq<Pair>, p: nat)
    ensures forall i :: 0 <= i < |PairTokens(pairs, p)| ==> PairTokens(pairs, p)[i].end >= 0
    decreases pairs, 1
  {
    if pairs != [] {
      var q := ValueOffset(pairs[0], p);
      TokensAreClosed(pairs[0].doc, q);
      PairTokensAreClosed(pairs[1..], q + |Flatten(pairs[0].doc)| + |pairs[0].after| + |Separator(pairs)|);
    }
  }
}
