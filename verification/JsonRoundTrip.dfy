/**
 Printing and parsing. Every RFC 8259 text is parsed to the value it denotes, strings left escaped, as long
 as it needs at most JSON_MAX_TOKENS tokens; both printers print such texts.
 */
module JsonRoundTrip {
  import opened Options
  import opened Text
  import opened Jsmn
  import opened JsonTree
  import opened JsonGrammar
  import JsonTokenizing
  import JsmnReference

  // ------------------------------------------------------------------ the builder on a text's own tokens

  lemma BuildWord(js: string, toks: seq<Token>, idx: nat, t: string, p: nat)
    requires InText(js, toks)
    requires Has(toks, idx, TokensOf(Word(t), p)) && Has(js, p, t)
    ensures Build(js, toks, idx) == (Some(PrimitiveValue(t)), idx + 1)
  {
    HasAt(toks, idx, TokensOf(Word(t), p), 0);
    SliceOf(js, p, t);
    hide PrimitiveValue, Has, TokensOf;
    assert Extract(js, toks[idx]) == t;
    hide Extract, InText;
  }

  lemma BuildQuoted(js: string, toks: seq<Token>, idx: nat, b: string, p: nat)
    requires InText(js, toks)
    requires Has(toks, idx, TokensOf(Quoted(b), p)) && Has(js, p, "\"" + (b + "\""))
    ensures Build(js, toks, idx) == (Some(Text(b)), idx + 1)
  {
    HasAt(toks, idx, TokensOf(Quoted(b), p), 0);
    JsonTokenizing.BracketParts(js, p, "\"", b, "\"");
    SliceOf(js, p + 1, b);
    hide Has, TokensOf;
    assert Extract(js, toks[idx]) == b;
    hide Extract, InText;
  }

  /** Flatten, one level down. */
  lemma TextOf(d: Doc)
    ensures match d
            case Word(t) => Flatten(d) == t
            case Quoted(b) => Flatten(d) == "\"" + (b + "\"")
            case ListOf(ws, items) => Flatten(d) == "[" + ((if items == [] then ws else FlattenItems(items)) + "]")
            case MapOf(ws, pairs) => Flatten(d) == "{" + ((if pairs == [] then ws else FlattenPairs(pairs)) + "}")
  {
  }

  lemma SliceOf(js: string, p: nat, s: string)
    requires Has(js, p, s)
    ensures p + |s| <= |js| && js[p..p + |s|] == s
  {
  }

  /** ParseValue consumes exactly the subtree of its token and yields the value of that part of the text. */
  lemma {:induction false} BuildDoc(js: string, toks: seq<Token>, idx: nat, d: Doc, p: nat)
    requires InText(js, toks) && WellFormed(d)
    requires Has(toks, idx, TokensOf(d, p)) && Has(js, p, Flatten(d))
    ensures Build(js, toks, idx) == (Some(ValueOf(d)), idx + |TokensOf(d, p)|)
    decreases d, 0
  {
    hide Has, Blanks, IsBody, IsWord, FlattenItems, FlattenPairs, ItemTokens, PairTokens, ItemValues, PairValues,
         BuildItems, BuildMembers, InText, Flatten, TokensOf, PrimitiveValue;
    TextOf(d);
    match d
    case Word(t) => BuildWord(js, toks, idx, t, p); OneToken(d, p);
    case Quoted(b) => BuildQuoted(js, toks, idx, b, p); OneToken(d, p);
    case ListOf(ws, items) =>
      ListPieces(js, toks, idx, ws, items, p);
      BuildItemsDoc(js, toks, idx + 1, items, p + 1);
    case MapOf(ws, pairs) =>
      MapPieces(js, toks, idx, ws, pairs, p);
      BuildPairsDoc(js, toks, idx + 1, pairs, p + 1);
  }

  lemma OneToken(d: Doc, p: nat)
    requires d.Word? || d.Quoted?
    ensures |TokensOf(d, p)| == 1
  {
  }

  lemma ListTokens(ws: string, items: seq<Item>, p: nat)
    ensures var d := ListOf(ws, items);
            TokensOf(d, p) == [Token(Array, p, p + |Flatten(d)|, |items|)] + ItemTokens(items, p + 1)
  {
    hide Flatten, ItemTokens;
  }

  lemma ListPieces(js: string, toks: seq<Token>, idx: nat, ws: string, items: seq<Item>, p: nat)
    requires Has(toks, idx, TokensOf(ListOf(ws, items), p)) && Has(js, p, Flatten(ListOf(ws, items)))
    ensures idx < |toks| && toks[idx].typ == Array && toks[idx].size == |items|
    ensures Has(toks, idx + 1, ItemTokens(items, p + 1))
    ensures |TokensOf(ListOf(ws, items), p)| == 1 + |ItemTokens(items, p + 1)|
    ensures items != [] ==> Has(js, p + 1, FlattenItems(items) + "]")
  {
    var d := ListOf(ws, items);
    hide *;
    ListTokens(ws, items, p);
    var t := Token(Array, p, p + |Flatten(d)|, |items|);
    HasAt(toks, idx, [t] + ItemTokens(items, p + 1), 0);
    HasSplit(toks, idx, [t], ItemTokens(items, p + 1));
    TextOf(d);
    JsonTokenizing.BracketParts(js, p, "[", if items == [] then ws else FlattenItems(items), "]");
  }

  lemma MapTokens(ws: string, pairs: seq<Pair>, p: nat)
    ensures var d := MapOf(ws, pairs);
            TokensOf(d, p) == [Token(Object, p, p + |Flatten(d)|, |pairs|)] + PairTokens(pairs, p + 1)
  {
    hide Flatten, PairTokens;
  }

  lemma MapPieces(js: string, toks: seq<Token>, idx: nat, ws: string, pairs: seq<Pair>, p: nat)
    requires Has(toks, idx, TokensOf(MapOf(ws, pairs), p)) && Has(js, p, Flatten(MapOf(ws, pairs)))
    ensures idx < |toks| && toks[idx].typ == Object && toks[idx].size == |pairs|
    ensures Has(toks, idx + 1, PairTokens(pairs, p + 1))
    ensures |TokensOf(MapOf(ws, pairs), p)| == 1 + |PairTokens(pairs, p + 1)|
    ensures pairs != [] ==> Has(js, p + 1, FlattenPairs(pairs) + "}")
  {
    var d := MapOf(ws, pairs);
    hide *;
    MapTokens(ws, pairs, p);
    var t := Token(Object, p, p + |Flatten(d)|, |pairs|);
    HasAt(toks, idx, [t] + PairTokens(pairs, p + 1), 0);
    HasSplit(toks, idx, [t], PairTokens(pairs, p + 1));
    TextOf(d);
    JsonTokenizing.BracketParts(js, p, "{", if pairs == [] then ws else FlattenPairs(pairs), "}");
  }

  lemma TokensFit(toks: seq<Token>, idx: nat, mine: seq<Token>)
    requires Has(toks, idx, mine)
    ensures idx + |mine| <= |toks|
  {
  }

  lemma {:induction false} BuildItemsDoc(js: string, toks: seq<Token>, idx: nat, items: seq<Item>, p: nat)
    requires InText(js, toks) && forall i :: 0 <= i < |items| ==> WellFormedItem(items[i])
    requires Has(toks, idx, ItemTokens(items, p))
    requires items != [] ==> Has(js, p, FlattenItems(items) + "]")
    ensures BuildItems(js, toks, idx, |items|) == (ItemValues(items), idx + |ItemTokens(items, p)|)
    decreases items, 1
  {
    hide Has, Blanks, Flatten, FlattenItems, TokensOf, ItemTokens, ValueOf, Build, WellFormed;
    if items == [] {
      JsonTokenizing.EmptyTexts(p);
    } else {
      var it := items[0];
      assert WellFormedItem(it);
      JsonTokenizing.ItemParts(js, p, items);
      JsonTokenizing.ItemTokensUnfold(items, p);
      var q := p + |it.before|;
      var p4 := q + |Flatten(it.doc)| + |it.after| + |Separator(items)|;
      var mine := TokensOf(it.doc, q);
      TokensFit(toks, idx, ItemTokens(items, p));
      HasSplit(toks, idx, mine, ItemTokens(items[1..], p4));
      BuildDoc(js, toks, idx, it.doc, q);
      BuildItemsDoc(js, toks, idx + |mine|, items[1..], p4);
    }
  }

  lemma {:induction false} BuildPairsDoc(js: string, toks: seq<Token>, idx: nat, pairs: seq<Pair>, p: nat)
    requires InText(js, toks) && forall i :: 0 <= i < |pairs| ==> WellFormedPair(pairs[i])
    requires Has(toks, idx, PairTokens(pairs, p))
    requires pairs != [] ==> Has(js, p, FlattenPairs(pairs) + "}")
    ensures BuildMembers(js, toks, idx, |pairs|) == (PairValues(pairs), idx + |PairTokens(pairs, p)|)
    decreases pairs, 1
  {
    hide Has, Blanks, Flatten, FlattenPairs, HeadText, TokensOf, PairTokens, ValueOf, Build, WellFormed, IsBody;
    if pairs == [] {
      JsonTokenizing.EmptyTexts(p);
    } else {
      var pair := pairs[0];
      assert WellFormedPair(pair);
      JsonTokenizing.PairsParts(js, p, pairs);
      JsonTokenizing.PairTokensUnfold(pairs, p);
      KeyAndValueParts(js, p, pair);
      SliceOf(js, p + |pair.before| + 1, pair.key);
      TokensFit(toks, idx, PairTokens(pairs, p));
      var q := ValueOffset(pair, p);
      var p4 := q + |Flatten(pair.doc)| + |pair.after| + |Separator(pairs)|;
      var key, mine := [KeyToken(pair.key, p + |pair.before|)], TokensOf(pair.doc, q);
      HasSplit(toks, idx, key + mine, PairTokens(pairs[1..], p4));
      HasSplit(toks, idx, key, mine);
      HasAt(toks, idx, key, 0);
      BuildDoc(js, toks, idx + 1, pair.doc, q);
      BuildPairsDoc(js, toks, idx + 1 + |mine|, pairs[1..], p4);
    }
  }

  lemma KeyAndValueParts(js: string, p: nat, pair: Pair)
    requires Has(js, p, HeadText(pair))
    ensures Has(js, p + |pair.before| + 1, pair.key) && Has(js, ValueOffset(pair, p), Flatten(pair.doc))
  {
    var v := Flatten(pair.doc);
    var p1 := p + |pair.before|;
    hide Has, Flatten;
    HasSplit(js, p, pair.before, "\"" + pair.key + "\"" + (pair.mid + (":" + (pair.gap + v))));
    HasSplit(js, p1, "\"" + pair.key + "\"", pair.mid + (":" + (pair.gap + v)));
    HasSplit(js, p1 + |pair.key| + 2, pair.mid, ":" + (pair.gap + v));
    HasSplit(js, p1 + |pair.key| + 2 + |pair.mid|, ":", pair.gap + v);
    HasSplit(js, p1 + |pair.key| + 2 + |pair.mid| + 1, pair.gap, v);
    HasSplit(js, p1, "\"" + pair.key, "\"");
    HasSplit(js, p1, "\"", pair.key);
  }

  /** Every RFC 8259 text parses to the value it denotes, unless it needs more than 1024 tokens. */
  lemma ParseOfText(pre: string, d: Doc, post: string)
    requires WellFormed(d) && Blanks(pre) && Blanks(post)
    ensures ParseText(pre + Flatten(d) + post)
            == if |TokensOf(d, |pre|)| <= 1024 then Some(ValueOf(d)) else None
  {
    var js, n := pre + Flatten(d) + post, |TokensOf(d, |pre|)|;
    JsonTokenizing.LexText(js, pre, d, post, n);
    JsmnReference.CountedSlotsSuffice(js, n);
    assert Code(Run(js, INIT, None)) == n;
    if n <= JSON_MAX_TOKENS {
      var r := Run(js, INIT, Some(n));
      JsonTokenizing.TextParts(pre, Flatten(d), post);
      FilledTokensLieInText(js, n);
      BuildDoc(js, r.st.toks, 0, d, |pre|);
    } else {
      JsmnReference.CountedSlotsSuffice(js, JSON_MAX_TOKENS);
    }
  }

  // ------------------------------------------------------------------ what the printers print

  /** v with every string and key replaced by its escaped body. */
  function Escaped(v: Json): Json {
    match v
    case Text(s) => Text(Escape(s))
    case Arr(items) => Arr(EscapedItems(items))
    case Obj(ms) => Obj(EscapedMembers(ms))
    case _ => v
  }

  function EscapedItems(items: seq<Json>): seq<Json> {
    if items == [] then [] else [Escaped(items[0])] + EscapedItems(items[1..])
  }

  function EscapedMembers(ms: seq<Member>): seq<Member> {
    if ms == [] then [] else [Member(Escape(ms[0].key), Escaped(ms[0].value))] + EscapedMembers(ms[1..])
  }

  /** The layout around entries: nothing, or a new line and an indentation. */
  function Gap(pretty: bool, depth: u8): string { if pretty then "\n" + Spaces(2 * depth) else "" }

  function Spaces(n: nat): string { seq(n, i requires 0 <= i < n => ' ') }

  /** One level further in, counted in a byte. */
  function Below(depth: u8): u8 { if depth == 255 then 0 else depth + 1 }

  lemma BelowIs(depth: u8)
    ensures Deeper(depth) == Below(depth)
  {
  }

  lemma {:induction false} IndentIs(depth: nat)
    ensures Indent(depth) == Spaces(2 * depth)
  {
    if depth > 0 { IndentIs(depth - 1); }
  }

  /** The text of v as structure. */
  function DocOf(v: Json, pretty: bool, depth: u8): Doc
    requires Whole(v)
    decreases v
  {
    match v
    case Null => Word("null")
    case Bool(b) => Word(Literal(b))
    case Num(n) => Word(IntText(n.Floor))
    case Text(s) => Quoted(Escape(s))
    case Arr(items) => ListOf("", ItemsOf(items, pretty, depth))
    case Obj(ms) => MapOf("", PairsOf(ms, pretty, depth))
  }

  function ItemsOf(items: seq<Json>, pretty: bool, depth: u8): (r: seq<Item>)
    requires forall i :: 0 <= i < |items| ==> Whole(items[i])
    ensures |r| == |items|
    decreases items
  {
    if items == [] then []
    else [Item(Gap(pretty, Below(depth)), DocOf(items[0], pretty, Below(depth)),
               if |items| == 1 then Gap(pretty, depth) else "")]
         + ItemsOf(items[1..], pretty, depth)
  }

  function PairsOf(ms: seq<Member>, pretty: bool, depth: u8): (r: seq<Pair>)
    requires forall i :: 0 <= i < |ms| ==> Whole(ms[i].value)
    ensures |r| == |ms|
    decreases ms
  {
    if ms == [] then []
    else [Pair(Gap(pretty, Below(depth)), Escape(ms[0].key), "", if pretty then " " else "",
               DocOf(ms[0].value, pretty, Below(depth)), if |ms| == 1 then Gap(pretty, depth) else "")]
         + PairsOf(ms[1..], pretty, depth)
  }

  // -- Serialize

  lemma {:induction false} SerializeIsText(v: Json, depth: u8)
    requires Whole(v)
    ensures Flatten(DocOf(v, false, depth)) == Serialize(v)
    decreases v, 0
  {
    hide FlattenItems, FlattenPairs, ItemsOf, PairsOf, IntText, Escape;
    match v
    case Arr(items) => if items != [] { SerializeItemsIsText(items, depth); }
    case Obj(ms) => if ms != [] { SerializeMembersIsText(ms, depth); }
    case _ =>
  }

  lemma {:induction false} SerializeItemsIsText(items: seq<Json>, depth: u8)
    requires forall i :: 0 <= i < |items| ==> Whole(items[i])
    ensures FlattenItems(ItemsOf(items, false, depth)) == SerializeItems(items)
    decreases items, 1
  {
    hide Flatten, DocOf, Serialize, Whole, Indent;
    if items != [] {
      SerializeIsText(items[0], Below(depth));
      SerializeItemsIsText(items[1..], depth);
      hide Below, FlattenItems, SerializeItems, ItemsOf;
      ItemsUnfold(items, depth);
      ItemLine(Serialize(items[0]), if |items| > 1 then "," else "", SerializeItems(items[1..]));
    }
  }

  lemma ItemsUnfold(items: seq<Json>, depth: u8)
    requires items != [] && forall i :: 0 <= i < |items| ==> Whole(items[i])
    ensures var comma := if |items| > 1 then "," else "";
            && FlattenItems(ItemsOf(items, false, depth))
               == "" + (Flatten(DocOf(items[0], false, Below(depth))) + ("" + (comma + FlattenItems(ItemsOf(items[1..], false, depth)))))
            && SerializeItems(items) == Serialize(items[0]) + comma + SerializeItems(items[1..])
  {
    hide Flatten, DocOf, Serialize, Whole, Spaces;
  }

  lemma ItemLine(entry: string, comma: string, rest: string)
    ensures "" + (entry + ("" + (comma + rest))) == entry + comma + rest
  {
  }

  lemma {:induction false} SerializeMembersIsText(ms: seq<Member>, depth: u8)
    requires forall i :: 0 <= i < |ms| ==> Whole(ms[i].value)
    ensures FlattenPairs(PairsOf(ms, false, depth)) == SerializeMembers(ms)
    decreases ms, 1
  {
    hide Flatten, DocOf, Serialize, Whole, Indent, Escape;
    if ms != [] {
      SerializeIsText(ms[0].value, Deeper(depth));
      SerializeMembersIsText(ms[1..], depth);
      var comma := if |ms| > 1 then "," else "";
      MemberLine(Quote(ms[0].key), Serialize(ms[0].value), comma, SerializeMembers(ms[1..]));
    }
  }

  lemma MemberLine(key: string, entry: string, comma: string, rest: string)
    ensures ("" + (key + ("" + (":" + ("" + entry))))) + ("" + (comma + rest)) == key + ":" + entry + comma + rest
  {
  }

  // -- SerializePretty

  lemma {:induction false} PrettyIsText(v: Json, depth: u8)
    requires Whole(v)
    ensures Flatten(DocOf(v, true, depth)) == SerializePretty(v, depth)
    decreases v, 0
  {
    hide FlattenItems, FlattenPairs, ItemsOf, PairsOf, PrettyItems, PrettyMembers, Indent, IntText, Escape;
    match v
    case Arr(items) => if items != [] { PrettyItemsIsText(items, depth); }
    case Obj(ms) => if ms != [] { PrettyMembersIsText(ms, depth); }
    case _ =>
  }

  /** Line breaks and indentation regrouped: as the printer appends them, and as layout around an entry. */
  lemma Lines(indent: string, entry: string, rest: string, tail: string)
    ensures ("\n" + indent) + (entry + ("" + ("," + ("\n" + rest + "\n" + tail))))
         == "\n" + (indent + entry + ",\n" + rest) + "\n" + tail
    ensures ("\n" + indent) + (entry + (("\n" + tail) + ("" + ""))) == "\n" + (indent + entry + "" + "") + "\n" + tail
  {
  }

  lemma MemberLines(indent: string, key: string, entry: string, rest: string, tail: string)
    ensures ("\n" + indent) + (key + ("" + (":" + (" " + entry)))) + ("" + ("," + ("\n" + rest + "\n" + tail)))
         == "\n" + (indent + key + ": " + entry + ",\n" + rest) + "\n" + tail
    ensures ("\n" + indent) + (key + ("" + (":" + (" " + entry)))) + (("\n" + tail) + ("" + ""))
         == "\n" + (indent + key + ": " + entry + "" + "") + "\n" + tail
  {
  }

  lemma {:induction false} PrettyItemsIsText(items: seq<Json>, depth: u8)
    requires items != [] && forall i :: 0 <= i < |items| ==> Whole(items[i])
    ensures FlattenItems(ItemsOf(items, true, depth)) == "\n" + PrettyItems(items, depth) + "\n" + Indent(depth)
    decreases items, 1
  {
    PrettyIsText(items[0], Deeper(depth));
    var rest := if |items| > 1 then PrettyItems(items[1..], depth) else "";
    if |items| > 1 { PrettyItemsIsText(items[1..], depth); }
    BelowIs(depth);
    IndentIs(depth);
    IndentIs(Deeper(depth));
    hide Flatten, DocOf, SerializePretty, Whole, Indent, Spaces, Deeper;
    Lines(Indent(Deeper(depth)), SerializePretty(items[0], Deeper(depth)), rest, Indent(depth));
  }

  lemma {:induction false} PrettyMembersIsText(ms: seq<Member>, depth: u8)
    requires ms != [] && forall i :: 0 <= i < |ms| ==> Whole(ms[i].value)
    ensures FlattenPairs(PairsOf(ms, true, depth)) == "\n" + PrettyMembers(ms, depth) + "\n" + Indent(depth)
    decreases ms, 1
  {
    PrettyIsText(ms[0].value, Deeper(depth));
    var rest := if |ms| > 1 then PrettyMembers(ms[1..], depth) else "";
    if |ms| > 1 { PrettyMembersIsText(ms[1..], depth); }
    BelowIs(depth);
    IndentIs(depth);
    IndentIs(Deeper(depth));
    hide Flatten, DocOf, SerializePretty, Whole, Indent, Spaces, Deeper, Escape;
    MemberLines(Indent(Deeper(depth)), Quote(ms[0].key), SerializePretty(ms[0].value, Deeper(depth)), rest, Indent(depth));
  }

  // ------------------------------------------------------------------ the printed texts are grammatical

  lemma EscapeCharIsUnit(c: char, rest: string)
    requires c != NUL && IsBody(rest)
    ensures IsBody(EscapeChar(c) + rest)
  {
    var e := EscapeChar(c);
    var b := e + rest;
    assert b[|e|..] == rest;
    if |e| == 6 { assert IsHexDigit(HexDigit(c as int / 16)) && IsHexDigit(HexDigit(c as int % 16)); }
  }

  lemma {:induction false} EscapeIsBody(s: string)
    ensures IsBody(Escape(s))
  {
    if s != [] && s[0] != NUL {
      EscapeIsBody(s[1..]);
      EscapeCharIsUnit(s[0], Escape(s[1..]));
    }
  }

  /** The decimal printing of an integer is a number of the grammar, and reads back as that integer. */
  lemma IntTextIsWord(n: int)
    ensures IsWord(IntText(n)) && PrimitiveValue(IntText(n)) == Num(n as real)
  {
    var t := IntText(n);
    var m := if n < 0 then -n else n;
    IntTextShape(n);
    IntTextValue(t, Dec(m), n < 0);
    DecRoundTrip(m);
  }

  lemma IntTextShape(n: int)
    ensures IsWord(IntText(n)) && (IntText(n)[0] == '-' || IsDigit(IntText(n)[0]))
  {
    var t, d := IntText(n), Dec(if n < 0 then -n else n);
    forall i | 0 <= i < |t| ensures t[i] == '-' || IsDigit(t[i]) {
      if t == d { assert t[i] in d; } else if i > 0 { assert t[i] == d[i - 1] && d[i - 1] in d; }
    }
  }

  lemma IntTextValue(t: string, d: string, neg: bool)
    requires d != [] && forall c :: c in d ==> IsDigit(c)
    requires t == if neg then "-" + d else d
    ensures var x := DecValue(d, 0) as real;
            PrimitiveValue(t) == Num(if neg then -x else x)
  {
    assert d[0] in d;
    LeadingDigitsOf(d, []);
    assert d + [] == d && d[|d|..] == [];
    hide LeadingDigits, DecValue;
    assert UnsignedValue(d) == DecValue(d, 0) as real;
    assert neg ==> t[1..] == d;
  }

  lemma GapIsBlank(pretty: bool, depth: u8)
    ensures Blanks(Gap(pretty, depth))
  {
  }

  lemma BlankTexts()
    ensures Blanks("") && Blanks(" ")
  {
  }

  /** The structure printed is well formed, denotes v with its strings escaped, and has v's token count. */
  lemma {:induction false} DocOfMeansV(v: Json, pretty: bool, depth: u8, p: nat)
    requires Whole(v)
    ensures WellFormed(DocOf(v, pretty, depth))
    ensures ValueOf(DocOf(v, pretty, depth)) == Escaped(v)
    ensures |TokensOf(DocOf(v, pretty, depth), p)| == TokenCount(v)
    decreases v, 0
  {
    match v
    case Num(n) => IntTextIsWord(n.Floor);
    case Text(s) => EscapeIsBody(s);
    case Arr(items) => ItemsOfMean(items, pretty, depth, p + 1);
    case Obj(ms) => PairsOfMean(ms, pretty, depth, p + 1);
    case _ =>
  }

  lemma {:induction false} ItemsOfMean(items: seq<Json>, pretty: bool, depth: u8, p: nat)
    requires forall i :: 0 <= i < |items| ==> Whole(items[i])
    ensures var d := ItemsOf(items, pretty, depth);
            && (forall i :: 0 <= i < |d| ==> WellFormedItem(d[i]))
            && ItemValues(d) == EscapedItems(items)
            && |ItemTokens(d, p)| == ItemsTokenCount(items)
    decreases items, 1
  {
    hide Flatten, DocOf, Whole, Gap, WellFormed, Blanks, TokensOf, ValueOf, Escaped, TokenCount;
    if items != [] {
      var d := ItemsOf(items, pretty, depth);
      var q := p + |d[0].before|;
      DocOfMeansV(items[0], pretty, Below(depth), q);
      BlankTexts();
      ItemsOfMean(items[1..], pretty, depth, q + |Flatten(d[0].doc)| + |d[0].after| + |Separator(d)|);
      GapIsBlank(pretty, depth);
      GapIsBlank(pretty, Below(depth));
      assert d[1..] == ItemsOf(items[1..], pretty, depth);
    }
  }

  lemma {:induction false} PairsOfMean(ms: seq<Member>, pretty: bool, depth: u8, p: nat)
    requires forall i :: 0 <= i < |ms| ==> Whole(ms[i].value)
    ensures var d := PairsOf(ms, pretty, depth);
            && (forall i :: 0 <= i < |d| ==> WellFormedPair(d[i]))
            && PairValues(d) == EscapedMembers(ms)
            && |PairTokens(d, p)| == MembersTokenCount(ms)
    decreases ms, 1
  {
    hide Flatten, DocOf, Whole, Gap, WellFormed, Blanks, TokensOf, ValueOf, Escaped, TokenCount, IsBody, Escape;
    BlankTexts();
    if ms != [] {
      var d := PairsOf(ms, pretty, depth);
      var q := ValueOffset(d[0], p);
      DocOfMeansV(ms[0].value, pretty, Below(depth), q);
      EscapeIsBody(ms[0].key);
      PairsOfMean(ms[1..], pretty, depth, q + |Flatten(d[0].doc)| + |d[0].after| + |Separator(d)|);
      GapIsBlank(pretty, depth);
      GapIsBlank(pretty, Below(depth));
      assert d[1..] == PairsOf(ms[1..], pretty, depth);
    }
  }

  /** One token for each value and each key. */
  function TokenCount(v: Json): nat {
    match v
    case Arr(items) => 1 + ItemsTokenCount(items)
    case Obj(ms) => 1 + MembersTokenCount(ms)
    case _ => 1
  }

  function ItemsTokenCount(items: seq<Json>): nat {
    if items == [] then 0 else TokenCount(items[0]) + ItemsTokenCount(items[1..])
  }

  function MembersTokenCount(ms: seq<Member>): nat {
    if ms == [] then 0 else 1 + TokenCount(ms[0].value) + MembersTokenCount(ms[1..])
  }

  // ------------------------------------------------------------------ the round trip

  lemma ParseOfDoc(v: Json, pretty: bool, depth: u8)
    requires Whole(v)
    ensures ParseText(Flatten(DocOf(v, pretty, depth)))
            == if TokenCount(v) <= 1024 then Some(Escaped(v)) else None
  {
    var d := DocOf(v, pretty, depth);
    DocOfMeansV(v, pretty, depth, 0);
    hide ParseText, DocOf, Flatten, WellFormed, Whole, TokensOf, ValueOf, Escaped, TokenCount;
    assert Blanks("") by { BlankTexts(); }
    ParseOfText("", d, "");
    assert "" + Flatten(d) + "" == Flatten(d);
  }

  /** Parsing what either printer printed gives the value back with its strings escaped, up to the token cap. */
  lemma ParseOfPrint(v: Json, depth: u8)
    requires Whole(v)
    ensures var expected := if TokenCount(v) <= 1024 then Some(Escaped(v)) else None;
            ParseText(Serialize(v)) == expected && ParseText(SerializePretty(v, depth)) == expected
  {
    hide *;
    SerializeIsText(v, 0);
    ParseOfDoc(v, false, 0);
    PrettyIsText(v, depth);
    ParseOfDoc(v, true, depth);
  }

  /** A character that stands for itself in a string literal (RFC 8259, section 7). */
  predicate PlainChar(c: char) { ' ' <= c && c != '"' && c != '\\' }

  predicate PlainText(s: string) { forall i :: 0 <= i < |s| ==> PlainChar(s[i]) }

  lemma PlainCharIff(c: char)
    ensures EscapeChar(c) == [c] <==> PlainChar(c)
  {
    var e := EscapeChar(c);
    assert !PlainChar(c) ==> |e| != 1;
  }

  /** No string or key in v has a character that must be escaped. */
  predicate Plain(v: Json) {
    match v
    case Text(s) => PlainText(s)
    case Arr(items) => PlainItems(items)
    case Obj(ms) => PlainMembers(ms)
    case _ => true
  }

  predicate PlainItems(items: seq<Json>) {
    items == [] || (Plain(items[0]) && PlainItems(items[1..]))
  }

  predicate PlainMembers(ms: seq<Member>) {
    ms == [] || (PlainText(ms[0].key) && Plain(ms[0].value) && PlainMembers(ms[1..]))
  }

  lemma EscapeCharHasNoNul(c: char)
    ensures c != NUL ==> NUL !in EscapeChar(c)
  {
    var e := EscapeChar(c);
    if |e| == 6 { HexDigitValue(c as int / 16); HexDigitValue(c as int % 16); }
  }

  lemma {:induction false} EscapeGrows(s: string)
    ensures NUL !in Escape(s)
    ensures NUL !in s ==> |Escape(s)| >= |s|
  {
    if s != [] {
      EscapeGrows(s[1..]);
      assert NUL !in s ==> NUL !in s[1..];
      EscapeCharHasNoNul(s[0]);
      hide EscapeChar;
    }
  }

  lemma {:induction false} EscapeFixed(s: string)
    ensures Escape(s) == s <==> PlainText(s)
  {
    if s != [] {
      var e, rest := EscapeChar(s[0]), Escape(s[1..]);
      PlainCharIff(s[0]);
      if s[0] != NUL && e == [s[0]] {
        EscapeFixed(s[1..]);
        assert Escape(s)[1..] == rest;
        PlainTail(s);
      } else {
        assert !PlainText(s) && Escape(s) == (if s[0] == NUL then [] else e + rest);
        EscapeGrows(s);
        EscapeGrows(s[1..]);
        hide Escape, EscapeChar;
        assert forall c :: c in s[1..] ==> c in s;
        assert NUL in s ==> Escape(s) != s;
        assert NUL !in s ==> |Escape(s)| > |s|;
      }
    }
  }

  lemma PlainTail(s: string)
    requires s != [] && PlainChar(s[0])
    ensures PlainText(s) <==> PlainText(s[1..])
  {
    hide PlainChar;
    if PlainText(s[1..]) {
      forall i | 0 <= i < |s| ensures PlainChar(s[i]) { if i > 0 { assert s[i] == s[1..][i - 1]; } }
    }
    if PlainText(s) {
      forall i | 0 <= i < |s| - 1 ensures PlainChar(s[1..][i]) { assert s[1..][i] == s[i + 1]; }
    }
  }

  lemma {:induction false} EscapedFixed(v: Json)
    ensures Escaped(v) == v <==> Plain(v)
    decreases v, 0
  {
    match v
    case Text(s) => EscapeFixed(s);
    case Arr(items) => EscapedItemsFixed(items);
    case Obj(ms) => EscapedMembersFixed(ms);
    case _ =>
  }

  lemma {:induction false} EscapedItemsFixed(items: seq<Json>)
    ensures EscapedItems(items) == items <==> PlainItems(items)
    decreases items, 1
  {
    if items != [] {
      EscapedFixed(items[0]);
      EscapedItemsFixed(items[1..]);
      var r := EscapedItems(items);
      assert r[0] == Escaped(items[0]) && r[1..] == EscapedItems(items[1..]);
      assert items == [items[0]] + items[1..];
    }
  }

  lemma {:induction false} EscapedMembersFixed(ms: seq<Member>)
    ensures EscapedMembers(ms) == ms <==> PlainMembers(ms)
    decreases ms, 1
  {
    if ms != [] {
      EscapeFixed(ms[0].key);
      EscapedFixed(ms[0].value);
      EscapedMembersFixed(ms[1..]);
      hide Escape, Escaped, PlainText, Plain;
      var r := EscapedMembers(ms);
      assert r[0] == Member(Escape(ms[0].key), Escaped(ms[0].value)) && r[1..] == EscapedMembers(ms[1..]);
      assert ms == [ms[0]] + ms[1..];
    }
  }

  /** The exact round trip holds if and only if nothing needs escaping and the token cap is respected. */
  lemma RoundTripIff(v: Json)
    requires Whole(v)
    ensures ParseText(Serialize(v)) == Some(v) <==> Plain(v) && TokenCount(v) <= 1024
  {
    ParseOfPrint(v, 2);
    EscapedFixed(v);
  }

  // ------------------------------------------------------------------ no information is lost

  function HexValue(c: char): nat
    requires IsHexDigit(c)
  {
    if IsDigit(c) then DigitValue(c) else if 'A' <= c <= 'F' then c as int - 'A' as int + 10 else c as int - 'a' as int + 10
  }

  /** The characters a string body stands for (RFC 8259, section 7), for escapes below U+0100. */
  function Unescape(b: string): string {
    if b == [] then []
    else if b[0] != '\\' || |b| < 2 then [b[0]] + Unescape(b[1..])
    else if b[1] == 'u' && |b| >= 6 && IsHexDigit(b[4]) && IsHexDigit(b[5]) then
      [(HexValue(b[4]) * 16 + HexValue(b[5])) as char] + Unescape(b[6..])
    else [match b[1]
          case 'b' => '\U{0008}' case 'f' => '\U{000C}' case 'n' => '\n' case 'r' => '\r' case 't' => '\t'
          case c => c] + Unescape(b[2..])
  }

  lemma HexDigitValue(n: nat)
    requires n < 16
    ensures IsHexDigit(HexDigit(n)) && HexValue(HexDigit(n)) == n
  {
  }

  lemma UnescapeUnit(c: char, rest: string)
    ensures Unescape(EscapeChar(c) + rest) == [c] + Unescape(rest)
  {
    var e := EscapeChar(c);
    var b := e + rest;
    assert b[|e|..] == rest;
    if |e| == 6 { ControlUnit(c, rest); }
    hide HexValue, HexDigit, IsHexDigit;
  }

  lemma ControlUnit(c: char, rest: string)
    requires c as int < 32
    ensures Unescape("\\u00" + [HexDigit(c as int / 16), HexDigit(c as int % 16)] + rest) == [c] + Unescape(rest)
  {
    var x, y := HexDigit(c as int / 16), HexDigit(c as int % 16);
    HexDigitValue(c as int / 16);
    HexDigitValue(c as int % 16);
    var b := "\\u00" + [x, y] + rest;
    assert b[0] == '\\' && b[1] == 'u' && b[4] == x && b[5] == y && b[6..] == rest;
    hide HexValue, HexDigit, IsHexDigit;
  }

  /** Decoding an escaped body gives the string back, so the escaped tree determines the printed one. */
  lemma {:induction false} UnescapeInvertsEscape(s: string)
    requires NUL !in s
    ensures Unescape(Escape(s)) == s
  {
    if s != [] {
      assert s[0] in s && forall c :: c in s[1..] ==> c in s;
      UnescapeInvertsEscape(s[1..]);
      UnescapeUnit(s[0], Escape(s[1..]));
    }
  }
}
