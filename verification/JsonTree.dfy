/** The JSON values of json.h, the two printers, and what the tree builder makes of a token array. */
module JsonTree {
  import opened Options
  import opened Text
  import opened Jsmn
  import JsmnInvariants

  datatype Json =
    | Null
    | Bool(b: bool)
    | Num(n: real)
    | Text(s: string)
    | Arr(items: seq<Json>)
    | Obj(members: seq<Member>)

  datatype Member = Member(key: string, value: Json)

  const JSON_MAX_TOKENS := 4096 / 4

  // ------------------------------------------------------------------ printing

  /** Numbers that DoubleToCString prints as integers. */
  predicate WholeNumber(n: real) {
    n == n.Floor as real && -1000000000000000.0 <= n <= 1000000000000000.0
  }

  /** Every number in v is printed as an integer. */
  predicate Whole(v: Json) {
    match v
    case Num(n) => WholeNumber(n)
    case Arr(items) => forall i :: 0 <= i < |items| ==> Whole(items[i])
    case Obj(ms) => forall i :: 0 <= i < |ms| ==> Whole(ms[i].value)
    case _ => true
  }

  function HexDigit(n: nat): char
    requires n < 16
  {
    "0123456789abcdef"[n]
  }

  /** One character inside a string literal. */
  function EscapeChar(c: char): (s: string)
    ensures s != []
    ensures |s| == 1 ==> s == [c]
  {
    match c
    case '"' => "\\\""
    case '\\' => "\\\\"
    case '\U{0008}' => "\\b"
    case '\U{000C}' => "\\f"
    case '\n' => "\\n"
    case '\r' => "\\r"
    case '\t' => "\\t"
    case _ => if c as int < 0x20 then "\\u00" + [HexDigit(c as int / 16), HexDigit(c as int % 16)] else [c]
  }

  function Escape(s: string): string {
    if s == [] || s[0] == NUL then [] else EscapeChar(s[0]) + Escape(s[1..])
  }

  function Quote(s: string): string { "\"" + Escape(s) + "\"" }

  function Literal(b: bool): string { if b then "true" else "false" }

  /** JsonValue::Serialize. */
  function Serialize(v: Json): string
    requires Whole(v)
    decreases v
  {
    match v
    case Null => "null"
    case Bool(b) => Literal(b)
    case Num(n) => IntText(n.Floor)
    case Text(s) => Quote(s)
    case Arr(items) => "[" + SerializeItems(items) + "]"
    case Obj(ms) => "{" + SerializeMembers(ms) + "}"
  }

  function SerializeItems(items: seq<Json>): string
    requires forall i :: 0 <= i < |items| ==> Whole(items[i])
    decreases items
  {
    if items == [] then ""
    else Serialize(items[0]) + (if |items| > 1 then "," else "") + SerializeItems(items[1..])
  }

  function SerializeMembers(ms: seq<Member>): string
    requires forall i :: 0 <= i < |ms| ==> Whole(ms[i].value)
    decreases ms
  {
    if ms == [] then ""
    else Quote(ms[0].key) + ":" + Serialize(ms[0].value)
         + (if |ms| > 1 then "," else "") + SerializeMembers(ms[1..])
  }

  type u8 = n: nat | n < 256

  /** AppendIndent; the depth is an unsigned byte and wraps. */
  function Indent(depth: nat): string { if depth == 0 then "" else "  " + Indent(depth - 1) }

  function Deeper(depth: u8): u8 { (depth + 1) % 256 }

  /** JsonValue::SerializePretty. */
  function SerializePretty(v: Json, depth: u8): string
    requires Whole(v)
    decreases v
  {
    match v
    case Null => "null"
    case Bool(b) => Literal(b)
    case Num(n) => IntText(n.Floor)
    case Text(s) => Quote(s)
    case Arr(items) =>
      if items == [] then "[]"
      else "[\n" + PrettyItems(items, depth) + "\n" + Indent(depth) + "]"
    case Obj(ms) =>
      if ms == [] then "{}"
      else "{\n" + PrettyMembers(ms, depth) + "\n" + Indent(depth) + "}"
  }

  function PrettyItems(items: seq<Json>, depth: u8): string
    requires forall i :: 0 <= i < |items| ==> Whole(items[i])
    decreases items
  {
    if items == [] then ""
    else Indent(Deeper(depth)) + SerializePretty(items[0], Deeper(depth))
         + (if |items| > 1 then ",\n" else "") + PrettyItems(items[1..], depth)
  }

  function PrettyMembers(ms: seq<Member>, depth: u8): string
    requires forall i :: 0 <= i < |ms| ==> Whole(ms[i].value)
    decreases ms
  {
    if ms == [] then ""
    else Indent(Deeper(depth)) + Quote(ms[0].key) + ": " + SerializePretty(ms[0].value, Deeper(depth))
         + (if |ms| > 1 then ",\n" else "") + PrettyMembers(ms[1..], depth)
  }

  // ------------------------------------------------------------------ numbers

  /** The digits after the decimal point, the first one worth unit. */
  function FractionValue(d: string, unit: real): real
    requires forall c :: c in d ==> IsDigit(c)
  {
    if d == [] then 0.0 else DigitValue(d[0]) as real * unit + FractionValue(d[1..], unit * 0.1)
  }

  function Pow10(n: nat): (r: real)
    ensures r > 0.0
  {
    if n == 0 then 1.0 else Pow10(n - 1) * 10.0
  }

  predicate Starts(s: string, cs: string) { s != [] && s[0] in cs }

  /** The exponent part: the factor it stands for, dividing or multiplying. */
  function Scaled(x: real, s: string): real {
    if !Starts(s, "eE") then x
    else
      var t := s[1..];
      var d := LeadingDigits(if Starts(t, "-+") then t[1..] else t);
      if Starts(t, "-") then x / Pow10(DecValue(d, 0)) else x * Pow10(DecValue(d, 0))
  }

  /** Digits, then an optional fraction, then an optional exponent. */
  function UnsignedValue(q: string): real {
    var whole := LeadingDigits(q);
    var rest := q[|whole|..];
    if Starts(rest, ".") then
      var frac := LeadingDigits(rest[1..]);
      Scaled(DecValue(whole, 0) as real + FractionValue(frac, 0.1), rest[1..][|frac|..])
    else Scaled(DecValue(whole, 0) as real, rest)
  }

  /** ParseDouble, over exact reals. */
  function NumberValue(p: string): real {
    if Starts(p, "-") then -UnsignedValue(p[1..]) else UnsignedValue(p)
  }

  // ------------------------------------------------------------------ the builder

  /** Every token's text lies inside js. */
  ghost predicate InText(js: string, toks: seq<Token>) {
    forall i :: 0 <= i < |toks| && toks[i].start < toks[i].end ==> 0 <= toks[i].start && toks[i].end <= |js|
  }

  /** ExtractToken: nothing is unescaped. */
  function Extract(js: string, t: Token): string
    requires t.start < t.end ==> 0 <= t.start && t.end <= |js|
  {
    if t.end <= t.start then "" else js[t.start..t.end]
  }

  function PrimitiveValue(raw: string): Json {
    if raw == "null" then Null
    else if raw == "true" then Bool(true)
    else if raw == "false" then Bool(false)
    else Num(NumberValue(raw))
  }

  /** ParseValue: the value that starts at token idx, and the index after it; it always moves on. */
  function Build(js: string, toks: seq<Token>, idx: nat): (r: (Option<Json>, nat))
    requires InText(js, toks)
    ensures idx >= |toks| ==> r == (None, idx)
    ensures idx < |toks| ==> idx < r.1 <= |toks|
    decreases if idx <= |toks| then |toks| - idx else 0, 0
  {
    if idx >= |toks| then (None, idx)
    else
      var t := toks[idx];
      match t.typ
      case Primitive => (Some(PrimitiveValue(Extract(js, t))), idx + 1)
      case Str => (Some(Text(Extract(js, t))), idx + 1)
      case Array =>
        var (items, next) := BuildItems(js, toks, idx + 1, t.size);
        (Some(Arr(items)), next)
      case Object =>
        var (members, next) := BuildMembers(js, toks, idx + 1, t.size);
        (Some(Obj(members)), next)
      case Undefined => (None, idx + 1)
  }

  function BuildItems(js: string, toks: seq<Token>, idx: nat, n: int): (r: (seq<Json>, nat))
    requires InText(js, toks) && idx <= |toks|
    ensures idx <= r.1 <= |toks|
    decreases |toks| - idx, 1
  {
    if n <= 0 || idx >= |toks| then ([], idx)
    else
      var (v, next) := Build(js, toks, idx);
      var (rest, end) := BuildItems(js, toks, next, n - 1);
      ((if v.Some? then [v.value] else []) + rest, end)
  }

  function BuildMembers(js: string, toks: seq<Token>, idx: nat, n: int): (r: (seq<Member>, nat))
    requires InText(js, toks) && idx <= |toks|
    ensures idx <= r.1 <= |toks|
    decreases |toks| - idx, 1
  {
    if n <= 0 || idx >= |toks| || toks[idx].typ != Str then ([], idx)
    else if idx + 1 >= |toks| then ([], idx + 1)
    else
      var (v, next) := Build(js, toks, idx + 1);
      var (rest, end) := BuildMembers(js, toks, next, n - 1);
      ((if v.Some? then [Member(Extract(js, toks[idx]), v.value)] else []) + rest, end)
  }

  /** JsonDocument::Parse: count, allocate at most JSON_MAX_TOKENS slots, fill, build. */
  function ParseText(js: string): Option<Json> {
    var needed := Code(Run(js, INIT, None));
    if needed <= 0 then None
    else
      var slots := if needed > JSON_MAX_TOKENS then JSON_MAX_TOKENS else needed;
      var filled := Run(js, INIT, Some(slots));
      if Code(filled) <= 0 || filled.Failed? then None
      else FilledTokensLieInText(js, slots); Build(js, filled.st.toks, 0).0
  }

  lemma FilledTokensLieInText(js: string, slots: nat)
    ensures var r := Run(js, INIT, Some(slots)); r.Done? ==> InText(js, r.st.toks)
  {
    JsmnInvariants.FillTokens(js, slots);
    var r := Run(js, INIT, Some(slots));
    if r.Done? {
      forall i | 0 <= i < |r.st.toks| ensures 0 <= r.st.toks[i].start && r.st.toks[i].end <= |js| {
        assert JsmnInvariants.TokenOk(js, |js|, r.st.toks[i]);
      }
    }
  }
}
