/** The loops and index-passing recursion of json.cpp, proved against the functions of module JsonTree. */
module JsonDocument {
  import opened Options
  import opened Text
  import opened Jsmn
  import JsmnInvariants
  import opened JsonTree
  import JsmnParser

  /** JsonValue::SerializeString: appends the literal character by character. */
  method SerializeString(out: string, str: string) returns (r: string)
    ensures r == out + Quote(str)
  {
    hide EscapeChar;
    r := out + "\"";
    var i := 0;
    while i < |str| && str[i] != NUL
      invariant 0 <= i <= |str|
      invariant out + "\"" + Escape(str) == r + Escape(str[i..])
    {
      r := r + EscapeChar(str[i]);
      assert str[i..][1..] == str[i + 1..];
      i := i + 1;
    }
    assert Escape(str[i..]) == "" && r + "" == r;
    assert out + Quote(str) == out + "\"" + Escape(str) + "\"";
    r := r + "\"";
  }

  /** JsonDocument::ExtractToken: copies the characters between start and end. */
  method ExtractToken(js: string, start: int, end: int) returns (r: string)
    requires start < end ==> 0 <= start && end <= |js|
    ensures r == Extract(js, Token(Undefined, start, end, 0))
  {
    if end - start <= 0 { return ""; }
    r := "";
    var i := 0;
    while i < end - start
      invariant 0 <= i <= end - start
      invariant r == js[start..start + i]
    {
      r := r + [js[start + i]];
      i := i + 1;
    }
  }

  lemma SameExtract(js: string, t: Token)
    requires t.start < t.end ==> 0 <= t.start && t.end <= |js|
    ensures Extract(js, Token(Undefined, t.start, t.end, 0)) == Extract(js, t)
  {
  }

  /** A digit loop of ParseDouble, from position i on. */
  method ReadDigits(p: string, i: nat) returns (j: nat, n: nat)
    requires i <= |p|
    ensures j == i + |LeadingDigits(p[i..])| <= |p|
    ensures n == DecValue(LeadingDigits(p[i..]), 0)
  {
    j, n := i, 0;
    while j < |p| && IsDigit(p[j])
      invariant i <= j <= |p|
      invariant i + |LeadingDigits(p[i..])| == j + |LeadingDigits(p[j..])|
      invariant DecValue(LeadingDigits(p[i..]), 0) == DecValue(LeadingDigits(p[j..]), n)
    {
      assert p[j..][1..] == p[j + 1..];
      var d := LeadingDigits(p[j..]);
      assert d[1..] == LeadingDigits(p[j + 1..]);
      n := n * 10 + DigitValue(p[j]);
      j := j + 1;
    }
    assert LeadingDigits(p[j..]) == "";
  }

  /** The loop after the decimal point. */
  method ReadFraction(p: string, i: nat) returns (j: nat, x: real)
    requires i <= |p|
    ensures j == i + |LeadingDigits(p[i..])| <= |p|
    ensures x == FractionValue(LeadingDigits(p[i..]), 0.1)
  {
    var unit;
    j, x, unit := i, 0.0, 0.1;
    while j < |p| && IsDigit(p[j])
      invariant i <= j <= |p|
      invariant i + |LeadingDigits(p[i..])| == j + |LeadingDigits(p[j..])|
      invariant FractionValue(LeadingDigits(p[i..]), 0.1) == x + FractionValue(LeadingDigits(p[j..]), unit)
    {
      assert p[j..][1..] == p[j + 1..];
      var d := LeadingDigits(p[j..]);
      assert d[1..] == LeadingDigits(p[j + 1..]);
      x := x + DigitValue(p[j]) as real * unit;
      unit := unit * 0.1;
      j := j + 1;
    }
    assert LeadingDigits(p[j..]) == "";
  }

  /** JsonDocument::ParseDouble over exact reals. */
  method ParseDouble(p: string) returns (d: real)
    ensures d == NumberValue(p)
  {
    var neg, i := false, 0;
    if i < |p| && p[i] == '-' {
      neg := true;
      i := i + 1;
    }
    assert p[0..] == p;
    d := ParseUnsigned(p, i);
    if neg { d := -d; }
  }

  /** The part after the sign. */
  method ParseUnsigned(p: string, i: nat) returns (d: real)
    requires i <= |p|
    ensures d == UnsignedValue(p[i..])
  {
    hide DecValue, FractionValue, Scaled, LeadingDigits;
    var j, whole := ReadDigits(p, i);
    d := whole as real;
    assert p[i..][j - i..] == p[j..];
    if j < |p| && p[j] == '.' {
      var k, x := ReadFraction(p, j + 1);
      assert p[j..][1..] == p[j + 1..] && p[j + 1..][k - (j + 1)..] == p[k..];
      d := d + x;
      j := k;
    }
    d := ReadExponent(p, j, d);
  }

  /** The exponent part: multiplies ten up, then scales. */
  method ReadExponent(p: string, i: nat, x: real) returns (d: real)
    requires i <= |p|
    ensures d == Scaled(x, p[i..])
  {
    d := x;
    if i < |p| && p[i] in "eE" {
      ghost var t := p[i..][1..];
      assert t == p[i + 1..];
      var j, negExp := i + 1, false;
      if j < |p| && p[j] == '-' {
        negExp := true;
        j := j + 1;
        assert t[1..] == p[j..];
      } else if j < |p| && p[j] == '+' {
        j := j + 1;
        assert t[1..] == p[j..];
      }
      var exp;
      j, exp := ReadDigits(p, j);
      var mult, k := 1.0, 0;
      while k < exp
        invariant 0 <= k <= exp && mult == Pow10(k)
      {
        mult := mult * 10.0;
        k := k + 1;
      }
      d := if negExp then d / mult else d * mult;
    }
  }

  /**
   JsonDocument::ParseValue: builds the value at idx and moves idx past it. It terminates on every token
   array, whatever the sizes claim, and idx never passes the number of tokens.
   */
  method ParseValue(js: string, toks: seq<Token>, idx: nat) returns (value: Option<Json>, next: nat)
    requires InText(js, toks)
    ensures (value, next) == Build(js, toks, idx)
    decreases if idx <= |toks| then |toks| - idx else 0, 0
  {
    next := idx;
    if next >= |toks| { return None, next; }
    var tok := toks[next];
    match tok.typ {
      case Primitive =>
        var raw := ExtractToken(js, tok.start, tok.end);
        next := next + 1;
        if raw == "null" { return Some(Null), next; }
        if raw == "true" { return Some(Bool(true)), next; }
        if raw == "false" { return Some(Bool(false)), next; }
        var d := ParseDouble(raw);
        value := Some(Num(d));
      case Str =>
        var s := ExtractToken(js, tok.start, tok.end);
        next := next + 1;
        value := Some(Text(s));
      case Array =>
        var items;
        items, next := ParseElements(js, toks, next + 1, tok.size);
        value := Some(Arr(items));
      case Object =>
        var members;
        members, next := ParseMembers(js, toks, next + 1, tok.size);
        value := Some(Obj(members));
      case Undefined =>
        next := next + 1;
        value := None;
    }
  }

  /** The loop over an array's children. */
  method ParseElements(js: string, toks: seq<Token>, idx: nat, n: int) returns (items: seq<Json>, next: nat)
    requires InText(js, toks) && idx <= |toks|
    ensures (items, next) == BuildItems(js, toks, idx, n)
    decreases |toks| - idx, 1
  {
    hide Build;
    items, next := [], idx;
    var i := 0;
    assert [] + BuildItems(js, toks, idx, n).0 == BuildItems(js, toks, idx, n).0;
    while i < n
      invariant 0 <= i && idx <= next <= |toks|
      invariant BuildItems(js, toks, idx, n).0 == items + BuildItems(js, toks, next, n - i).0
      invariant BuildItems(js, toks, idx, n).1 == BuildItems(js, toks, next, n - i).1
      decreases n - i
    {
      if next >= |toks| { break; }
      var element, after := ParseValue(js, toks, next);
      next := after;
      if element.Some? { items := items + [element.value]; }
      i := i + 1;
    }
    assert BuildItems(js, toks, next, n - i) == ([], next) && items + [] == items;
  }

  lemma MembersStep(js: string, toks: seq<Token>, idx: nat, n: int, before: seq<Member>)
    requires InText(js, toks) && n > 0 && idx + 1 < |toks| && toks[idx].typ == Str
    ensures var (v, next) := Build(js, toks, idx + 1);
            var mine := if v.Some? then [Member(Extract(js, toks[idx]), v.value)] else [];
            && before + BuildMembers(js, toks, idx, n).0 == before + mine + BuildMembers(js, toks, next, n - 1).0
            && BuildMembers(js, toks, idx, n).1 == BuildMembers(js, toks, next, n - 1).1
  {
    hide Build;
  }

  lemma MembersStop(js: string, toks: seq<Token>, idx: nat, n: int, before: seq<Member>)
    requires InText(js, toks) && idx <= |toks|
    ensures var r := BuildMembers(js, toks, idx, n);
            && before + [] == before && [] + r.0 == r.0
            && (n <= 0 || idx >= |toks| || toks[idx].typ != Str ==> r == ([], idx))
            && (n > 0 && idx + 1 == |toks| && toks[idx].typ == Str ==> r == ([], idx + 1))
  {
  }

  /** The loop over an object's pairs: a key that is no string, or no value after it, ends the loop. */
  method ParseMembers(js: string, toks: seq<Token>, idx: nat, n: int) returns (members: seq<Member>, next: nat)
    requires InText(js, toks) && idx <= |toks|
    ensures (members, next) == BuildMembers(js, toks, idx, n)
    decreases |toks| - idx, 1
  {
    hide Build, BuildMembers, Extract;
    members, next := [], idx;
    var i := 0;
    MembersStop(js, toks, idx, n, []);
    while i < n
      invariant 0 <= i && idx <= next <= |toks|
      invariant BuildMembers(js, toks, idx, n).0 == members + BuildMembers(js, toks, next, n - i).0
      invariant BuildMembers(js, toks, idx, n).1 == BuildMembers(js, toks, next, n - i).1
      decreases n - i
    {
      if next >= |toks| { break; }
      if toks[next].typ != Str { break; }
      var key := ExtractToken(js, toks[next].start, toks[next].end);
      SameExtract(js, toks[next]);
      if next + 1 >= |toks| {
        MembersStop(js, toks, next, n - i, members);
        next := next + 1;
        return;
      }
      MembersStep(js, toks, next, n - i, members);
      var value, after := ParseValue(js, toks, next + 1);
      next := after;
      if value.Some? { members := members + [Member(key, value.value)]; }
      i := i + 1;
    }
    MembersStop(js, toks, next, n - i, members);
  }

  /** JsonDocument::Parse on the characters of a C string. */
  method Parse(js: string) returns (value: Option<Json>)
    ensures value == ParseText(js)
  {
    var parser := new JsmnParser.Parser();
    var needed := parser.Parse(js, null, 0);
    if needed <= 0 { return None; }
    var slots: nat := if needed > JSON_MAX_TOKENS then JSON_MAX_TOKENS else needed;
    var tokens := new Token[slots](_ => Token(Undefined, -1, -1, 0));
    parser := new JsmnParser.Parser();
    assert parser.Abs(js, tokens, slots, 0) == INIT;
    var result := parser.Parse(js, tokens, slots);
    value := None;
    if result > 0 {
      FilledTokensLieInText(js, slots);
      FilledCodesCount(js, slots);
      var next;
      value, next := ParseValue(js, tokens[..result], 0);
    }
  }

  lemma FilledCodesCount(js: string, slots: nat)
    ensures var r := Run(js, INIT, Some(slots));
            (r.Done? ==> Code(r) == |r.st.toks|) && (r.Failed? ==> Code(r) < 0)
  {
    JsmnInvariants.FillTokens(js, slots);
    FailedCodes(js, INIT, slots);
  }

  lemma {:induction false} FailedCodes(js: string, st: State, slots: nat)
    requires st.pos <= |js| && Wf(st)
    ensures var r := Run(js, st, Some(slots)); r.Failed? ==> r.code in {NOMEM, INVAL, PART}
    decreases |js| - st.pos
  {
    if Live(js, st.pos) && Step(js, st, Some(slots)).Next? { FailedCodes(js, Step(js, st, Some(slots)).st, slots); }
  }
}
