/** What every step of the filling run keeps, for every text. */
module JsmnInvariants {
  import opened Options
  import opened Text
  import opened Jsmn

  /** One token against the text: where it lies and which characters delimit it. */
  predicate TokenOk(js: string, pos: nat, t: Token)
    requires pos <= |js|
  {
    && 0 <= t.start < pos
    && 0 <= t.size
    && match t.typ
       case Object | Array =>
         && js[t.start] == (if t.typ == Object then '{' else '[')
         && (t.end == -1 || (t.start + 1 < t.end <= pos
                             && js[t.end - 1] == (if t.typ == Object then '}' else ']')))
       case Str => 1 <= t.start <= t.end < pos && js[t.start - 1] == '"' && js[t.end] == '"'
       case Primitive => t.start < t.end <= pos
       case Undefined => false
  }

  /** a before b: a starts first, and then b lies after a or inside it. An open token reaches to the end. */
  predicate Nested(a: Token, b: Token) {
    && a.start < b.start
    && (a.end == -1 || a.end <= b.start || (b.end != -1 && b.end <= a.end))
  }

  predicate Layout(js: string, pos: nat, toks: seq<Token>)
    requires pos <= |js|
  {
    && (forall i :: 0 <= i < |toks| ==> TokenOk(js, pos, toks[i]))
    && (forall i, j :: 0 <= i < j < |toks| ==> Nested(toks[i], toks[j]))
  }

  function SumSizes(toks: seq<Token>): int {
    if toks == [] then 0 else SumSizes(toks[..|toks| - 1]) + toks[|toks| - 1].size
  }

  lemma {:induction false} SumSizesUpdate(toks: seq<Token>, i: nat, t: Token)
    requires i < |toks|
    ensures SumSizes(toks[i := t]) == SumSizes(toks) + t.size - toks[i].size
  {
    var n := |toks| - 1;
    if i == n {
      assert toks[i := t][..n] == toks[..n];
    } else {
      assert toks[i := t][..n] == toks[..n][i := t];
      SumSizesUpdate(toks[..n], i, t);
    }
  }

  /** The invariant of the filling run. */
  predicate Inv(js: string, st: State) {
    && st.pos <= |js|
    && Wf(st)
    && st.count == |st.toks|
    && Layout(js, st.pos, st.toks)
    && SumSizes(st.toks) + st.orphans == |st.toks|
  }

  lemma TokenGrows(js: string, pos: nat, after: nat, t: Token, size: nat)
    requires pos <= after <= |js| && TokenOk(js, pos, t)
    ensures TokenOk(js, after, t.(size := size))
  {
  }

  lemma BumpKeepsLayout(js: string, pos: nat, after: nat, toks: seq<Token>, super: int)
    requires -1 <= super < |toks| && pos <= after <= |js|
    requires Layout(js, pos, toks)
    ensures Layout(js, after, Bump(toks, super))
    ensures SumSizes(Bump(toks, super)) == SumSizes(toks) + (if super == -1 then 0 else 1)
  {
    var r := Bump(toks, super);
    if super != -1 {
      SumSizesUpdate(toks, super, r[super]);
    }
    forall i | 0 <= i < |r| ensures TokenOk(js, after, r[i]) {
      assert TokenOk(js, pos, toks[i]);
      TokenGrows(js, pos, after, toks[i], r[i].size);
      assert r[i] == toks[i].(size := r[i].size);
    }
    forall i, j | 0 <= i < j < |r| ensures Nested(r[i], r[j]) {
      assert Nested(toks[i], toks[j]);
    }
  }

  lemma AppendKeepsLayout(js: string, pos: nat, after: nat, toks: seq<Token>, t: Token)
    requires pos < after <= |js| && Layout(js, pos, toks) && Layout(js, after, toks)
    requires pos <= t.start && TokenOk(js, after, t)
    ensures Layout(js, after, toks + [t])
    ensures SumSizes(toks + [t]) == SumSizes(toks) + t.size
  {
    var all := toks + [t];
    assert all[..|all| - 1] == toks;
    forall i, j | 0 <= i < j < |all| ensures Nested(all[i], all[j]) {
      assert TokenOk(js, pos, toks[i]);
      if j < |toks| { assert Nested(toks[i], toks[j]); }
    }
  }

  lemma EmitKeepsInv(js: string, st: State, cap: nat, t: Token, after: nat)
    requires Inv(js, st) && |st.toks| < cap && st.pos < after <= |js|
    requires t.size == 0 && st.pos <= t.start && TokenOk(js, after, t)
    ensures Emit(st, Some(cap), t).Next?
    ensures Inv(js, Emit(st, Some(cap), t).st.(pos := after))
  {
    BumpKeepsLayout(js, st.pos, st.pos, st.toks, st.super);
    BumpKeepsLayout(js, st.pos, after, st.toks, st.super);
    AppendKeepsLayout(js, st.pos, after, Bump(st.toks, st.super), t);
  }

  lemma LayoutGrows(js: string, pos: nat, after: nat, toks: seq<Token>)
    requires pos <= after <= |js| && Layout(js, pos, toks)
    ensures Layout(js, after, toks)
  {
    BumpKeepsLayout(js, pos, after, toks, -1);
  }

  lemma CloseKeepsLayout(js: string, pos: nat, toks: seq<Token>, i: nat)
    requires Live(js, pos) && IsCloser(js[pos]) && Layout(js, pos, toks)
    requires i < |toks| && IsOpen(toks[i]) && toks[i].typ == BracketType(js[pos])
    requires forall k :: i < k < |toks| ==> !IsOpen(toks[k])
    ensures Layout(js, pos + 1, toks[i := toks[i].(end := pos + 1)])
  {
    var r := toks[i := toks[i].(end := pos + 1)];
    forall a | 0 <= a < |r| ensures TokenOk(js, pos + 1, r[a]) {
      assert TokenOk(js, pos, toks[a]);
    }
    forall a, b | 0 <= a < b < |r| ensures Nested(r[a], r[b]) {
      assert Nested(toks[a], toks[b]);
      assert TokenOk(js, pos, toks[b]);
    }
  }

  lemma CloseKeepsInv(js: string, st: State)
    requires Inv(js, st) && Live(js, st.pos) && IsCloser(js[st.pos])
    requires Close(st, js[st.pos]).Next?
    ensures Inv(js, Close(st, js[st.pos]).st)
  {
    var i := LastWhere(st.toks, |st.toks|, IsOpen);
    SumSizesUpdate(st.toks, i, st.toks[i].(end := st.pos + 1));
    CloseKeepsLayout(js, st.pos, st.toks, i);
    hide SumSizes, Layout;
  }

  /** Every step of the filling run keeps the invariant, whatever the text and the capacity. */
  lemma StepKeepsInv(js: string, st: State, cap: nat)
    requires Inv(js, st) && Live(js, st.pos)
    requires Step(js, st, Some(cap)).Next?
    ensures Inv(js, Step(js, st, Some(cap)).st)
  {
    hide ScanString, ScanPrimitive, Layout, LastWhere, SumSizes;
    var c := js[st.pos];
    if IsOpener(c) {
      EmitKeepsInv(js, st, cap, Token(BracketType(c), st.pos, -1, 0), st.pos + 1);
    } else if IsCloser(c) {
      CloseKeepsInv(js, st);
    } else if c == '"' {
      var e := ScanString(js, st.pos + 1).end;
      EmitKeepsInv(js, st, cap, Token(Str, st.pos + 1, e, 0), e + 1);
    } else if IsBlank(c) || c == ':' || c == ',' {
      LayoutGrows(js, st.pos, st.pos + 1, st.toks);
    } else {
      var e := ScanPrimitive(js, st.pos).end;
      EmitKeepsInv(js, st, cap, Token(Primitive, st.pos, e, 0), e);
    }
  }

  lemma {:induction false} RunKeepsInv(js: string, st: State, cap: nat)
    requires Inv(js, st)
    ensures var r := Run(js, st, Some(cap));
            r.Done? ==> Inv(js, r.st) && forall i :: 0 <= i < |r.st.toks| ==> !IsOpen(r.st.toks[i])
    decreases |js| - st.pos
  {
    if Live(js, st.pos) && Step(js, st, Some(cap)).Next? {
      StepKeepsInv(js, st, cap);
      RunKeepsInv(js, Step(js, st, Some(cap)).st, cap);
    }
  }

  /**
   After a successful filling run, for every text and capacity: the result counts the tokens; they are in
   pre-order with strictly increasing starts, pairwise nested or disjoint, delimited by the right
   characters, none left open; and the child counts add up to all tokens but the parentless ones.
   */
  lemma FillTokens(js: string, cap: nat)
    ensures var r := Run(js, INIT, Some(cap));
            r.Done? ==>
              && Code(r) == |r.st.toks| <= |js|
              && (forall i :: 0 <= i < |r.st.toks| ==> TokenOk(js, |js|, r.st.toks[i]) && r.st.toks[i].end != -1)
              && (forall i, j :: 0 <= i < j < |r.st.toks| ==> Nested(r.st.toks[i], r.st.toks[j]))
              && SumSizes(r.st.toks) + r.st.orphans == |r.st.toks|
  {
    RunKeepsInv(js, INIT, cap);
    var r := Run(js, INIT, Some(cap));
    if r.Done? {
      StartsBound(js, r.st, |r.st.toks|);
      LayoutGrows(js, r.st.pos, |js|, r.st.toks);
    }
  }

  lemma {:induction false} StartsBound(js: string, st: State, n: nat)
    requires Inv(js, st) && n <= |st.toks|
    ensures n > 0 ==> n - 1 <= st.toks[n - 1].start
    ensures n <= |js|
  {
    if n > 0 {
      StartsBound(js, st, n - 1);
      if n > 1 { assert Nested(st.toks[n - 2], st.toks[n - 1]); }
      assert TokenOk(js, st.pos, st.toks[n - 1]);
    }
  }
}
