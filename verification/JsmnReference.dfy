/**
 The tokenizer against an independent reference: a recognizer with an explicit bracket stack.
 The token array's unclosed tokens are that stack, and the filling run accepts exactly the texts the
 recognizer accepts within the capacity. Also: the counting run and the filling run move in lockstep.
 */
module JsmnReference {
  import opened Options
  import opened Text
  import opened Jsmn
  import opened JsmnInvariants

  datatype Bracket = Bracket(typ: TokenType, at: int)

  /** stack: the open brackets, innermost last; pairs: the (open, close) positions matched so far. */
  datatype Machine = Machine(pos: nat, stack: seq<Bracket>, pairs: set<(int, int)>, tokens: nat)

  const START := Machine(0, [], {}, 0)

  /** One lexeme. Only brackets touch the stack; strings and primitives are skipped over whole. */
  function Advance(js: string, m: Machine): (r: Option<Machine>)
    requires Live(js, m.pos)
    ensures r.Some? ==> m.pos < r.value.pos <= |js|
  {
    var c := js[m.pos];
    if IsOpener(c) then
      Some(m.(pos := m.pos + 1, stack := m.stack + [Bracket(BracketType(c), m.pos)], tokens := m.tokens + 1))
    else if IsCloser(c) then
      if m.stack == [] || m.stack[|m.stack| - 1].typ != BracketType(c) then None
      else
        var top := m.stack[|m.stack| - 1];
        Some(m.(pos := m.pos + 1, stack := m.stack[..|m.stack| - 1], pairs := m.pairs + {(top.at, m.pos)}))
    else if c == '"' then
      var s := ScanString(js, m.pos + 1);
      if s.Bad? then None else Some(m.(pos := s.end + 1, tokens := m.tokens + 1))
    else if IsBlank(c) || c == ':' || c == ',' then Some(m.(pos := m.pos + 1))
    else
      var s := ScanPrimitive(js, m.pos);
      if s.Bad? then None else Some(m.(pos := s.end, tokens := m.tokens + 1))
  }

  /** The whole text: accepted when every lexeme is sound and no bracket stays open. */
  function Recognize(js: string, m: Machine): Option<Machine>
    requires m.pos <= |js|
    decreases |js| - m.pos
  {
    if !Live(js, m.pos) then (if m.stack == [] then Some(m) else None)
    else
      match Advance(js, m)
      case None => None
      case Some(m') => Recognize(js, m')
  }

  // ------------------------------------------------------------------ the stack hidden in the token array

  /** The unclosed tokens, in array order. */
  function OpenBrackets(toks: seq<Token>): seq<Bracket>
  {
    if toks == [] then [] else
      var n := |toks| - 1;
      OpenBrackets(toks[..n]) + (if IsOpen(toks[n]) then [Bracket(toks[n].typ, toks[n].start)] else [])
  }

  ghost predicate SamePlaces(a: seq<Token>, b: seq<Token>) {
    |a| == |b| && forall i :: 0 <= i < |a| ==> a[i] == b[i].(size := a[i].size)
  }

  lemma {:induction false} OpenBracketsIgnoreSizes(a: seq<Token>, b: seq<Token>)
    requires SamePlaces(a, b)
    ensures OpenBrackets(a) == OpenBrackets(b)
  {
    if a != [] {
      var n := |a| - 1;
      assert a[n] == b[n].(size := a[n].size);
      OpenBracketsIgnoreSizes(a[..n], b[..n]);
    }
  }

  /** The token found by the backward scan is the top of the stack, and closing it pops the stack. */
  lemma {:induction false} ScanFindsTop(toks: seq<Token>, end: int)
    requires end != -1
    ensures var i := LastWhere(toks, |toks|, IsOpen);
            var stack := OpenBrackets(toks);
            if i == -1 then stack == []
            else stack == OpenBrackets(toks[i := toks[i].(end := end)]) + [Bracket(toks[i].typ, toks[i].start)]
  {
    var i := LastWhere(toks, |toks|, IsOpen);
    if toks != [] {
      var n := |toks| - 1;
      var t := toks[n];
      LastWherePrefix(toks, n);
      LastWhereStep(toks, n);
      OpenBracketsSnoc(toks[..n], t);
      assert toks == toks[..n] + [t];
      assert !IsOpen(t.(end := end));
      hide *;
      if i == n {
        OpenBracketsSnoc(toks[..n], t.(end := end));
        UpdateSnoc(toks[..n], t, i, t.(end := end));
      } else {
        ScanFindsTop(toks[..n], end);
        if i != -1 {
          var closed := toks[i].(end := end);
          OpenBracketsSnoc(toks[..n][i := closed], t);
          UpdateSnoc(toks[..n], t, i, closed);
        }
      }
    }
  }

  lemma UpdateSnoc(toks: seq<Token>, t: Token, i: nat, t': Token)
    requires i <= |toks|
    ensures (toks + [t])[i := t'] == if i == |toks| then toks + [t'] else toks[i := t'] + [t]
  {
  }

  lemma OpenBracketsSnoc(toks: seq<Token>, t: Token)
    ensures OpenBrackets(toks + [t]) == if IsOpen(t) then OpenBrackets(toks) + [Bracket(t.typ, t.start)] else OpenBrackets(toks)
  {
    assert (toks + [t])[..|toks|] == toks;
  }

  lemma LastWhereStep(toks: seq<Token>, n: nat)
    requires n < |toks|
    ensures LastWhere(toks, n + 1, IsOpen) == if IsOpen(toks[n]) then n else LastWhere(toks, n, IsOpen)
  {
  }

  lemma LastWhereIsUnique(toks: seq<Token>, n: nat, f: Token -> bool, i: int)
    requires n <= |toks| && -1 <= i < n
    requires i >= 0 ==> f(toks[i])
    requires forall k :: i < k < n ==> !f(toks[k])
    ensures LastWhere(toks, n, f) == i
  {
    var j := LastWhere(toks, n, f);
    assert i <= j <= i;
  }

  lemma LastWherePrefix(toks: seq<Token>, n: nat)
    requires n <= |toks|
    ensures LastWhere(toks[..n], n, IsOpen) == LastWhere(toks, n, IsOpen)
  {
    LastWhereIsUnique(toks[..n], n, IsOpen, LastWhere(toks, n, IsOpen));
  }

  /** The brackets that closed container tokens span. */
  ghost function Spans(toks: seq<Token>): set<(int, int)> {
    set i | 0 <= i < |toks| && IsContainer(toks[i]) && toks[i].end != -1 :: (toks[i].start, toks[i].end - 1)
  }

  ghost predicate IsSpan(t: Token, p: (int, int)) {
    IsContainer(t) && t.end != -1 && p == (t.start, t.end - 1)
  }

  lemma SpanOf(toks: seq<Token>, p: (int, int))
    ensures p in Spans(toks) <==> exists i :: 0 <= i < |toks| && IsSpan(toks[i], p)
  {
    if i :| 0 <= i < |toks| && IsSpan(toks[i], p) {
      assert IsContainer(toks[i]) && toks[i].end != -1 && p == (toks[i].start, toks[i].end - 1);
    }
    if p in Spans(toks) {
      var i :| 0 <= i < |toks| && IsContainer(toks[i]) && toks[i].end != -1 && p == (toks[i].start, toks[i].end - 1);
      assert IsSpan(toks[i], p);
    }
  }

  lemma SpansAfterEmit(was: seq<Token>, toks: seq<Token>, t: Token)
    requires SamePlaces(was, toks)
    requires t.end == -1 || !IsContainer(t)
    ensures Spans(toks + [t]) == Spans(was)
  {
    var all := toks + [t];
    forall p ensures p in Spans(all) <==> p in Spans(was) {
      SpanOf(was, p);
      SpanOf(all, p);
      if i :| 0 <= i < |was| && IsSpan(was[i], p) {
        assert was[i] == toks[i].(size := was[i].size);
        assert IsSpan(all[i], p);
      }
      if i :| 0 <= i < |all| && IsSpan(all[i], p) {
        assert i < |toks|;
        assert was[i] == toks[i].(size := was[i].size);
        assert IsSpan(was[i], p);
      }
    }
  }

  lemma SpansAfterClose(was: seq<Token>, i: nat, end: int)
    requires i < |was| && IsContainer(was[i]) && was[i].end == -1 && end != -1
    ensures Spans(was[i := was[i].(end := end)]) == Spans(was) + {(was[i].start, end - 1)}
  {
    var toks := was[i := was[i].(end := end)];
    forall p ensures p in Spans(toks) <==> p in Spans(was) || p == (was[i].start, end - 1) {
      SpanOf(was, p);
      SpanOf(toks, p);
      if k :| 0 <= k < |was| && IsSpan(was[k], p) { assert IsSpan(toks[k], p); }
      if p == (was[i].start, end - 1) { assert IsSpan(toks[i], p); }
      if k :| 0 <= k < |toks| && IsSpan(toks[k], p) { assert k != i ==> IsSpan(was[k], p); }
    }
  }

  ghost predicate Simulates(st: State, m: Machine)
  {
    && m.pos == st.pos
    && m.stack == OpenBrackets(st.toks)
    && m.tokens == |st.toks|
    && m.pairs == Spans(st.toks)
  }

  lemma EmitSimulates(js: string, st: State, m: Machine, cap: nat, t: Token, after: nat)
    requires Inv(js, st) && Simulates(st, m) && |st.toks| < cap
    requires t.start >= 0 && (IsOpen(t) || !IsContainer(t))
    ensures var st' := Emit(st, Some(cap), t).st.(pos := after);
            var stack' := if IsOpen(t) then m.stack + [Bracket(t.typ, t.start)] else m.stack;
            Simulates(st', m.(pos := after, stack := stack', tokens := m.tokens + 1))
  {
    var toks := Bump(st.toks, st.super);
    assert SamePlaces(st.toks, toks);
    OpenBracketsIgnoreSizes(st.toks, toks);
    SpansAfterEmit(st.toks, toks, t);
    var all := toks + [t];
    assert all[..|all| - 1] == toks;
  }

  lemma CloseSimulates(js: string, st: State, m: Machine)
    requires Inv(js, st) && Simulates(st, m) && Live(js, st.pos) && IsCloser(js[st.pos])
    ensures Close(st, js[st.pos]).Next? <==> Advance(js, m).Some?
    ensures Close(st, js[st.pos]).Next? ==>
              var st' := Close(st, js[st.pos]).st;
              Simulates(st', Advance(js, m).value)
  {
    var i := LastWhere(st.toks, |st.toks|, IsOpen);
    hide LastWhere, OpenBrackets, Spans, Inv, Advance;
    ScanFindsTop(st.toks, st.pos + 1);
    AdvanceCloser(js, m);
    if i != -1 && st.toks[i].typ == BracketType(js[st.pos]) {
      SpansAfterClose(st.toks, i, st.pos + 1);
    }
  }

  lemma AdvanceCloser(js: string, m: Machine)
    requires Live(js, m.pos) && IsCloser(js[m.pos])
    ensures m.stack == [] ==> Advance(js, m) == None
    ensures m.stack != [] ==>
              var top := m.stack[|m.stack| - 1];
              Advance(js, m) ==
              if top.typ != BracketType(js[m.pos]) then None
              else Some(Machine(m.pos + 1, m.stack[..|m.stack| - 1], m.pairs + {(top.at, m.pos)}, m.tokens))
  {
    hide ScanString, ScanPrimitive;
  }

  /** One step of the filling run is one step of the recognizer, unless the slots run out. */
  lemma StepSimulates(js: string, st: State, m: Machine, cap: nat)
    requires Inv(js, st) && Simulates(st, m) && Live(js, st.pos)
    ensures var o := Step(js, st, Some(cap));
            match o
            case Next(st') =>
              && Advance(js, m).Some? && Simulates(st', Advance(js, m).value)
            case Halt(code) => Advance(js, m).None? || (code == NOMEM && |st.toks| >= cap
                                                        && Advance(js, m).value.tokens == |st.toks| + 1)
  {
    var c := js[st.pos];
    if IsOpener(c) {
      if |st.toks| < cap {
        EmitSimulates(js, st, m, cap, Token(BracketType(c), st.pos, -1, 0), st.pos + 1);
      }
    } else if IsCloser(c) {
      CloseSimulates(js, st, m);
    } else if c == '"' {
      var s := ScanString(js, st.pos + 1);
      if s.At? && |st.toks| < cap {
        EmitSimulates(js, st, m, cap, Token(Str, st.pos + 1, s.end, 0), s.end + 1);
      }
    } else if IsBlank(c) || c == ':' || c == ',' {
    } else {
      var s := ScanPrimitive(js, st.pos);
      if s.At? && |st.toks| < cap {
        EmitSimulates(js, st, m, cap, Token(Primitive, st.pos, s.end, 0), s.end);
      }
    }
  }

  lemma {:induction false} TokensGrow(js: string, m: Machine)
    requires m.pos <= |js|
    ensures Recognize(js, m).Some? ==> m.tokens <= Recognize(js, m).value.tokens
    decreases |js| - m.pos
  {
    if Live(js, m.pos) && Advance(js, m).Some? { TokensGrow(js, Advance(js, m).value); }
  }

  lemma {:induction false} RunSimulates(js: string, st: State, m: Machine, cap: nat)
    requires Inv(js, st) && Simulates(st, m) && |st.toks| <= cap
    ensures var r, q := Run(js, st, Some(cap)), Recognize(js, m);
            && (r.Done? <==> q.Some? && q.value.tokens <= cap)
            && (r.Done? ==> Simulates(r.st, q.value))
    decreases |js| - st.pos
  {
    if !Live(js, st.pos) {
      ScanFindsTop(st.toks, 0);
    } else {
      StepSimulates(js, st, m, cap);
      match Step(js, st, Some(cap)) {
        case Halt(_) =>
          if Advance(js, m).Some? { TokensGrow(js, Advance(js, m).value); }
        case Next(st') =>
          StepKeepsInv(js, st, cap);
          RunSimulates(js, st', Advance(js, m).value, cap);
      }
    }
  }

  /**
   For every text and capacity, the filling run succeeds exactly when the recognizer accepts the text with
   no more tokens than there are slots; and then the container tokens span exactly the recognizer's
   matching bracket pairs.
   */
  lemma FillIsRecognition(js: string, cap: nat)
    ensures var r, q := Run(js, INIT, Some(cap)), Recognize(js, START);
            && (r.Done? <==> q.Some? && q.value.tokens <= cap)
            && (r.Done? ==> |r.st.toks| == q.value.tokens
                            && Spans(r.st.toks) == q.value.pairs)
  {
    RunSimulates(js, INIT, START, cap);
  }

  /** Why the recognizer refuses a text: it ends inside a bracket or a string (-3), or is malformed (-2). */
  function Refusal(js: string, m: Machine): int
    requires m.pos <= |js|
    decreases |js| - m.pos
  {
    if !Live(js, m.pos) then (if m.stack == [] then 0 else -3)
    else
      match Advance(js, m)
      case None => if js[m.pos] == '"' && ScanString(js, m.pos + 1) == Bad(-3) then -3 else -2
      case Some(m') => Refusal(js, m')
  }

  lemma StepRefusal(js: string, st: State, m: Machine, cap: nat)
    requires Inv(js, st) && Simulates(st, m) && |st.toks| <= cap && Live(js, st.pos)
    requires Step(js, st, Some(cap)).Halt? && Step(js, st, Some(cap)).code != -1
    ensures Advance(js, m).None? && Step(js, st, Some(cap)).code == Refusal(js, m)
  {
    StepSimulates(js, st, m, cap);
    hide ScanString, ScanPrimitive, LastWhere;
  }

  lemma {:induction false} RunRefusal(js: string, st: State, m: Machine, cap: nat)
    requires Inv(js, st) && Simulates(st, m) && |st.toks| <= cap
    ensures var r := Run(js, st, Some(cap)); r.Failed? && r.code != -1 ==> r.code == Refusal(js, m) && r.code < 0
    decreases |js| - st.pos
  {
    if !Live(js, st.pos) {
      ScanFindsTop(st.toks, 0);
    } else {
      StepSimulates(js, st, m, cap);
      match Step(js, st, Some(cap)) {
        case Halt(code) =>
          if code != -1 { StepRefusal(js, st, m, cap); }
        case Next(st') =>
          StepKeepsInv(js, st, cap);
          RunRefusal(js, st', Advance(js, m).value, cap);
      }
    }
  }

  /** A failed fill returns -1 when the slots run out, and otherwise the recognizer's reason. */
  lemma FailureCodes(js: string, cap: nat)
    ensures var r := Run(js, INIT, Some(cap));
            r.Failed? ==> r.code == -1 || (r.code == Refusal(js, START) && r.code in {-2, -3})
    ensures var r, q := Run(js, INIT, Some(cap)), Recognize(js, START);
            r == Failed(-1) ==> q.None? || q.value.tokens > cap
  {
    RunRefusal(js, INIT, START, cap);
    RefusalValues(js, START);
    FillIsRecognition(js, cap);
  }

  lemma {:induction false} RefusalValues(js: string, m: Machine)
    requires m.pos <= |js|
    ensures Refusal(js, m) in {0, -2, -3}
    decreases |js| - m.pos
  {
    if Live(js, m.pos) && Advance(js, m).Some? { RefusalValues(js, Advance(js, m).value); }
  }

  // ------------------------------------------------------------------ counting run and filling run

  /** The counting run's view of a state: position and count alone. */
  function Shadow(st: State): State { State(st.pos, [], -1, st.count, 0) }

  /** Both runs leave a position for the same next one; they part only when the filling run stops. */
  lemma StepsInLockstep(js: string, st: State, cap: nat)
    requires Wf(st) && st.count == |st.toks| && Live(js, st.pos)
    ensures var f, c := Step(js, st, Some(cap)), Step(js, Shadow(st), None);
            && (f.Next? ==> c == Next(Shadow(f.st)) && f.st.count == |f.st.toks|)
            && (c.Halt? ==> f.Halt? && f.code == c.code)
            && (f == Halt(NOMEM) && c.Next? ==> cap <= st.count && c.st.count == st.count + 1)
  {
    hide ScanString, ScanPrimitive, LastWhere;
  }

  lemma {:induction false} CountGrows(js: string, st: State)
    requires st.pos <= |js| && Wf(st)
    ensures Run(js, st, None).Done? ==> st.count <= Run(js, st, None).st.count
    decreases |js| - st.pos
  {
    if Live(js, st.pos) && Step(js, st, None).Next? { CountGrows(js, Step(js, st, None).st); }
  }

  lemma {:induction false} RunsInLockstep(js: string, st: State, cap: nat)
    requires Wf(st) && st.count == |st.toks| && st.pos <= |js| && st.count <= cap
    ensures var f, c := Run(js, st, Some(cap)), Run(js, Shadow(st), None);
            && (f.Done? ==> c == Done(Shadow(f.st)) && f.st.count <= cap)
            && (f == Failed(NOMEM) && c.Done? ==> cap < c.st.count)
            && (c.Failed? ==> f.Failed?)
    decreases |js| - st.pos
  {
    if Live(js, st.pos) {
      StepsInLockstep(js, st, cap);
      var f, c := Step(js, st, Some(cap)), Step(js, Shadow(st), None);
      if f.Next? {
        RunsInLockstep(js, f.st, cap);
      } else if c.Next? {
        CountGrows(js, c.st);
      }
    }
  }

  /**
   For every text: a successful filling run returns the number the counting run returned, a failed count
   means a failed fill, and with the counted number of slots the filling run never runs out of tokens.
   */
  lemma CountedSlotsSuffice(js: string, cap: nat)
    ensures var f, c := Run(js, INIT, Some(cap)), Run(js, INIT, None);
            && (f.Done? ==> c.Done? && Code(c) == Code(f) <= cap && c.st.pos == f.st.pos)
            && (c.Failed? ==> f.Failed?)
            && (c.Done? && Code(c) <= cap ==> Code(f) != NOMEM)
  {
    RunsInLockstep(js, INIT, cap);
    RunKeepsInv(js, INIT, cap);
  }
}
