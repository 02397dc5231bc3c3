/**
 The receive buffer as the parsers of http_codec.cpp use it: C strings inside one character array, ended by the
 NULs the parsers write.
 */
module CBuffer {
  import opened Options
  import opened Text
  import opened HttpText

  /** The C string that starts at p is s. */
  ghost predicate Holds(b: array<char>, p: nat, s: string)
    reads b
  {
    p + |s| < b.Length && b[p..p + |s|] == s && b[p + |s|] == NUL && NUL !in s
  }

  lemma HeldAt(b: array<char>, p: nat, s: string, k: nat)
    requires Holds(b, p, s) && k <= |s|
    ensures k < |s| ==> b[p + k] == s[k]
    ensures b[p + k] == NUL <==> k == |s|
  {
    assert k < |s| ==> b[p..p + |s|][k] == s[k] && s[k] in s;
  }

  /** strchr: where c is in the C string at p, or where the string ends. */
  method StrChr(b: array<char>, p: nat, c: char, ghost s: string) returns (i: nat)
    requires Holds(b, p, s) && c != NUL
    ensures i == p + |Before(s, c)| && i < b.Length
    ensures b[i] == c <==> i < p + |s|
  {
    i := p;
    while b[i] != NUL && b[i] != c
      invariant p <= i <= p + |s|
      invariant c !in s[..i - p]
      decreases p + |s| - i
    {
      assert b[i] == b[p..p + |s|][i - p];
      assert s[..i + 1 - p] == s[..i - p] + [s[i - p]];
      i := i + 1;
    }
    assert i < p + |s| ==> b[i] == b[p..p + |s|][i - p];
    assert s == s[..i - p] + s[i - p..];
    BeforeOf(s[..i - p], c, s[i - p..]);
  }

  method ReadString(b: array<char>, p: nat, ghost s: string) returns (t: string)
    requires Holds(b, p, s)
    ensures t == s
  {
    t := "";
    var i := p;
    while b[i] != NUL
      invariant p <= i <= p + |s|
      invariant t == s[..i - p]
      decreases p + |s| - i
    {
      HeldAt(b, p, s, i - p);
      t := t + [b[i]];
      i := i + 1;
    }
    HeldAt(b, p, s, i - p);
  }

  /** Ends the C string at p after k characters; the rest becomes the string after the NUL. */
  method SplitAt(b: array<char>, p: nat, k: nat, ghost s: string)
    requires Holds(b, p, s) && k < |s|
    modifies b
    ensures Holds(b, p, s[..k]) && Holds(b, p + k + 1, s[k + 1..])
    ensures forall j :: 0 <= j < b.Length && j != p + k ==> b[j] == old(b[j])
  {
    assert forall j :: 0 <= j < |s| ==> b[p + j] == b[p..p + |s|][j] == s[j];
    b[p + k] := NUL;
    assert forall j :: 0 <= j < k ==> b[p + j] == s[j];
    assert forall j :: k < j < |s| ==> b[p + j] == s[j];
    assert b[p..p + k] == s[..k];
    assert b[p + k + 1..p + |s|] == s[k + 1..];
  }

  lemma HeldEmpty(b: array<char>, p: nat, s: string)
    requires Holds(b, p, s)
    ensures b[p] == NUL <==> s == ""
  {
    assert s != "" ==> b[p..p + |s|][0] == b[p];
  }

  lemma {:induction false} CStringPrefix(s: string)
    ensures var c := CString(s); |c| <= |s| && c == s[..|c|] && (|c| < |s| ==> s[|c|] == NUL)
  {
    if s != "" && s[0] != NUL { CStringPrefix(s[1..]); }
  }

  lemma SameSlice(b: array<char>, s: string, lo: nat, hi: nat)
    requires lo <= hi <= |s| && hi <= b.Length && forall j :: lo <= j < hi ==> b[j] == s[j]
    ensures b[lo..hi] == s[lo..hi]
  {
  }

  /** The token before the next space, which is made a NUL; next is where the rest starts. */
  method TakeToken(b: array<char>, p: nat, ghost s: string) returns (token: Option<string>, next: nat)
    requires Holds(b, p, s)
    modifies b
    ensures token == (if |Before(s, ' ')| == |s| then None else Some(Before(s, ' ')))
    ensures token.Some? ==> next == p + |token.value| + 1 && Holds(b, next, s[|token.value| + 1..])
    ensures if token.Some? then Holds(b, p, token.value) else Holds(b, p, s)
    ensures forall j :: 0 <= j < b.Length && !(p <= j < p + |s|) ==> b[j] == old(b[j])
  {
    hide Before;
    var sp := StrChr(b, p, ' ', s);
    next := sp + 1;
    if b[sp] != ' ' { return None, next; }
    SplitAt(b, p, sp - p, s);
    var t := ReadString(b, p, Before(s, ' '));
    token := Some(t);
  }

  method FindBlank(b: array<char>, length: nat) returns (h: nat)
    requires length <= b.Length
    ensures h == FirstBlank(b[..length])
  {
    ghost var s := b[..length];
    hide FirstBlank;
    h := 0;
    while h + 3 < length
      invariant 0 <= h <= length
      invariant forall k: nat :: k < h ==> !BlankAt(s, k)
    {
      if b[h] == '\r' && b[h + 1] == '\n' && b[h + 2] == '\r' && b[h + 3] == '\n' {
        assert BlankAt(s, h);
        return;
      }
      h := h + 1;
    }
    h := length;
  }

  // ------------------------------------------------------------------ header fields

  /** Cuts the blanks at the end of the C string at p with a NUL. */
  method TrimEndAt(b: array<char>, p: nat, ghost t: string) returns (v: string)
    requires Holds(b, p, t)
    modifies b
    ensures v == TrimRight(t) && b[p + |t|] == NUL
    ensures forall j :: 0 <= j < b.Length && !(p <= j <= p + |t|) ==> b[j] == old(b[j])
  {
    var end := p;
    while b[end] != NUL
      invariant p <= end <= p + |t|
      decreases p + |t| - end
    {
      end := end + 1;
    }
    HeldAt(b, p, t, end - p);
    assert t[..end - p] == t;
    ghost var u := t;
    while end > p && IsBlank(b[end - 1])
      invariant p <= end <= p + |t|
      invariant u == t[..end - p] && TrimRight(t) == TrimRight(u)
    {
      assert b[end - 1] == b[p..p + |t|][end - 1 - p] == u[|u| - 1];
      assert u[..|u| - 1] == t[..end - 1 - p];
      u := u[..|u| - 1];
      end := end - 1;
    }
    assert end > p ==> b[end - 1] == b[p..p + |t|][end - 1 - p] == u[|u| - 1];
    assert TrimRight(u) == u;
    b[end] := NUL;
    assert forall j :: 0 <= j < |u| ==> old(b[p..p + |t|])[j] == u[j];
    assert b[p..end] == u;
    v := ReadString(b, p, u);
  }

  /** The value's blanks are skipped at its start, then cut at its end. */
  method TrimAt(b: array<char>, p: nat, ghost s: string) returns (v: string)
    requires Holds(b, p, s)
    modifies b
    ensures v == Trim(s) && b[p + |s|] == NUL
    ensures forall j :: 0 <= j < b.Length && !(p <= j <= p + |s|) ==> b[j] == old(b[j])
  {
    hide TrimRight;
    var start := p;
    ghost var t := s;
    while IsBlank(b[start])
      invariant p <= start <= p + |s|
      invariant t == s[start - p..] && TrimLeft(s) == TrimLeft(t)
      decreases p + |s| - start
    {
      assert b[start] == b[p..p + |s|][start - p] == t[0];
      assert t[1..] == s[start + 1 - p..];
      t := t[1..];
      start := start + 1;
    }
    assert start < p + |s| ==> b[start] == b[p..p + |s|][start - p] == t[0];
    assert TrimLeft(t) == t;
    assert b[start..start + |t|] == t;
    v := TrimEndAt(b, start, t);
  }

  method ParseHeaderLineAt(b: array<char>, p: nat, ghost line: string) returns (f: Option<Field>)
    requires Holds(b, p, line)
    modifies b
    ensures f == ParseField(line) && b[p + |line|] == NUL
    ensures forall j :: 0 <= j < b.Length && !(p <= j <= p + |line|) ==> b[j] == old(b[j])
  {
    hide Before, Trim;
    var colon := StrChr(b, p, ':', line);
    if b[colon] != ':' { return None; }
    ghost var name := Before(line, ':');
    SplitAt(b, p, colon - p, line);
    var n := ReadString(b, p, name);
    var value := TrimAt(b, colon + 1, line[|name| + 1..]);
    f := Some(Field(n, value));
  }
}
