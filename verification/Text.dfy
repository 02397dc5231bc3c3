/** Strings as the C code sees them: sub-texts at a position, decimal numerals, leading digits. */
module Text {
  import opened Options

  const NUL := '\0'

  predicate IsDigit(c: char) { '0' <= c <= '9' }

  function DigitValue(c: char): (d: nat)
    requires IsDigit(c)
    ensures d < 10
  {
    c as int - '0' as int
  }

  /** js holds s at position p. */
  ghost predicate Has<T>(js: seq<T>, p: nat, s: seq<T>) {
    p + |s| <= |js| && js[p..p + |s|] == s
  }

  lemma HasSplit<T>(js: seq<T>, p: nat, a: seq<T>, b: seq<T>)
    ensures Has(js, p, a + b) <==> Has(js, p, a) && Has(js, p + |a|, b)
  {
    if p + |a| + |b| <= |js| {
      assert js[p..p + |a| + |b|] == js[p..p + |a|] + js[p + |a|..p + |a| + |b|];
      assert js[p..p + |a| + |b|][..|a|] == js[p..p + |a|];
      assert (a + b)[..|a|] == a && (a + b)[|a|..] == b;
    }
  }

  lemma HasAt<T>(js: seq<T>, p: nat, s: seq<T>, k: nat)
    requires Has(js, p, s) && k < |s|
    ensures p + k < |js| && js[p + k] == s[k]
  {
    assert js[p..p + |s|][k] == s[k];
  }

  /** The C string that starts a character array: everything before the first NUL. */
  function CString(s: string): (r: string)
    ensures NUL !in r
    ensures NUL !in s ==> r == s
  {
    if s == [] || s[0] == NUL then [] else [s[0]] + CString(s[1..])
  }

  /** strchr as a split: the characters before the first c, or all of them. */
  function Before(s: string, c: char): (r: string)
    ensures c !in r && |r| <= |s| && s[..|r|] == r
    ensures |r| < |s| ==> s[|r|] == c
  {
    if s == "" || s[0] == c then "" else [s[0]] + Before(s[1..], c)
  }

  lemma {:induction false} BeforeOf(a: string, c: char, rest: string)
    requires c !in a && (rest == "" || rest[0] == c)
    ensures Before(a + rest, c) == a
  {
    if a == "" {
      assert a + rest == rest;
    } else {
      assert (a + rest)[1..] == a[1..] + rest;
      BeforeOf(a[1..], c, rest);
    }
  }

  lemma BeforeAt(s: string, c: char, i: nat)
    requires i < |s| && s[i] == c && forall k :: 0 <= k < i ==> s[k] != c
    ensures Before(s, c) == s[..i]
  {
    assert s == s[..i] + s[i..];
    BeforeOf(s[..i], c, s[i..]);
  }

  // ------------------------------------------------------------------ decimal numerals

  /** printf's %u. */
  function Dec(n: nat): (s: string)
    ensures s != [] && forall c :: c in s ==> IsDigit(c)
  {
    if n < 10 then [(n + '0' as int) as char] else Dec(n / 10) + [(n % 10 + '0' as int) as char]
  }

  /** The number a run of digits spells, continuing from acc (the loop d = d * 10 + digit). */
  function DecValue(s: string, acc: nat): nat
    requires forall c :: c in s ==> IsDigit(c)
  {
    if s == [] then acc else DecValue(s[1..], acc * 10 + DigitValue(s[0]))
  }

  lemma {:induction false} DecValueSnoc(s: string, c: char, acc: nat)
    requires forall x :: x in s ==> IsDigit(x)
    requires IsDigit(c)
    ensures DecValue(s + [c], acc) == DecValue(s, acc) * 10 + DigitValue(c)
    decreases |s|
  {
    if s == [] {
      assert s + [c] == [c] && [c][1..] == [];
    } else {
      assert (s + [c])[1..] == s[1..] + [c];
      DecValueSnoc(s[1..], c, acc * 10 + DigitValue(s[0]));
    }
  }

  /** Reading back a printed numeral gives the number: %u and the digit loop are inverse. */
  lemma {:induction false} DecRoundTrip(n: nat)
    ensures DecValue(Dec(n), 0) == n
  {
    if n >= 10 {
      DecRoundTrip(n / 10);
      DecValueSnoc(Dec(n / 10), (n % 10 + '0' as int) as char, 0);
    } else {
      assert DecValue(Dec(n), 0) == DecValue([], n);
    }
  }

  predicate Digits(s: string) { forall i :: 0 <= i < |s| ==> '0' <= s[i] <= '9' }

  /** The number that digits spell, the last one worth one. */
  function Spelled(s: string): nat
    requires Digits(s)
  {
    if s == "" then 0 else 10 * Spelled(s[..|s| - 1]) + (s[|s| - 1] as int - '0' as int)
  }

  lemma DigitsAre(s: string)
    requires Digits(s)
    ensures forall c :: c in s ==> IsDigit(c)
  {
  }

  /** d = d * 10 + digit. */
  lemma {:induction false} SpelledByLoop(s: string)
    requires Digits(s)
    ensures forall c :: c in s ==> IsDigit(c)
    ensures DecValue(s, 0) == Spelled(s)
    decreases |s|
  {
    DigitsAre(s);
    if s != "" {
      var n := |s| - 1;
      assert s == s[..n] + [s[n]];
      SpelledByLoop(s[..n]);
      DecValueSnoc(s[..n], s[n], 0);
      hide DecValue;
    }
  }

  lemma DecInjective(m: nat, n: nat)
    requires Dec(m) == Dec(n)
    ensures m == n
  {
    DecRoundTrip(m);
    DecRoundTrip(n);
  }

  /** The longest prefix of digits. */
  function LeadingDigits(s: string): (d: string)
    ensures forall c :: c in d ==> IsDigit(c)
    ensures |d| <= |s| && s[..|d|] == d
    ensures |d| < |s| ==> !IsDigit(s[|d|])
  {
    if s == [] || !IsDigit(s[0]) then [] else [s[0]] + LeadingDigits(s[1..])
  }

  lemma {:induction false} LeadingDigitsOf(d: string, rest: string)
    requires forall c :: c in d ==> IsDigit(c)
    requires rest == [] || !IsDigit(rest[0])
    ensures LeadingDigits(d + rest) == d
  {
    if d == [] {
      assert d + rest == rest;
    } else {
      assert (d + rest)[1..] == d[1..] + rest;
      LeadingDigitsOf(d[1..], rest);
    }
  }

  /** "%d" of a number that need not be positive. */
  function IntText(n: int): string {
    if n < 0 then "-" + Dec(-n) else Dec(n)
  }

  predicate IsSpace(c: char) { c in " \t\n\r\U{000B}\U{000C}" }

  function SkipSpaces(s: string): string { if s != "" && IsSpace(s[0]) then SkipSpaces(s[1..]) else s }

  /** atoi and strtoul's digits: blanks, a sign, the leading digits. Values past the C type are not modelled. */
  function Atoi(s: string): int {
    var t := SkipSpaces(s);
    if t != "" && t[0] == '-' then 0 - DecValue(LeadingDigits(t[1..]), 0)
    else DecValue(LeadingDigits(if t != "" && t[0] == '+' then t[1..] else t), 0)
  }

  lemma AtoiOfDec(n: nat, rest: string)
    requires rest == "" || !IsDigit(rest[0])
    ensures Atoi(Dec(n) + rest) == n
  {
    var s := Dec(n) + rest;
    assert s[0] == Dec(n)[0] && Dec(n)[0] in Dec(n);
    LeadingDigitsOf(Dec(n), rest);
    DecRoundTrip(n);
  }

  /** strtoul: the number and what follows it; None without digits. The wrap of a minus sign is not modelled. */
  function ReadNumber(s: string): Option<(int, string)> {
    var t := SkipSpaces(s);
    var u := if t != "" && (t[0] == '-' || t[0] == '+') then t[1..] else t;
    var d := LeadingDigits(u);
    if d == "" then None
    else Some((if t[0] == '-' then 0 - DecValue(d, 0) else DecValue(d, 0), u[|d|..]))
  }

  lemma ReadNumberOfDec(n: nat, rest: string)
    requires rest == "" || !IsDigit(rest[0])
    ensures ReadNumber(Dec(n) + rest) == Some((n, rest))
  {
    var s := Dec(n) + rest;
    assert s[0] == Dec(n)[0] && Dec(n)[0] in Dec(n);
    LeadingDigitsOf(Dec(n), rest);
    DecRoundTrip(n);
    assert s[|Dec(n)|..] == rest;
  }

  /** strtoul that must use up the text. */
  function WholeNumber(s: string): Option<int> {
    match ReadNumber(s)
    case None => None
    case Some((n, rest)) => if rest == "" then Some(n) else None
  }

  lemma WholeNumberOfDec(n: nat)
    ensures WholeNumber(Dec(n)) == Some(n)
  {
    ReadNumberOfDec(n, "");
    assert Dec(n) + "" == Dec(n);
    hide ReadNumber, Dec;
  }

  // ------------------------------------------------------------------ searching

  predicate Occurs(s: string, k: nat, what: string) { k + |what| <= |s| && s[k..k + |what|] == what }

  lemma OccursShift(s: string, what: string, j: nat)
    requires s != "" && 0 < j
    ensures Occurs(s, j, what) == Occurs(s[1..], j - 1, what)
  {
    if j + |what| <= |s| { assert s[j..j + |what|] == s[1..][j - 1..j - 1 + |what|]; }
  }

  /** strstr: the first place of what, or |s| when there is none. */
  function Find(s: string, what: string): (k: nat)
    requires what != ""
    ensures k <= |s| && (k < |s| ==> Occurs(s, k, what))
    ensures forall j: nat :: j < k ==> !Occurs(s, j, what)
  {
    if s == "" || Occurs(s, 0, what) then 0
    else
      assert forall j: nat :: 0 < j ==> Occurs(s, j, what) == Occurs(s[1..], j - 1, what) by {
        forall j: nat | 0 < j ensures Occurs(s, j, what) == Occurs(s[1..], j - 1, what) { OccursShift(s, what, j); }
      }
      1 + Find(s[1..], what)
  }
}
