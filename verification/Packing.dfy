/** The list columns of database.cpp: entries joined with the unit separator 0x1F, and the way back. */
module Packing {
  import opened Text

  const SEP := '\U{001F}'

  /** VecToPacked. */
  function Pack(v: seq<string>): string {
    if v == [] then "" else if |v| == 1 then v[0] else v[0] + ([SEP] + Pack(v[1..]))
  }

  /** The pieces between separators; there is always at least one. */
  function Pieces(s: string): (r: seq<string>)
    ensures r != []
    ensures forall i :: 0 <= i < |r| ==> SEP !in r[i]
    decreases |s|
  {
    var head := Before(s, SEP);
    if |head| == |s| then [s] else [head] + Pieces(s[|head| + 1..])
  }

  /** PackedToVec. */
  function Unpack(s: string): seq<string> { if s == "" then [] else Pieces(s) }

  lemma PiecesUnfold(head: string, rest: string)
    requires SEP !in head
    ensures Pieces(head) == [head] && Pieces(head + ([SEP] + rest)) == [head] + Pieces(rest)
  {
    BeforeOf(head, SEP, "");
    assert head + "" == head;
    BeforeOf(head, SEP, [SEP] + rest);
    assert (head + ([SEP] + rest))[|head| + 1..] == rest;
    hide Before;
  }

  lemma {:induction false} PiecesOfPack(v: seq<string>)
    requires v != [] && forall i :: 0 <= i < |v| ==> SEP !in v[i]
    ensures Pieces(Pack(v)) == v
  {
    hide Pieces;
    PiecesUnfold(v[0], if |v| > 1 then Pack(v[1..]) else "");
    assert v == [v[0]] + v[1..];
    if |v| > 1 { PiecesOfPack(v[1..]); }
  }

  /** Free of the unit separator, and not the list of one empty entry. */
  predicate Survives(v: seq<string>) { v != [""] && forall i :: 0 <= i < |v| ==> '\U{001F}' !in v[i] }

  lemma OneEmptyEntry()
    ensures Pack([""]) == ""
  {
  }

  /** A list survives storage exactly when no entry has a separator and it is not the list of one empty entry. */
  lemma PackRoundTrip(v: seq<string>)
    ensures Unpack(Pack(v)) == v <==> Survives(v)
  {
    if Survives(v) && v != [] {
      PiecesOfPack(v);
      assert |v| > 1 ==> Pack(v)[|v[0]|] == SEP;
    }
    hide Pack, Pieces;
    assert Pack([""]) == "" by { OneEmptyEntry(); }
  }

  // ------------------------------------------------------------------ enumeration lists

  function Numerals(v: seq<nat>): (r: seq<string>)
    ensures |r| == |v| && forall i :: 0 <= i < |v| ==> r[i] == Dec(v[i])
  {
    seq(|v|, i requires 0 <= i < |v| => Dec(v[i]))
  }

  /** EnumVecToPacked. */
  function PackEnums(v: seq<nat>): string { Pack(Numerals(v)) }

  /** PackedToEnumVec: empty pieces are skipped. */
  function EnumsOf(pieces: seq<string>): seq<int> {
    if pieces == [] then []
    else (if pieces[0] == "" then [] else [Atoi(pieces[0])]) + EnumsOf(pieces[1..])
  }

  function UnpackEnums(s: string): seq<int> { EnumsOf(Pieces(s)) }

  lemma {:induction false} EnumsOfNumerals(v: seq<nat>)
    ensures EnumsOf(Numerals(v)) == v
  {
    if v != [] {
      EnumsOfNumerals(v[1..]);
      AtoiOfDec(v[0], "");
      assert Dec(v[0]) + "" == Dec(v[0]);
      assert Numerals(v)[1..] == Numerals(v[1..]);
    }
  }

  /** Every list of enumeration values survives storage. */
  lemma EnumRoundTrip(v: seq<nat>)
    ensures UnpackEnums(PackEnums(v)) == v
  {
    EnumsOfNumerals(v);
    if v == [] {
      PiecesUnfold("", "");
      assert Numerals(v) == [];
    } else {
      forall i | 0 <= i < |v| ensures SEP !in Numerals(v)[i] {
        assert forall c :: c in Dec(v[i]) ==> IsDigit(c);
      }
      PiecesOfPack(Numerals(v));
    }
  }

  // ------------------------------------------------------------------ the loops

  lemma PackNothing()
    ensures Pack([]) == ""
  {
  }

  /** One turn of either joining loop. */
  lemma PackTurn(v: seq<string>, i: nat, out: string)
    requires i < |v|
    ensures var sep := if i > 0 then [SEP] else [];
            out + (sep + Pack(v[i..])) == out + sep + v[i] + ((if i + 1 < |v| then [SEP] else []) + Pack(v[i + 1..]))
  {
    var more := (if i + 1 < |v| then [SEP] else []) + Pack(v[i + 1..]);
    assert Pack(v[i..]) == v[i] + more by { assert v[i..][1..] == v[i + 1..]; }
    var sep := if i > 0 then [SEP] else [];
    assert out + (sep + (v[i] + more)) == out + sep + v[i] + more;
  }

  method VecToPacked(v: seq<string>) returns (out: string)
    ensures out == Pack(v)
  {
    hide Pack;
    out := "";
    var i := 0;
    assert Pack([]) == "" && v[0..] == v by { PackNothing(); }
    while i < |v|
      invariant 0 <= i <= |v|
      invariant Pack(v) == out + ((if 0 < i < |v| then [SEP] else []) + Pack(v[i..]))
    {
      PackTurn(v, i, out);
      if i > 0 { out := out + [SEP]; }
      out := out + v[i];
      i := i + 1;
    }
    assert v[i..] == [] && out + ("" + "") == out;
  }

  /** The next character of either loop: a separator ends the piece, anything else joins it. */
  lemma NextCharacter(s: string, i: nat, cur: string)
    requires i < |s| && SEP !in cur
    ensures s[i] == SEP ==> Pieces(cur + s[i..]) == [cur] + Pieces("" + s[i + 1..])
    ensures s[i] != SEP ==> cur + s[i..] == (cur + [s[i]]) + s[i + 1..]
  {
    hide Pieces, Before;
    assert s[i..] == [s[i]] + s[i + 1..] && "" + s[i + 1..] == s[i + 1..];
    PiecesUnfold(cur, s[i + 1..]);
  }

  /** The character loop: cur holds the piece being read. */
  method PackedToVec(s: string) returns (out: seq<string>)
    ensures out == Unpack(s)
  {
    out := [];
    var cur, i := "", 0;
    hide Pieces;
    assert "" + s[0..] == s && [] + Pieces(s) == Pieces(s);
    while i < |s|
      invariant 0 <= i <= |s|
      invariant SEP !in cur && (i == 0 ==> out == [])
      invariant Pieces(s) == out + Pieces(cur + s[i..])
    {
      NextCharacter(s, i, cur);
      if s[i] == SEP {
        assert (out + [cur]) + Pieces("" + s[i + 1..]) == out + ([cur] + Pieces("" + s[i + 1..]));
        out := out + [cur];
        cur := "";
      } else {
        cur := cur + [s[i]];
      }
      i := i + 1;
    }
    PiecesUnfold(cur, "");
    assert cur + s[i..] == cur;
    if |s| > 0 { out := out + [cur]; }
  }

  method EnumVecToPacked(v: seq<nat>) returns (out: string)
    ensures out == PackEnums(v)
  {
    hide Pack, Dec;
    out := "";
    var i := 0;
    ghost var all := Numerals(v);
    assert Pack([]) == "" && all[0..] == all by { PackNothing(); }
    while i < |v|
      invariant 0 <= i <= |v|
      invariant Pack(all) == out + ((if 0 < i < |v| then [SEP] else []) + Pack(all[i..]))
    {
      PackTurn(all, i, out);
      if i > 0 { out := out + [SEP]; }
      out := out + Dec(v[i]);
      i := i + 1;
    }
    assert all[i..] == [] && out + ("" + "") == out;
  }

  method PackedToEnumVec(s: string) returns (out: seq<int>)
    ensures out == UnpackEnums(s)
  {
    out := [];
    var cur, i := "", 0;
    hide Pieces, Atoi;
    assert "" + s[0..] == s && [] + UnpackEnums(s) == UnpackEnums(s);
    while i < |s|
      invariant 0 <= i <= |s|
      invariant SEP !in cur
      invariant UnpackEnums(s) == out + EnumsOf(Pieces(cur + s[i..]))
    {
      NextCharacter(s, i, cur);
      if s[i] == SEP {
        EnumsUnfold(cur, Pieces("" + s[i + 1..]), out);
        if cur != "" {
          out := out + [Atoi(cur)];
          cur := "";
        }
      } else {
        cur := cur + [s[i]];
      }
      i := i + 1;
    }
    PiecesUnfold(cur, "");
    assert cur + s[i..] == cur;
    EnumsUnfold(cur, [], out);
    if cur != "" { out := out + [Atoi(cur)]; }
  }

  lemma EnumsUnfold(piece: string, rest: seq<string>, out: seq<int>)
    ensures out + EnumsOf([piece] + rest) == (if piece == "" then out else out + [Atoi(piece)]) + EnumsOf(rest)
    ensures [piece] + [] == [piece] && forall x: seq<int> :: x + EnumsOf([]) == x
  {
    assert ([piece] + rest)[1..] == rest;
  }
}
