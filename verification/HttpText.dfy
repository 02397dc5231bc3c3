/** Header blocks as text: lines ended by CRLF, a blank line after them, and names with values. */
module HttpText {
  import opened Options
  import opened Text

  const CRLF := "\r\n"

  predicate BlankAt(s: string, i: nat) {
    i + 4 <= |s| && s[i] == '\r' && s[i + 1] == '\n' && s[i + 2] == '\r' && s[i + 3] == '\n'
  }

  /** The first place of CRLF CRLF, or |s|. */
  function FirstBlank(s: string): (i: nat)
    ensures i <= |s|
    ensures i < |s| ==> BlankAt(s, i)
    ensures forall k: nat :: k < i ==> !BlankAt(s, k)
  {
    if s == "" || BlankAt(s, 0) then 0
    else
      assert forall k: nat :: BlankAt(s[1..], k) == BlankAt(s, k + 1);
      assert forall k: nat :: 0 < k ==> BlankAt(s, k) == BlankAt(s[1..], k - 1);
      1 + FirstBlank(s[1..])
  }

  predicate PlainChar(c: char) { c != '\r' && c != '\n' && c != NUL }

  /** Text that stays within one line of a C string. */
  predicate Plain(s: string) { forall i :: 0 <= i < |s| ==> PlainChar(s[i]) }

  lemma PlainConcat(a: string, b: string)
    ensures Plain(a + b) <==> Plain(a) && Plain(b)
  {
    if Plain(a + b) {
      assert forall i :: 0 <= i < |a| ==> a[i] == (a + b)[i];
      assert forall i :: 0 <= i < |b| ==> b[i] == (a + b)[|a| + i];
    }
  }

  predicate PlainLine(line: string) { line != "" && Plain(line) }

  function Join(lines: seq<string>): string {
    if lines == [] then "" else lines[0] + CRLF + Join(lines[1..])
  }

  lemma {:induction false} JoinConcat(a: seq<string>, b: seq<string>)
    ensures Join(a + b) == Join(a) + Join(b)
  {
    if a == [] {
      assert a + b == b;
    } else {
      assert (a + b)[1..] == a[1..] + b;
      JoinConcat(a[1..], b);
      assert a[0] + CRLF + (Join(a[1..]) + Join(b)) == a[0] + CRLF + Join(a[1..]) + Join(b);
    }
  }

  lemma JoinSnoc(a: seq<string>, line: string)
    ensures Join(a + [line]) == Join(a) + line + CRLF
  {
    JoinConcat(a, [line]);
    assert Join([line]) == line + CRLF by { assert [line][1..] == []; }
  }

  lemma {:induction false} JoinLength(lines: seq<string>)
    requires lines != []
    ensures |Join(lines)| >= |lines[0]| + 2
    ensures |lines| >= 2 ==> |Join(lines)| >= |lines[0]| + |lines[|lines| - 1]| + 4
  {
    if |lines| >= 2 { JoinLength(lines[1..]); }
  }

  /** A blank line is found where it was written: no line before it is empty or holds a line break. */
  lemma {:induction false} FirstBlankOfJoin(lines: seq<string>, rest: string)
    requires lines != [] && forall i :: 0 <= i < |lines| ==> PlainLine(lines[i])
    ensures |Join(lines)| >= 3
    ensures FirstBlank(Join(lines) + CRLF + rest) == |Join(lines)| - 2
  {
    var a := lines[0];
    var tail := Join(lines[1..]) + CRLF + rest;
    var s := Join(lines) + CRLF + rest;
    assert s == a + CRLF + tail;
    assert forall k :: 0 <= k < |a| ==> s[k] == a[k] && PlainChar(a[k]);
    assert s[|a|] == '\r' && s[|a| + 1] == '\n';
    assert |lines| > 1 ==> lines[1..][0] == lines[1] && PlainLine(lines[1]) && s[|a| + 2] == lines[1][0];
    if |lines| > 1 {
      FirstBlankOfJoin(lines[1..], rest);
      ShiftBlank(a + CRLF, tail);
    } else {
      assert BlankAt(s, |a|);
    }
    hide FirstBlank, Plain;
  }

  lemma ShiftBlank(a: string, tail: string)
    requires forall k: nat :: k < |a| ==> !BlankAt(a + tail, k)
    ensures FirstBlank(a + tail) == |a| + FirstBlank(tail)
  {
    var s := a + tail;
    assert forall k: nat :: BlankAt(s, |a| + k) == BlankAt(tail, k);
    var i, j := FirstBlank(s), FirstBlank(tail);
    hide FirstBlank;
    assert i >= |a|;
    assert BlankAt(s, |a| + (i - |a|)) == BlankAt(tail, i - |a|) && BlankAt(s, |a| + j) == BlankAt(tail, j);
  }

  /** Cut short of its blank line a text has none. */
  lemma NoBlankBefore(s: string, n: nat)
    requires n <= |s| && n < FirstBlank(s) + 4
    ensures FirstBlank(s[..n]) == n
  {
    var i := FirstBlank(s[..n]);
    hide FirstBlank;
    assert i < n ==> BlankAt(s, i);
  }

  // ------------------------------------------------------------------ reading lines

  /** A line as the C code sees it once CR has become NUL. */
  function Cut(s: string): string { Before(CString(s), '\r') }

  /** The lines ended by LF; what follows the last LF is not a line. */
  function LfLines(s: string): seq<string>
    decreases |s|
  {
    var head := Before(s, '\n');
    if |head| == |s| then [] else [Cut(head)] + LfLines(s[|head| + 1..])
  }

  lemma CutOfLine(line: string)
    requires Plain(line)
    ensures Cut(line + "\r") == line
  {
    var t := line + "\r";
    assert forall i :: 0 <= i < |t| ==> t[i] != NUL;
    assert CString(t) == t;
    BeforeOf(line, '\r', "\r");
    hide Before;
  }

  lemma LfLinesStep(line: string, rest: string)
    requires Plain(line)
    ensures LfLines(line + CRLF + rest) == [line] + LfLines(rest)
  {
    var t := line + "\r";
    assert forall i :: 0 <= i < |t| ==> t[i] != '\n';
    assert line + CRLF + rest == t + ("\n" + rest);
    BeforeOf(t, '\n', "\n" + rest);
    CutOfLine(line);
    assert (line + CRLF + rest)[|t| + 1..] == rest;
    hide Cut, Before;
  }

  /** Lines that were joined are read back as they were. */
  lemma {:induction false} LfLinesOfJoin(lines: seq<string>)
    requires forall i :: 0 <= i < |lines| ==> Plain(lines[i])
    ensures LfLines(Join(lines)) == lines
  {
    if lines != [] {
      LfLinesStep(lines[0], Join(lines[1..]));
      LfLinesOfJoin(lines[1..]);
      assert lines == [lines[0]] + lines[1..];
    }
    hide Plain;
  }

  // ------------------------------------------------------------------ header fields

  datatype Field = Field(name: string, value: string)

  predicate IsBlank(c: char) { c == ' ' || c == '\t' }

  function TrimLeft(s: string): string { if s != "" && IsBlank(s[0]) then TrimLeft(s[1..]) else s }

  function TrimRight(s: string): string { if s != "" && IsBlank(s[|s| - 1]) then TrimRight(s[..|s| - 1]) else s }

  function Trim(s: string): string { TrimRight(TrimLeft(s)) }

  predicate Trimmed(s: string) { s == "" || (!IsBlank(s[0]) && !IsBlank(s[|s| - 1])) }

  /** A header line: the name up to the first colon, the value after it without blanks around it. */
  function ParseField(line: string): Option<Field> {
    var name := Before(line, ':');
    if |name| == |line| then None else Some(Field(name, Trim(line[|name| + 1..])))
  }

  function FieldLine(f: Field): string { f.name + ": " + f.value }

  predicate SafeName(s: string) { s != "" && Plain(s) && ':' !in s }

  predicate SafeValue(s: string) { Plain(s) && Trimmed(s) }

  predicate SafeField(f: Field) { SafeName(f.name) && SafeValue(f.value) }

  lemma TrimOfSafe(v: string)
    requires Trimmed(v)
    ensures Trim(" " + v) == v
  {
    assert (" " + v)[1..] == v;
    assert TrimLeft(" " + v) == TrimLeft(v);
  }

  lemma FieldLineIsPlain(f: Field)
    requires SafeField(f)
    ensures PlainLine(FieldLine(f))
  {
    PlainConcat(f.name + ": ", f.value);
    PlainConcat(f.name, ": ");
    assert Plain(": ") by { ColonIsPlain(); }
    hide Plain, Trimmed;
  }

  /** A safe field is read back from its line. */
  lemma FieldRoundTrip(f: Field)
    requires SafeField(f)
    ensures ParseField(FieldLine(f)) == Some(f) && PlainLine(FieldLine(f))
  {
    FieldLineIsPlain(f);
    hide Plain;
    var line := FieldLine(f);
    assert line == f.name + (": " + f.value);
    BeforeOf(f.name, ':', ": " + f.value);
    TrimOfSafe(f.value);
    assert line[|f.name| + 1..] == " " + f.value;
    hide Before, Trim;
  }

  lemma ColonIsPlain()
    ensures Plain(": ")
  {
  }

  function FieldLines(fs: seq<Field>): (r: seq<string>)
    ensures |r| == |fs|
    ensures forall i :: 0 <= i < |fs| ==> r[i] == FieldLine(fs[i])
  {
    if fs == [] then [] else [FieldLine(fs[0])] + FieldLines(fs[1..])
  }

  lemma {:induction false} FieldLinesConcat(a: seq<Field>, b: seq<Field>)
    ensures FieldLines(a + b) == FieldLines(a) + FieldLines(b)
  {
    if a == [] {
      assert a + b == b;
    } else {
      assert (a + b)[1..] == a[1..] + b;
      FieldLinesConcat(a[1..], b);
    }
  }

  /** The text of a first line and field lines. */
  function Block(line: string, fs: seq<Field>): string { Join([line] + FieldLines(fs)) }

  lemma BlockSnoc(line: string, fs: seq<Field>, f: Field)
    ensures Block(line, fs + [f]) == Block(line, fs) + f.name + ": " + f.value + CRLF
  {
    FieldLinesConcat(fs, [f]);
    assert FieldLines([f]) == [FieldLine(f)];
    assert [line] + FieldLines(fs + [f]) == ([line] + FieldLines(fs)) + [FieldLine(f)];
    JoinSnoc([line] + FieldLines(fs), FieldLine(f));
    hide Join, FieldLines;
  }

  lemma BlockStart(line: string)
    ensures Block(line, []) == line + CRLF
  {
    assert [line] + FieldLines([]) == [line] && [line][1..] == [] && Join([]) == "";
  }

  /** GetHeader: the value of the first field with exactly this name, "" when there is none. */
  function GetHeader(fs: seq<Field>, name: string): string {
    if fs == [] then "" else if fs[0].name == name then fs[0].value else GetHeader(fs[1..], name)
  }

  lemma {:induction false} GetHeaderConcat(a: seq<Field>, b: seq<Field>, name: string)
    requires forall f :: f in a ==> f.name != name
    ensures GetHeader(a + b, name) == GetHeader(b, name)
  {
    if a == [] {
      assert a + b == b;
    } else {
      assert (a + b)[1..] == a[1..] + b;
      GetHeaderConcat(a[1..], b, name);
    }
  }
}
