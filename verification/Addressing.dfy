/**
 Addressing: the parser and normaliser of onem2m_service.cpp for the CSE-relative, SP-relative and absolute
 forms of a resource address. Texts are the characters of C strings.
 */
module Addressing {
  import opened Options
  import opened Text

  predicate IsSegment(s: string) { s != "" && '/' !in s }

  predicate AreSegments(segs: seq<string>) { forall i :: 0 <= i < |segs| ==> IsSegment(segs[i]) }

  function Join(segs: seq<string>): string {
    if segs == [] then "" else if |segs| == 1 then segs[0] else segs[0] + ("/" + Join(segs[1..]))
  }

  /** The characters before the first slash. */
  function UpTo(s: string): (r: string)
    ensures '/' !in r && |r| <= |s| && s[..|r|] == r
    ensures |r| < |s| ==> s[|r|] == '/'
  {
    Before(s, '/')
  }

  /** The final segment loop: no empty segment, no slash at the end. */
  function Segments(s: string): Option<seq<string>>
    decreases |s|
  {
    if s == "" then Some([])
    else
      var seg := UpTo(s);
      if seg == "" then None
      else if |seg| == |s| then Some([seg])
      else if |seg| + 1 == |s| then None
      else
        match Segments(s[|seg| + 1..])
        case None => None
        case Some(rest) => Some([seg] + rest)
  }

  predicate LooksLikeServiceProviderId(spid: string) { '.' in spid || '-' in spid || ':' in spid }

  datatype Parsed = Parsed(segments: seq<string>, absolute: bool, networkPrefix: bool, spid: string)

  /** An SP-ID, a slash, and at least one more character. */
  function SplitSpid(s: string): (r: Option<(string, string)>)
    ensures r.Some? ==> IsSegment(r.value.0) && r.value.1 != "" && s == r.value.0 + ("/" + r.value.1)
  {
    var spid := UpTo(s);
    if spid == "" || |spid| == |s| || |spid| + 1 == |s| then None
    else Some((spid, s[|spid| + 1..]))
  }

  function WithSegments(s: string, absolute: bool, networkPrefix: bool, spid: string): Option<Parsed> {
    match Segments(s)
    case None => None
    case Some(segs) => Some(Parsed(segs, absolute, networkPrefix, spid))
  }

  /** What follows "//" (checked: the SP-ID must look like one) or "/_/" (any SP-ID). */
  function ParseSpid(s: string, checked: bool): Option<Parsed> {
    match SplitSpid(s)
    case None => None
    case Some((spid, rest)) =>
      if checked && !LooksLikeServiceProviderId(spid) then None else WithSegments(rest, true, false, spid)
  }

  /** What follows "/~/": an SP-ID makes the path absolute, anything else is a CSE-ID. */
  function ParseTilde(s: string): Option<Parsed> {
    if UpTo(s) == "" then None
    else if LooksLikeServiceProviderId(UpTo(s)) then ParseSpid(s, true)
    else WithSegments(s, false, true, "")
  }

  predicate Marked(path: string, c: char) { |path| > 2 && path[1] == c && path[2] == '/' }

  /** ParseAddressingPath. */
  function ParsePath(path: string): Option<Parsed> {
    if path == "" || path[0] != '/' then None
    else if |path| > 1 && path[|path| - 1] == '/' then None
    else if Marked(path, '~') then ParseTilde(path[3..])
    else if Marked(path, '_') then ParseSpid(path[3..], false)
    else if |path| > 1 && path[1] == '/' then ParseSpid(path[2..], true)
    else WithSegments(path[1..], false, false, "")
  }

  datatype Canonical = Valid(path: string) | Invalid(wrongSpid: bool)

  /** What the normaliser knows about the CSE it runs in. */
  datatype Cse = Cse(name: string, id: string, spid: string) {
    /** The CSE-ID without its leading slash. */
    function IdName(): string { if id != "" && id[0] == '/' then id[1..] else id }
  }

  /** The segments from start on, a leading '-' replaced by the CSE's name. */
  function Normalize(segs: seq<string>, name: string): seq<string> {
    if segs != [] && segs[0] == "-" then [name] + segs[1..] else segs
  }

  function Rejoin(segs: seq<string>, name: string): Canonical {
    if segs == [] then Invalid(false) else Valid(Join(Normalize(segs, name)))
  }

  /** CanonicalizeAddressingPath. */
  function Canonicalize(path: string, cse: Cse): Canonical {
    match ParsePath(path)
    case None => Invalid(false)
    case Some(p) =>
      var segs, id := p.segments, cse.IdName();
      if p.absolute && p.spid != "" && cse.spid != p.spid then Invalid(true)
      else if p.absolute then
        if |segs| < 2 || segs[0] != id then Invalid(false) else Rejoin(segs[1..], cse.name)
      else if p.networkPrefix then
        if |segs| < 2 || segs[0] != id then Invalid(false)
        else if |segs| == 2 && segs[1] != id && segs[1] != cse.name && segs[1] != "-" then Valid(segs[1])
        else Rejoin(segs[1..], cse.name)
      else if |segs| >= 2 && segs[0] == id && (segs[1] == id || segs[1] == "-") then Rejoin(segs[1..], cse.name)
      else Rejoin(segs, cse.name)
  }

  // ------------------------------------------------------------------ splitting and joining are inverse

  lemma UpToOf(a: string, rest: string)
    requires '/' !in a && (rest == "" || rest[0] == '/')
    ensures UpTo(a + rest) == a
  {
    BeforeOf(a, '/', rest);
  }

  lemma SegmentsUnfold(seg: string, rest: string)
    requires IsSegment(seg) && rest != ""
    ensures Segments(seg) == Some([seg])
    ensures Segments(seg + ("/" + rest))
            == match Segments(rest) case None => None case Some(r) => Some([seg] + r)
  {
    UpToOf(seg, "");
    assert seg + "" == seg;
    UpToOf(seg, "/" + rest);
    assert (seg + ("/" + rest))[|seg| + 1..] == rest;
  }

  lemma {:induction false} SegmentsOfJoin(segs: seq<string>)
    requires AreSegments(segs)
    ensures Segments(Join(segs)) == Some(segs)
    ensures segs != [] ==> Join(segs) != "" && Join(segs)[|Join(segs)| - 1] != '/'
    ensures segs != [] ==> Join(segs)[0] == segs[0][0]
  {
    if |segs| == 1 {
      SegmentsUnfold(segs[0], "x");
      assert segs[0][|segs[0]| - 1] in segs[0];
      assert segs == [segs[0]];
    } else if |segs| > 1 {
      SegmentsOfJoin(segs[1..]);
      SegmentsUnfold(segs[0], Join(segs[1..]));
      assert segs == [segs[0]] + segs[1..];
    }
  }

  lemma {:induction false} JoinOfSegments(s: string)
    ensures Segments(s).Some? ==> AreSegments(Segments(s).value) && Join(Segments(s).value) == s
    ensures Segments(s).Some? ==> (Segments(s).value == [] <==> s == "")
    decreases |s|
  {
    var seg := UpTo(s);
    if s != "" && seg != "" && |seg| + 1 < |s| {
      JoinOfSegments(s[|seg| + 1..]);
      assert s == seg + ("/" + s[|seg| + 1..]);
      if Segments(s).Some? {
        var segs := Segments(s).value;
        assert segs[0] == seg && segs[1..] == Segments(s[|seg| + 1..]).value;
      }
    }
  }

  /** The segment loop accepts exactly the joins of non-empty, slash-free segments, and returns those. */
  lemma SegmentsIff(s: string, segs: seq<string>)
    ensures Segments(s) == Some(segs) <==> AreSegments(segs) && s == Join(segs)
  {
    JoinOfSegments(s);
    if AreSegments(segs) { SegmentsOfJoin(segs); }
  }

  /** The form mark an accepted path starts with. */
  function Mark(path: string): string {
    if Marked(path, '~') then "/~/" else if Marked(path, '_') then "/_/"
    else if |path| > 1 && path[1] == '/' then "//" else "/"
  }

  /** Every accepted path is its form mark, its SP-ID if absolute, and non-empty slash-free segments rejoined. */
  lemma ParsedPathRejoins(path: string)
    requires ParsePath(path).Some?
    ensures var p := ParsePath(path).value;
            && AreSegments(p.segments)
            && (p.absolute ==> IsSegment(p.spid))
            && path == Mark(path) + if p.absolute then p.spid + ("/" + Join(p.segments)) else Join(p.segments)
  {
    hide Segments, UpTo, SplitSpid, ParseSpid, ParseTilde, Join, AreSegments;
    var mark := Mark(path);
    Glue(path, mark);
    var rest := path[|mark|..];
    if mark == "/~/" {
      TildeRejoins(rest);
    } else if mark == "/" {
      JoinOfSegments(rest);
    } else {
      SpidRejoins(rest, mark == "//");
    }
  }

  lemma Glue(path: string, mark: string)
    requires |mark| <= |path| && path[..|mark|] == mark
    ensures path == mark + path[|mark|..]
  {
  }

  lemma SpidRejoins(s: string, checked: bool)
    requires ParseSpid(s, checked).Some?
    ensures var p := ParseSpid(s, checked).value;
            AreSegments(p.segments) && p.absolute && IsSegment(p.spid) && s == p.spid + ("/" + Join(p.segments))
  {
    JoinOfSegments(SplitSpid(s).value.1);
  }

  lemma TildeRejoins(s: string)
    requires ParseTilde(s).Some?
    ensures var p := ParseTilde(s).value;
            AreSegments(p.segments) && (p.absolute || p.networkPrefix) &&
            (p.absolute ==> IsSegment(p.spid)) &&
            s == if p.absolute then p.spid + ("/" + Join(p.segments)) else Join(p.segments)
  {
    hide Segments, UpTo, SplitSpid;
    if ParseTilde(s).value.absolute { SpidRejoins(s, true); } else { JoinOfSegments(s); }
  }

  // ------------------------------------------------------------------ the addressing forms

  datatype Form = CseRelative | SpRelative | Absolute | AbsoluteUnderscore | AbsoluteTilde

  /** A resource address: head is the CSE's name or '-', tail the names below the CSE. */
  function Written(form: Form, head: string, tail: seq<string>, cse: Cse): string {
    match form
    case CseRelative => "/" + Join([head] + tail)
    case SpRelative => "/~/" + Join([cse.IdName(), head] + tail)
    case Absolute => "//" + (cse.spid + ("/" + Join([cse.IdName(), head] + tail)))
    case AbsoluteUnderscore => "/_/" + (cse.spid + ("/" + Join([cse.IdName(), head] + tail)))
    case AbsoluteTilde => "/~/" + (cse.spid + ("/" + Join([cse.IdName(), head] + tail)))
  }

  /** A dot, a hyphen or a colon tells an SP-ID from a CSE-ID. */
  predicate HasSpidMark(s: string) { exists k :: 0 <= k < |s| && (s[k] == '.' || s[k] == '-' || s[k] == ':') }

  lemma SpidMarkIff(s: string)
    ensures LooksLikeServiceProviderId(s) <==> HasSpidMark(s)
  {
    if LooksLikeServiceProviderId(s) {
      var k :| 0 <= k < |s| && (s[k] == '.' || s[k] == '-' || s[k] == ':');
    }
  }

  /** When the form can be told apart from the others. */
  predicate Unambiguous(form: Form, head: string, tail: seq<string>, cse: Cse) {
    match form
    case CseRelative =>
      tail == [] || (head != "~" && head != "_" && !(head == cse.IdName() && (tail[0] == cse.IdName() || tail[0] == "-")))
    case SpRelative => !HasSpidMark(cse.IdName())
    case Absolute => HasSpidMark(cse.spid)
    case AbsoluteUnderscore => true
    case AbsoluteTilde => HasSpidMark(cse.spid)
  }

  ghost predicate Configured(cse: Cse) { IsSegment(cse.name) && IsSegment(cse.IdName()) && IsSegment(cse.spid) }

  lemma SplitSpidOf(spid: string, rest: string)
    requires IsSegment(spid) && rest != ""
    ensures SplitSpid(spid + ("/" + rest)) == Some((spid, rest))
    ensures UpTo(spid + ("/" + rest)) == spid
  {
    UpToOf(spid, "/" + rest);
    assert (spid + ("/" + rest))[|spid| + 1..] == rest;
  }

  /** The three marked forms, by what follows the mark. */
  lemma ParseMarked(mark: string, s: string)
    requires mark == "/~/" || mark == "/_/" || mark == "//"
    requires s != "" && s[|s| - 1] != '/' && s[0] != '/'
    ensures ParsePath(mark + s)
            == if mark == "/~/" then ParseTilde(s) else ParseSpid(s, mark == "//")
  {
    hide ParseTilde, ParseSpid, WithSegments;
    var path := mark + s;
    assert path[|mark|..] == s && path[|path| - 1] == s[|s| - 1];
    if mark == "//" { assert path[2] == s[0] && path[1] == '/'; }
  }

  lemma ParseSpidOf(spid: string, segs: seq<string>, checked: bool)
    requires IsSegment(spid) && AreSegments(segs) && segs != []
    ensures var s := spid + ("/" + Join(segs));
            && s[|s| - 1] != '/' && s[0] != '/'
            && ParseSpid(s, checked) == (if checked && !LooksLikeServiceProviderId(spid) then None
                                         else Some(Parsed(segs, true, false, spid)))
            && UpTo(s) == spid
  {
    SegmentsOfJoin(segs);
    SplitSpidOf(spid, Join(segs));
    assert spid[0] in spid;
    hide SplitSpid, UpTo, Segments, Join, AreSegments;
  }

  /** How what follows "/~/" is parsed: by whether its first segment looks like an SP-ID. */
  lemma ParseTildeOf(segs: seq<string>)
    requires AreSegments(segs) && segs != []
    ensures ParsePath("/~/" + Join(segs))
            == if !LooksLikeServiceProviderId(segs[0]) then Some(Parsed(segs, false, true, ""))
               else if |segs| == 1 then None else Some(Parsed(segs[1..], true, false, segs[0]))
  {
    SegmentsOfJoin(segs);
    assert segs[0][0] in segs[0];
    ParseMarked("/~/", Join(segs));
    if |segs| == 1 {
      UpToOf(segs[0], "");
      assert segs[0] + "" == segs[0];
    } else {
      ParseSpidOf(segs[0], segs[1..], true);
    }
    hide Segments, UpTo;
  }

  lemma ParseUnderscoreOf(segs: seq<string>)
    requires AreSegments(segs) && segs != []
    ensures ParsePath("/_/" + Join(segs))
            == if |segs| == 1 then None else Some(Parsed(segs[1..], true, false, segs[0]))
  {
    SegmentsOfJoin(segs);
    assert segs[0][0] in segs[0];
    ParseMarked("/_/", Join(segs));
    if |segs| == 1 {
      UpToOf(segs[0], "");
      assert segs[0] + "" == segs[0];
    } else {
      ParseSpidOf(segs[0], segs[1..], false);
    }
    hide Segments, UpTo;
  }

  lemma ParsePlain(path: string)
    requires |path| > 1 && path[0] == '/' && path[1] != '/' && path[|path| - 1] != '/'
    requires !Marked(path, '~') && !Marked(path, '_')
    ensures ParsePath(path) == WithSegments(path[1..], false, false, "")
  {
    hide Marked, WithSegments, ParseTilde, ParseSpid;
  }

  lemma ParseRelative(segs: seq<string>)
    requires AreSegments(segs) && segs != []
    requires |segs| == 1 || (segs[0] != "~" && segs[0] != "_")
    ensures ParsePath("/" + Join(segs)) == Some(Parsed(segs, false, false, ""))
  {
    SegmentsOfJoin(segs);
    var path := "/" + Join(segs);
    assert path[1..] == Join(segs);
    assert segs[0][0] in segs[0];
    NotMarked(segs, path, '~');
    NotMarked(segs, path, '_');
    hide Segments, Join, Marked, AreSegments, ParsePath;
    ParsePlain(path);
  }

  lemma NotMarked(segs: seq<string>, path: string, c: char)
    requires AreSegments(segs) && segs != [] && path == "/" + Join(segs) && c != '/'
    requires |segs| == 1 || segs[0] != [c]
    ensures !Marked(path, c)
  {
    if |segs[0]| == 1 {
      assert segs[0] == [segs[0][0]] && path[1] == segs[0][0];
    } else {
      assert segs[0][1] in segs[0];
      assert |path| > 2 ==> path[2] == segs[0][1];
    }
  }

  lemma JoinInjective(a: seq<string>, b: seq<string>)
    requires AreSegments(a) && AreSegments(b) && Join(a) == Join(b)
    ensures a == b
  {
    SegmentsOfJoin(a);
    SegmentsOfJoin(b);
  }

  /** The one canonical spelling of a resource address. */
  function CanonicalPath(tail: seq<string>, cse: Cse): string { Join([cse.name] + tail) }

  /** A form whose normalised segments are not as many as the address has cannot be its canonical path. */
  lemma OtherLength(segs: seq<string>, tail: seq<string>, cse: Cse)
    requires Configured(cse) && AreSegments(tail) && AreSegments(segs) && |segs| != 1 + |tail|
    ensures Rejoin(segs, cse.name) != Valid(CanonicalPath(tail, cse))
  {
    if segs != [] && Join(Normalize(segs, cse.name)) == CanonicalPath(tail, cse) {
      JoinInjective(Normalize(segs, cse.name), [cse.name] + tail);
    }
  }

  lemma {:induction false} JoinSnoc(segs: seq<string>, seg: string)
    requires segs != []
    ensures Join(segs + [seg]) == Join(segs) + "/" + seg
  {
    if |segs| == 1 {
      assert (segs + [seg])[1..] == [seg];
    } else {
      assert (segs + [seg])[1..] == segs[1..] + [seg];
      JoinSnoc(segs[1..], seg);
    }
  }

  lemma CanonicalSnoc(tail: seq<string>, seg: string, cse: Cse)
    ensures CanonicalPath(tail + [seg], cse) == CanonicalPath(tail, cse) + "/" + seg
  {
    assert [cse.name] + (tail + [seg]) == ([cse.name] + tail) + [seg];
    JoinSnoc([cse.name] + tail, seg);
    hide Join;
  }

  /**
   Each addressing form of a resource address canonicalises to its one canonical path if and only if the
   form is unambiguous in this CSE.
   */
  lemma FormsAgree(form: Form, head: string, tail: seq<string>, cse: Cse)
    requires Configured(cse) && AreSegments(tail) && (head == cse.name || head == "-")
    ensures Canonicalize(Written(form, head, tail, cse), cse) == Valid(CanonicalPath(tail, cse))
            <==> Unambiguous(form, head, tail, cse)
  {
    assert IsSegment(head);
    SpidMarkIff(cse.spid);
    SpidMarkIff(cse.IdName());
    var segs, full := [head] + tail, [cse.IdName(), head] + tail;
    assert full[1..] == segs && segs[1..] == tail;
    assert Normalize(segs, cse.name) == [cse.name] + tail;
    match form
    case CseRelative => RelativeForm(head, tail, cse);
    case SpRelative =>
      ParseTildeOf(full);
      hide Join, ParsePath;
      if LooksLikeServiceProviderId(cse.IdName()) && |segs| >= 2 { OtherLength(segs[1..], tail, cse); }
    case _ => AbsoluteForm(form, head, tail, cse);
  }

  /** An absolute path whose SP-ID is the known one: the address below the CSE-ID. */
  lemma KnownSpid(path: string, head: string, tail: seq<string>, cse: Cse)
    requires head == cse.name || head == "-"
    requires ParsePath(path) == Some(Parsed([cse.IdName(), head] + tail, true, false, cse.spid))
    ensures Canonicalize(path, cse) == Valid(CanonicalPath(tail, cse))
  {
    hide Join, ParsePath;
    var segs, full := [head] + tail, [cse.IdName(), head] + tail;
    assert full[1..] == segs && segs[1..] == tail;
    assert Normalize(segs, cse.name) == [cse.name] + tail;
  }

  lemma AbsoluteForm(form: Form, head: string, tail: seq<string>, cse: Cse)
    requires Configured(cse) && AreSegments(tail) && IsSegment(head) && (head == cse.name || head == "-")
    requires form != CseRelative && form != SpRelative
    ensures Canonicalize(Written(form, head, tail, cse), cse) == Valid(CanonicalPath(tail, cse))
            <==> Unambiguous(form, head, tail, cse)
  {
    var full := [cse.IdName(), head] + tail;
    var mark := if form == Absolute then "//" else if form == AbsoluteTilde then "/~/" else "/_/";
    var path := cse.spid + ("/" + Join(full));
    assert Written(form, head, tail, cse) == mark + path;
    ParseSpidOf(cse.spid, full, mark == "//");
    ParseSpidOf(cse.spid, full, true);
    ParseMarked(mark, path);
    SpidMarkIff(cse.spid);
    hide Join, ParsePath, ParseSpid, SplitSpid, UpTo, AreSegments, LooksLikeServiceProviderId, HasSpidMark, CanonicalPath;
    if form == AbsoluteTilde && !LooksLikeServiceProviderId(cse.spid) {
      TildeWithoutSpid(full, tail, cse);
    } else if form == AbsoluteUnderscore || LooksLikeServiceProviderId(cse.spid) {
      KnownSpid(mark + path, head, tail, cse);
    }
  }

  /** "/~/" before an SP-ID that does not look like one: taken for a CSE-ID. */
  lemma TildeWithoutSpid(full: seq<string>, tail: seq<string>, cse: Cse)
    requires Configured(cse) && AreSegments(full) && AreSegments(tail) && |full| == 2 + |tail|
    requires !LooksLikeServiceProviderId(cse.spid)
    ensures Canonicalize("/~/" + (cse.spid + ("/" + Join(full))), cse) != Valid(CanonicalPath(tail, cse))
  {
    var segs := [cse.spid] + full;
    assert segs[1..] == full;
    ParseTildeOf(segs);
    OtherLength(full, tail, cse);
    hide Join, ParsePath;
  }

  lemma RelativeForm(head: string, tail: seq<string>, cse: Cse)
    requires Configured(cse) && AreSegments(tail) && IsSegment(head) && (head == cse.name || head == "-")
    ensures Canonicalize(Written(CseRelative, head, tail, cse), cse) == Valid(CanonicalPath(tail, cse))
            <==> Unambiguous(CseRelative, head, tail, cse)
  {
    var segs := [head] + tail;
    assert segs[1..] == tail;
    assert Normalize(segs, cse.name) == [cse.name] + tail;
    if tail != [] && (head == "~" || head == "_") {
      MarkedRelative(head, tail, cse);
    } else {
      ParseRelative(segs);
      hide Join, ParsePath;
      if !Unambiguous(CseRelative, head, tail, cse) { OtherLength(tail, tail, cse); }
    }
  }

  /** A CSE named '~' or '_': its name is taken for a form mark. */
  lemma MarkedRelative(head: string, tail: seq<string>, cse: Cse)
    requires Configured(cse) && AreSegments(tail) && tail != [] && (head == "~" || head == "_")
    ensures Canonicalize(Written(CseRelative, head, tail, cse), cse) != Valid(CanonicalPath(tail, cse))
  {
    var path := (if head == "~" then "/~/" else "/_/") + Join(tail);
    assert Written(CseRelative, head, tail, cse) == path by { assert ([head] + tail)[1..] == tail; }
    OneSegment(tail, cse);
    if |tail| >= 1 { OtherLength(tail[1..], tail, cse); }
    if |tail| >= 2 {
      OtherLength(tail[2..], tail, cse);
      assert tail[1..][1..] == tail[2..];
    }
    hide Join, ParsePath, CanonicalPath, AreSegments, LooksLikeServiceProviderId, Written;
    if head == "~" { ParseTildeOf(tail); } else { ParseUnderscoreOf(tail); }
  }

  lemma OneSegment(tail: seq<string>, cse: Cse)
    requires Configured(cse) && AreSegments(tail) && tail != []
    ensures |tail| > 1 ==> CanonicalPath(tail, cse) != tail[1]
  {
  }

  /** A CSE that does not know its SP-ID accepts no absolute address at all. */
  lemma NoSpidNoAbsolute(path: string, cse: Cse)
    requires cse.spid == "" && ParsePath(path).Some? && ParsePath(path).value.absolute
    ensures Canonicalize(path, cse) == Invalid(true)
  {
    ParsedPathRejoins(path);
  }

  /** An absolute address of another service provider is told from a malformed one. */
  lemma ForeignSpid(spid: string, segs: seq<string>, cse: Cse)
    requires IsSegment(spid) && spid != cse.spid && AreSegments(segs) && segs != []
    ensures Canonicalize("/_/" + (spid + ("/" + Join(segs))), cse) == Invalid(true)
    ensures HasSpidMark(spid) ==> Canonicalize("//" + (spid + ("/" + Join(segs))), cse) == Invalid(true)
  {
    var s := spid + ("/" + Join(segs));
    ParseSpidOf(spid, segs, false);
    ParseSpidOf(spid, segs, true);
    ParseMarked("/_/", s);
    ParseMarked("//", s);
    SpidMarkIff(spid);
    hide Join, ParsePath, ParseSpid, HasSpidMark, LooksLikeServiceProviderId;
  }

  /** SP-relative with a bare resource-ID: the identifier itself. */
  lemma UnstructuredForm(ri: string, cse: Cse)
    requires Configured(cse) && IsSegment(ri) && !HasSpidMark(cse.IdName())
    ensures Canonicalize("/~/" + Join([cse.IdName(), ri]), cse) == Valid(if ri == "-" then cse.name else ri)
  {
    ParseTildeOf([cse.IdName(), ri]);
    assert [cse.IdName(), ri][1..] == [ri];
    assert Normalize([ri], cse.name) == [if ri == "-" then cse.name else ri];
  }

  // ------------------------------------------------------------------ the loops of the source

  /** The inner loop: from pos to the next slash or the end. */
  method SegmentEnd(path: string, pos: nat) returns (end: nat)
    requires pos <= |path|
    ensures pos <= end <= |path| && path[pos..end] == UpTo(path[pos..])
    ensures end < |path| ==> path[end] == '/'
  {
    end := pos;
    while end < |path| && path[end] != '/'
      invariant pos <= end <= |path| && '/' !in path[pos..end]
    {
      end := end + 1;
    }
    assert path[pos..] == path[pos..end] + path[end..];
    UpToOf(path[pos..end], path[end..]);
  }

  function Prepend(before: seq<string>, o: Option<seq<string>>): Option<seq<string>> {
    match o case None => None case Some(rest) => Some(before + rest)
  }

  /** One turn of the segment loop. */
  lemma SegmentsStep(s: string, seg: string, before: seq<string>)
    requires s != "" && seg == UpTo(s)
    ensures seg == "" || |seg| + 1 == |s| ==> Prepend(before, Segments(s)) == None
    ensures seg != "" && |seg| == |s| ==> Prepend(before, Segments(s)) == Some(before + [seg])
    ensures seg != "" && |seg| + 1 < |s| ==>
              Prepend(before, Segments(s)) == Prepend(before + [seg], Segments(s[|seg| + 1..]))
  {
    hide UpTo;
    if seg != "" && |seg| + 1 < |s| {
      PrependTwice(before, seg, Segments(s[|seg| + 1..]));
    }
  }

  lemma PrependTwice(before: seq<string>, seg: string, o: Option<seq<string>>)
    ensures Prepend([], o) == o && Prepend(before, Some([])) == Some(before)
    ensures Prepend(before, Prepend([seg], o)) == Prepend(before + [seg], o)
  {
    if o.Some? {
      assert before + ([seg] + o.value) == (before + [seg]) + o.value;
      assert [] + o.value == o.value;
    }
    assert before + [] == before;
  }

  lemma SegmentsOfNothing(s: string)
    requires s == ""
    ensures Segments(s) == Some([])
  {
  }

  /** The final loop: collects the segments from pos on. */
  method CollectSegments(path: string, pos: nat) returns (ok: bool, segments: seq<string>)
    requires pos <= |path|
    ensures Segments(path[pos..]) == if ok then Some(segments) else None
  {
    segments := [];
    var i := pos;
    hide Segments, Prepend, UpTo;
    PrependTwice([], "", Segments(path[pos..]));
    ghost var all := Segments(path[pos..]);
    while i < |path|
      invariant pos <= i <= |path|
      invariant all == Prepend(segments, Segments(path[i..]))
      decreases |path| - i
    {
      var end := SegmentEnd(path, i);
      SegmentsStep(path[i..], path[i..end], segments);
      if end == i { return false, segments; }
      segments := segments + [path[i..end]];
      if end < |path| {
        assert path[i..][end - i + 1..] == path[end + 1..];
        end := end + 1;
        if end == |path| { return false, segments; }
      } else {
        return true, segments;
      }
      i := end;
    }
    SegmentsOfNothing(path[i..]);
    PrependTwice(segments, "", None);
    ok := true;
  }

  /** An SP-ID at pos, and the position after its slash. */
  method ReadSpid(path: string, pos: nat) returns (ok: bool, spid: string, next: nat)
    requires pos <= |path|
    ensures ok ==> next < |path| && SplitSpid(path[pos..]) == Some((spid, path[next..]))
    ensures !ok ==> SplitSpid(path[pos..]) == None
  {
    var end := SegmentEnd(path, pos);
    ok, spid, next := false, path[pos..end], end;
    if end == pos || end == |path| || end + 1 == |path| { return; }
    assert path[pos..][end - pos + 1..] == path[end + 1..];
    ok, next := true, end + 1;
  }

  /** ParseAddressingPath. */
  method ParseAddressingPath(path: string)
    returns (ok: bool, segments: seq<string>, absolute: bool, networkPrefix: bool, spid: string)
    ensures ParsePath(path) == if ok then Some(Parsed(segments, absolute, networkPrefix, spid)) else None
  {
    hide Segments, UpTo, SplitSpid, LooksLikeServiceProviderId;
    ok, segments, absolute, networkPrefix, spid := false, [], false, false, "";
    if path == "" || path[0] != '/' { return; }
    if |path| > 1 && path[|path| - 1] == '/' { return; }
    networkPrefix := |path| > 2 && path[1] == '~' && path[2] == '/';
    var underscored := |path| > 2 && path[1] == '_' && path[2] == '/';
    absolute := (|path| > 1 && path[1] == '/' && !networkPrefix) || underscored;
    var pos: nat := if networkPrefix then 3 else if absolute then if underscored then 3 else 2 else 1;
    if absolute {
      ok, spid, pos := ReadSpid(path, pos);
      if !ok { return; }
      ok := false;
      if !underscored && !LooksLikeServiceProviderId(spid) { return; }
    }
    if networkPrefix {
      var end := SegmentEnd(path, pos);
      if end == pos { return; }
      if LooksLikeServiceProviderId(path[pos..end]) {
        absolute, networkPrefix := true, false;
        ok, spid, pos := ReadSpid(path, pos);
        if !ok { return; }
        SplitSpidLooks(path[3..]);
      }
    }
    ok, segments := CollectSegments(path, pos);
  }

  lemma SplitSpidLooks(s: string)
    ensures SplitSpid(s).Some? ==> SplitSpid(s).value.0 == UpTo(s)
  {
  }

  /** CanonicalizeAddressingPath. */
  method CanonicalizeAddressingPath(path: string, cse: Cse) returns (out: string, valid: bool, wrongSpid: bool)
    ensures Canonicalize(path, cse) == if valid then Valid(out) else Invalid(wrongSpid)
  {
    hide Join, ParsePath, Normalize;
    out, valid, wrongSpid := "", false, false;
    var ok, segments, absolute, networkPrefix, parsedSpid := ParseAddressingPath(path);
    if !ok { return; }
    var cseIdName := cse.IdName();
    if absolute && |parsedSpid| > 0 && cse.spid != parsedSpid {
      wrongSpid := true;
      return;
    }
    var start := 0;
    if absolute {
      if |segments| < 2 { return; }
      if segments[0] != cseIdName { return; }
      start := 1;
    } else if networkPrefix {
      if |segments| == 0 { return; }
      if segments[0] != cseIdName { return; }
      if |segments| == 1 { return; }
      if |segments| == 2 && segments[1] != cseIdName && segments[1] != cse.name && segments[1] != "-" {
        return segments[1], true, false;
      }
      start := 1;
    } else if |segments| >= 2 && segments[0] == cseIdName && (segments[1] == cseIdName || segments[1] == "-") {
      start := 1;
    }
    var normalized := NormalizeFrom(segments, start, cse.name);
    assert segments[0..] == segments;
    if |normalized| == 0 { return; }
    out := JoinSegments(normalized);
    valid := true;
  }

  /** The loop that replaces a leading '-'. */
  method NormalizeFrom(segments: seq<string>, start: nat, name: string) returns (normalized: seq<string>)
    requires start <= |segments|
    ensures normalized == Normalize(segments[start..], name)
    ensures |normalized| == |segments| - start
  {
    normalized := [];
    var i := start;
    while i < |segments|
      invariant start <= i <= |segments|
      invariant |normalized| == i - start
      invariant forall k :: 0 <= k < i - start ==>
                  normalized[k] == if k == 0 && segments[start] == "-" then name else segments[start + k]
    {
      normalized := normalized + [if i == start && segments[i] == "-" then name else segments[i]];
      i := i + 1;
    }
  }

  method JoinSegments(segments: seq<string>) returns (out: string)
    ensures out == Join(segments)
  {
    hide Join;
    out := "";
    var i := 0;
    assert Join([]) == "" && segments[0..] == segments by { JoinNothing(); }
    while i < |segments|
      invariant 0 <= i <= |segments|
      invariant Join(segments) == out + ((if 0 < i < |segments| then "/" else "") + Join(segments[i..]))
    {
      JoinTurn(segments, i, out);
      if i > 0 { out := out + "/"; }
      out := out + segments[i];
      i := i + 1;
    }
    assert segments[i..] == [] && out + ("" + "") == out;
  }

  lemma JoinNothing()
    ensures Join([]) == ""
  {
  }

  /** One turn of the joining loop. */
  lemma JoinTurn(segs: seq<string>, i: nat, out: string)
    requires i < |segs|
    ensures var sep := if i > 0 then "/" else "";
            out + (sep + Join(segs[i..]))
            == out + sep + segs[i] + ((if i + 1 < |segs| then "/" else "") + Join(segs[i + 1..]))
  {
    var more := (if i + 1 < |segs| then "/" else "") + Join(segs[i + 1..]);
    assert Join(segs[i..]) == segs[i] + more by { assert segs[i..][1..] == segs[i + 1..]; }
    var sep := if i > 0 then "/" else "";
    assert out + (sep + (segs[i] + more)) == out + sep + segs[i] + more;
  }
}
