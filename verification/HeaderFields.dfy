/** Header fields: as they are written, and what a reader of RFC 7230, section 3.2, makes of them. */
module HeaderFields {
  import opened HttpText

  datatype Header = Header(name: string, value: string)

  function FieldLine(f: Header): string {
    f.name + ": " + f.value + CRLF
  }

  function HeaderLines(h: seq<Header>): string {
    if h == [] then "" else FieldLine(h[0]) + HeaderLines(h[1..])
  }

  lemma {:induction false} LinesOfBoth(a: seq<Header>, b: seq<Header>)
    ensures HeaderLines(a + b) == HeaderLines(a) + HeaderLines(b)
    decreases |a|
  {
    hide FieldLine;
    if a == [] {
      assert a + b == b && "" + HeaderLines(b) == HeaderLines(b);
    } else {
      LinesOfBoth(a[1..], b);
      NextLine(a[0], a[1..] + b);
      assert a + b == [a[0]] + (a[1..] + b);
      hide HeaderLines;
      ThreeTexts(FieldLine(a[0]), HeaderLines(a[1..]), HeaderLines(b));
    }
  }

  lemma NextLine(f: Header, h: seq<Header>)
    ensures HeaderLines([f] + h) == FieldLine(f) + HeaderLines(h)
  {
    assert ([f] + h)[1..] == h;
  }

  lemma ThreeTexts(a: string, b: string, c: string)
    ensures a + b + c == a + (b + c)
  {
  }

  lemma FourTexts(a: string, b: string, c: string, d: string)
    ensures a + b + c + d == a + (b + c + d)
  {
  }

  /** A name without white space and colon. */
  predicate CleanName(s: string) {
    s != "" && forall i :: 0 <= i < |s| ==> !IsSpace(s[i]) && s[i] != ':'
  }

  /** A value without a line break, and without white space around it. */
  predicate CleanValue(s: string) {
    !HasLineBreak(s) && Trimmed(s) == s
  }

  predicate Clean(h: seq<Header>) {
    forall i :: 0 <= i < |h| ==> CleanName(h[i].name) && CleanValue(h[i].value)
  }

  /** The fields up to an empty line, and what follows it. */
  datatype Fields = Fields(headers: seq<Header>, rest: string) | NoFields

  function ReadFields(s: string): Fields
    decreases |s|
  {
    var k := Find(s, CRLF);
    if k == -1 then NoFields
    else if k == 0 then Fields([], s[2..])
    else
      var line, colon := s[..k], IndexOf(s[..k], ':');
      if colon == -1 || !CleanName(line[..colon]) then NoFields
      else
        match ReadFields(s[k + 2..])
        case Fields(h, rest) => Fields([Header(line[..colon], Trimmed(line[colon + 1..]))] + h, rest)
        case NoFields => NoFields
  }

  lemma CleanNameIsOneLine(name: string, value: string)
    requires CleanName(name) && !HasLineBreak(value)
    ensures !HasLineBreak(name + ": " + value)
  {
    var line := name + ": " + value;
    assert forall i :: 0 <= i < |name| ==> line[i] == name[i] && !IsSpace(name[i]);
    forall i | 0 < i < |line| && line[i] == '\n' ensures line[i - 1] != '\r' {
      if i > |name| + 2 {
        assert line[i] == value[i - |name| - 2] && line[i - 1] == value[i - |name| - 3];
      }
    }
  }

  /** White space before a text makes no difference once trimmed. */
  lemma TrimmedAfterSpace(value: string)
    ensures Trimmed(" " + value) == Trimmed(value)
  {
    assert (" " + value)[1..] == value;
  }

  /** One clean field is read back, and reading goes on after it. */
  lemma FieldReadBack(f: Header, s: string)
    requires CleanName(f.name) && CleanValue(f.value)
    ensures ReadFields(FieldLine(f) + s) ==
            match ReadFields(s)
            case Fields(h, rest) => Fields([f] + h, rest)
            case NoFields => NoFields
  {
    var line := f.name + ": " + f.value;
    CleanNameIsOneLine(f.name, f.value);
    hide HasLineBreak, Find, IndexOf, Trimmed;
    FindAfter(line, s);
    var u := line + CRLF + s;
    assert FieldLine(f) + s == u && u[..|line|] == line && u[|line| + 2..] == s;
    assert line == f.name + [':'] + (" " + f.value);
    IndexAfter(f.name, ':', " " + f.value);
    TrimmedAfterSpace(f.value);
    assert line[..|f.name|] == f.name && line[|f.name| + 1..] == " " + f.value;
  }

  /** Clean fields are read back as they were, and nothing after the empty line is touched. */
  lemma {:induction false} FieldsReadBack(h: seq<Header>, s: string)
    requires Clean(h)
    ensures ReadFields(HeaderLines(h) + CRLF + s) == Fields(h, s)
    decreases |h|
  {
    hide CleanName, CleanValue, FieldLine;
    if h == [] {
      EndReadBack(s);
    } else {
      FieldsReadBack(h[1..], s);
      FieldReadBack(h[0], HeaderLines(h[1..]) + CRLF + s);
      NextLine(h[0], h[1..]);
      assert [h[0]] + h[1..] == h;
      hide *;
      FourTexts(FieldLine(h[0]), HeaderLines(h[1..]), CRLF, s);
    }
  }

  lemma EndReadBack(s: string)
    ensures ReadFields("" + CRLF + s) == Fields([], s)
  {
    hide Find;
    FindAfter("", s);
    assert ("" + CRLF + s)[2..] == s;
  }

  /** A reader only ever finds clean fields. */
  lemma {:induction false} FieldsAreClean(s: string)
    ensures ReadFields(s).Fields? ==> Clean(ReadFields(s).headers)
    decreases |s|
  {
    hide Find, IndexOf, Trimmed, CleanName, CleanValue, Clean, HasLineBreak;
    var k := Find(s, CRLF);
    if k == 0 {
      NoFieldsAreClean();
    } else if k > 0 {
      var line, colon := s[..k], IndexOf(s[..k], ':');
      ValueIsClean(s);
      FieldsAreClean(s[k + 2..]);
      if colon >= 0 {
        OneMoreClean(Header(line[..colon], Trimmed(line[colon + 1..])), ReadFields(s[k + 2..]));
      }
    }
  }

  lemma NoFieldsAreClean()
    ensures Clean([])
  {
  }

  lemma OneMoreClean(f: Header, x: Fields)
    requires x.Fields? ==> Clean(x.headers)
    requires CleanValue(f.value)
    ensures x.Fields? && CleanName(f.name) ==> Clean([f] + x.headers)
  {
    hide CleanName, CleanValue;
  }

  lemma ValueIsClean(s: string)
    requires Find(s, CRLF) > 0
    ensures var line := s[..Find(s, CRLF)];
            var colon := IndexOf(line, ':');
            colon >= 0 ==> CleanValue(Trimmed(line[colon + 1..]))
  {
    FirstBreak(s);
    hide Find, HasLineBreak, Trimmed, IndexOf, CleanValue;
    var k := Find(s, CRLF);
    var line := s[..k];
    var colon := IndexOf(line, ':');
    if colon >= 0 {
      TrimmedIsClean(s[..k + 1], colon + 1, k);
      assert s[..k + 1][colon + 1..k] == line[colon + 1..];
    }
  }

  lemma TrimmedIsClean(s: string, a: nat, b: nat)
    requires !HasLineBreak(s) && a <= b <= |s|
    ensures CleanValue(Trimmed(s[a..b]))
  {
    NoBreakWithin(s, a, b);
    hide HasLineBreak, Trimmed;
    var t := s[a..b];
    TrimmedMeans(t);
    var c: nat, d: nat :| TrimmedBetween(t, c, d) && Trimmed(t) == t[c..d];
    NoBreakWithin(t, c, d);
    var u := t[c..d];
    assert TrimmedBetween(u, 0, |u|);
    TrimmedIs(u, 0, |u|);
    assert u[0..|u|] == u;
  }

  /** Fields are read back exactly when they are clean. */
  lemma FieldsReadBackIff(h: seq<Header>, s: string)
    ensures ReadFields(HeaderLines(h) + CRLF + s) == Fields(h, s) <==> Clean(h)
  {
    if Clean(h) {
      FieldsReadBack(h, s);
    } else {
      FieldsAreClean(HeaderLines(h) + CRLF + s);
    }
  }
}
