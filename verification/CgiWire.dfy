/** What a CGI output becomes on the wire, octet by octet: the status line, the fields and the body
    (srcs/Request/ARequest-cgi.cpp:42-94, srcs/Response.cpp:32-46). */
module CgiWire {
  import opened Octets
  import opened Numbers
  import opened Wrappers
  import opened Responses
  import opened CgiRelay

  const ERROR_HEAD: octets := "HTTP/1.1 500 Internal Server Error\r\n\r\n"

  // ---- Fields

  /** The value of the last field of a name. */
  function LastValue(fields: seq<Field>, name: octets): Option<octets> {
    if fields == [] then None
    else
      var f := fields[|fields| - 1];
      if f.name == name then Some(f.value) else LastValue(fields[..|fields| - 1], name)
  }

  /** `fs` holds the last value of every name in `all`, in the order of the names; `Status` is left out. */
  ghost predicate Shown(fs: seq<Field>, all: seq<Field>) {
    Sorted(fs) && forall f :: f in fs <==> f.name != HEADER_STATUS && LastValue(all, f.name) == Some(f.value)
  }

  /** `fs` is the map of `all`. */
  ghost predicate Mapped(fs: seq<Field>, all: seq<Field>) {
    Sorted(fs) && forall f :: f in fs <==> LastValue(all, f.name) == Some(f.value)
  }

  /** The order is that of std::string: at the first difference, or when one string ends. */
  lemma {:induction false} LessExactly(a: octets, b: octets)
    ensures Less(a, b) <==> exists k :: 0 <= k <= |a| && k < |b| && a[..k] == b[..k] && (k == |a| || a[k] < b[k])
  {
    if a == "" {
      assert b != "" ==> a[..0] == b[..0];
    } else if b != "" {
      LessExactly(a[1..], b[1..]);
      if a[0] == b[0] {
        if k :| 0 <= k <= |a[1..]| && k < |b[1..]| && a[1..][..k] == b[1..][..k] && (k == |a[1..]| || a[1..][k] < b[1..][k]) {
          assert a[..k + 1] == [a[0]] + a[1..][..k] && b[..k + 1] == [b[0]] + b[1..][..k];
        }
        if k :| 0 <= k <= |a| && k < |b| && a[..k] == b[..k] && (k == |a| || a[k] < b[k]) {
          assert k > 0;
          assert a[1..][..k - 1] == a[..k][1..] && b[1..][..k - 1] == b[..k][1..];
        }
      } else {
        assert a[..0] == b[..0];
        if k :| 0 <= k <= |a| && k < |b| && a[..k] == b[..k] && (k == |a| || a[k] < b[k]) {
          assert k > 0 ==> a[..k][0] == b[..k][0];
        }
      }
    }
  }

  lemma {:induction false} PutAllMaps(fields: seq<Field>, all: seq<Field>, more: seq<Field>)
    requires Mapped(fields, all)
    ensures Mapped(PutAll(fields, more), all + more)
    decreases more
  {
    if more == [] {
      assert all + more == all;
    } else {
      var m := more[0];
      OneMoreMapped(fields, all, m);
      hide Put, Mapped;
      assert all + more == (all + [m]) + more[1..];
      PutAllMaps(Put(fields, m.name, m.value), all + [m], more[1..]);
    }
  }

  lemma OneMoreMapped(fields: seq<Field>, all: seq<Field>, m: Field)
    requires Mapped(fields, all)
    ensures Mapped(Put(fields, m.name, m.value), all + [m])
  {
    hide Put, Less;
    PutSorts(fields, m.name, m.value);
    var next := all + [m];
    assert next[|next| - 1] == m && next[..|next| - 1] == all;
    assert forall name :: LastValue(next, name) == if name == m.name then Some(m.value) else LastValue(all, name);
    hide Sorted, LastValue;
  }

  /** The order and the members determine the list. */
  lemma {:induction false} SortedUnique(xs: seq<Field>, ys: seq<Field>)
    requires Sorted(xs) && Sorted(ys) && forall f :: f in xs <==> f in ys
    ensures xs == ys
    decreases |xs|
  {
    EmptyTogether(xs, ys);
    if xs != [] {
      FirstIsFirst(xs, ys);
      var x := xs[0];
      assert xs == [x] + xs[1..] && ys == [x] + ys[1..];
      forall f ensures f in xs[1..] <==> f in ys[1..] {
        RestWithout(xs, f);
        RestWithout(ys, f);
      }
      SortedUnique(xs[1..], ys[1..]);
    }
  }

  lemma EmptyTogether(xs: seq<Field>, ys: seq<Field>)
    requires forall f :: f in xs <==> f in ys
    ensures xs == [] <==> ys == []
  {
    if xs != [] { assert xs[0] in ys; }
    if ys != [] { assert ys[0] in xs; }
  }

  lemma FirstIsFirst(xs: seq<Field>, ys: seq<Field>)
    requires Sorted(xs) && Sorted(ys) && xs != [] && ys != [] && forall f :: f in xs <==> f in ys
    ensures xs[0] == ys[0]
  {
    var x, y := xs[0], ys[0];
    assert x in ys && y in xs;
    if x != y {
      var i :| 0 <= i < |ys| && ys[i] == x;
      var j :| 0 <= j < |xs| && xs[j] == y;
      assert Less(y.name, x.name) && Less(x.name, y.name);
      LessTotal(x.name, y.name);
    }
  }

  lemma RestWithout(xs: seq<Field>, f: Field)
    requires Sorted(xs) && xs != []
    ensures f in xs[1..] <==> f in xs && f != xs[0]
  {
    LessTotal(xs[0].name, xs[0].name);
    assert xs == [xs[0]] + xs[1..];
    hide Less;
  }

  // ---- Status lines

  predicate IsDigit(c: char) {
    '0' <= c <= '9'
  }

  lemma DigitIs(c: char)
    ensures Digit(c, Decimal) >= 0 <==> IsDigit(c)
    ensures IsDigit(c) ==> 0 <= c as int - '0' as int < 10 && Digit(c, Decimal) == c as int - '0' as int && DigitChar(c as int - '0' as int) == c
  {}

  lemma NumeralStep(n: nat, d: nat)
    requires n > 0 && d < 10
    ensures Numeral(10 * n + d, Decimal) == Numeral(n, Decimal) + [DigitChar(d)]
    ensures Numeral(d, Decimal) == [DigitChar(d)]
  {
    var m := 10 * n + d;
    assert Decimal.Rest(m) == n && Decimal.Last(m) == d;
    hide DigitChar;
  }

  /** The string of a number that is not zero, read and printed. */
  predicate Canonical(s: octets, n: nat) {
    n > 0 && AllDigits(s, Decimal) && Value(s, Decimal) == n && Numeral(n, Decimal) == s
  }

  lemma OneDigit(c: char)
    requires IsDigit(c) && c != '0'
    ensures Canonical([c], c as int - '0' as int)
  {
    DigitIs(c);
    ValueStep("", c, Decimal);
    assert "" + [c] == [c] && Value("", Decimal) == 0;
    NumeralStep(1, c as int - '0' as int);
  }

  lemma AnotherDigit(s: octets, n: nat, c: char)
    requires Canonical(s, n) && IsDigit(c)
    ensures Canonical(s + [c], 10 * n + (c as int - '0' as int))
  {
    hide Digit, DigitChar, Value, Numeral, AllDigits;
    DigitIs(c);
    ValueStep(s, c, Decimal);
    NumeralStep(n, c as int - '0' as int);
  }

  /** Three digits, of which the first is not zero, are printed as they were read. */
  lemma ThreeDigits(a: char, b: char, c: char)
    requires IsDigit(a) && IsDigit(b) && IsDigit(c) && a != '0'
    ensures Canonical([a, b, c], 100 * (a as int - '0' as int) + 10 * (b as int - '0' as int) + (c as int - '0' as int))
  {
    hide Canonical;
    var x, y, z := a as int - '0' as int, b as int - '0' as int, c as int - '0' as int;
    assert 0 < x && 0 <= y && 0 <= z;
    hide IsDigit;
    OneDigit(a);
    AnotherDigit([a], x, b);
    AnotherDigit([a] + [b], 10 * x + y, c);
    assert [a] + [b] + [c] == [a, b, c] && 10 * (10 * x + y) + z == 100 * x + 10 * y + z;
  }

  /** The status line that a Status field asks for: its code, printed without zeros before it, and what follows
      the character behind it; or 500 when it does not begin with three digits. */
  ghost predicate AsksFor(status: Option<octets>, line: octets) {
    match status
    case None => line == "200 OK"
    case Some(v) =>
      if |v| >= 3 && IsDigit(v[0]) && IsDigit(v[1]) && IsDigit(v[2]) then
        && AllDigits(v[..3], Decimal)
        && line == (if v[0] != '0' then v[..3] else Numeral(Value(v[..3], Decimal), Decimal))
                   + " " + if |v| <= 4 then "" else v[4..]
      else line == "500 " + v
  }

  lemma FiveHundred()
    ensures Numeral(500, Decimal) == "500" && Numeral(200, Decimal) == "200"
  {
    assert "500" == ['5', '0', '0'] && "200" == ['2', '0', '0'];
    hide Numeral, Value, AllDigits;
    ThreeDigits('5', '0', '0');
    ThreeDigits('2', '0', '0');
  }

  /** The head of the server's own error. */
  lemma ErrorHead()
    ensures SERVER_ERROR.Serialise() == ERROR_HEAD
  {
    assert Lines([]) == "";
    hide ERROR_HEAD, Numeral, Lines;
    FiveHundred();
    ErrorText();
  }

  lemma ErrorText()
    ensures "HTTP/1.1 " + "500" + " " + "Internal Server Error" + CRLF + "" + CRLF == ERROR_HEAD
  {}

  lemma StatusOfValue(v: octets, line: octets)
    requires AsksFor(Some(v), line)
    ensures var (code, reason) := CgiStatus(v); Numeral(code, Decimal) + " " + reason == line
  {
    if |v| >= 3 {
      DigitIs(v[0]);
      DigitIs(v[1]);
      DigitIs(v[2]);
      assert AllDigits(v[..3], Decimal) <==> IsDigit(v[0]) && IsDigit(v[1]) && IsDigit(v[2]);
      hide Digit, Numeral, Value, AllDigits, IsDigit;
      if AllDigits(v[..3], Decimal) && v[0] != '0' { ThreeDigitsOf(v); }
    }
    FiveHundred();
  }

  lemma ThreeDigitsOf(v: octets)
    requires |v| >= 3 && IsDigit(v[0]) && IsDigit(v[1]) && IsDigit(v[2]) && v[0] != '0'
    ensures AllDigits(v[..3], Decimal) && Numeral(Value(v[..3], Decimal), Decimal) == v[..3]
  {
    assert v[..3] == [v[0], v[1], v[2]];
    hide Value, Numeral, AllDigits;
    ThreeDigits(v[0], v[1], v[2]);
  }

  // ---- Heads

  /** The head of a complete map of fields. */
  lemma HeadOctets(fields: seq<Field>, all: seq<Field>, fs: seq<Field>, line: octets)
    requires Mapped(fields, all) && Shown(fs, all) && AsksFor(LastValue(all, HEADER_STATUS), line)
    ensures HeadOf(fields).Serialise() == "HTTP/1.1 " + line + "\r\n" + Lines(fs) + "\r\n"
  {
    var i := Lookup(fields, HEADER_STATUS);
    var r := HeadOf(fields);
    StatusFound(fields, all);
    WithoutStatus(fields, all, fs);
    SortedUnique(r.fields, fs);
    hide Sorted, Lines, LastValue;
    if i == NPOS {
      FiveHundred();
      hide Numeral;
      assert "200" + " " + OK == "200 OK";
    } else {
      StatusOfValue(fields[i].value, line);
      hide Numeral, CgiStatus, AsksFor;
    }
    assert "HTTP/1.1 " + Numeral(r.status, Decimal) + " " + r.reason == "HTTP/1.1 " + (Numeral(r.status, Decimal) + " " + r.reason);
  }

  lemma StatusFound(fields: seq<Field>, all: seq<Field>)
    requires Mapped(fields, all)
    ensures var i := Lookup(fields, HEADER_STATUS);
            LastValue(all, HEADER_STATUS) == if i == NPOS then None else Some(fields[i].value)
  {
    var i, last := Lookup(fields, HEADER_STATUS), LastValue(all, HEADER_STATUS);
    hide LastValue, Sorted;
    if i != NPOS { assert fields[i] in fields; }
    if last.Some? { assert Field(HEADER_STATUS, last.value) in fields; }
  }

  lemma WithoutStatus(fields: seq<Field>, all: seq<Field>, fs: seq<Field>)
    requires Mapped(fields, all) && Shown(fs, all)
    ensures var rest := HeadOf(fields).fields; Sorted(rest) && forall f :: f in rest <==> f in fs
  {
    var i, rest := Lookup(fields, HEADER_STATUS), HeadOf(fields).fields;
    hide LastValue, Less, CgiStatus;
    if i != NPOS {
      forall f ensures f in rest <==> f in fields && f.name != HEADER_STATUS {
        OneOfAName(fields, i, f);
      }
      StaysSorted(fields, i);
    }
    hide Sorted;
  }

  lemma StaysSorted(fields: seq<Field>, i: nat)
    requires Sorted(fields) && i < |fields|
    ensures Sorted(fields[..i] + fields[i + 1..])
  {
    hide Less;
  }

  lemma OneOfAName(fields: seq<Field>, i: nat, f: Field)
    requires Sorted(fields) && i < |fields|
    ensures f in fields[..i] + fields[i + 1..] <==> f in fields && f.name != fields[i].name
  {
    forall j | 0 <= j < |fields| && j != i ensures fields[j].name != fields[i].name {
      LessTotal(fields[i].name, fields[i].name);
    }
    hide Less;
    var rest := fields[..i] + fields[i + 1..];
    assert forall j :: 0 <= j < |fields| && j != i ==> fields[j] == rest[if j < i then j else j - 1];
  }

  // ---- The wire

  /** The whole output of a CGI that prints fields, an empty line and a body, to a response that has `fields`
      already: the status line that it asks for, all other fields once and in order, an empty line, and the body. */
  lemma PrintedWire(fields: seq<Field>, more: seq<Field>, body: octets, fs: seq<Field>, line: octets)
    requires Mapped(fields, fields) && forall i :: 0 <= i < |more| ==> Printable(more[i])
    requires Shown(fs, fields + more) && AsksFor(LastValue(fields + more, HEADER_STATUS), line)
    ensures Wire(fields, Lines(more) + (CRLF + body)) == "HTTP/1.1 " + line + "\r\n" + Lines(fs) + "\r\n" + body
  {
    hide ScanHead, Printable, Mapped, Shown, AsksFor, LastValue, HeadOf, Response.Serialise, Lines;
    ScanPrinted(fields, more, body);
    PutAllMaps(fields, fields, more);
    HeadOctets(PutAll(fields, more), fields + more, fs, line);
  }

  /** A line that is no field: the error head, and what is read behind the line. */
  lemma MalformedWire(fields: seq<Field>, more: seq<Field>, line: octets, rest: octets)
    requires forall i :: 0 <= i < |more| ==> Printable(more[i])
    requires line != "" && '\r' !in line && Find(line, ": ") == NPOS
    ensures Wire(fields, Lines(more) + (line + CRLF + rest)) == ERROR_HEAD + rest
  {
    MalformedScan(fields, more, line, rest);
    ErrorHead();
    hide ScanHead, Response.Serialise;
  }

  lemma {:induction false} MalformedScan(fields: seq<Field>, more: seq<Field>, line: octets, rest: octets)
    requires forall i :: 0 <= i < |more| ==> Printable(more[i])
    requires line != "" && '\r' !in line && Find(line, ": ") == NPOS
    ensures ScanHead(fields, Lines(more) + (line + CRLF + rest)) == Malformed(rest)
    decreases more
  {
    hide Put, Find, Printable;
    if more == [] {
      FindLineEnd(line, rest);
      var s := line + CRLF + rest;
      assert Lines(more) + s == s && s[..|line|] == line && s[|line| + 2..] == rest;
    } else {
      hide ScanHead;
      var f, after := more[0], Lines(more[1..]) + (line + CRLF + rest);
      ScanPrintedLine(fields, f, after);
      Assoc(f.name + ": " + f.value + CRLF, Lines(more[1..]), line + CRLF + rest);
      MalformedScan(Put(fields, f.name, f.value), more[1..], line, rest);
    }
  }

  /** Fields that end without an empty line: the error head. */
  lemma {:induction false} UnfinishedWire(fields: seq<Field>, more: seq<Field>, part: octets)
    requires (forall i :: 0 <= i < |more| ==> Printable(more[i])) && Find(part, CRLF) == NPOS
    ensures Wire(fields, Lines(more) + part) == ERROR_HEAD
    decreases more
  {
    ErrorHead();
    hide Put, Printable, Response.Serialise;
    if more == [] {
      assert Lines(more) + part == part;
    } else {
      hide ScanHead, Find;
      var f, after := more[0], Lines(more[1..]) + part;
      ScanPrintedLine(fields, f, after);
      Assoc(f.name + ": " + f.value + CRLF, Lines(more[1..]), part);
      UnfinishedWire(Put(fields, f.name, f.value), more[1..], part);
    }
  }
}
