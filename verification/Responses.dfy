/** The response head: status line and header fields in the order of their names
    (srcs/Response.cpp; std::map keeps its keys sorted). */
module Responses {
  import opened Octets
  import opened Numbers

  datatype Field = Field(name: octets, value: octets)

  /** std::string's order: lexicographic. */
  predicate Less(a: octets, b: octets) {
    b != "" && (a == "" || a[0] < b[0] || (a[0] == b[0] && Less(a[1..], b[1..])))
  }

  lemma {:induction false} LessTotal(a: octets, b: octets)
    ensures a == b || Less(a, b) || Less(b, a)
    ensures !(Less(a, b) && Less(b, a)) && !Less(a, a)
  {
    if a != "" && b != "" {
      LessTotal(a[1..], b[1..]);
      LessTotal(a[1..], a[1..]);
      assert a == [a[0]] + a[1..] && b == [b[0]] + b[1..];
    } else if a != "" {
      LessTotal(a[1..], a[1..]);
    }
  }

  lemma {:induction false} LessTransitive(a: octets, b: octets, c: octets)
    requires Less(a, b) && Less(b, c)
    ensures Less(a, c)
  {
    if a != "" && a[0] == b[0] && b[0] == c[0] { LessTransitive(a[1..], b[1..], c[1..]); }
  }

  /** The field list is what iterating a std::map yields. */
  predicate Sorted(fields: seq<Field>) {
    forall i, j :: 0 <= i < j < |fields| ==> Less(fields[i].name, fields[j].name)
  }

  /** `headers[name] = value`. */
  function Put(fields: seq<Field>, name: octets, value: octets): (r: seq<Field>) {
    if fields == [] then [Field(name, value)]
    else if fields[0].name == name then [Field(name, value)] + fields[1..]
    else if Less(name, fields[0].name) then [Field(name, value)] + fields
    else [fields[0]] + Put(fields[1..], name, value)
  }


  lemma {:induction false} PutSorts(fields: seq<Field>, name: octets, value: octets)
    requires Sorted(fields)
    ensures Sorted(Put(fields, name, value))
    ensures forall f :: f in Put(fields, name, value) <==> f == Field(name, value) || (f in fields && f.name != name)
  {
    if fields != [] {
      var f0, rest := fields[0], fields[1..];
      assert fields == [f0] + rest;
      LessTotal(name, f0.name);
      assert forall f :: f in fields <==> f == f0 || f in rest;
      assert forall f :: f in rest ==> Less(f0.name, f.name);
      if f0.name == name {
        forall f | f in rest ensures f.name != name { LessTotal(f0.name, f.name); }
      } else if Less(name, f0.name) {
        forall f | f in fields ensures Less(name, f.name) {
          if f in rest { LessTransitive(name, f0.name, f.name); }
        }
        forall f | f in fields ensures f.name != name { LessTotal(name, f.name); }
      } else {
        PutSorts(rest, name, value);
        var r := Put(rest, name, value);
        assert forall f :: f in r ==> Less(f0.name, f.name);
      }
    }
  }

  function Lookup(fields: seq<Field>, name: octets): (i: int)
    ensures i == NPOS || (0 <= i < |fields| && fields[i].name == name)
    ensures i == NPOS ==> forall f <- fields :: f.name != name
  {
    if fields == [] then NPOS
    else if fields[0].name == name then 0
    else
      var i := Lookup(fields[1..], name);
      if i == NPOS then NPOS else i + 1
  }

  function Lines(fields: seq<Field>): octets {
    if fields == [] then "" else fields[0].name + ": " + fields[0].value + CRLF + Lines(fields[1..])
  }

  datatype Response = Response(status: nat, reason: octets, fields: seq<Field>) {
    /** `response()`, for a response without body. */
    function Serialise(): octets {
      "HTTP/1.1 " + Numeral(status, Decimal) + " " + reason + CRLF + Lines(fields) + CRLF
    }
  }

  const OK: octets := "OK"
  const SERVER_ERROR := Response(500, "Internal Server Error", [])
}
