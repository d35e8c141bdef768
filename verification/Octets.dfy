/** Octet strings and the searches that the parsers of the server rest on.

    An octet is a `char`: every theorem of this project quantifies over all characters, and so over
    all 256 octets. */
module Octets {

  type octets = string

  // std::string::npos, the answer of a search that finds nothing
  const NPOS := -1
  const CRLF: octets := "\r\n"

  /** `p` occurs in `s` at offset `i`. */
  predicate OccursAt<T(==)>(s: seq<T>, p: seq<T>, i: nat) {
    i + |p| <= |s| && s[i..i + |p|] == p
  }

  /** First occurrence of `p` in `s` at offset `i` or later. */
  function FindFrom<T(==)>(s: seq<T>, p: seq<T>, i: nat): (r: int)
    requires p != []
    ensures r == NPOS || i <= r < |s|
    ensures r != NPOS ==> OccursAt(s, p, r)
    ensures forall j: nat :: i <= j && (r == NPOS || j < r) ==> !OccursAt(s, p, j)
    decreases |s| - i
  {
    if i >= |s| then NPOS else if OccursAt(s, p, i) then i else FindFrom(s, p, i + 1)
  }

  /** std::search, std::string::find: the first occurrence of `p` in `s`. */
  function Find<T(==)>(s: seq<T>, p: seq<T>): (r: int)
    requires p != []
    ensures r == NPOS || 0 <= r <= |s| - |p|
    ensures r != NPOS ==> OccursAt(s, p, r)
    ensures forall j: nat :: (r == NPOS || j < r) ==> !OccursAt(s, p, j)
  {
    FindFrom(s, p, 0)
  }

  lemma OccursInPrefix<T>(s: seq<T>, p: seq<T>, t: seq<T>, i: nat)
    requires i + |p| <= |s|
    ensures OccursAt(s + t, p, i) == OccursAt(s, p, i)
  {
    assert (s + t)[i..i + |p|] == s[i..i + |p|];
  }

  /** What has been found stays found, at the same offset, when the string grows. */
  lemma FindExtends<T>(s: seq<T>, p: seq<T>, t: seq<T>)
    requires p != []
    ensures Find(s, p) != NPOS ==> Find(s + t, p) == Find(s, p)
    ensures Find(s, p) == NPOS && Find(s + t, p) != NPOS ==> Find(s + t, p) + |p| > |s|
  {
    forall i: nat | i + |p| <= |s| ensures OccursAt(s + t, p, i) == OccursAt(s, p, i) {
      OccursInPrefix(s, p, t, i);
    }
  }

  /** The first CRLF of a line without CR, followed by CRLF, is the one that ends the line. */
  lemma FindLineEnd(line: octets, rest: octets)
    requires '\r' !in line
    ensures Find(line + CRLF + rest, CRLF) == |line|
  {
    var s := line + CRLF + rest;
    assert s[|line|..|line| + 2] == CRLF;
    assert OccursAt(s, CRLF, |line|);
    var r := Find(s, CRLF);
    assert s[r..r + 2][0] == CRLF[0];
    assert s[r] == '\r';
  }

  /** A string that holds no CRLF holds none after a cut either. */
  lemma NoCrlfPrefix(s: octets, n: nat)
    requires n <= |s| && (Find(s, CRLF) == NPOS || n < Find(s, CRLF) + 2)
    ensures Find(s[..n], CRLF) == NPOS
  {
    FindExtends(s[..n], CRLF, s[n..]);
    assert s[..n] + s[n..] == s;
  }

  /** std::memcmp over the common prefix is zero. */
  predicate Agrees<T(==)>(a: seq<T>, b: seq<T>) {
    var n := if |a| <= |b| then |a| else |b|;
    a[..n] == b[..n]
  }

  /** The concatenation of the pieces that a stream was cut into. */
  function Concat<T>(pieces: seq<seq<T>>): (r: seq<T>) {
    if pieces == [] then [] else pieces[0] + Concat(pieces[1..])
  }

  lemma Assoc<T>(a: seq<T>, b: seq<T>, c: seq<T>)
    ensures (a + b) + c == a + (b + c)
  {}

  /** a + b is a line, c + d its data and delimiter, e + f what follows. */
  lemma Regroup<T>(a: seq<T>, b: seq<T>, c: seq<T>, d: seq<T>, e: seq<T>, f: seq<T>)
    ensures a + b + c + d + e + f == a + b + (c + d + (e + f))
  {
    Assoc(a + b + c + d, e, f);
    Assoc(a + b + c, d, e + f);
    Assoc(a + b, c, d + (e + f));
    Assoc(c, d, e + f);
  }

  lemma {:induction false} ConcatAppend<T>(xs: seq<seq<T>>, ys: seq<seq<T>>)
    ensures Concat(xs + ys) == Concat(xs) + Concat(ys)
  {
    if xs == [] {
      assert xs + ys == ys;
    } else {
      var zs := xs + ys;
      assert zs[0] == xs[0] && zs[1..] == xs[1..] + ys;
      ConcatAppend(xs[1..], ys);
      Assoc(xs[0], Concat(xs[1..]), Concat(ys));
    }
  }

  lemma TakeDropAppend<T>(s: seq<T>, b: seq<T>, n: nat)
    ensures n <= |s| ==> (s + b)[..n] == s[..n] && (s + b)[n..] == s[n..] + b
    ensures |s| <= n <= |s + b| ==> (s + b)[..n] == s + b[..n - |s|] && (s + b)[n..] == b[n - |s|..]
  {}
}
