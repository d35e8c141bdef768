/** Paths: a string without empty segments, and its chunks (srcs/Path.cpp). */
module Paths {
  import opened Octets

  /** Runs of slashes become one. */
  function Squeeze(s: string): (r: string)
    ensures |r| <= |s| && (s != "" ==> r != "" && r[0] == s[0])
  {
    if |s| < 2 then s
    else if s[0] == '/' && s[1] == '/' then Squeeze(s[1..])
    else [s[0]] + Squeeze(s[1..])
  }

  predicate NoEmptySegment(s: string) {
    forall i :: 0 <= i < |s| - 1 ==> !(s[i] == '/' && s[i + 1] == '/')
  }

  /** The non-empty segments between slashes. */
  function Chunks(s: string): (r: seq<string>)
    decreases |s|
  {
    var pos := Find(s, "/");
    if pos == NPOS then (if s == "" then [] else [s])
    else (if pos == 0 then [] else [s[..pos]]) + Chunks(s[pos + 1..])
  }

  datatype Path = Path(str: string, chunks: seq<string>) {
    predicate Empty() { str == "" }

    predicate OriginForm() { str != "" && str[0] == '/' }

    predicate DirFormat() { str != "" && str[|str| - 1] == '/' }

    function Length(): nat { |chunks| }

    function PrefixLength(): nat {
      if DirFormat() then |chunks| else if |chunks| == 0 then 0 else |chunks| - 1
    }

    function Concat(other: Path): string {
      if DirFormat() && other.OriginForm() then str + other.str[1..] else str + other.str
    }
  }

  const EMPTY := Path("", [])

  /** The path that the constructor builds from a string. */
  function PathOf(s: string): Path {
    Path(Squeeze(s), Chunks(Squeeze(s)))
  }

  // ---- Squeezing

  lemma {:induction false} SqueezeIsSqueezed(s: string)
    ensures NoEmptySegment(Squeeze(s))
  {
    if |s| >= 2 {
      SqueezeIsSqueezed(s[1..]);
    }
  }

  lemma {:induction false} SqueezeIdle(s: string)
    requires NoEmptySegment(s)
    ensures Squeeze(s) == s
  {
    if |s| >= 2 {
      SqueezeIdle(s[1..]);
    }
  }

  /** One slash of a double slash can be dropped first. */
  lemma {:induction false} SqueezeReplace(s: string, pos: nat)
    requires OccursAt(s, "//", pos)
    ensures Squeeze(s[..pos] + "/" + s[pos + 2..]) == Squeeze(s)
    decreases pos
  {
    var t := s[..pos] + "/" + s[pos + 2..];
    assert s[pos] == s[pos..pos + 2][0] && s[pos + 1] == s[pos..pos + 2][1];
    if pos == 0 {
      assert t == s[1..];
    } else {
      var s1 := s[1..];
      assert s1[pos - 1..pos + 1] == s[pos..pos + 2];
      assert t[1..] == s1[..pos - 1] + "/" + s1[pos + 1..];
      SqueezeReplace(s1, pos - 1);
      assert t[0] == s[0];
      if pos == 1 {
        assert t[1] == '/' && s[1] == '/';
      } else {
        assert t[1] == s[1];
      }
    }
  }

  /** Without a double slash in its first `n` characters, a string keeps these. */
  lemma {:induction false} SqueezeKeepsPrefix(s: string, n: nat)
    requires n <= |s| && NoEmptySegment(s[..n])
    ensures n <= |Squeeze(s)| && Squeeze(s)[..n] == s[..n]
  {
    if |s| >= 2 && n > 0 {
      var s1 := s[1..];
      assert s1[..n - 1] == s[..n][1..];
      assert n > 1 ==> s[..n][0] == s[0] && s[..n][1] == s[1];
      if s[0] == '/' && s[1] == '/' {
        assert Squeeze(s)[0] == s1[0];
      } else {
        SqueezeKeepsPrefix(s1, n - 1);
        assert s[..n] == [s[0]] + s1[..n - 1];
        assert Squeeze(s)[..n] == [s[0]] + Squeeze(s1)[..n - 1];
      }
    }
  }

  // ---- Chunks and the string

  /** The chunks, each after a slash. */
  function Join(chunks: seq<string>): string {
    if chunks == [] then "" else "/" + chunks[0] + Join(chunks[1..])
  }

  /** A segment: not empty and without slash. */
  predicate Segment(c: string) {
    c != "" && '/' !in c
  }

  lemma {:induction false} ChunksAreSegments(s: string)
    ensures forall i :: 0 <= i < |Chunks(s)| ==> Segment(Chunks(s)[i])
    decreases |s|
  {
    var pos := Find(s, "/");
    if pos != NPOS {
      ChunksAreSegments(s[pos + 1..]);
      NoSlashBefore(s, pos);
    } else {
      NoSlashBefore(s, |s|);
    }
  }

  lemma NoSlashBefore(s: string, n: nat)
    requires n <= |s| && (Find(s, "/") == NPOS || n <= Find(s, "/"))
    ensures '/' !in s[..n] && (n == |s| ==> '/' !in s)
  {
    forall i: nat | i < n ensures s[i] != '/' {
      assert !OccursAt(s, "/", i);
      assert s[i..i + 1] == [s[i]];
    }
    assert n == |s| ==> s[..n] == s;
  }

  lemma FindSlash(a: string, b: string)
    requires '/' !in a
    ensures Find(a + "/" + b, "/") == |a|
  {
    var t := a + "/" + b;
    assert t[|a|..|a| + 1] == "/";
    assert OccursAt(t, "/", |a|);
    var r := Find(t, "/");
    assert t[r..r + 1][0] == '/';
  }

  lemma ChunksSlash(u: string)
    ensures Chunks("/" + u) == Chunks(u)
  {
    FindSlash("", u);
    assert "" + "/" + u == "/" + u;
    assert ("/" + u)[1..] == u;
  }

  lemma ChunksSegment(a: string, b: string)
    requires Segment(a)
    ensures Chunks(a + "/" + b) == [a] + Chunks(b) && Chunks(a) == [a]
  {
    FindSlash(a, b);
    var t := a + "/" + b;
    assert t[..|a|] == a && t[|a| + 1..] == b;
    FindNoSlash(a);
  }

  lemma FindNoSlash(a: string)
    requires '/' !in a
    ensures Find(a, "/") == NPOS
  {
    forall i: nat | i < |a| ensures !OccursAt(a, "/", i) {
      assert a[i..i + 1][0] == a[i];
    }
  }

  /** A string is its first segment, then nothing or a slash and more. */
  lemma SplitSegment(t: string) returns (a: string, b: string)
    requires t != "" && t[0] != '/'
    ensures Segment(a) && (t == a || t == a + "/" + b)
  {
    var pos := Find(t, "/");
    if pos == NPOS {
      NoSlashBefore(t, |t|);
      a, b := t, "";
    } else {
      NoSlashBefore(t, pos);
      assert t[pos..pos + 1] == "/";
      assert t[0] == t[0..1][0];
      a, b := t[..pos], t[pos + 1..];
      assert t == a + t[pos..pos + 1] + b;
    }
  }

  predicate EndsInSlash(s: string) {
    s != "" && s[|s| - 1] == '/'
  }

  lemma JoinFirst(c: string, cs: seq<string>)
    ensures Join([c] + cs) == "/" + c + Join(cs)
  {
    assert ([c] + cs)[1..] == cs;
  }

  lemma TailNoEmptySegment(a: string, b: string)
    requires NoEmptySegment("/" + a + "/" + b)
    ensures NoEmptySegment("/" + b)
  {
    var s, u := "/" + a + "/" + b, "/" + b;
    forall i | 0 <= i < |u| - 1 ensures !(u[i] == '/' && u[i + 1] == '/') {
      assert s[i + |a| + 1] == u[i] && s[i + |a| + 2] == u[i + 1];
    }
  }

  function Tail(s: string): string {
    if EndsInSlash(s) then "/" else ""
  }

  lemma JoinLast(a: string)
    requires Segment(a)
    ensures "/" + a == Join([a]) + Tail("/" + a)
  {
    JoinFirst(a, []);
    assert ("/" + a)[|a|] == a[|a| - 1] && a[|a| - 1] in a;
    assert [a] + [] == [a];
  }

  lemma JoinMore(a: string, b: string, cs: seq<string>)
    requires "/" + b == Join(cs) + Tail("/" + b)
    ensures "/" + a + "/" + b == Join([a] + cs) + Tail("/" + a + "/" + b)
  {
    JoinFirst(a, cs);
    Assoc("/" + a, Join(cs), Tail("/" + b));
    Assoc("/" + a, "/", b);
    var s, u := "/" + a + "/" + b, "/" + b;
    assert s[|s| - 1] == u[|u| - 1];
  }

  lemma JoinRoot()
    ensures "/" + "" == Join(Chunks("/" + "")) + Tail("/" + "")
  {
    ChunksSlash("");
    FindNoSlash("");
  }

  lemma NoSlashAfterFirst(t: string)
    requires NoEmptySegment("/" + t) && t != ""
    ensures t[0] != '/'
  {
    assert ("/" + t)[0] == '/' && ("/" + t)[1] == t[0];
  }

  /** A path in origin form is its chunks, each after a slash, and a slash at the end if it had one. */
  lemma {:induction false} JoinChunks(t: string)
    requires NoEmptySegment("/" + t)
    ensures "/" + t == Join(Chunks("/" + t)) + Tail("/" + t)
    decreases |t|
  {
    hide *;
    if t == "" {
      JoinRoot();
    } else {
      assert ("/" + t)[1] == t[0];
      NoSlashAfterFirst(t);
      ChunksSlash(t);
      var a, b := SplitSegment(t);
      ChunksSegment(a, b);
      if t == a {
        JoinLast(a);
      } else {
        assert "/" + t == "/" + a + "/" + b;
        TailNoEmptySegment(a, b);
        JoinChunks(b);
        ChunksSlash(b);
        JoinMore(a, b, Chunks(b));
      }
    }
  }

  lemma {:induction false} JoinAppend(xs: seq<string>, ys: seq<string>)
    ensures Join(xs + ys) == Join(xs) + Join(ys)
  {
    if xs == [] {
      assert xs + ys == ys;
    } else {
      assert (xs + ys)[1..] == xs[1..] + ys && (xs + ys)[0] == xs[0];
      JoinAppend(xs[1..], ys);
      Assoc("/" + xs[0], Join(xs[1..]), Join(ys));
    }
  }

  // ---- The constructor and the matching loop

  method DropEmptySegments(str: string) returns (path: string)
    ensures path == Squeeze(str)
  {
    hide Squeeze;
    path := str;
    var pos := Find(path, "//");
    while pos != NPOS
      invariant pos == Find(path, "//") && Squeeze(path) == Squeeze(str)
      decreases |path|
    {
      SqueezeReplace(path, pos);
      path := path[..pos] + "/" + path[pos + 2..];
      pos := Find(path, "//");
    }
    NoDoubleSlash(path);
    SqueezeIdle(path);
  }

  lemma NoDoubleSlash(s: string)
    requires Find(s, "//") == NPOS
    ensures NoEmptySegment(s)
  {
    forall i: nat | i < |s| - 1 ensures !(s[i] == '/' && s[i + 1] == '/') {
      assert !OccursAt(s, "//", i);
      assert s[i..i + 2] == [s[i], s[i + 1]];
    }
  }

  /** One token of the stream, and what is left of it. */
  lemma ChunksToken(rest: string)
    requires rest != ""
    ensures var pos := Find(rest, "/");
            var token, left := if pos == NPOS then rest else rest[..pos], if pos == NPOS then "" else rest[pos + 1..];
            Chunks(rest) == (if token == "" then [] else [token]) + Chunks(left)
  {
    FindNoSlash("");
  }

  method SplitChunks(path: string) returns (chunks: seq<string>)
    ensures chunks == Chunks(path)
  {
    FindNoSlash("");
    assert Chunks("") == [];
    hide Chunks, Find;
    var rest := path;
    chunks := [];
    while rest != ""
      invariant chunks + Chunks(rest) == Chunks(path)
      decreases |rest|
    {
      ChunksToken(rest);
      var pos := Find(rest, "/");
      var token, left := if pos == NPOS then rest else rest[..pos], if pos == NPOS then "" else rest[pos + 1..];
      Assoc(chunks, if token == "" then [] else [token], Chunks(left));
      if token != "" {
        chunks := chunks + [token];
      } else {
        assert chunks + [] == chunks;
      }
      rest := left;
    }
    assert chunks + [] == chunks;
  }

  method NewPath(str: string) returns (p: Path)
    ensures p == PathOf(str)
  {
    var path := DropEmptySegments(str);
    var chunks := SplitChunks(path);
    p := Path(path, chunks);
  }

  method PrefixMatch(p: Path, other: Path) returns (b: bool)
    ensures b == (p.chunks <= other.chunks)
  {
    if |p.chunks| > |other.chunks| {
      return false;
    }
    var i := 0;
    while i < |p.chunks|
      invariant 0 <= i <= |p.chunks| && p.chunks[..i] == other.chunks[..i]
    {
      if p.chunks[i] != other.chunks[i] {
        return false;
      }
      i := i + 1;
    }
    b := true;
  }
}
