/** Routing: the location that serves a target (srcs/ServerBlock.cpp), and the file path that the target
    becomes there (srcs/Request/ARequest.cpp). */
module Routing {
  import opened Octets
  import opened Paths
  import opened Settings
  import opened UriDecoding

  // ---- The choice of a location

  predicate Matches(l: Location, target: Path) {
    l.path.chunks <= target.chunks
  }

  /** Location `i` matches, and none matches with more chunks, nor with as many and earlier. */
  predicate Best(locations: seq<Location>, target: Path, i: nat) {
    && i < |locations| && Matches(locations[i], target)
    && forall j :: 0 <= j < |locations| && Matches(locations[j], target) ==>
         var pi, pj := locations[i].path.PrefixLength(), locations[j].path.PrefixLength();
         pj < pi || (pj == pi && i <= j)
  }

  predicate Unmatched(locations: seq<Location>, target: Path) {
    forall j :: 0 <= j < |locations| ==> !Matches(locations[j], target)
  }

  /** The search stops early at a location that matches the whole target, and still finds the best one. */
  method FindLocationBlock(locations: seq<Location>, target: Path) returns (selected: int)
    ensures selected == NPOS || 0 <= selected < |locations|
    ensures selected == NPOS <==> Unmatched(locations, target)
    ensures selected != NPOS ==> Best(locations, target, selected)
  {
    selected := NPOS;
    var bestMatch := 0;
    for i := 0 to |locations|
      invariant selected == NPOS || 0 <= selected < i
      invariant selected == NPOS <==> Unmatched(locations[..i], target)
      invariant selected != NPOS ==>
        && Best(locations[..i], target, selected)
        && bestMatch == locations[selected].path.PrefixLength() < target.Length()
      invariant selected == NPOS ==> bestMatch == 0
    {
      assert locations[..i + 1] == locations[..i] + [locations[i]];
      var path := locations[i].path;
      if path.Length() > target.Length() {
        continue;
      }
      var matched := PrefixMatch(path, target);
      if matched {
        assert Matches(locations[i], target);
        if path.PrefixLength() == target.Length() {
          BestAtFullLength(locations, target, i);
          assert !Unmatched(locations, target);
          return i;
        } else if path.PrefixLength() > bestMatch || selected == NPOS {
          bestMatch := path.PrefixLength();
          selected := i;
        }
      }
    }
    assert locations[..|locations|] == locations;
  }

  lemma BestAtFullLength(locations: seq<Location>, target: Path, i: nat)
    requires i < |locations| && Matches(locations[i], target)
    requires locations[i].path.PrefixLength() == target.Length()
    requires Unmatched(locations[..i], target) ||
             exists s: nat :: s < i && Best(locations[..i], target, s)
                              && locations[s].path.PrefixLength() < target.Length()
    ensures Best(locations, target, i)
  {
    forall j | 0 <= j < |locations| && Matches(locations[j], target)
      ensures locations[j].path.PrefixLength() < target.Length()
              || (locations[j].path.PrefixLength() == target.Length() && i <= j)
    {
      if j < i {
        assert locations[..i][j] == locations[j];
      }
    }
  }

  // ---- Paths as strings

  lemma {:induction false} SqueezeLast(s: string)
    requires s != ""
    ensures var r := Squeeze(s); r[|r| - 1] == s[|s| - 1]
  {
    if |s| >= 2 {
      SqueezeLast(s[1..]);
    }
  }

  /** A path made of a string in origin form is its chunks, each after a slash, with a slash at the end
      exactly if the string has one. */
  lemma OriginPath(t: string)
    requires t != "" && t[0] == '/'
    ensures var p := PathOf(t);
            p.OriginForm() && p.str == Join(p.chunks) + Tail(t)
  {
    var p := PathOf(t);
    SqueezeIsSqueezed(t);
    SqueezeLast(t);
    assert p.str == "/" + p.str[1..];
    JoinChunks(p.str[1..]);
  }

  /** A location as the configuration makes it: its path is a squeezed string, and begins and ends with a
      slash. */
  predicate Configured(l: Location) {
    l.path == PathOf(l.path.str) && l.path.OriginForm() && l.path.DirFormat()
  }

  /** So is every location whose path is built from a name and a slash. */
  lemma DirectoryPath(name: string)
    ensures var p := PathOf(name + "/"); p == PathOf(p.str) && p.DirFormat()
  {
    SqueezeLast(name + "/");
    SqueezeIsSqueezed(name + "/");
    SqueezeIdle(Squeeze(name + "/"));
  }

  lemma ConfiguredPath(l: Location)
    requires Configured(l)
    ensures l.path.str == Join(l.path.chunks) + "/"
    ensures NoEmptySegment(l.path.str)
    ensures Chunks(l.path.str) == l.path.chunks
  {
    OriginPath(l.path.str);
    SqueezeIsSqueezed(l.path.str);
  }

  /** Two strings up to their first slash. */
  lemma FirstSlash(a: string, p: string, b: string, q: string)
    requires '/' !in a && '/' !in b && a + "/" + p <= b + "/" + q
    ensures a == b && p <= q
  {
    var s, t := a + "/" + p, b + "/" + q;
    assert s[|a|] == '/' && t[|b|] == '/';
    assert forall i :: 0 <= i < |a| ==> s[i] == a[i];
    assert forall i :: 0 <= i < |b| ==> t[i] == b[i];
    assert |a| == |b|;
    assert a == s[..|a|] == t[..|a|] == b;
    assert s[|a| + 1..] == p && t[|a| + 1..] == q;
  }

  /** The closed join: what follows its first slash. */
  lemma JoinSlash(xs: seq<string>) returns (p: string)
    ensures Join(xs) + "/" == "/" + p
    ensures xs != [] ==> exists q :: Join(xs[1..]) + "/" == "/" + q && p == xs[0] + "/" + q
  {
    if xs == [] {
      p := "";
    } else {
      var q := JoinSlash(xs[1..]);
      p := xs[0] + "/" + q;
      assert Join(xs) + "/" == "/" + xs[0] + (Join(xs[1..]) + "/");
    }
  }

  lemma DropSlash(p: string, q: string)
    ensures "/" + p <= "/" + q <==> p <= q
  {
    assert ("/" + p)[1..] == p && ("/" + q)[1..] == q;
    if p <= q { assert "/" + q == "/" + p + q[|p|..]; }
  }

  /** One chunk at the head of two closed joins. */
  lemma JoinHead(xs: seq<string>, ys: seq<string>)
    requires xs != [] && ys != [] && Segment(xs[0]) && Segment(ys[0])
    requires Join(xs) + "/" <= Join(ys) + "/"
    ensures xs[0] == ys[0] && Join(xs[1..]) + "/" <= Join(ys[1..]) + "/"
  {
    var p := JoinSlash(xs);
    var q := JoinSlash(ys);
    var p1 :| Join(xs[1..]) + "/" == "/" + p1 && p == xs[0] + "/" + p1;
    var q1 :| Join(ys[1..]) + "/" == "/" + q1 && q == ys[0] + "/" + q1;
    assert '/' !in xs[0] && '/' !in ys[0];
    hide *;
    DropSlash(p, q);
    FirstSlash(xs[0], p1, ys[0], q1);
    DropSlash(p1, q1);
  }

  lemma PrefixJoins(xs: seq<string>, zs: seq<string>)
    ensures Join(xs) + "/" <= Join(xs + zs) + "/"
  {
    var p := JoinSlash(zs);
    JoinAppend(xs, zs);
    Assoc(Join(xs), Join(zs), "/");
    Assoc(Join(xs), "/", p);
  }

  /** Chunk lists in prefix order are strings in prefix order, and back. */
  lemma {:induction false} JoinPrefix(xs: seq<string>, ys: seq<string>)
    requires forall i :: 0 <= i < |xs| ==> Segment(xs[i])
    requires forall i :: 0 <= i < |ys| ==> Segment(ys[i])
    ensures xs <= ys <==> Join(xs) + "/" <= Join(ys) + "/"
    decreases |xs|
  {
    if xs <= ys {
      PrefixJoins(xs, ys[|xs|..]);
      assert xs + ys[|xs|..] == ys;
    }
    if Join(xs) + "/" <= Join(ys) + "/" && xs != [] {
      assert |Join(xs)| >= 2 && (ys == [] ==> |Join(ys)| == 0);
      hide *;
      JoinHead(xs, ys);
      JoinPrefix(xs[1..], ys[1..]);
      assert xs == [xs[0]] + xs[1..] && ys == [ys[0]] + ys[1..];
    }
  }

  /** A path in the form of a directory. */
  function Closed(p: Path): string {
    if p.DirFormat() then p.str else p.str + "/"
  }

  lemma ClosedJoin(t: string)
    requires t != "" && t[0] == '/'
    ensures Closed(PathOf(t)) == Join(PathOf(t).chunks) + "/"
  {
    OriginPath(t);
    SqueezeLast(t);
    var p := PathOf(t);
    hide Squeeze, Chunks, Join;
    if EndsInSlash(t) {
    } else {
      assert Join(p.chunks) + "" == Join(p.chunks);
    }
  }

  /** Matching by chunks is matching by strings: the target, closed by a slash, begins with the location. */
  lemma MatchesExactly(l: Location, t: string)
    requires Configured(l) && t != "" && t[0] == '/'
    ensures Matches(l, PathOf(t)) <==> l.path.str <= Closed(PathOf(t))
  {
    var p := PathOf(t);
    ConfiguredPath(l);
    ClosedJoin(t);
    ChunksAreSegments(l.path.str);
    ChunksAreSegments(p.str);
    hide Closed, Squeeze, Chunks, Join;
    JoinPrefix(l.path.chunks, p.chunks);
  }

  /** The best of configured locations is the longest: every location that matches is a prefix of it. */
  lemma BestIsLongest(locations: seq<Location>, target: Path, i: nat, j: nat)
    requires Best(locations, target, i) && j < |locations| && Matches(locations[j], target)
    requires Configured(locations[i]) && Configured(locations[j])
    ensures locations[j].path.str <= locations[i].path.str
    ensures locations[j].path.str == locations[i].path.str ==> i <= j
  {
    var pi, pj := locations[i].path, locations[j].path;
    ConfiguredPath(locations[i]);
    ConfiguredPath(locations[j]);
    ChunksAreSegments(pi.str);
    ChunksAreSegments(pj.str);
    assert pj.chunks <= pi.chunks;
    assert pj.str == pi.str ==> pj.chunks == pi.chunks;
    hide *;
    JoinPrefix(pj.chunks, pi.chunks);
  }

  // ---- Chunks and slashes

  lemma ChunksAppendSlash(c: string, b: string)
    requires Chunks(c + "/" + b) == Chunks(c) + Chunks(b)
    ensures Chunks("/" + c + "/" + b) == Chunks("/" + c) + Chunks(b)
  {
    hide *;
    ChunksSlash(c);
    ChunksSlash(c + "/" + b);
    assert "/" + c + "/" + b == "/" + (c + "/" + b);
  }

  lemma ChunksAppendSegment(seg: string, c: string, b: string)
    requires Segment(seg) && Chunks(c + "/" + b) == Chunks(c) + Chunks(b)
    ensures Chunks(seg + "/" + c + "/" + b) == Chunks(seg + "/" + c) + Chunks(b)
  {
    hide *;
    ChunksSegment(seg, c);
    ChunksSegment(seg, c + "/" + b);
    assert seg + "/" + c + "/" + b == seg + "/" + (c + "/" + b);
    Assoc([seg], Chunks(c), Chunks(b));
  }

  lemma NoChunks()
    ensures Chunks("") == []
  {
    FindNoSlash("");
  }

  lemma {:induction false} ChunksAppend(a: string, b: string)
    ensures Chunks(a + "/" + b) == Chunks(a) + Chunks(b)
    decreases |a|
  {
    hide *;
    if a == "" {
      NoChunks();
      ChunksSlash(b);
      assert a + "/" + b == "/" + b;
    } else if a[0] == '/' {
      assert a == "/" + a[1..];
      ChunksAppend(a[1..], b);
      ChunksAppendSlash(a[1..], b);
    } else {
      var seg, c := SplitSegment(a);
      if a == seg {
        ChunksSegment(seg, b);
      } else {
        ChunksAppend(c, b);
        ChunksAppendSegment(seg, c, b);
      }
    }
  }

  lemma DoubleSlashChunks(a: string, b: string)
    ensures Chunks(a + "//" + b) == Chunks(a + "/" + b)
  {
    hide Chunks, Find;
    ChunksAppend(a, b);
    ChunksAppend(a, "/" + b);
    ChunksSlash(b);
    assert a + "/" + ("/" + b) == a + "//" + b;
  }

  /** Squeezing keeps the chunks. */
  lemma {:induction false} SqueezeChunks(s: string)
    ensures Chunks(Squeeze(s)) == Chunks(s)
    decreases |s|
  {
    hide Chunks, Squeeze;
    var pos := Find(s, "//");
    if pos == NPOS {
      NoDoubleSlash(s);
      SqueezeIdle(s);
    } else {
      var a, b := s[..pos], s[pos + 2..];
      SqueezeReplace(s, pos);
      SqueezeChunks(a + "/" + b);
      assert s == a + "//" + b by { assert s == a + s[pos..pos + 2] + b; }
      DoubleSlashChunks(a, b);
    }
  }

  /** The number of characters that are not slashes. */
  function Letters(s: string): nat {
    if s == "" then 0 else (if s[0] == '/' then 0 else 1) + Letters(s[1..])
  }

  lemma {:induction false} LettersAppend(a: string, b: string)
    ensures Letters(a + b) == Letters(a) + Letters(b)
  {
    if a == "" {
      assert a + b == b;
    } else {
      assert (a + b)[0] == a[0] && (a + b)[1..] == a[1..] + b;
      LettersAppend(a[1..], b);
    }
  }

  function Total(chunks: seq<string>): nat {
    if chunks == [] then 0 else Letters(chunks[0]) + Total(chunks[1..])
  }

  lemma {:induction false} TotalAppend(xs: seq<string>, ys: seq<string>)
    ensures Total(xs + ys) == Total(xs) + Total(ys)
  {
    if xs == [] {
      assert xs + ys == ys;
    } else {
      assert (xs + ys)[0] == xs[0] && (xs + ys)[1..] == xs[1..] + ys;
      TotalAppend(xs[1..], ys);
    }
  }

  lemma LettersSlash(a: string, b: string)
    ensures Letters(a + "/" + b) == Letters(a) + Letters(b)
  {
    assert Letters("/") == 0 by { assert "/"[1..] == ""; }
    hide *;
    LettersAppend(a + "/", b);
    LettersAppend(a, "/");
  }

  lemma TotalOne(c: string)
    ensures Total([c]) == Letters(c)
  {
    assert [c][1..] == [];
  }

  lemma LettersEmpty()
    ensures Letters("") == 0 && Total([]) == 0
  {}

  /** The chunks of a string hold all its characters but the slashes. */
  lemma {:induction false} ChunksLetters(s: string)
    ensures Total(Chunks(s)) == Letters(s)
    decreases |s|
  {
    hide *;
    LettersEmpty();
    NoChunks();
    if s == "" {
    } else if s[0] == '/' {
      var u := s[1..];
      assert s == "/" + u == "" + "/" + u;
      ChunksSlash(u);
      LettersSlash("", u);
      ChunksLetters(u);
    } else {
      var seg, c := SplitSegment(s);
      ChunksSegment(seg, c);
      TotalOne(seg);
      if s != seg {
        LettersSlash(seg, c);
        TotalAppend([seg], Chunks(c));
        ChunksLetters(c);
      }
    }
  }

  /** Squeezing a prefix gives a prefix. */
  lemma {:induction false} SqueezePrefix(s: string, n: nat)
    requires n <= |s|
    ensures Squeeze(s[..n]) <= Squeeze(s)
  {
    if n >= 2 {
      assert s[..n][1..] == s[1..][..n - 1];
      SqueezePrefix(s[1..], n - 1);
      assert s[..n][0] == s[0] && s[..n][1] == s[1];
    } else if n == 1 {
      assert s[..n] == [s[0]];
    } else {
      assert s[..n] == "";
    }
  }

  lemma {:induction false} SqueezeShortens(s: string)
    requires !NoEmptySegment(s)
    ensures |s| >= 2 && |Squeeze(s)| < |s|
  {
    if !(s[0] == '/' && s[1] == '/') {
      var i :| 0 <= i < |s| - 1 && s[i] == '/' && s[i + 1] == '/';
      assert s[1..][i - 1] == '/' && s[1..][i] == '/';
      SqueezeShortens(s[1..]);
    }
  }

  // ---- Rebasing a target onto the root of its location

  /** A configured location that has a root. */
  predicate Rooted(l: Location) {
    Configured(l) && l.root == PathOf(l.root.str) && l.root.DirFormat()
  }

  /** The string of a directory, without its last slash. */
  function Stem(s: string): string
    requires s != ""
  {
    s[..|s| - 1]
  }

  lemma RootPath(l: Location)
    requires Rooted(l)
    ensures NoEmptySegment(l.root.str) && l.root.chunks == Chunks(l.root.str)
  {
    SqueezeIsSqueezed(l.root.str);
  }

  lemma PathStr(s: string)
    ensures PathOf(s).str == Squeeze(s) && (s != "" ==> Squeeze(s) != "")
  {}

  lemma Usable(l: Location, t: string)
    requires Configured(l) && Matches(l, PathOf(t))
    ensures l.path.str != "" && l.path.chunks <= PathOf(t).chunks
  {}

  lemma StemOfJoin(stem: string, more: string, tail: string)
    requires more == "" || more[0] == '/'
    requires tail == "" || tail == "/"
    ensures var s := stem + more + tail; stem <= s && (|s| > |stem| ==> s[|stem|] == '/')
  {
    var s := stem + more + tail;
    assert s == stem + (more + tail);
  }

  lemma StemOfClosed(stem: string)
    ensures Stem(stem + "/") == stem
  {}

  lemma TailIsSlash(t: string)
    ensures Tail(t) == "" || Tail(t) == "/"
  {}

  lemma JoinBegins(zs: seq<string>)
    ensures Join(zs) == "" || Join(zs)[0] == '/'
  {}

  lemma JoinSplit(xs: seq<string>, ys: seq<string>)
    requires xs <= ys
    ensures Join(ys) == Join(xs) + Join(ys[|xs|..])
  {
    assert ys == xs + ys[|xs|..];
    JoinAppend(xs, ys[|xs|..]);
  }

  /** The squeezed target begins with the location, and so the cut is never out of range. */
  lemma StemOfTarget(l: Location, t: string)
    requires Configured(l) && t != "" && t[0] == '/' && Matches(l, PathOf(t))
    ensures Stem(l.path.str) == Join(l.path.chunks) <= Squeeze(t)
    ensures |l.path.str| - 1 <= |t|
    ensures |Squeeze(t)| > |l.path.str| - 1 ==> Squeeze(t)[|l.path.str| - 1] == '/'
  {
    hide *;
    Usable(l, t);
    ConfiguredPath(l);
    OriginPath(t);
    PathStr(t);
    var stem, chunks := Join(l.path.chunks), PathOf(t).chunks;
    var more := Join(chunks[|l.path.chunks|..]);
    JoinSplit(l.path.chunks, chunks);
    JoinBegins(chunks[|l.path.chunks|..]);
    TailIsSlash(t);
    StemOfJoin(stem, more, Tail(t));
    StemOfClosed(stem);
  }

  function Cut(l: Location): nat
    requires l.path.str != ""
  {
    |l.path.str| - 1
  }

  /** The path of a target before percent-decoding. */
  function Rebased(l: Location, t: string): Path
    requires l.path.str != "" && l.root.str != "" && Cut(l) <= |t|
  {
    var root, rest := PathOf(l.root.str), t[Cut(l)..];
    PathOf(if rest != "" then root.Concat(PathOf(rest)) else Stem(l.root.str))
  }

  lemma RebasedIs(l: Location, t: string)
    requires l.path.str != "" && l.root.str != "" && l.root == PathOf(l.root.str) && Cut(l) <= |t|
    ensures var rest := t[Cut(l)..];
            Rebased(l, t) == PathOf(if rest == "" then l.root.str[..|l.root.str| - 1] else l.root.Concat(PathOf(rest)))
    ensures Stem(l.root.str) == l.root.str[..|l.root.str| - 1]
  {}

  lemma StemSqueezed(s: string)
    requires s != "" && NoEmptySegment(s)
    ensures NoEmptySegment(Stem(s)) && |Stem(s)| == |s| - 1
  {
    var stem := Stem(s);
    assert forall i :: 0 <= i < |stem| ==> stem[i] == s[i];
  }

  lemma CutIsStem(t: string, stem: string)
    requires stem <= Squeeze(t) && |stem| <= |t| && NoEmptySegment(stem)
    ensures t[..|stem|] == stem <==> NoEmptySegment(t[..|stem|])
  {
    hide *;
    if NoEmptySegment(t[..|stem|]) {
      SqueezeKeepsPrefix(t, |stem|);
      assert stem == Squeeze(t)[..|stem|];
    }
  }

  lemma CutLength(l: Location)
    requires l.path.str != ""
    ensures Cut(l) == |l.path.str| - 1
  {}

  /** The location minus its slash is a prefix of the raw target exactly when no double slash lies there. */
  lemma PrefixExactly(l: Location, t: string)
    requires Configured(l) && t != "" && t[0] == '/' && Matches(l, PathOf(t))
    ensures Cut(l) <= |t|
    ensures t[..Cut(l)] == Stem(l.path.str) <==> NoEmptySegment(t[..Cut(l)])
  {
    hide *;
    Usable(l, t);
    CutLength(l);
    StemOfTarget(l, t);
    ConfiguredPath(l);
    StemSqueezed(l.path.str);
    CutIsStem(t, Stem(l.path.str));
  }

  /** The last character of a stem is not a slash. */
  lemma StemEnd(s: string)
    requires NoEmptySegment(s) && s != "" && s[|s| - 1] == '/' && |s| > 1
    ensures |Stem(s)| == |s| - 1 && Stem(s)[|s| - 2] == s[|s| - 2] != '/'
  {}

  /** The first character after a prefix that ends in another character than a slash is kept too. */
  lemma KeepsNext(t: string, n: nat)
    requires 0 < n < |t| && NoEmptySegment(t[..n]) && t[n - 1] != '/'
    ensures n < |Squeeze(t)| && Squeeze(t)[n] == t[n]
  {
    var u, v := t[..n + 1], t[..n];
    forall i | 0 <= i < |u| - 1 ensures !(u[i] == '/' && u[i + 1] == '/') {
      if i < n - 1 { assert u[i] == v[i] && u[i + 1] == v[i + 1]; }
    }
    SqueezeKeepsPrefix(t, n + 1);
    assert Squeeze(t)[n] == Squeeze(t)[..n + 1][n] == u[n];
  }

  /** Then what is left of the target is empty or begins with a slash. */
  lemma RestBoundary(l: Location, t: string)
    requires Configured(l) && t != "" && t[0] == '/' && Matches(l, PathOf(t))
    requires Cut(l) <= |t| && NoEmptySegment(t[..Cut(l)])
    ensures t[Cut(l)..] == "" || t[Cut(l)] == '/'
  {
    hide *;
    Usable(l, t);
    CutLength(l);
    var n := Cut(l);
    PrefixExactly(l, t);
    StemOfTarget(l, t);
    ConfiguredPath(l);
    if 0 < n < |t| {
      StemEnd(l.path.str);
      assert t[n - 1] == t[..n][n - 1];
      KeepsNext(t, n);
    }
  }

  lemma GlueSqueezed(root: string, rest: string)
    requires EndsInSlash(root) && NoEmptySegment(root)
    requires NoEmptySegment(rest) && (rest == "" || rest[0] == '/')
    ensures Squeeze(Stem(root) + rest) == Stem(root) + rest
  {
    var s := Stem(root) + rest;
    forall i | 0 <= i < |s| - 1 ensures !(s[i] == '/' && s[i + 1] == '/') {
      var m := |root| - 1;
      if i + 1 <= m && i + 1 < |root| {
        assert i < m ==> s[i] == root[i];
        assert s[i + 1] == root[i + 1] || i + 1 == m;
      } else {
        assert s[i] == rest[i - m] && s[i + 1] == rest[i + 1 - m];
      }
    }
    SqueezeIdle(s);
  }

  /** Concatenation drops the slash that both sides have. */
  lemma ConcatStem(root: Path, rest: Path)
    requires root.DirFormat() && rest.OriginForm()
    ensures root.Concat(rest) == Stem(root.str) + rest.str
  {
    assert rest.str == "/" + rest.str[1..] && root.str == Stem(root.str) + "/";
    Assoc(Stem(root.str), "/", rest.str[1..]);
  }

  /** Then the path is the root without its slash, and what is left of the target. */
  lemma RebasedString(l: Location, t: string)
    requires Rooted(l) && t != "" && t[0] == '/' && Matches(l, PathOf(t))
    requires Cut(l) <= |t| && NoEmptySegment(t[..Cut(l)])
    ensures l.root.str != "" && Rebased(l, t).str == Stem(l.root.str) + Squeeze(t[Cut(l)..])
  {
    RestBoundary(l, t);
    RootPath(l);
    var rest := t[Cut(l)..];
    SqueezeIsSqueezed(rest);
    GlueSqueezed(l.root.str, Squeeze(rest));
    PathStr(Stem(l.root.str) + Squeeze(rest));
    if rest == "" {
      assert Squeeze(rest) == "";
      assert Stem(l.root.str) + "" == Stem(l.root.str);
    } else {
      assert PathOf(rest).OriginForm();
      ConcatStem(l.root, PathOf(rest));
    }
    hide Squeeze, Chunks, NoEmptySegment, Stem, Matches, Rooted;
  }

  /** A slash at the end is no chunk. */
  lemma ChunksClosed(stem: string)
    ensures Chunks(stem + "/") == Chunks(stem)
  {
    hide *;
    NoChunks();
    ChunksAppend(stem, "");
    assert stem + "/" + "" == stem + "/";
    assert Chunks(stem) + [] == Chunks(stem);
  }

  lemma ChunksGlued(stem: string, rest: string)
    requires rest != "" && rest[0] == '/'
    ensures Chunks(stem + rest) == Chunks(stem) + Chunks(rest)
  {
    hide *;
    var u := rest[1..];
    assert rest == "/" + u && stem + rest == stem + "/" + u;
    ChunksAppend(stem, u);
    ChunksSlash(u);
  }

  lemma ConcatChunks(root: Path, rest: Path)
    requires root.DirFormat() && rest.str != ""
    ensures Chunks(root.Concat(rest)) == Chunks(root.str) + Chunks(rest.str)
  {
    var stem := Stem(root.str);
    assert root.str == stem + "/";
    ChunksClosed(stem);
    if rest.OriginForm() {
      ConcatStem(root, rest);
      ChunksGlued(stem, rest.str);
    } else {
      ChunksAppend(stem, rest.str);
    }
  }

  lemma PathChunks(s: string)
    ensures PathOf(s).chunks == Chunks(s)
  {
    SqueezeChunks(s);
  }

  lemma RootedParts(l: Location)
    requires Rooted(l)
    ensures Configured(l) && l.path.str != "" && l.root.DirFormat() && l.root == PathOf(l.root.str)
  {}

  lemma DirIsClosed(p: Path)
    requires p.DirFormat()
    ensures p.str != "" && p.str == Stem(p.str) + "/"
  {}

  /** For every target, the path's chunks are the root's and then those of the raw rest. */
  lemma RebasedChunks(l: Location, t: string)
    requires Rooted(l) && Cut(l) <= |t|
    ensures Rebased(l, t).chunks == l.root.chunks + Chunks(t[Cut(l)..])
  {
    hide *;
    RootedParts(l);
    DirIsClosed(l.root);
    RootPath(l);
    var rest, stem := t[Cut(l)..], Stem(l.root.str);
    if rest == "" {
      NoChunks();
      ChunksClosed(stem);
      PathChunks(stem);
      RebasedIs(l, t);
      assert l.root.chunks + [] == l.root.chunks;
    } else {
      PathStr(rest);
      SqueezeChunks(rest);
      ConcatChunks(l.root, PathOf(rest));
      PathChunks(l.root.Concat(PathOf(rest)));
      RebasedIs(l, t);
    }
  }

  lemma StemChunks(l: Location)
    requires Configured(l)
    ensures Chunks(Stem(l.path.str)) == l.path.chunks
  {
    ConfiguredPath(l);
    hide Chunks, Squeeze;
    ChunksClosed(Stem(l.path.str));
    assert l.path.str == Stem(l.path.str) + "/";
  }

  /** A shorter prefix of a stem has fewer letters. */
  lemma FewerLetters(p: string, s: string)
    requires p <= s && |p| < |s| && s[|s| - 1] != '/'
    ensures Letters(p) < Letters(s)
  {
    var mid, last := s[|p|..|s| - 1], s[|s| - 1..];
    OneLetter(last);
    hide *;
    assert s == p + mid + last;
    LettersAppend(p, mid);
    LettersAppend(p + mid, last);
  }

  lemma OneLetter(s: string)
    requires |s| == 1 && s[0] != '/'
    ensures Letters(s) == 1
  {}

  lemma SqueezeLetters(s: string)
    ensures Letters(Squeeze(s)) == Letters(s)
  {
    SqueezeChunks(s);
    ChunksLetters(s);
    ChunksLetters(Squeeze(s));
  }

  /** With a double slash in the cut prefix, the prefix has lost letters of the location. */
  lemma PrefixLosesLetters(l: Location, t: string)
    requires Configured(l) && t != "" && t[0] == '/' && Matches(l, PathOf(t)) && Cut(l) <= |t|
    requires !NoEmptySegment(t[..Cut(l)])
    ensures Letters(t[..Cut(l)]) < Total(l.path.chunks)
  {
    hide *;
    Usable(l, t);
    CutLength(l);
    var n, stem := Cut(l), Stem(l.path.str);
    StemOfTarget(l, t);
    ConfiguredPath(l);
    StemChunks(l);
    StemSqueezed(l.path.str);
    SqueezePrefix(t, n);
    SqueezeShortens(t[..n]);
    SqueezeLetters(t[..n]);
    ChunksLetters(stem);
    StemEnd(l.path.str);
    assert Squeeze(t[..n]) == Squeeze(t)[..|Squeeze(t[..n])|] <= stem;
    FewerLetters(Squeeze(t[..n]), stem);
  }

  lemma GluedChunks(stem: string, rest: string)
    requires rest == "" || rest[0] == '/'
    ensures Chunks(stem + rest) == Chunks(stem) + Chunks(rest)
  {
    if rest == "" {
      NoChunks();
      assert stem + rest == stem;
    } else {
      ChunksGlued(stem, rest);
    }
  }

  /** The chunks after the location's are those of the raw rest, when the cut falls where it should. */
  lemma RestChunks(l: Location, t: string)
    requires Configured(l) && t != "" && t[0] == '/' && Matches(l, PathOf(t))
    requires Cut(l) <= |t| && NoEmptySegment(t[..Cut(l)])
    ensures Chunks(t) == l.path.chunks + Chunks(t[Cut(l)..])
  {
    hide *;
    Usable(l, t);
    PrefixExactly(l, t);
    RestBoundary(l, t);
    StemChunks(l);
    GluedChunks(Stem(l.path.str), t[Cut(l)..]);
    assert t == t[..Cut(l)] + t[Cut(l)..];
  }

  lemma SameRest(root: seq<string>, a: seq<string>, b: seq<string>)
    ensures root + a == root + b <==> a == b
  {
    assert (root + a)[|root|..] == a && (root + b)[|root|..] == b;
  }

  /** Routing and rebasing agree exactly when no double slash lies in the part that the location matches:
      the file is the location's root followed by the chunks of the target after the location's own. */
  lemma RebasingExactly(l: Location, t: string)
    requires Rooted(l) && t != "" && t[0] == '/' && Matches(l, PathOf(t))
    ensures Cut(l) <= |t|
    ensures Rebased(l, t).chunks == l.root.chunks + PathOf(t).chunks[|l.path.chunks|..]
            <==> NoEmptySegment(t[..Cut(l)])
  {
    hide *;
    RootedParts(l);
    Usable(l, t);
    var n, extra := Cut(l), PathOf(t).chunks[|l.path.chunks|..];
    StemOfTarget(l, t);
    CutLength(l);
    RebasedChunks(l, t);
    PathChunks(t);
    SameRest(l.root.chunks, Chunks(t[n..]), extra);
    assert Chunks(t) == l.path.chunks + extra;
    if NoEmptySegment(t[..n]) {
      RestChunks(l, t);
      SameRest(l.path.chunks, Chunks(t[n..]), extra);
    } else {
      PrefixLosesLetters(l, t);
      ChunksLetters(t);
      ChunksLetters(t[n..]);
      LettersAppend(t[..n], t[n..]);
      assert t[..n] + t[n..] == t;
      TotalAppend(l.path.chunks, extra);
    }
  }

  /** The path of a target: rebased, and then decoded. */
  function FilePath(l: Location, t: string): Path
    requires l.path.str != "" && l.root.str != "" && Cut(l) <= |t|
  {
    PathOf(Decoded(Rebased(l, t).str))
  }

  /** Without a percent sign decoding changes nothing. */
  lemma PlainFilePath(l: Location, t: string)
    requires l.path.str != "" && l.root.str != "" && Cut(l) <= |t| && '%' !in Rebased(l, t).str
    ensures FilePath(l, t) == Rebased(l, t)
  {
    var root, rest := PathOf(l.root.str), t[Cut(l)..];
    var s := if rest != "" then root.Concat(PathOf(rest)) else Stem(l.root.str);
    assert Rebased(l, t) == PathOf(s);
    hide Squeeze, Chunks, Rebased;
    PlainStays(Squeeze(s));
    SqueezeIsSqueezed(s);
    SqueezeIdle(Squeeze(s));
  }

  /** The constructor of a request: cut the target, put the rest behind the root, and decode. */
  method Rebase(l: Location, target: string) returns (path: Path)
    requires Rooted(l) && target != "" && target[0] == '/' && Matches(l, PathOf(target))
    ensures Cut(l) <= |target| && l.path.str != "" && l.root.str != "" && path == FilePath(l, target)
    ensures NoEmptySegment(target[..Cut(l)]) ==>
              path == PathOf(Decoded(Stem(l.root.str) + Squeeze(target[Cut(l)..])))
  {
    hide *;
    RootedParts(l);
    Usable(l, target);
    CutLength(l);
    StemOfTarget(l, target);
    RootedParts(l);
    DirIsClosed(l.root);
    var matchLength := |l.path.str| - 1;
    var choppedTarget := target[matchLength..];
    var root := NewPath(l.root.str);
    if choppedTarget != "" {
      var chopped := NewPath(choppedTarget);
      path := NewPath(root.Concat(chopped));
    } else {
      path := NewPath(root.str[..|root.str| - 1]);
    }
    RebasedIs(l, target);
    FilePathIs(l, target);
    var decoded := DecodeURI(path.str);
    path := NewPath(decoded);
    if NoEmptySegment(target[..Cut(l)]) {
      RebasedString(l, target);
    }
  }

  lemma FilePathIs(l: Location, t: string)
    requires l.path.str != "" && l.root.str != "" && Cut(l) <= |t|
    ensures FilePath(l, t) == PathOf(Decoded(Rebased(l, t).str))
  {}

  /** What the parser makes of a server block: configured locations, with a root or without. */
  predicate AllUsable(locations: seq<Location>) {
    forall i :: 0 <= i < |locations| ==> Configured(locations[i]) && (!locations[i].root.Empty() ==> Rooted(locations[i]))
  }

  lemma MatchIsPrefix(l: Location, target: Path)
    requires Matches(l, target)
    ensures l.path.chunks <= target.chunks
  {}

  /** The best location is one. */
  lemma OneBest(locations: seq<Location>, target: Path, i: nat, j: nat)
    requires Best(locations, target, i) && Best(locations, target, j)
    ensures i == j && !Unmatched(locations, target)
  {
    hide Matches;
    assert Matches(locations[i], target) && Matches(locations[j], target);
  }

  /** What `_resolveARequest` decides; `File` gives the path of the request that is built. */
  datatype Answer = NotFound | NotAllowed | Redirect(status: int, body: string) | File(path: Path)

  /** The way of a target to a file: without a location, or with one that has no root, it is "not found"; the
      best location may not allow the method or may redirect; any other target is cut and put behind its root,
      and the file lies, unless there is something to decode, where the chunks say exactly when no double slash stands
      in the part that was cut. */
  method Resolve(locations: seq<Location>, verb: nat, target: string) returns (selected: int, r: Answer)
    requires AllUsable(locations) && target != "" && target[0] == '/'
    ensures if selected == NPOS then Unmatched(locations, PathOf(target))
            else 0 <= selected < |locations| && Best(locations, PathOf(target), selected)
    ensures r.NotFound? <==> selected == NPOS || locations[selected].root.Empty()
    ensures !r.NotFound? ==>
              var l := locations[selected];
              && (r.NotAllowed? <==> verb !in l.allowed)
              && (r.Redirect? <==> verb in l.allowed && l.redirectStatus != 0)
              && (r.Redirect? ==> r == Redirect(l.redirectStatus, l.redirectBody))
    ensures r.File? ==>
              var l := locations[selected];
              && Cut(l) <= |target| && l.path.str != "" && l.root.str != "" && r.path == FilePath(l, target)
              && ('%' !in Rebased(l, target).str ==>
                  (NoEmptySegment(target[..Cut(l)]) <==>
                   r.path.chunks == l.root.chunks + PathOf(target).chunks[|l.path.chunks|..]))
  {
    hide Configured, Rooted, Rebased, FilePath, PathOf, NoEmptySegment, Stem, Cut, Matches;
    var path := NewPath(target);
    selected := FindLocationBlock(locations, path);
    if selected == NPOS {
      return selected, NotFound;
    }
    var l := locations[selected];
    OneBest(locations, path, selected, selected);
    assert Matches(l, path);
    if l.root.Empty() {
      return selected, NotFound;
    }
    if verb !in l.allowed {
      return selected, NotAllowed;
    }
    if l.redirectStatus != 0 {
      return selected, Redirect(l.redirectStatus, l.redirectBody);
    }
    MatchIsPrefix(l, path);
    var file := Rebase(l, target);
    RebasingExactly(l, target);
    if '%' !in Rebased(l, target).str { PlainFilePath(l, target); }
    r := File(file);
  }
}
