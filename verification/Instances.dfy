/** Where the server does not do what one would expect: for each case a concrete input. The exact conditions
    are in the modules of the functions concerned. */
module Instances {
  import opened Octets
  import opened Numbers
  import opened Wrappers
  import opened FileWrites
  import opened ChunkedCoding
  import opened ChunkedLimits
  import opened ChunkedCuts
  import ChunkedFile
  import Identity = IdentityCoding
  import H = HeadParsing
  import HG = HeadGrammar
  import opened CgiRelay
  import opened Responses
  import opened Paths
  import opened Settings
  import opened ConfGrammar
  import ItemOrder
  import Inheritance
  import Routing

  // ---- Bodies

  const ABC := Chunk("3", "abc")

  lemma AbcAccepted()
    ensures ABC.Accepted()
  {
    assert Value("3", Hexadecimal) == Hexadecimal.Scale(Value("", Hexadecimal)) + 3;
    StandardIsAccepted(ABC);
  }

  lemma AbcEncoded()
    ensures Encode([ABC]) + "" == "3\r\nabc\r\n0\r\n\r\n" && Payload([ABC]) == "abc"
  {
    assert [ABC][1..] == [];
    assert Body([ABC]) == "3" + CRLF + "abc" + CRLF + Body([]) == "3\r\nabc\r\n";
    assert Payload([ABC]) == "abc" + Payload([]) == "abc";
  }

  lemma TwoPieces(a: octets, b: octets)
    ensures Concat([a, b]) == a + b && Concat([a, b][..1]) == a && [a, b][..1] == [a] && [a, b][1..] == [b]
  {
    assert [a, b][1..] == [b] && [b][1..] == [] && [a, b][..1] == [a] && [a][1..] == [];
    assert Concat([b]) == b + Concat([]) == b && Concat([a]) == a + Concat([]) == a;
  }

  const CUT_CHUNK: seq<octets> := ["3\r\na", "bc\r\n0\r\n\r\n"]

  lemma CutChunkIs()
    ensures Concat(CUT_CHUNK) == Encode([ABC]) + "" && |CUT_CHUNK| == 2 && |Concat(CUT_CHUNK[..1])| == 4
  {
    TwoPieces("3\r\na", "bc\r\n0\r\n\r\n");
    AbcEncoded();
    hide Concat, Encode;
    assert "3\r\na" + "bc\r\n0\r\n\r\n" == "3\r\nabc\r\n0\r\n\r\n";
  }

  /** A read that ends inside the data of a chunk: the upload delivers the body and writes another file. */
  lemma FileOfCutChunk()
    ensures FeedAll(START, CUT_CHUNK, 10).verdict.Saved? && FeedAll(START, CUT_CHUNK, 10).sink == "abc"
    ensures ChunkedFile.WritesAll(START, CUT_CHUNK, 10) != Cells("abc")
  {
    assert 10 <= INT32_MAX;
    hide *;
    CutChunkIs();
    AbcAccepted();
    AbcEncoded();
    OneAccepted(ABC);
    RoundTrip([ABC], "", CUT_CHUNK, 10);
    ChunkedFile.FileExactly([ABC], "", CUT_CHUNK, 10);
    CutInside(CUT_CHUNK, 1);
  }

  lemma OneAccepted(c: Chunk)
    requires c.Accepted()
    ensures AllAccepted([c])
  {
    hide Chunk.Accepted;
  }

  lemma CutInside(pieces: seq<octets>, k: nat)
    requires k <= |pieces| && |Concat(pieces[..k])| == 4
    ensures !ChunkedFile.CutsOutsideData([ABC], pieces, 0)
  {
    hide Concat;
    assert ChunkedFile.InsideData([ABC], |Concat(pieces[..k])|);
  }

  /** A declared length of 3, in two reads: the file is longer than the body. */
  lemma FileOfTwoReads()
    ensures var d := Decoder("", 3, 0, "", Running);
            && Identity.TakeAll(d, ["a", "bc"]).verdict.Saved? && Identity.TakeAll(d, ["a", "bc"]).sink == "abc"
            && Identity.WritesAll(d, ["a", "bc"]) != Cells("abc")
  {
    var d := Decoder("", 3, 0, "", Running);
    TwoPieces("a", "bc");
    assert Identity.TakePiece(d, "a") == Decoder("", 2, 0, "a", Running);
    assert Identity.TakePiece(Decoder("", 2, 0, "a", Running), "bc") == Decoder("", 0, 0, "abc", Saved(""));
    assert ["bc"][1..] == [];
    Identity.FileExactly(d, ["a", "bc"], 3);
  }

  /** A read that brings more than the declared length is refused; the same octets in two reads are not. */
  lemma DeclaredAndMore()
    ensures var d := Decoder("", 2, 0, "", Running);
            Identity.TakeAll(d, ["ab!"]).verdict.BadRequest? && Identity.TakeAll(d, ["ab", "!"]).verdict.Saved?
  {
    var d := Decoder("", 2, 0, "", Running);
    TwoPieces("ab", "!");
    assert ["ab!"][1..] == [] && ["!"][1..] == [];
    assert Identity.TakePiece(d, "ab") == Decoder("", 0, 0, "ab", Saved(""));
  }

  const TRAILERS: octets := "0\r\nX: y\r\n\r\n"

  lemma TrailersUnrecognised()
    ensures Unrecognised(TRAILERS) && TRAILERS == "0\r\n" + "X: y\r\n\r\n" && Ends("0\r\n")
  {
    hide Find, ToContentLength;
    FindLineEnd("0", "X: y\r\n\r\n");
    assert "0" + CRLF + "X: y\r\n\r\n" == TRAILERS;
    assert TRAILERS[..1] == "0";
    ZeroIsZero();
    assert TRAILERS[..5][3] == 'X' && CHUNK_TERMINATOR[..5][3] == '\r';
    assert "0\r\n" == CHUNK_TERMINATOR[..3];
  }

  /** A last chunk with a trailer field: one read waits for ever, a cut behind the `0` line ends in success. */
  lemma TrailersDependOnCuts()
    ensures Feed(START, TRAILERS, 10).verdict.Running?
    ensures FeedAll(START, ["0\r\n", "X: y\r\n\r\n"], 10).verdict.Saved?
  {
    var pieces := ["0\r\n", "X: y\r\n\r\n"];
    TwoPieces(pieces[0], pieces[1]);
    TrailersUnrecognised();
    assert Body([]) + TRAILERS == TRAILERS;
    assert AllAccepted([]) && Fits([], 0, 10);
    hide Drain, Unrecognised, AllAccepted, Fits, Ends;
    UnrecognisedWaits([], TRAILERS, 10);
    assert EndsAfter(Concat(pieces[..1]), 0) by { assert "0\r\n"[0..] == "0\r\n"; }
    UnrecognisedExactly([], TRAILERS, pieces, 10);
  }

  lemma ZeroZero()
    ensures ToContentLength("00", true) == 0
  {
    assert Value("00", Hexadecimal) == Hexadecimal.Scale(Value("0", Hexadecimal)) + 0;
    assert Value("0", Hexadecimal) == Hexadecimal.Scale(Value("", Hexadecimal)) + 0;
    hide ToContentLength;
    NumeralLength("00", true);
  }

  lemma TwoZerosUnrecognised()
    ensures Unrecognised("00\r\n\r\n")
  {
    var last := "00\r\n\r\n";
    hide ToContentLength, Find;
    FindLineEnd("00", CRLF);
    assert "00" + CRLF + CRLF == last && last[..2] == "00";
    ZeroZero();
    assert last[..5][1] == '0' && CHUNK_TERMINATOR[..5][1] == '\r';
  }

  /** A last chunk of two zeros is not recognised as an end. */
  lemma TwoZeros()
    ensures Feed(START, "00\r\n\r\n", 10) == Due("00\r\n\r\n", 0, "")
  {
    var last := "00\r\n\r\n";
    assert Body([]) + last == last && Payload([]) == "" && Counted([], 0) == 0;
    assert AllAccepted([]) && Fits([], 0, 10);
    hide *;
    TwoZerosUnrecognised();
    UnrecognisedWaits([], last, 10);
  }

  /** With a maximum of 2^30, two chunks of 2^30 octets are delivered. */
  lemma TotalWraps()
    ensures Feed(START, Encode(Twice(0x4000_0000)), 0x4000_0000).verdict.Saved?
    ensures |Feed(START, Encode(Twice(0x4000_0000)), 0x4000_0000).sink| == 0x8000_0000
  {
    hide Drain, Encode, Twice;
    TwiceDelivered(0x4000_0000);
  }

  // ---- Lengths

  lemma SpelledFive(str: octets, chunked: bool, space: octets, sign: octets, mark: octets)
    requires Spells(str, if chunked then Hexadecimal else Decimal, space, sign, mark, "5")
    requires '\0' !in str && str != "" && sign != "-"
    ensures ToContentLength(str, chunked) == 5
  {
    var radix := if chunked then Hexadecimal else Decimal;
    FiveIsFive(radix);
    CStringOfPlain(str);
    hide Strtol, CString, Value, Spells;
    SpelledValue(str, radix, space, sign, mark, "5");
  }

  lemma FiveIsFive(radix: Radix)
    ensures AllDigits("5", radix) && Value("5", radix) == 5
  {
    assert Value("5", radix) == radix.Scale(Value("", radix)) + Digit('5', radix);
  }

  lemma MarkIsHexadecimal()
    ensures ToContentLength("0x5", false) == CONTENT_LENGTH_INVALID
  {
    var s := "0x5";
    CStringOfPlain(s);
    assert SkipSpaces(s, 0) == 0 && SkipSign(s, 0) == 0 && SkipPrefix(s, 0, Decimal) == 0;
    assert SkipDigits(s, 1, Decimal) == 1;
    assert SkipDigits(s, 0, Decimal) == 1;
  }

  lemma EmptyIsZero()
    ensures ToContentLength("", false) == 0
  {
    assert Strtol("", Decimal) == (0, 0);
    hide Strtol;
    CStringOfPlain("");
  }

  lemma FiveSpelled()
    ensures Spells("+5", Decimal, "", "+", "", "5") && Spells(" 5", Decimal, " ", "", "", "5")
    ensures Spells("0x5", Hexadecimal, "", "", "0x", "5")
  {
    FiveIsFive(Decimal);
    FiveIsFive(Hexadecimal);
    hide AllDigits;
    assert "+5" == "" + "+" + "" + "5" && " 5" == " " + "" + "" + "5" && "0x5" == "" + "" + "0x" + "5";
  }

  /** Nothing at all, a sign, white space, and a mark. */
  lemma OddLengths()
    ensures ToContentLength("", false) == 0
    ensures ToContentLength("+5", false) == 5 && ToContentLength(" 5", false) == 5
    ensures ToContentLength("0x5", true) == 5 && ToContentLength("0x5", false) == CONTENT_LENGTH_INVALID
  {
    hide *;
    FiveSpelled();
    EmptyIsZero();
    SpelledFive("+5", false, "", "+", "");
    SpelledFive(" 5", false, " ", "", "");
    SpelledFive("0x5", true, "", "", "0x");
    MarkIsHexadecimal();
  }

  // ---- Heads

  /** A request whose request line has 4096 octets. */
  function LongRequest(): HG.Request {
    HG.Request(0, "/" + Filled(4082), HG.NoQuery, [HG.Field("Host", "a")])
  }

  lemma FilledPlain(n: nat)
    ensures forall c <- Filled(n) :: c == 'a'
  {}

  lemma LongLine()
    ensures var r := LongRequest();
            && r.Line() == "GET " + ("/" + Filled(4082) + " HTTP/1.1") && |r.Line()| == H.REQUEST_LINE_LIMIT
            && '\r' !in r.Line() && ' ' !in r.target && '?' !in r.target
  {
    FilledPlain(4082);
    hide Filled;
    var r := LongRequest();
    assert r.target + "" == r.target;
    assert r.target + r.query.Print() + " " + H.HTTP_PROTOCOL_VERSION == "/" + Filled(4082) + " HTTP/1.1";
  }

  lemma NoColon(s: octets)
    requires ':' !in s
    ensures Find(s, ": ") == NPOS && Find(s + ": ", ": ") == |s|
  {
    var t := s + ": ";
    forall i: nat | i + 2 <= |s| ensures !OccursAt(s, ": ", i) { assert s[i..i + 2][0] == s[i]; }
    forall i: nat | i < |s| ensures !OccursAt(t, ": ", i) { assert t[i..i + 2][0] == t[i] == s[i]; }
    assert t[|s|..|s| + 2] == ": " && OccursAt(t, ": ", |s|);
  }

  lemma HostLine()
    ensures HG.Field("Host", "a").WellFormed() && H.HEADER_HOST in HG.Fields([HG.Field("Host", "a")], map[])
  {
    var f := HG.Field("Host", "a");
    assert '\r' !in f.Line();
    HG.PlainIsOneLine(f.Line());
    assert [f][1..] == [];
    NoColon("Host");
  }

  lemma LongRequestWellFormed()
    ensures LongRequest().WellFormed()
  {
    var r := LongRequest();
    LongLine();
    HostLine();
    HG.PlainIsOneLine(r.Line());
    hide Filled, HG.Field.WellFormed, HG.OneLine, HG.Fields;
    assert |r.fields| == 1 && r.query.Text() == "";
  }

  /** A request line of 4096 octets: read at once it is accepted, and cut between its CR and LF refused. */
  lemma LongLineCut()
    ensures var head := LongRequest().Print();
            && H.FeedAll(H.START, [head]).phase.Complete?
            && H.FeedAll(H.START, [head[..4097], head[4097..]]).phase == H.Failed(400)
  {
    var r := LongRequest();
    LongLine();
    LongRequestWellFormed();
    assert r.verb < H.INVALID_METHOD;
    hide Filled, LongRequest, HG.Request.WellFormed;
    var head := r.Print();
    var rest := HG.PrintFields(r.fields);
    assert head == r.Line() + CRLF + rest;
    FindLineEnd(r.Line(), rest);
    hide HG.Request.Print, HG.Request.Line, HG.PrintFields, H.Feed, Find;
    var whole, cut := [head], [head[..4097], head[4097..]];
    assert head[..4097] + head[4097..] == head && "" + head == head;
    TwoPieces(head[..4097], head[4097..]);
    assert Concat(whole) == head + "" by { assert whole[1..] == []; }
    assert whole[..1] == whole;
    assert !H.TripsLimit("", whole);
    HG.RoundTrip(r, "", whole);
    assert H.TripsLimit("", cut) by { assert |""| + |Concat(cut[..1])| == 4097; }
    H.Fragmentation(H.START, cut);
  }

  // ---- CGI output

  /** A CGI program that prints a line without ": ", and then something else: read in two, the rest is lost. */
  lemma MalformedInTwoReads()
    ensures Run(Start([]), [Receive("oops\r\n!")]).response == SERVER_ERROR.Serialise() + "!"
    ensures Run(Start([]), [Receive("oops\r\n"), Receive("!")]).response == SERVER_ERROR.Serialise()
  {
    assert "oops" + CRLF + "!" == "oops\r\n!" && "oops" + CRLF == "oops\r\n";
    hide *;
    NoColon("oops");
    MalformedDependsOnReads("oops", "!");
  }

  // ---- Configuration

  lemma DecimalStep(s: octets, c: char, t: octets, v: nat)
    requires AllDigits(s, Decimal) && Value(s, Decimal) == v && '0' <= c <= '9' && t == s + [c]
    ensures AllDigits(t, Decimal) && Value(t, Decimal) == 10 * v + (c as int - '0' as int) && t != ""
  {
    ValueStep(s, c, Decimal);
  }

  lemma BiggestValue()
    ensures AllDigits("4294967295", Decimal) && Value("4294967295", Decimal) == 4294967295
  {
    assert AllDigits("", Decimal) && Value("", Decimal) == 0;
    hide AllDigits, Value;
    DecimalStep("", '4', "4", 0);
    DecimalStep("4", '2', "42", 4);
    DecimalStep("42", '9', "429", 42);
    DecimalStep("429", '4', "4294", 429);
    DecimalStep("4294", '9', "42949", 4294);
    DecimalStep("42949", '6', "429496", 42949);
    DecimalStep("429496", '7', "4294967", 429496);
    DecimalStep("4294967", '2', "42949672", 4294967);
    DecimalStep("42949672", '9', "429496729", 42949672);
    DecimalStep("429496729", '5', "4294967295", 429496729);
  }

  lemma NumberIs(s: octets, max: int)
    requires IsNumeral(s, Decimal) && Value(s, Decimal) <= max < LONG_MAX && '\0' !in s
    ensures Stoi(s, 0, max) == Success(Value(s, Decimal))
  {
    CStringOfPlain(s);
    hide Strtol;
    StrtolNumeral(s, Decimal);
  }

  lemma BiggestSize()
    ensures Stoi("4294967295", 0, 0xFFFF_FFFF) == Success(0xFFFF_FFFF)
  {
    BiggestValue();
    NumberIs("4294967295", 0xFFFF_FFFF);
  }

  /** `client_max_body_size 4294967295` in a location leaves it with the maximum of its server. */
  lemma BiggestSizeInherits()
    ensures var d := Statement("client_max_body_size", ["4294967295"]);
            var l := LocationMeaning([d], NewLocation(PathOf("/")));
            l.Success? && Fill(l.value, GlobalLocation()).maxBodySize == DEFAULT_MAXBODYSIZE
  {
    BiggestSize();
    hide Stoi, PathOf;
    var d := Statement("client_max_body_size", ["4294967295"]);
    assert [d][1..] == [];
    assert LocationMeaning([], NewLocation(PathOf("/")).(maxBodySize := -1)).Success?;
  }

  lemma FourHundredFour()
    ensures Stoi("404", 0, 0xFFFF) == Success(404)
  {
    assert AllDigits("", Decimal) && Value("", Decimal) == 0;
    DecimalStep("", '4', "4", 0);
    DecimalStep("4", '0', "40", 4);
    DecimalStep("40", '4', "404", 40);
    NumberIs("404", 0xFFFF);
  }

  /** `error_page 404 /x.html;` before `root /www;` stores no page; behind it, it does. */
  lemma PageBeforeRoot(hostOf: string -> Option<Host>)
    ensures var page, root := Setting(Statement("error_page", ["404", "/x.html"])), Setting(Statement("root", ["/www"]));
            var x, y := ItemOrder.Both(hostOf, page, root, NEW_SERVER), ItemOrder.Both(hostOf, root, page, NEW_SERVER);
            && x.Success? && x.value.block.errorPages == map[]
            && y.Success? && 404 in y.value.block.errorPages
  {
    var args := ["404", "/x.html"];
    FourHundredFour();
    hide Stoi, Squeeze, Chunks, ItemOrder.Both;
    assert args[..|args| - 1] == ["404"] && ["404"][1..] == [];
    ItemOrder.RootAndPages(hostOf, "/www", args, NEW_SERVER);
    Routing.DirectoryPath("/www");
  }

  // ---- Routing

  /** Location `/a/` with root `/r/`: the target `//a/b` matches, and becomes `/r/a/b` and not `/r/b`. */
  lemma DoubleSlashShifts()
    ensures var l := NewLocation(PathOf("/a/")).(root := PathOf("/r/"));
            Routing.Matches(l, PathOf("//a/b")) && Routing.Rebased(l, "//a/b").chunks == ["r", "a", "b"]
  {
    var l := NewLocation(PathOf("/a/")).(root := PathOf("/r/"));
    hide PathOf, Squeeze, Chunks, NoEmptySegment;
    assert "/a/" == "/" + ("a" + "/") && "/r/" == "/" + ("r" + "/");
    OneSegment("/a/", "a");
    OneSegment("/r/", "r");
    Routing.DirectoryPath("/a");
    Routing.DirectoryPath("/r");
    assert "/a" + "/" == "/a/" && "/r" + "/" == "/r/" && "//a/b"[2..] == "a/b" && |"//a/b"| == 5;
    assert Routing.Rooted(l) && Routing.Cut(l) == 2;
    hide *;
    TwoSegments();
    Routing.RebasedChunks(l, "//a/b");
    assert ["r"] + ["a", "b"] == ["r", "a", "b"];
  }

  lemma OneSegment(dir: string, name: string)
    requires dir == "/" + (name + "/") && Segment(name)
    ensures PathOf(dir) == Path(dir, [name])
  {
    SqueezeIdle(dir);
    ChunksSlash(name + "/");
    ChunksSegment(name, "");
    assert name + "/" + "" == name + "/" && Chunks("") == [];
  }

  lemma TwoLetters()
    ensures Segment("a") && Segment("b")
  {}

  lemma TwoSegments()
    ensures Chunks("a/b") == ["a", "b"] && PathOf("//a/b").chunks == ["a", "b"]
  {
    hide *;
    TwoLetters();
    ChunksSegment("a", "b");
    ChunksSegment("b", "");
    assert "a" + "/" + "b" == "a/b" && ["a"] + ["b"] == ["a", "b"];
    Routing.PathChunks("//a/b");
    ChunksSlash("/a/b");
    ChunksSlash("a/b");
    assert "/" + "/a/b" == "//a/b" && "/" + "a/b" == "/a/b";
  }
}
