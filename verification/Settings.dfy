/** The settings of locations and servers: what each directive sets, and how a location inherits from its
    server (srcs/LocationBlock.cpp, srcs/ServerBlock.cpp). */
module Settings {
  import opened Octets
  import opened Numbers
  import opened Wrappers
  import opened Paths
  import HeadParsing

  const UNDEFINED := -1
  const DEFAULT_MAXBODYSIZE := 1048576
  const DEFAULT_INDEX := "index.html"
  const METHODS := HeadParsing.METHODS

  datatype ConfError =
    | UnknownDirective | MissingOpening | InvalidArgumentNumber | UnexpectedEOF | UnexpectedToken
    | HostNotFound | InvalidMethod | InvalidValue | InvalidPath

  /** A location block. `allowed` holds the indexes of the methods whose bits are set. */
  datatype Location = Location(
    path: Path, dirListing: int, maxBodySize: int, root: Path, allowed: set<nat>,
    redirectStatus: int, redirectBody: string, indexes: seq<string>, cgis: map<string, Path>,
    uploadPath: Path, tempPath: Path)

  function NewLocation(path: Path): Location {
    Location(path, UNDEFINED, UNDEFINED, EMPTY, {}, 0, "", [], map[], EMPTY, EMPTY)
  }

  /** The server-level location, with the defaults set. */
  function GlobalLocation(): Location {
    NewLocation(EMPTY).(dirListing := 0, maxBodySize := DEFAULT_MAXBODYSIZE)
  }

  function Fill(l: Location, g: Location): Location {
    Location(
      l.path,
      if l.dirListing == UNDEFINED then g.dirListing else l.dirListing,
      if l.maxBodySize == UNDEFINED then g.maxBodySize else l.maxBodySize,
      if l.root.Empty() then g.root else l.root,
      if l.allowed == {} then g.allowed else l.allowed,
      if l.redirectStatus == 0 then g.redirectStatus else l.redirectStatus,
      if l.redirectStatus == 0 then g.redirectBody else l.redirectBody,
      if l.indexes != [] then l.indexes else if g.indexes != [] then g.indexes else [DEFAULT_INDEX],
      if l.cgis == map[] then g.cgis else l.cgis,
      if l.uploadPath.Empty() then g.uploadPath else l.uploadPath,
      if l.tempPath.Empty() then g.tempPath else l.tempPath)
  }

  /** `ft::stoi` for an integer type with the given limits. */
  function Stoi(str: string, min: int, max: int): (r: Result<int, ConfError>)
    ensures r.Success? ==> min <= r.value <= max
  {
    var c := CString(str);
    var (value, end) := Strtol(c, Decimal);
    if end != |c| || value < min || value > max then Failure(InvalidValue) else Success(value)
  }

  lemma StoiNumeral(n: nat, min: int, max: int)
    requires min <= n <= max < LONG_MAX
    ensures Stoi(Numeral(n, Decimal), min, max) == Success(n)
  {
    var s := Numeral(n, Decimal);
    NumeralValue(n, Decimal);
    forall k: nat | k < |s| ensures s[k] != '\0' { DigitsArePlain(s, Decimal, k); }
    CStringOfPlain(s);
    StrtolNumeral(s, Decimal);
  }

  /** A string is read as a number exactly if it, up to its first NUL, spells one within the limits: white space, a
      sign and digits; or nothing at all, which counts as zero. */
  lemma StoiExactly(str: string, min: int, max: int, v: int)
    requires -LONG_MAX <= min && max < LONG_MAX
    ensures Stoi(str, min, max) == Success(v) <==>
            min <= v <= max && (if CString(str) == "" then v == 0 else Reads(CString(str), v))
  {
    var c := CString(str);
    if c == "" {
      assert Strtol(c, Decimal) == (0, 0);
    } else {
      if Stoi(str, min, max) == Success(v) {
        var space, sign, mark, digits := ReadIsSpelled(c, Decimal);
        SpelledValue(c, Decimal, space, sign, mark, digits);
        assert ReadsAs(c, v, space, sign, digits) by { NoMark(c, space, sign, mark, digits); }
      }
      if Reads(c, v) && min <= v <= max {
        var space, sign, digits :| ReadsAs(c, v, space, sign, digits);
        SpelledValue(c, Decimal, space, sign, "", digits);
      }
    }
  }

  ghost predicate Reads(c: string, v: int) {
    exists space, sign, digits :: ReadsAs(c, v, space, sign, digits)
  }

  predicate ReadsAs(c: string, v: int, space: string, sign: string, digits: string) {
    && Spells(c, Decimal, space, sign, "", digits)
    && v == if sign == "-" then 0 - Value(digits, Decimal) else Value(digits, Decimal)
  }

  lemma NoMark(c: string, space: string, sign: string, mark: string, digits: string)
    requires Spells(c, Decimal, space, sign, mark, digits)
    ensures mark == "" && Spells(c, Decimal, space, sign, "", digits)
  {}

  // ---- Location-level directives

  const LOCATION_DIRECTIVES: set<string> := {
    "root", "allow", "client_max_body_size", "autoindex", "redirect", "index", "cgi",
    "client_body_upload_path", "client_body_temp_path" }

  /** `allow`: every argument names a method. */
  function Allow(l: Location, names: seq<string>): Result<Location, ConfError>
    decreases |names|
  {
    if names == [] then Success(l)
    else
      var i := HeadParsing.MethodIndex(names[0]);
      if i == HeadParsing.INVALID_METHOD then Failure(InvalidMethod)
      else Allow(l.(allowed := l.allowed + {i}), names[1..])
  }

  /** `cgi`: every extension is run by the same binary. */
  function AddCgis(l: Location, extensions: seq<string>, binary: string): Location
    decreases |extensions|
  {
    if extensions == [] then l
    else AddCgis(l.(cgis := l.cgis[extensions[0] := PathOf(binary)]), extensions[1..], binary)
  }

  function Redirect(l: Location, status: string, body: string): Result<Location, ConfError> {
    var code :- Stoi(status, 0, 0xFFFF);
    if code in {300, 301, 302, 303, 304, 307, 308} then Success(l.(redirectStatus := code, redirectBody := body))
    else Failure(InvalidValue)
  }

  predicate ArgumentsFit(name: string, count: nat) {
    if name == "allow" || name == "index" then count > 0
    else if name == "cgi" then count >= 2
    else if name == "redirect" then count == 2
    else count == 1
  }

  /** What a location-level directive does with arguments of the right number. */
  function SetLocation(name: string, args: seq<string>, l: Location): Result<Location, ConfError>
    requires name in LOCATION_DIRECTIVES && ArgumentsFit(name, |args|)
  {
    if name == "root" then Success(l.(root := PathOf(args[0] + "/")))
    else if name == "allow" then Allow(l, args)
    else if name == "client_max_body_size" then
      var size :- Stoi(args[0], 0, 0xFFFF_FFFF);
      Success(l.(maxBodySize := Int32(size)))
    else if name == "autoindex" then
      if args[0] == "on" then Success(l.(dirListing := 1))
      else if args[0] == "off" then Success(l.(dirListing := 0))
      else Failure(InvalidValue)
    else if name == "redirect" then Redirect(l, args[0], args[1])
    else if name == "index" then Success(l.(indexes := l.indexes + args))
    else if name == "cgi" then Success(AddCgis(l, args[..|args| - 1], args[|args| - 1]))
    else if name == "client_body_upload_path" then Success(l.(uploadPath := PathOf(args[0] + "/")))
    else Success(l.(tempPath := PathOf(args[0] + "/")))
  }

  function ApplyLocation(name: string, args: seq<string>, l: Location): Result<Location, ConfError>
    requires name in LOCATION_DIRECTIVES
  {
    if ArgumentsFit(name, |args|) then SetLocation(name, args, l) else Failure(InvalidArgumentNumber)
  }

  // ---- Servers

  // an address that `listen` has accepted, kept opaque
  type Host = string

  const DEFAULT_HOST: Host := "0.0.0.0:80"

  datatype Block = Block(hosts: seq<Host>, names: seq<string>, locations: seq<Location>, errorPages: map<int, Path>)

  const NEW_BLOCK := Block([], [], [], map[])

  function FillAll(ls: seq<Location>, g: Location): (r: seq<Location>)
    ensures |r| == |ls| && forall i :: 0 <= i < |ls| ==> r[i] == Fill(ls[i], g)
  {
    seq(|ls|, i requires 0 <= i < |ls| => Fill(ls[i], g))
  }

  /** The end of a server block: the default host, and the settings that locations inherit. */
  function Finish(b: Block, g: Location): Block {
    b.(hosts := if b.hosts == [] then [DEFAULT_HOST] else b.hosts, locations := FillAll(b.locations, g))
  }

  function AddErrorPages(b: Block, codes: seq<string>, file: Path): Result<Block, ConfError>
    decreases |codes|
  {
    if codes == [] then Success(b)
    else
      var code :- Stoi(codes[0], 0, 0xFFFF);
      if code < 400 || code > 599 then Failure(InvalidValue)
      else AddErrorPages(b.(errorPages := b.errorPages[code := file]), codes[1..], file)
  }
}
