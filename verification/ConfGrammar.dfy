/** The grammar of the configuration file: what its parser makes of a list of tokens
    (srcs/Configuration/ConfFile*.cpp), and what a syntax tree means.

    A function here gets the tokens that follow the cursor, and gives back those that follow what it has
    read. */
module ConfGrammar {
  import opened Octets
  import opened Numbers
  import opened Wrappers
  import opened Paths
  import opened Settings
  import opened ConfTokens

  type tokens = seq<string>

  // ---- Arguments

  /** The number of arguments before the `;` that ends a directive. */
  function CountArgs(rest: tokens): (r: Result<nat, ConfError>)
    ensures r.Success? ==> r.value < |rest| && rest[r.value] == ";"
    ensures r.Success? ==> forall i :: 0 <= i < r.value ==> !IsMetatoken(rest[i])
    decreases |rest|
  {
    if rest == [] then Failure(UnexpectedEOF)
    else if rest[0] == ";" then Success(0)
    else if IsMetatoken(rest[0]) then Failure(UnexpectedToken)
    else
      var n :- CountArgs(rest[1..]);
      Success(n + 1)
  }

  /** The number of arguments before the `{` that opens a block. */
  function CountBlockArgs(rest: tokens): (r: Result<nat, ConfError>)
    ensures r.Success? ==> r.value < |rest| && rest[r.value] == "{"
    ensures r.Success? ==> forall i :: 0 <= i < r.value ==> !IsMetatoken(rest[i])
    decreases |rest|
  {
    if rest == [] then Failure(MissingOpening)
    else if rest[0] == "{" then Success(0)
    else if IsMetatoken(rest[0]) then Failure(UnexpectedToken)
    else
      var n :- CountBlockArgs(rest[1..]);
      Success(n + 1)
  }

  // ---- Locations

  function LocationBody(rest: tokens, l: Location): (r: Result<(Location, tokens), ConfError>)
    ensures r.Success? ==> |r.value.1| < |rest|
    decreases |rest|
  {
    if rest == [] then Failure(UnexpectedEOF)
    else if IsMetatoken(rest[0]) then
      if rest[0] == "}" then Success((l, rest[1..])) else Failure(UnexpectedToken)
    else if rest[0] !in LOCATION_DIRECTIVES then Failure(UnknownDirective)
    else if |rest| == 1 then Failure(UnexpectedEOF)
    else
      var n :- CountArgs(rest[1..]);
      var next :- ApplyLocation(rest[0], rest[1..n + 1], l);
      LocationBody(rest[n + 2..], next)
  }

  function LocationPath(name: string): Result<Location, ConfError> {
    var path := PathOf(name + "/");
    if path.OriginForm() then Success(NewLocation(path)) else Failure(InvalidPath)
  }

  /** A `location` directive, without its name. */
  function LocationDirective(rest: tokens): (r: Result<(Location, tokens), ConfError>)
    ensures r.Success? ==> |r.value.1| < |rest|
  {
    var n :- CountBlockArgs(rest);
    if n != 1 then Failure(InvalidArgumentNumber)
    else
      var l :- LocationPath(rest[0]);
      LocationBody(rest[2..], l)
  }

  // ---- Servers

  const SERVER_DIRECTIVES: set<string> := {"listen", "server_name", "error_page"} + LOCATION_DIRECTIVES

  datatype Server = Server(block: Block, global: Location)

  const NEW_SERVER := Server(NEW_BLOCK, GlobalLocation())

  function ErrorPage(s: Server, args: seq<string>): Result<Server, ConfError>
    requires |args| >= 2
  {
    if s.global.root.Empty() then Success(s)
    else
      var b :- AddErrorPages(s.block, args[..|args| - 1], PathOf(s.global.root.str + args[|args| - 1]));
      Success(s.(block := b))
  }

  /** A directive of a server that ends in `;`. */
  function ApplyServer(hostOf: string -> Option<Host>, name: string, args: seq<string>, s: Server)
    : Result<Server, ConfError>
    requires name in SERVER_DIRECTIVES
  {
    if name == "listen" then
      if |args| != 1 then Failure(InvalidArgumentNumber)
      else
        var host := hostOf(args[0]);
        if host.None? then Failure(HostNotFound)
        else Success(s.(block := s.block.(hosts := s.block.hosts + [host.value])))
    else if name == "server_name" then
      if |args| == 0 then Failure(InvalidArgumentNumber)
      else Success(s.(block := s.block.(names := s.block.names + args)))
    else if name == "error_page" then
      if |args| < 2 then Failure(InvalidArgumentNumber) else ErrorPage(s, args)
    else
      var g :- ApplyLocation(name, args, s.global);
      Success(s.(global := g))
  }

  function AddLocation(s: Server, l: Location): Server {
    s.(block := s.block.(locations := s.block.locations + [l]))
  }

  function ServerBody(hostOf: string -> Option<Host>, rest: tokens, s: Server)
    : (r: Result<(Block, tokens), ConfError>)
    ensures r.Success? ==> |r.value.1| < |rest|
    decreases |rest|
  {
    if rest == [] then Failure(UnexpectedEOF)
    else if rest[0] == "}" then Success((Finish(s.block, s.global), rest[1..]))
    else if |rest| == 1 then Failure(UnexpectedEOF)
    else if rest[0] == "location" then
      var p :- LocationDirective(rest[1..]);
      ServerBody(hostOf, p.1, AddLocation(s, p.0))
    else if rest[0] in SERVER_DIRECTIVES then
      var n :- CountArgs(rest[1..]);
      var next :- ApplyServer(hostOf, rest[0], rest[1..n + 1], s);
      ServerBody(hostOf, rest[n + 2..], next)
    else Failure(UnknownDirective)
  }

  /** A `server` directive, without its name. */
  function ServerDirective(hostOf: string -> Option<Host>, rest: tokens): (r: Result<(Block, tokens), ConfError>)
    ensures r.Success? ==> |r.value.1| < |rest|
  {
    var n :- CountBlockArgs(rest);
    if n != 0 then Failure(InvalidArgumentNumber) else ServerBody(hostOf, rest[1..], NEW_SERVER)
  }

  // ---- The file

  datatype Conf = Conf(
    blocks: seq<Block>, mimetypes: map<string, string>,
    headerTimeout: int, bodyTimeout: int, sendTimeout: int)

  const DEFAULTS := Conf([], map[], 10, 60, 60)

  /** The extensions of one entry of `types`. */
  function AddTypes(types: map<string, string>, mime: string, extensions: seq<string>): map<string, string>
    decreases |extensions|
  {
    if extensions == [] then types else AddTypes(types[extensions[0] := mime], mime, extensions[1..])
  }

  function TypesBody(rest: tokens, types: map<string, string>): (r: Result<(map<string, string>, tokens), ConfError>)
    ensures r.Success? ==> |r.value.1| < |rest|
    decreases |rest|
  {
    if rest == [] then Failure(UnexpectedEOF)
    else if rest[0] == "}" then Success((types, rest[1..]))
    else if |rest| == 1 then Failure(UnexpectedEOF)
    else
      var n :- CountArgs(rest[1..]);
      TypesBody(rest[n + 2..], AddTypes(types, rest[0], rest[1..n + 1]))
  }

  function TypesDirective(rest: tokens, types: map<string, string>): (r: Result<(map<string, string>, tokens), ConfError>)
    ensures r.Success? ==> |r.value.1| < |rest|
  {
    var n :- CountBlockArgs(rest);
    if n != 0 then Failure(InvalidArgumentNumber) else TypesBody(rest[1..], types)
  }

  const TIMEOUTS: set<string> := {"client_header_timeout", "client_body_timeout", "send_timeout"}

  /** A time limit: a decimal number of an int32_t that is not negative. */
  function ApplyTimeout(name: string, args: seq<string>, c: Conf): Result<Conf, ConfError>
    requires name in TIMEOUTS
  {
    if |args| != 1 then Failure(InvalidArgumentNumber)
    else
      var duration :- Stoi(args[0], 0, 0x7FFF_FFFF);
      Success(if name == "client_header_timeout" then c.(headerTimeout := duration)
              else if name == "client_body_timeout" then c.(bodyTimeout := duration)
              else c.(sendTimeout := duration))
  }

  function AddBlock(c: Conf, b: Block): Conf {
    c.(blocks := c.blocks + [b])
  }

  function Parse(hostOf: string -> Option<Host>, ts: tokens, c: Conf): Result<Conf, ConfError>
    decreases |ts|
  {
    if ts == [] then Success(c)
    else if ts[0] == "server" then
      var p :- ServerDirective(hostOf, ts[1..]);
      Parse(hostOf, p.1, AddBlock(c, p.0))
    else if ts[0] == "types" then
      var p :- TypesDirective(ts[1..], c.mimetypes);
      Parse(hostOf, p.1, c.(mimetypes := p.0))
    else if ts[0] in TIMEOUTS then
      var n :- CountArgs(ts[1..]);
      var next :- ApplyTimeout(ts[0], ts[1..n + 1], c);
      Parse(hostOf, ts[n + 2..], next)
    else Failure(UnknownDirective)
  }

  // ---- Syntax trees

  datatype Statement = Statement(name: string, args: seq<string>)

  datatype ServerItem =
    | Setting(statement: Statement)
    | LocationItem(name: string, statements: seq<Statement>)

  datatype Item =
    | ServerItems(items: seq<ServerItem>)
    | Types(entries: seq<Statement>)
    | Timeout(statement: Statement)

  function StatementTokens(d: Statement): tokens {
    [d.name] + d.args + [";"]
  }

  function StatementsTokens(ds: seq<Statement>): tokens
    decreases |ds|
  {
    if ds == [] then [] else StatementTokens(ds[0]) + StatementsTokens(ds[1..])
  }

  function ServerItemTokens(item: ServerItem): tokens {
    match item
    case Setting(d) => StatementTokens(d)
    case LocationItem(name, ds) => ["location", name, "{"] + StatementsTokens(ds) + ["}"]
  }

  function ServerItemsTokens(items: seq<ServerItem>): tokens
    decreases |items|
  {
    if items == [] then [] else ServerItemTokens(items[0]) + ServerItemsTokens(items[1..])
  }

  function ItemTokens(item: Item): tokens {
    match item
    case ServerItems(items) => ["server", "{"] + ServerItemsTokens(items) + ["}"]
    case Types(entries) => ["types", "{"] + StatementsTokens(entries) + ["}"]
    case Timeout(d) => StatementTokens(d)
  }

  function FileTokens(file: seq<Item>): tokens
    decreases |file|
  {
    if file == [] then [] else ItemTokens(file[0]) + FileTokens(file[1..])
  }

  // ---- What trees mean

  function LocationMeaning(ds: seq<Statement>, l: Location): Result<Location, ConfError>
    decreases |ds|
  {
    if ds == [] then Success(l)
    else if ds[0].name !in LOCATION_DIRECTIVES then Failure(UnknownDirective)
    else
      var next :- ApplyLocation(ds[0].name, ds[0].args, l);
      LocationMeaning(ds[1..], next)
  }

  function LocationMade(name: string, ds: seq<Statement>): Result<Location, ConfError> {
    var l :- LocationPath(name);
    LocationMeaning(ds, l)
  }

  function ServerItemMeaning(hostOf: string -> Option<Host>, item: ServerItem, s: Server): Result<Server, ConfError> {
    match item
    case Setting(d) =>
      if d.name !in SERVER_DIRECTIVES then Failure(UnknownDirective) else ApplyServer(hostOf, d.name, d.args, s)
    case LocationItem(name, ds) =>
      var l :- LocationMade(name, ds);
      Success(AddLocation(s, l))
  }

  function ServerMeaning(hostOf: string -> Option<Host>, items: seq<ServerItem>, s: Server): Result<Server, ConfError>
    decreases |items|
  {
    if items == [] then Success(s)
    else
      var next :- ServerItemMeaning(hostOf, items[0], s);
      ServerMeaning(hostOf, items[1..], next)
  }

  function TypesMeaning(entries: seq<Statement>, types: map<string, string>): map<string, string>
    decreases |entries|
  {
    if entries == [] then types
    else TypesMeaning(entries[1..], AddTypes(types, entries[0].name, entries[0].args))
  }

  function ItemMeaning(hostOf: string -> Option<Host>, item: Item, c: Conf): Result<Conf, ConfError> {
    match item
    case ServerItems(items) =>
      var s :- ServerMeaning(hostOf, items, NEW_SERVER);
      Success(AddBlock(c, Finish(s.block, s.global)))
    case Types(entries) => Success(c.(mimetypes := TypesMeaning(entries, c.mimetypes)))
    case Timeout(d) => if d.name !in TIMEOUTS then Failure(UnknownDirective) else ApplyTimeout(d.name, d.args, c)
  }

  function Meaning(hostOf: string -> Option<Host>, file: seq<Item>, c: Conf): Result<Conf, ConfError>
    decreases |file|
  {
    if file == [] then Success(c)
    else
      var next :- ItemMeaning(hostOf, file[0], c);
      Meaning(hostOf, file[1..], next)
  }

  // ---- Trees that can be printed

  predicate Plain(d: Statement) {
    !IsMetatoken(d.name) && forall i :: 0 <= i < |d.args| ==> !IsMetatoken(d.args[i])
  }

  predicate PlainAll(ds: seq<Statement>) {
    forall i :: 0 <= i < |ds| ==> Plain(ds[i])
  }

  /** The first token of an entry of `types` may be any but the `}` that ends the block. */
  predicate Entry(d: Statement) {
    d.name != "}" && forall i :: 0 <= i < |d.args| ==> !IsMetatoken(d.args[i])
  }

  predicate PrintableServerItem(item: ServerItem) {
    match item
    case Setting(d) => Plain(d) && d.name != "location"
    case LocationItem(name, ds) => !IsMetatoken(name) && PlainAll(ds)
  }

  predicate Printable(item: Item) {
    match item
    case ServerItems(items) => forall i :: 0 <= i < |items| ==> PrintableServerItem(items[i])
    case Types(entries) => forall i :: 0 <= i < |entries| ==> Entry(entries[i])
    case Timeout(d) => Plain(d) && d.name != "server" && d.name != "types"
  }

  predicate PrintableFile(file: seq<Item>) {
    forall i :: 0 <= i < |file| ==> Printable(file[i])
  }
}
