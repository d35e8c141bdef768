/** What a configuration file that is accepted comes to, setting by setting, wherever its statements stand
    (srcs/Configuration/ConfFile-directives.cpp, srcs/Configuration/ConfFile-servers.cpp:46-115). */
module ConfOutcome {
  import opened Octets
  import opened Numbers
  import opened Wrappers
  import opened Paths
  import opened Settings
  import opened ConfGrammar
  import opened ItemOrder
  import Inheritance
  import opened ConfTokens
  import opened ConfRoundTrip

  // ---- The file

  /** The arguments of the last time limit of a name. */
  function LastLimit(name: string, file: seq<Item>): Option<seq<string>>
    decreases |file|
  {
    if file == [] then None
    else
      var later := LastLimit(name, file[1..]);
      if later.Some? then later
      else if file[0].Timeout? && file[0].statement.name == name then Some(file[0].statement.args) else None
  }

  /** A time limit is the number that its one argument spells, or what it was. */
  ghost predicate IsLimit(limit: int, args: Option<seq<string>>, other: int) {
    match args
    case None => limit == other
    case Some(a) => |a| == 1 && Stoi(a[0], 0, INT32_MAX) == Success(limit)
  }

  /** The servers of the file, in order. */
  function Servers(file: seq<Item>): seq<seq<ServerItem>> {
    if file == [] then []
    else (if file[0].ServerItems? then [file[0].items] else []) + Servers(file[1..])
  }

  /** The type that an entry of `types` gives to an extension. */
  function TypeIn(extension: string, entries: seq<Statement>, other: Option<string>): Option<string>
    decreases |entries|
  {
    if entries == [] then other
    else TypeIn(extension, entries[1..], if extension in entries[0].args then Some(entries[0].name) else other)
  }

  function TypeOf(extension: string, file: seq<Item>, other: Option<string>): Option<string>
    decreases |file|
  {
    if file == [] then other
    else TypeOf(extension, file[1..], if file[0].Types? then TypeIn(extension, file[0].entries, other) else other)
  }

  function TypeFor(types: map<string, string>, extension: string): Option<string> {
    if extension in types then Some(types[extension]) else None
  }

  /** `r` is `c` and then the file: the last limit of each name counts, the last type of each extension, and every
      server adds a block. */
  ghost predicate FileOutcome(hostOf: string -> Option<Host>, file: seq<Item>, c: Conf, r: Conf) {
    && IsLimit(r.headerTimeout, LastLimit("client_header_timeout", file), c.headerTimeout)
    && IsLimit(r.bodyTimeout, LastLimit("client_body_timeout", file), c.bodyTimeout)
    && IsLimit(r.sendTimeout, LastLimit("send_timeout", file), c.sendTimeout)
    && (forall extension :: TypeFor(r.mimetypes, extension) == TypeOf(extension, file, TypeFor(c.mimetypes, extension)))
    && Blocks(hostOf, Servers(file), c.blocks, r.blocks)
  }

  /** One block for each server, behind those that were there. */
  ghost predicate Blocks(hostOf: string -> Option<Host>, servers: seq<seq<ServerItem>>, before: seq<Block>, after: seq<Block>) {
    && |after| == |before| + |servers| && after[..|before|] == before
    && forall i :: 0 <= i < |servers| ==> BlockOf(hostOf, servers[i], after[|before| + i])
  }

  ghost predicate BlockOf(hostOf: string -> Option<Host>, items: seq<ServerItem>, b: Block) {
    ServerMeaning(hostOf, items, NEW_SERVER).Success?
    && var s := ServerMeaning(hostOf, items, NEW_SERVER).value; b == Finish(s.block, s.global)
  }

  lemma LimitSet(d: Statement, c: Conf)
    requires d.name in TIMEOUTS && ApplyTimeout(d.name, d.args, c).Success?
    ensures var r := ApplyTimeout(d.name, d.args, c).value;
            && IsLimit(r.headerTimeout, if d.name == "client_header_timeout" then Some(d.args) else None, c.headerTimeout)
            && IsLimit(r.bodyTimeout, if d.name == "client_body_timeout" then Some(d.args) else None, c.bodyTimeout)
            && IsLimit(r.sendTimeout, if d.name == "send_timeout" then Some(d.args) else None, c.sendTimeout)
            && r.blocks == c.blocks && r.mimetypes == c.mimetypes
  {
    hide Stoi;
  }

  lemma {:induction false} TypesAdded(types: map<string, string>, mime: string, extensions: seq<string>, extension: string)
    ensures TypeFor(AddTypes(types, mime, extensions), extension)
            == if extension in extensions then Some(mime) else TypeFor(types, extension)
    decreases |extensions|
  {
    if extensions != [] { TypesAdded(types[extensions[0] := mime], mime, extensions[1..], extension); }
  }

  lemma {:induction false} TypesOutcome(entries: seq<Statement>, types: map<string, string>, extension: string)
    ensures TypeFor(TypesMeaning(entries, types), extension) == TypeIn(extension, entries, TypeFor(types, extension))
    decreases |entries|
  {
    hide TypeFor, AddTypes;
    if entries != [] {
      TypesAdded(types, entries[0].name, entries[0].args, extension);
      TypesOutcome(entries[1..], AddTypes(types, entries[0].name, entries[0].args), extension);
    }
  }

  /** The last limit of a name, when one more statement stands before. */
  lemma LimitFrom(name: string, file: seq<Item>, first: int, now: int, limit: int)
    requires file != []
    requires IsLimit(now, if file[0].Timeout? && file[0].statement.name == name then Some(file[0].statement.args) else None, first)
    requires IsLimit(limit, LastLimit(name, file[1..]), now)
    ensures IsLimit(limit, LastLimit(name, file), first)
  {
    hide Stoi;
  }

  lemma ItemOutcome(hostOf: string -> Option<Host>, item: Item, c: Conf, extension: string)
    requires ItemMeaning(hostOf, item, c).Success?
    ensures var r := ItemMeaning(hostOf, item, c).value;
            var d := if item.Timeout? then item.statement else Statement("", []);
            && IsLimit(r.headerTimeout, if d.name == "client_header_timeout" then Some(d.args) else None, c.headerTimeout)
            && IsLimit(r.bodyTimeout, if d.name == "client_body_timeout" then Some(d.args) else None, c.bodyTimeout)
            && IsLimit(r.sendTimeout, if d.name == "send_timeout" then Some(d.args) else None, c.sendTimeout)
            && TypeFor(r.mimetypes, extension)
               == (if item.Types? then TypeIn(extension, item.entries, TypeFor(c.mimetypes, extension)) else TypeFor(c.mimetypes, extension))
            && if item.ServerItems? then |r.blocks| == |c.blocks| + 1 && r.blocks[..|c.blocks|] == c.blocks
                                         && BlockOf(hostOf, item.items, r.blocks[|c.blocks|])
               else r.blocks == c.blocks
  {
    hide ApplyTimeout, TypesMeaning, TypeFor, TypeIn, ServerMeaning, Finish;
    match item
    case Timeout(d) => LimitSet(d, c);
    case Types(entries) => TypesOutcome(entries, c.mimetypes, extension);
    case ServerItems(_) =>
  }

  lemma {:induction false} LimitsOutcome(hostOf: string -> Option<Host>, file: seq<Item>, c: Conf, extension: string)
    requires Meaning(hostOf, file, c).Success?
    ensures var r := Meaning(hostOf, file, c).value;
            && IsLimit(r.headerTimeout, LastLimit("client_header_timeout", file), c.headerTimeout)
            && IsLimit(r.bodyTimeout, LastLimit("client_body_timeout", file), c.bodyTimeout)
            && IsLimit(r.sendTimeout, LastLimit("send_timeout", file), c.sendTimeout)
            && TypeFor(r.mimetypes, extension) == TypeOf(extension, file, TypeFor(c.mimetypes, extension))
    decreases |file|
  {
    hide ItemMeaning, TypeIn, TypeFor, Stoi;
    if file != [] {
      var item, now := file[0], ItemMeaning(hostOf, file[0], c).value;
      ItemOutcome(hostOf, item, c, extension);
      LimitsOutcome(hostOf, file[1..], now, extension);
      var r := Meaning(hostOf, file, c).value;
      assert r == Meaning(hostOf, file[1..], now).value;
      hide Meaning, IsLimit, LastLimit;
      LimitFrom("client_header_timeout", file, c.headerTimeout, now.headerTimeout, r.headerTimeout);
      LimitFrom("client_body_timeout", file, c.bodyTimeout, now.bodyTimeout, r.bodyTimeout);
      LimitFrom("send_timeout", file, c.sendTimeout, now.sendTimeout, r.sendTimeout);
    }
  }

  lemma BlocksFrom(hostOf: string -> Option<Host>, first: seq<ServerItem>, rest: seq<seq<ServerItem>>,
                   before: seq<Block>, b: Block, after: seq<Block>)
    requires BlockOf(hostOf, first, b) && Blocks(hostOf, rest, before + [b], after)
    ensures Blocks(hostOf, [first] + rest, before, after)
  {
    hide BlockOf;
    var n := |before|;
    assert after[n] == after[..n + 1][n] == b && after[..n] == after[..n + 1][..n];
    forall i | 0 <= i < |rest| + 1 ensures BlockOf(hostOf, ([first] + rest)[i], after[n + i]) {
      if i > 0 { assert ([first] + rest)[i] == rest[i - 1] && after[n + i] == after[(n + 1) + (i - 1)]; }
    }
  }

  lemma {:induction false} BlocksOutcome(hostOf: string -> Option<Host>, file: seq<Item>, c: Conf)
    requires Meaning(hostOf, file, c).Success?
    ensures Blocks(hostOf, Servers(file), c.blocks, Meaning(hostOf, file, c).value.blocks)
    decreases |file|
  {
    hide ItemMeaning, BlockOf;
    if file != [] {
      var item, now := file[0], ItemMeaning(hostOf, file[0], c).value;
      ItemOutcome(hostOf, item, c, "");
      BlocksOutcome(hostOf, file[1..], now);
      if item.ServerItems? {
        var b := now.blocks[|c.blocks|];
        assert now.blocks == c.blocks + [b];
        BlocksFrom(hostOf, item.items, Servers(file[1..]), c.blocks, b, Meaning(hostOf, file, c).value.blocks);
      } else {
        assert Servers(file) == Servers(file[1..]);
      }
    }
  }

  /** Every accepted file: its limits, types and blocks. */
  lemma EffectiveFile(hostOf: string -> Option<Host>, file: seq<Item>, c: Conf)
    requires Meaning(hostOf, file, c).Success?
    ensures FileOutcome(hostOf, file, c, Meaning(hostOf, file, c).value)
    ensures DEFAULTS.headerTimeout == 10 && DEFAULTS.bodyTimeout == 60 && DEFAULTS.sendTimeout == 60
    ensures DEFAULTS.blocks == [] && DEFAULTS.mimetypes == map[]
    ensures DEFAULT_MAXBODYSIZE == 1048576 && DEFAULT_INDEX == "index.html" && GlobalLocation().dirListing == 0
  {
    hide Meaning, IsLimit, LastLimit, TypeFor, TypeOf, Blocks, Servers;
    BlocksOutcome(hostOf, file, c);
    LimitsOutcome(hostOf, file, c, "");
    forall extension
      ensures TypeFor(Meaning(hostOf, file, c).value.mimetypes, extension) == TypeOf(extension, file, TypeFor(c.mimetypes, extension))
    {
      LimitsOutcome(hostOf, file, c, extension);
    }
  }

  // ---- Servers

  /** The addresses of the arguments, in order. */
  function HostsOf(hostOf: string -> Option<Host>, args: seq<string>): seq<Host> {
    if args == [] then []
    else (if hostOf(args[0]).Some? then [hostOf(args[0]).value] else []) + HostsOf(hostOf, args[1..])
  }

  /** All arguments of all settings of a name, in order. */
  function Given(name: string, items: seq<ServerItem>): seq<string>
    decreases |items|
  {
    if items == [] then []
    else (if items[0].Setting? && items[0].statement.name == name then items[0].statement.args else []) + Given(name, items[1..])
  }

  /** The page of an error code: the last that is named for it, below the root that stands before it; a page
      before any root is none. */
  function PageOf(code: int, items: seq<ServerItem>, root: Path, other: Option<Path>): Option<Path>
    decreases |items|
  {
    if items == [] then other
    else if items[0].LocationItem? then PageOf(code, items[1..], root, other)
    else
      var d := items[0].statement;
      if d.name == "root" && |d.args| == 1 then PageOf(code, items[1..], PathOf(d.args[0] + "/"), other)
      else PageOf(code, items[1..], root,
             if d.name == "error_page" && |d.args| >= 2 && !root.Empty() && Names(code, d.args[..|d.args| - 1])
             then Some(PathOf(root.str + d.args[|d.args| - 1])) else other)
  }

  predicate Names(code: int, codes: seq<string>) {
    exists a <- codes :: Stoi(a, 0, 0xFFFF) == Success(code)
  }

  function PageFor(pages: map<int, Path>, code: int): Option<Path> {
    if code in pages then Some(pages[code]) else None
  }

  /** `b` is the block of a server: its hosts and names in order, and its pages. */
  ghost predicate ServerOutcome(hostOf: string -> Option<Host>, items: seq<ServerItem>, b: Block) {
    && (var hosts := HostsOf(hostOf, Given("listen", items)); b.hosts == if hosts == [] then ["0.0.0.0:80"] else hosts)
    && b.names == Given("server_name", items)
    && forall code :: PageFor(b.errorPages, code) == PageOf(code, items, EMPTY, None)
  }

  lemma {:induction false} PagesHold(pages: map<int, Path>, codes: seq<string>, file: Path, code: int)
    requires Pages(pages, codes, file).Success?
    ensures PageFor(Pages(pages, codes, file).value, code) == if Names(code, codes) then Some(file) else PageFor(pages, code)
    decreases |codes|
  {
    hide Stoi;
    if codes != [] {
      var first := Stoi(codes[0], 0, 0xFFFF).value;
      PagesHold(pages[first := file], codes[1..], file, code);
      assert forall a :: a in codes <==> a == codes[0] || a in codes[1..];
    }
  }

  lemma SettingOutcome(hostOf: string -> Option<Host>, x: ServerItem, s: Server, code: int)
    requires x.Setting? && x.statement.name == "error_page" && ServerItemMeaning(hostOf, x, s).Success?
    ensures var d, t := x.statement, ServerItemMeaning(hostOf, x, s).value;
            && |d.args| >= 2 && t.global == s.global && t.block.hosts == s.block.hosts && t.block.names == s.block.names
            && PageFor(t.block.errorPages, code)
               == if !s.global.root.Empty() && Names(code, d.args[..|d.args| - 1])
                  then Some(PathOf(s.global.root.str + d.args[|d.args| - 1])) else PageFor(s.block.errorPages, code)
  {
    var d := x.statement;
    assert |d.args| >= 2 by { hide ErrorPage; }
    hide Pages, Names, PageFor, PathOf, ServerItemMeaning;
    ErrorPagesMeaning(hostOf, x, s);
    if !s.global.root.Empty() {
      PagesHold(s.block.errorPages, d.args[..|d.args| - 1], PathOf(s.global.root.str + d.args[|d.args| - 1]), code);
    }
  }

  /** What one item does to hosts, names, pages and the root. */
  lemma OneItem(hostOf: string -> Option<Host>, x: ServerItem, s: Server, code: int)
    requires ServerItemMeaning(hostOf, x, s).Success?
    ensures var t := ServerItemMeaning(hostOf, x, s).value;
            && t.block.hosts == s.block.hosts + HostsOf(hostOf, Given("listen", [x]))
            && t.block.names == s.block.names + Given("server_name", [x])
            && PageOf(code, [x], s.global.root, PageFor(s.block.errorPages, code)) == PageFor(t.block.errorPages, code)
            && t.global.root == if x.Setting? && x.statement.name == "root" && |x.statement.args| == 1
                                then PathOf(x.statement.args[0] + "/") else s.global.root
  {
    hide ServerItemMeaning, Names, PathOf, PageFor, PageOf, Given;
    GivenOne("listen", x);
    GivenOne("server_name", x);
    PageOfOne(code, x, s.global.root, PageFor(s.block.errorPages, code));
    assert HostsOf(hostOf, []) == [];
    hide HostsOf;
    if x.Setting? && x.statement.name == "error_page" {
      SettingOutcome(hostOf, x, s, code);
    } else if LocationLevel(x) {
      LocationLevelItem(hostOf, x, s);
    } else {
      OtherItem(hostOf, x, s);
    }
  }

  lemma GivenOne(name: string, x: ServerItem)
    ensures Given(name, [x]) == if x.Setting? && x.statement.name == name then x.statement.args else []
  {
    assert [x][1..] == [];
  }

  lemma PageOfOne(code: int, x: ServerItem, root: Path, other: Option<Path>)
    ensures PageOf(code, [x], root, other)
            == if x.Setting? && x.statement.name == "error_page" && |x.statement.args| >= 2 && !root.Empty()
                  && Names(code, x.statement.args[..|x.statement.args| - 1])
               then Some(PathOf(root.str + x.statement.args[|x.statement.args| - 1])) else other
  {
    assert [x][1..] == [];
    hide Names, PathOf;
  }

  lemma LocationLevelItem(hostOf: string -> Option<Host>, x: ServerItem, s: Server)
    requires LocationLevel(x) && ServerItemMeaning(hostOf, x, s).Success?
    ensures var d, t := x.statement, ServerItemMeaning(hostOf, x, s).value;
            && t.block == s.block
            && (d.name == "root" ==> |d.args| == 1)
            && t.global.root == if d.name == "root" then PathOf(d.args[0] + "/") else s.global.root
  {
    var d := x.statement;
    Inheritance.OneOutcome(d, s.global);
    Inheritance.AcceptedDecides(d, s.global);
    hide ApplyLocation, PathOf;
  }

  lemma OtherItem(hostOf: string -> Option<Host>, x: ServerItem, s: Server)
    requires !LocationLevel(x) && !(x.Setting? && x.statement.name == "error_page")
    requires ServerItemMeaning(hostOf, x, s).Success?
    ensures var t := ServerItemMeaning(hostOf, x, s).value;
            && t.global == s.global && t.block.errorPages == s.block.errorPages
            && t.block.hosts == s.block.hosts + HostsOf(hostOf, Given("listen", [x]))
            && t.block.names == s.block.names + Given("server_name", [x])
  {
    hide LocationMade, Given;
    GivenOne("listen", x);
    GivenOne("server_name", x);
    if x.Setting? && x.statement.name == "listen" {
      var args := x.statement.args;
      assert args[1..] == [];
      assert HostsOf(hostOf, args) == [hostOf(args[0]).value] + HostsOf(hostOf, []) == [hostOf(args[0]).value];
    }
  }

  lemma {:induction false} HostsAppend(hostOf: string -> Option<Host>, a: seq<string>, b: seq<string>)
    ensures HostsOf(hostOf, a + b) == HostsOf(hostOf, a) + HostsOf(hostOf, b)
  {
    if a == [] {
      assert a + b == b;
    } else {
      assert (a + b)[0] == a[0] && (a + b)[1..] == a[1..] + b;
      HostsAppend(hostOf, a[1..], b);
      Assoc(if hostOf(a[0]).Some? then [hostOf(a[0]).value] else [], HostsOf(hostOf, a[1..]), HostsOf(hostOf, b));
    }
  }

  lemma GivenStep(name: string, items: seq<ServerItem>)
    requires items != []
    ensures Given(name, items) == Given(name, [items[0]]) + Given(name, items[1..])
  {
    assert [items[0]][1..] == [];
    var first := if items[0].Setting? && items[0].statement.name == name then items[0].statement.args else [];
    assert first + [] == first;
  }

  lemma PageStep(code: int, items: seq<ServerItem>, root: Path, next: Path, other: Option<Path>)
    requires items != []
    requires next == if items[0].Setting? && items[0].statement.name == "root" && |items[0].statement.args| == 1
                     then PathOf(items[0].statement.args[0] + "/") else root
    ensures PageOf(code, items, root, other) == PageOf(code, items[1..], next, PageOf(code, [items[0]], root, other))
  {
    hide Names, PathOf;
    var x := items[0];
    assert [x][1..] == [] && PageOf(code, [x][1..], next, other) == other;
  }

  lemma {:induction false} ItemsOutcome(hostOf: string -> Option<Host>, items: seq<ServerItem>, s: Server, code: int)
    requires ServerMeaning(hostOf, items, s).Success?
    ensures var t := ServerMeaning(hostOf, items, s).value;
            && t.block.hosts == s.block.hosts + HostsOf(hostOf, Given("listen", items))
            && t.block.names == s.block.names + Given("server_name", items)
            && PageFor(t.block.errorPages, code) == PageOf(code, items, s.global.root, PageFor(s.block.errorPages, code))
    decreases |items|
  {
    if items == [] {
      assert s.block.hosts + [] == s.block.hosts && s.block.names + [] == s.block.names;
    } else {
      var x, rest := items[0], items[1..];
      var next := ServerItemMeaning(hostOf, x, s).value;
      assert ServerMeaning(hostOf, items, s) == ServerMeaning(hostOf, rest, next);
      hide ServerMeaning, ServerItemMeaning, PageFor, PageOf, Given, HostsOf, PathOf;
      OneItem(hostOf, x, s, code);
      ItemsOutcome(hostOf, rest, next, code);
      GivenStep("listen", items);
      GivenStep("server_name", items);
      HostsAppend(hostOf, Given("listen", [x]), Given("listen", rest));
      PageStep(code, items, s.global.root, next.global.root, PageFor(s.block.errorPages, code));
      Assoc(s.block.hosts, HostsOf(hostOf, Given("listen", [x])), HostsOf(hostOf, Given("listen", rest)));
      Assoc(s.block.names, Given("server_name", [x]), Given("server_name", rest));
    }
  }

  /** Every accepted server: its hosts, or the default one, its names, and its error pages. */
  lemma EffectiveServer(hostOf: string -> Option<Host>, items: seq<ServerItem>, b: Block)
    requires BlockOf(hostOf, items, b)
    ensures ServerOutcome(hostOf, items, b)
  {
    var s := ServerMeaning(hostOf, items, NEW_SERVER).value;
    assert b.hosts == if s.block.hosts == [] then ["0.0.0.0:80"] else s.block.hosts;
    assert b.names == s.block.names && b.errorPages == s.block.errorPages;
    hide ServerMeaning, Finish, PageFor, HostsOf, Given, PageOf;
    ItemsOutcome(hostOf, items, NEW_SERVER, 0);
    assert [] + HostsOf(hostOf, Given("listen", items)) == HostsOf(hostOf, Given("listen", items));
    assert [] + Given("server_name", items) == Given("server_name", items);
    NoPages();
    forall code ensures PageFor(b.errorPages, code) == PageOf(code, items, EMPTY, None) {
      ItemsOutcome(hostOf, items, NEW_SERVER, code);
    }
  }

  lemma NoPages()
    ensures forall code :: PageFor(map[], code) == None
  {}

  // ---- What is accepted

  /** The string spells a number from 0 to `max`. */
  predicate IsNumber(s: string, max: int) {
    Stoi(s, 0, max).Success?
  }

  /** A location-level statement that is accepted, told by its name. */
  predicate Acceptable(d: Statement) {
    match d.name
    case "root" => |d.args| == 1
    case "client_body_upload_path" => |d.args| == 1
    case "client_body_temp_path" => |d.args| == 1
    case "index" => |d.args| >= 1
    case "cgi" => |d.args| >= 2
    case "allow" => |d.args| >= 1 && forall a <- d.args :: a in ["GET", "POST", "DELETE", "PUT", "HEAD"]
    case "autoindex" => d.args == ["on"] || d.args == ["off"]
    case "client_max_body_size" => |d.args| == 1 && IsNumber(d.args[0], 0xFFFF_FFFF)
    case "redirect" =>
      |d.args| == 2 && IsNumber(d.args[0], 0xFFFF) && Stoi(d.args[0], 0, 0xFFFF).value in {300, 301, 302, 303, 304, 307, 308}
    case _ => false
  }

  lemma {:induction false} MethodsAccepted(names: seq<string>)
    ensures AllowedMethods(names).Success? <==> forall a <- names :: a in ["GET", "POST", "DELETE", "PUT", "HEAD"]
    decreases |names|
  {
    if names != [] {
      MethodsAccepted(names[1..]);
      assert forall a :: a in names <==> a == names[0] || a in names[1..];
    }
  }

  lemma StatementAccepted(d: Statement, l: Location)
    requires d.name in LOCATION_DIRECTIVES
    ensures ApplyLocation(d.name, d.args, l).Success? <==> Acceptable(d)
  {
    hide ApplyLocation, ChangeOf, Changed, Acceptable;
    ApplyIsChange(d.name, d.args, l);
    ChangeAccepted(d);
  }

  lemma ChangeAccepted(d: Statement)
    requires d.name in LOCATION_DIRECTIVES
    ensures ChangeOf(d.name, d.args).Success? <==> Acceptable(d)
  {
    hide AllowedMethods, Stoi, PathOf;
    if d.name == "allow" {
      MethodsAccepted(d.args);
    } else if d.name == "autoindex" {
      assert |d.args| == 1 ==> d.args == [d.args[0]];
    }
  }

  lemma OnlyDirectives(d: Statement)
    ensures Acceptable(d) ==> d.name in LOCATION_DIRECTIVES
  {
    hide Stoi;
  }

  /** The statements of a location are accepted if and only if each of them is. */
  lemma {:induction false} LocationAccepted(ds: seq<Statement>, l: Location)
    ensures LocationMeaning(ds, l).Success? <==> forall d <- ds :: Acceptable(d)
    decreases |ds|
  {
    hide ApplyLocation, Acceptable;
    if ds != [] {
      var d := ds[0];
      OnlyDirectives(d);
      if d.name in LOCATION_DIRECTIVES {
        StatementAccepted(d, l);
        if Acceptable(d) { LocationAccepted(ds[1..], ApplyLocation(d.name, d.args, l).value); }
      }
      assert forall e :: e in ds <==> e == d || e in ds[1..];
    }
  }

  /** Whether the items of a server are accepted, when it has a root already or not: a page before any root is not
      looked at. */
  predicate AcceptableItems(hostOf: string -> Option<Host>, items: seq<ServerItem>, rooted: bool)
    decreases |items|
  {
    items == [] ||
    match items[0]
    case LocationItem(name, ds) =>
      PathOf(name + "/").OriginForm() && (forall d <- ds :: Acceptable(d)) && AcceptableItems(hostOf, items[1..], rooted)
    case Setting(d) =>
      match d.name
      case "listen" => |d.args| == 1 && hostOf(d.args[0]).Some? && AcceptableItems(hostOf, items[1..], rooted)
      case "server_name" => |d.args| >= 1 && AcceptableItems(hostOf, items[1..], rooted)
      case "error_page" =>
        |d.args| >= 2 && (rooted ==> AreCodes(d.args[..|d.args| - 1])) && AcceptableItems(hostOf, items[1..], rooted)
      case _ => Acceptable(d) && AcceptableItems(hostOf, items[1..], rooted || d.name == "root")
  }

  predicate AreCodes(codes: seq<string>) {
    forall a <- codes :: IsNumber(a, 0xFFFF) && 400 <= Stoi(a, 0, 0xFFFF).value <= 599
  }

  lemma {:induction false} PagesAccepted(pages: map<int, Path>, codes: seq<string>, file: Path)
    ensures Pages(pages, codes, file).Success? <==> AreCodes(codes)
    decreases |codes|
  {
    hide Stoi;
    if codes != [] {
      if IsNumber(codes[0], 0xFFFF) { PagesAccepted(pages[Stoi(codes[0], 0, 0xFFFF).value := file], codes[1..], file); }
      assert forall a :: a in codes <==> a == codes[0] || a in codes[1..];
    }
  }

  lemma ItemAccepted(hostOf: string -> Option<Host>, x: ServerItem, s: Server)
    ensures var t := ServerItemMeaning(hostOf, x, s);
            && (t.Success? <==> AcceptableItems(hostOf, [x], !s.global.root.Empty()))
            && (t.Success? ==> (t.value.global.root.Empty() <==>
                  s.global.root.Empty() && !(x.Setting? && x.statement.name == "root")))
  {
    assert [x][1..] == [];
    match x {
      case LocationItem(name, ds) =>
        LocationAccepted(ds, NewLocation(PathOf(name + "/")));
        hide Acceptable, LocationMeaning, PathOf;
      case Setting(d) =>
        if d.name == "error_page" {
          PageAccepted(hostOf, x, s);
          hide ServerItemMeaning, AreCodes;
        } else if d.name in LOCATION_DIRECTIVES {
          GlobalAccepted(hostOf, x, s);
          hide ServerItemMeaning, Acceptable;
        } else {
          OnlyDirectives(d);
          hide Acceptable;
        }
    }
  }

  lemma PageAccepted(hostOf: string -> Option<Host>, x: ServerItem, s: Server)
    requires x.Setting? && x.statement.name == "error_page"
    ensures var d, t := x.statement, ServerItemMeaning(hostOf, x, s);
            && (t.Success? <==> |d.args| >= 2 && (!s.global.root.Empty() ==> AreCodes(d.args[..|d.args| - 1])))
            && (t.Success? ==> t.value.global == s.global)
  {
    var d := x.statement;
    hide *;
    if |d.args| >= 2 {
      ErrorPagesSetting(hostOf, x, s);
      PagesGiven(s, d.args);
    } else {
      FewArguments(hostOf, x, s);
    }
  }

  lemma PagesGiven(s: Server, args: seq<string>)
    requires |args| >= 2
    ensures var t := ErrorPage(s, args);
            && (t.Success? <==> (!s.global.root.Empty() ==> AreCodes(args[..|args| - 1])))
            && (t.Success? ==> t.value.global == s.global)
  {
    hide Pages, AreCodes, PathOf, ErrorPage;
    ErrorPageMeaning(s, args);
    if !s.global.root.Empty() {
      PagesAccepted(s.block.errorPages, args[..|args| - 1], PathOf(s.global.root.str + args[|args| - 1]));
    }
  }

  lemma FewArguments(hostOf: string -> Option<Host>, x: ServerItem, s: Server)
    requires x.Setting? && x.statement.name == "error_page" && |x.statement.args| < 2
    ensures ServerItemMeaning(hostOf, x, s).Failure?
  {
    hide ErrorPage, ApplyLocation;
  }

  lemma GlobalAccepted(hostOf: string -> Option<Host>, x: ServerItem, s: Server)
    requires LocationLevel(x)
    ensures var d, t := x.statement, ServerItemMeaning(hostOf, x, s);
            && (t.Success? <==> Acceptable(d))
            && (t.Success? ==> (t.value.global.root.Empty() <==> s.global.root.Empty() && d.name != "root"))
  {
    hide ApplyLocation, ServerItemMeaning, Acceptable, PathOf, ChangeOf, Changed;
    var d, t := x.statement, ServerItemMeaning(hostOf, x, s);
    StatementAccepted(d, s.global);
    ApplyIsChange(d.name, d.args, s.global);
    GlobalMeaning(hostOf, x, s);
    if t.Success? {
      LocationLevelItem(hostOf, x, s);
      if d.name == "root" { RootIsSet(d.args[0]); }
    }
  }

  lemma RootIsSet(dir: string)
    ensures !PathOf(dir + "/").Empty()
  {
    hide Chunks;
  }

  /** A server is accepted if and only if its items are. */
  lemma {:induction false} ServerAccepted(hostOf: string -> Option<Host>, items: seq<ServerItem>, s: Server)
    ensures ServerMeaning(hostOf, items, s).Success? <==> AcceptableItems(hostOf, items, !s.global.root.Empty())
    decreases |items|
  {
    if items != [] {
      var x, next := items[0], ServerItemMeaning(hostOf, items[0], s);
      ItemAccepted(hostOf, x, s);
      AcceptableStep(hostOf, items, !s.global.root.Empty());
      hide AcceptableItems, ServerItemMeaning;
      if next.Success? { ServerAccepted(hostOf, items[1..], next.value); }
    }
  }

  lemma AcceptableStep(hostOf: string -> Option<Host>, items: seq<ServerItem>, rooted: bool)
    requires items != []
    ensures AcceptableItems(hostOf, items, rooted) <==>
            && AcceptableItems(hostOf, [items[0]], rooted)
            && AcceptableItems(hostOf, items[1..], rooted || (items[0].Setting? && items[0].statement.name == "root"))
  {
    assert [items[0]][1..] == [];
    hide Acceptable, AreCodes, PathOf;
  }

  predicate AcceptableItem(hostOf: string -> Option<Host>, item: Item) {
    match item
    case Timeout(d) =>
      d.name in {"client_header_timeout", "client_body_timeout", "send_timeout"} && |d.args| == 1 && IsNumber(d.args[0], INT32_MAX)
    case Types(_) => true
    case ServerItems(items) => AcceptableItems(hostOf, items, false)
  }

  lemma FileItemAccepted(hostOf: string -> Option<Host>, item: Item, c: Conf)
    ensures ItemMeaning(hostOf, item, c).Success? <==> AcceptableItem(hostOf, item)
  {
    hide AcceptableItems, ServerMeaning, TypesMeaning, Stoi, Finish;
    if item.ServerItems? { ServerAccepted(hostOf, item.items, NEW_SERVER); }
  }

  /** A file is accepted if and only if each of its items is. */
  lemma {:induction false} FileAccepted(hostOf: string -> Option<Host>, file: seq<Item>, c: Conf)
    ensures Meaning(hostOf, file, c).Success? <==> forall item <- file :: AcceptableItem(hostOf, item)
    decreases |file|
  {
    hide ItemMeaning, AcceptableItem;
    if file != [] {
      FileItemAccepted(hostOf, file[0], c);
      var next := ItemMeaning(hostOf, file[0], c);
      if next.Success? { FileAccepted(hostOf, file[1..], next.value); }
      assert file[0] in file && forall x :: x in file <==> x == file[0] || x in file[1..];
    }
  }

  // ---- Which error

  /** The number of arguments that a location-level statement may have. */
  predicate CountFits(d: Statement) {
    match d.name
    case "allow" => |d.args| >= 1
    case "index" => |d.args| >= 1
    case "cgi" => |d.args| >= 2
    case "redirect" => |d.args| == 2
    case _ => |d.args| == 1
  }

  lemma StatementErrors(d: Statement, l: Location)
    requires d.name in LOCATION_DIRECTIVES && !Acceptable(d)
    ensures ApplyLocation(d.name, d.args, l)
            == Failure(if !CountFits(d) then InvalidArgumentNumber else if d.name == "allow" then InvalidMethod else InvalidValue)
  {
    StatementAccepted(d, l);
    hide Acceptable;
    ApplyIsChange(d.name, d.args, l);
    if d.name == "allow" { MethodErrors(d.args); }
    hide ApplyLocation, Changed, AllowedMethods, Stoi, PathOf;
    StoiErrors(d.args);
  }

  lemma {:induction false} MethodErrors(names: seq<string>)
    ensures AllowedMethods(names).Failure? ==> AllowedMethods(names).error == InvalidMethod
    decreases |names|
  {
    if names != [] { MethodErrors(names[1..]); }
  }

  lemma StoiErrors(args: seq<string>)
    ensures forall a <- args :: Stoi(a, 0, 0xFFFF_FFFF).Failure? ==> Stoi(a, 0, 0xFFFF_FFFF).error == InvalidValue
    ensures forall a <- args :: Stoi(a, 0, 0xFFFF).Failure? ==> Stoi(a, 0, 0xFFFF).error == InvalidValue
  {
    hide Strtol, CString;
  }

  /** The first metatoken of the tokens is at `n`. */
  predicate FirstMeta(rest: tokens, n: int) {
    0 <= n < |rest| && IsMetatoken(rest[n]) && forall i :: 0 <= i < n ==> !IsMetatoken(rest[i])
  }

  predicate NoMeta(rest: tokens) {
    forall i :: 0 <= i < |rest| ==> !IsMetatoken(rest[i])
  }

  lemma FirstMetaStep(rest: tokens, n: int)
    requires rest != [] && !IsMetatoken(rest[0])
    ensures FirstMeta(rest, n) <==> FirstMeta(rest[1..], n - 1)
    ensures NoMeta(rest) <==> NoMeta(rest[1..])
  {
    if FirstMeta(rest, n) { assert n > 0 && forall i :: 0 <= i < n - 1 ==> rest[1..][i] == rest[i + 1]; }
    if FirstMeta(rest[1..], n - 1) { assert forall i :: 1 <= i < n ==> rest[i] == rest[1..][i - 1]; }
    if NoMeta(rest[1..]) { assert forall i :: 1 <= i < |rest| ==> rest[i] == rest[1..][i - 1]; }
  }

  /** The arguments of a directive end before the first metatoken, which must be `;`, or `{` for a block. */
  lemma {:induction false} CountsExactly(rest: tokens, n: int)
    ensures CountArgs(rest) == Failure(UnexpectedEOF) <==> NoMeta(rest)
    ensures CountBlockArgs(rest) == Failure(MissingOpening) <==> NoMeta(rest)
    ensures FirstMeta(rest, n) ==> CountArgs(rest) == if rest[n] == ";" then Success(n) else Failure(UnexpectedToken)
    ensures FirstMeta(rest, n) ==> CountBlockArgs(rest) == if rest[n] == "{" then Success(n) else Failure(UnexpectedToken)
    decreases |rest|
  {
    if rest != [] && !IsMetatoken(rest[0]) {
      FirstMetaStep(rest, n);
      CountsExactly(rest[1..], n - 1);
    }
  }

  /** Every text that is accepted lays out a tree, whose limits, types and servers the configuration holds. */
  lemma AcceptedText(hostOf: string -> Option<Host>, lines: seq<string>, r: Conf) returns (file: seq<Item>)
    requires Parse(hostOf, Tokenize(lines), DEFAULTS) == Success(r)
    ensures PrintableFile(file) && FileTokens(file) == Tokenize(lines)
    ensures FileOutcome(hostOf, file, DEFAULTS, r)
    ensures |r.blocks| == |Servers(file)| && forall i :: 0 <= i < |r.blocks| ==> ServerOutcome(hostOf, Servers(file)[i], r.blocks[i])
  {
    EffectiveFile(hostOf, [], DEFAULTS);
    hide *;
    AcceptsExactly(hostOf, Tokenize(lines), DEFAULTS, r);
    file :| PrintableFile(file) && FileTokens(file) == Tokenize(lines) && Meaning(hostOf, file, DEFAULTS) == Success(r);
    EffectiveFile(hostOf, file, DEFAULTS);
    BlocksOf(hostOf, file, DEFAULTS, r);
    forall i | 0 <= i < |r.blocks| ensures ServerOutcome(hostOf, Servers(file)[i], r.blocks[i]) {
      EffectiveServer(hostOf, Servers(file)[i], r.blocks[i]);
    }
  }

  lemma BlocksOf(hostOf: string -> Option<Host>, file: seq<Item>, c: Conf, r: Conf)
    requires FileOutcome(hostOf, file, c, r) && c.blocks == []
    ensures |r.blocks| == |Servers(file)|
    ensures forall i :: 0 <= i < |r.blocks| ==> BlockOf(hostOf, Servers(file)[i], r.blocks[i])
  {
    hide BlockOf, IsLimit, TypeFor, TypeOf;
    forall i | 0 <= i < |Servers(file)| ensures BlockOf(hostOf, Servers(file)[i], r.blocks[i]) {
      assert BlockOf(hostOf, Servers(file)[i], r.blocks[0 + i]);
    }
  }
}
