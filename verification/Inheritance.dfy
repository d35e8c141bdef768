/** What the locations of a server end up with (srcs/LocationBlock.cpp:47-79,
    srcs/Configuration/ConfFile-servers.cpp:14-43): their own value, else the server's, else the default. */
module Inheritance {
  import opened Octets
  import opened Numbers
  import opened Wrappers
  import opened Paths
  import opened Settings
  import opened ConfGrammar
  import opened ItemOrder
  import Routing
  import HeadParsing

  // ---- What a location ends up with

  /** The arguments of the last statement of a name. */
  function Last(name: string, ds: seq<Statement>): Option<seq<string>>
    decreases |ds|
  {
    if ds == [] then None
    else
      var later := Last(name, ds[1..]);
      if later.Some? then later else if ds[0].name == name then Some(ds[0].args) else None
  }

  function DirectoryOf(args: Option<seq<string>>, other: Path): Path {
    if args.Some? && |args.value| == 1 then PathOf(args.value[0] + "/") else other
  }

  /** Sizes are read as uint32_t and kept as int32_t, where -1 stands for "not set". */
  function MaximumOf(args: Option<seq<string>>, other: int): int {
    if args.Some? && |args.value| == 1 && Stoi(args.value[0], 0, 0xFFFF_FFFF).Success?
    then Int32(Stoi(args.value[0], 0, 0xFFFF_FFFF).value) else other
  }

  function ListingOf(args: Option<seq<string>>, other: int): int {
    if args == Some(["on"]) then 1 else if args == Some(["off"]) then 0 else other
  }

  /** Status and body of a redirect. */
  function RedirectOf(args: Option<seq<string>>, other: (int, string)): (int, string) {
    if args.Some? && |args.value| == 2 && Stoi(args.value[0], 0, 0xFFFF).Success?
       && Stoi(args.value[0], 0, 0xFFFF).value in {300, 301, 302, 303, 304, 307, 308}
    then (Stoi(args.value[0], 0, 0xFFFF).value, args.value[1]) else other
  }

  /** The program that the last `cgi` statement naming the extension gives to it. */
  function RunnerOf(extension: string, ds: seq<Statement>, other: Option<Path>): Option<Path>
    decreases |ds|
  {
    if ds == [] then other
    else
      var args := ds[0].args;
      RunnerOf(extension, ds[1..],
        if ds[0].name == "cgi" && args != [] && extension in args[..|args| - 1] then Some(PathOf(args[|args| - 1])) else other)
  }

  function CgiFor(cgis: map<string, Path>, extension: string): Option<Path> {
    if extension in cgis then Some(cgis[extension]) else None
  }

  /** All arguments of all statements of a name, in order. */
  function Collected(name: string, ds: seq<Statement>): seq<string>
    decreases |ds|
  {
    if ds == [] then [] else (if ds[0].name == name then ds[0].args else []) + Collected(name, ds[1..])
  }

  /** The fields of `r`, when the statements have been applied to `l`: the last value of a name counts,
      indexes and methods add up, and the last `cgi` that names an extension counts. */
  ghost predicate Outcome(ds: seq<Statement>, l: Location, r: Location) {
    && r.path == l.path
    && r.root == DirectoryOf(Last("root", ds), l.root)
    && r.maxBodySize == MaximumOf(Last("client_max_body_size", ds), l.maxBodySize)
    && r.dirListing == ListingOf(Last("autoindex", ds), l.dirListing)
    && r.uploadPath == DirectoryOf(Last("client_body_upload_path", ds), l.uploadPath)
    && r.tempPath == DirectoryOf(Last("client_body_temp_path", ds), l.tempPath)
    && r.indexes == l.indexes + Collected("index", ds)
    && r.allowed == l.allowed + Indexes(Collected("allow", ds))
    && (r.redirectStatus, r.redirectBody) == RedirectOf(Last("redirect", ds), (l.redirectStatus, l.redirectBody))
    && (forall extension :: CgiFor(r.cgis, extension) == RunnerOf(extension, ds, CgiFor(l.cgis, extension)))
    && (r.cgis == map[] <==> l.cgis == map[] && Collected("cgi", ds) == [])
  }

  lemma OneOutcome(d: Statement, l: Location)
    requires d.name in LOCATION_DIRECTIVES && ApplyLocation(d.name, d.args, l).Success?
    ensures var r := ApplyLocation(d.name, d.args, l).value;
            && r.path == l.path
            && r.root == (if d.name == "root" then DirectoryOf(Some(d.args), l.root) else l.root)
            && r.maxBodySize == (if d.name == "client_max_body_size" then MaximumOf(Some(d.args), l.maxBodySize) else l.maxBodySize)
            && r.dirListing == (if d.name == "autoindex" then ListingOf(Some(d.args), l.dirListing) else l.dirListing)
            && r.uploadPath == (if d.name == "client_body_upload_path" then DirectoryOf(Some(d.args), l.uploadPath) else l.uploadPath)
            && r.tempPath == (if d.name == "client_body_temp_path" then DirectoryOf(Some(d.args), l.tempPath) else l.tempPath)
            && r.indexes == (if d.name == "index" then l.indexes + d.args else l.indexes)
            && r.allowed == (if d.name == "allow" then l.allowed + Indexes(d.args) else l.allowed)
  {
    hide PathOf, Stoi, Allow, AddCgis, HeadParsing.MethodIndex;
    if d.name == "allow" {
      AllowAdds(l, d.args);
      MethodsAre(d.args);
    } else if d.name == "cgi" {
      CgisAdded(l, d.args[..|d.args| - 1], d.args[|d.args| - 1]);
    } else if d.name == "autoindex" {
      assert d.args == [d.args[0]];
    }
  }

  lemma OneRedirect(d: Statement, l: Location)
    requires d.name in LOCATION_DIRECTIVES && ApplyLocation(d.name, d.args, l).Success?
    ensures var r := ApplyLocation(d.name, d.args, l).value;
            (r.redirectStatus, r.redirectBody)
            == if d.name == "redirect" then RedirectOf(Some(d.args), (l.redirectStatus, l.redirectBody))
               else (l.redirectStatus, l.redirectBody)
  {
    hide PathOf, Stoi, Allow, AddCgis;
    if d.name == "allow" {
      AllowAdds(l, d.args);
    } else if d.name == "cgi" {
      CgisAdded(l, d.args[..|d.args| - 1], d.args[|d.args| - 1]);
    }
  }

  lemma OneCgi(d: Statement, l: Location)
    requires d.name in LOCATION_DIRECTIVES && ApplyLocation(d.name, d.args, l).Success?
    ensures ApplyLocation(d.name, d.args, l).value.cgis
            == if d.name == "cgi" && d.args != [] then CgiMap(l.cgis, d.args[..|d.args| - 1], d.args[|d.args| - 1]) else l.cgis
    ensures d.name == "cgi" ==> |d.args| >= 2
  {
    hide PathOf, Stoi, Allow, AddCgis;
    if d.name == "allow" {
      AllowAdds(l, d.args);
    } else if d.name == "cgi" {
      CgisAdded(l, d.args[..|d.args| - 1], d.args[|d.args| - 1]);
    }
  }

  lemma {:induction false} CgiMapHolds(cgis: map<string, Path>, extensions: seq<string>, binary: string, extension: string)
    ensures CgiFor(CgiMap(cgis, extensions, binary), extension)
            == if extension in extensions then Some(PathOf(binary)) else CgiFor(cgis, extension)
    ensures CgiMap(cgis, extensions, binary) == map[] <==> cgis == map[] && extensions == []
    decreases |extensions|
  {
    hide PathOf;
    if extensions != [] {
      var next := cgis[extensions[0] := PathOf(binary)];
      assert extensions[0] in next;
      CgiMapHolds(next, extensions[1..], binary, extension);
    }
  }

  lemma {:induction false} MethodsAre(names: seq<string>)
    requires AllowedMethods(names).Success?
    ensures AllowedMethods(names).value == Indexes(names)
    decreases |names|
  {
    hide HeadParsing.MethodIndex;
    if names != [] {
      MethodsAre(names[1..]);
      assert forall name :: name in names <==> name == names[0] || name in names[1..];
    }
  }

  /** Arguments that were accepted decide the field, whatever it held before. */
  predicate Decides(name: string, args: seq<string>) {
    && (name == "root" || name == "client_body_upload_path" || name == "client_body_temp_path" ==> |args| == 1)
    && (name == "client_max_body_size" ==> |args| == 1 && Stoi(args[0], 0, 0xFFFF_FFFF).Success?)
    && (name == "autoindex" ==> args == ["on"] || args == ["off"])
    && (name == "redirect" ==> |args| == 2 && Stoi(args[0], 0, 0xFFFF).Success?
                               && Stoi(args[0], 0, 0xFFFF).value in {300, 301, 302, 303, 304, 307, 308})
  }

  lemma AcceptedDecides(d: Statement, l: Location)
    requires d.name in LOCATION_DIRECTIVES && ApplyLocation(d.name, d.args, l).Success?
    ensures Decides(d.name, d.args)
  {
    hide PathOf, Stoi, Allow, AddCgis;
    if d.name == "autoindex" { assert d.args == [d.args[0]]; }
  }

  lemma {:induction false} LastDecides(name: string, ds: seq<Statement>, l: Location)
    requires LocationMeaning(ds, l).Success?
    ensures Last(name, ds).Some? ==> Decides(name, Last(name, ds).value)
    decreases |ds|
  {
    hide ApplyLocation, Decides;
    if ds != [] {
      AcceptedDecides(ds[0], l);
      LastDecides(name, ds[1..], ApplyLocation(ds[0].name, ds[0].args, l).value);
    }
  }

  lemma DirectoryDecided(name: string, args: Option<seq<string>>, other: Path, another: Path)
    requires name in {"root", "client_body_upload_path", "client_body_temp_path"}
    requires args.Some? ==> Decides(name, args.value)
    ensures args.Some? ==> DirectoryOf(args, other) == DirectoryOf(args, another)
    ensures args.None? ==> DirectoryOf(args, other) == other
  {
    hide PathOf, Stoi;
  }

  lemma NumberDecided(args: Option<seq<string>>, other: int, another: int)
    ensures args.None? ==> MaximumOf(args, other) == ListingOf(args, other) == other
    ensures args.Some? && Decides("client_max_body_size", args.value) ==> MaximumOf(args, other) == MaximumOf(args, another)
    ensures args.Some? && Decides("autoindex", args.value) ==> ListingOf(args, other) == ListingOf(args, another)
  {
    hide Stoi;
  }

  lemma RedirectDecided(args: Option<seq<string>>, other: (int, string), another: (int, string))
    ensures args.None? ==> RedirectOf(args, other) == other
    ensures args.Some? && Decides("redirect", args.value) ==> RedirectOf(args, other) == RedirectOf(args, another)
  {
    hide Stoi;
  }

  lemma {:induction false} DirectoryOutcome(name: string, ds: seq<Statement>, l: Location)
    requires LocationMeaning(ds, l).Success? && name in {"root", "client_body_upload_path", "client_body_temp_path"}
    ensures Directory(name, LocationMeaning(ds, l).value) == DirectoryOf(Last(name, ds), Directory(name, l))
    decreases |ds|
  {
    hide ApplyLocation, DirectoryOf;
    if ds == [] {
      DirectoryDecided(name, None, Directory(name, l), EMPTY);
    } else {
      var d := ds[0];
      var next := ApplyLocation(d.name, d.args, l).value;
      OneOutcome(d, l);
      AcceptedDecides(d, l);
      LastDecides(name, ds[1..], next);
      DirectoryOutcome(name, ds[1..], next);
      DirectoryDecided(name, Last(name, ds[1..]), Directory(name, next), Directory(name, l));
    }
  }

  /** The path of a location that a directive of the name sets. */
  function Directory(name: string, l: Location): Path {
    if name == "root" then l.root else if name == "client_body_upload_path" then l.uploadPath else l.tempPath
  }

  lemma {:induction false} NumberOutcome(ds: seq<Statement>, l: Location)
    requires LocationMeaning(ds, l).Success?
    ensures LocationMeaning(ds, l).value.maxBodySize == MaximumOf(Last("client_max_body_size", ds), l.maxBodySize)
    ensures LocationMeaning(ds, l).value.dirListing == ListingOf(Last("autoindex", ds), l.dirListing)
    decreases |ds|
  {
    hide ApplyLocation, MaximumOf, ListingOf;
    if ds == [] {
      NumberDecided(None, l.maxBodySize, 0);
      NumberDecided(None, l.dirListing, 0);
    } else {
      var d := ds[0];
      var next := ApplyLocation(d.name, d.args, l).value;
      OneOutcome(d, l);
      AcceptedDecides(d, l);
      LastDecides("client_max_body_size", ds[1..], next);
      LastDecides("autoindex", ds[1..], next);
      NumberOutcome(ds[1..], next);
      NumberDecided(Last("client_max_body_size", ds[1..]), next.maxBodySize, l.maxBodySize);
      NumberDecided(Last("autoindex", ds[1..]), next.dirListing, l.dirListing);
    }
  }

  lemma {:induction false} RedirectOutcome(ds: seq<Statement>, l: Location)
    requires LocationMeaning(ds, l).Success?
    ensures var r := LocationMeaning(ds, l).value;
            (r.redirectStatus, r.redirectBody) == RedirectOf(Last("redirect", ds), (l.redirectStatus, l.redirectBody))
    decreases |ds|
  {
    hide ApplyLocation, RedirectOf;
    if ds == [] {
      RedirectDecided(None, (l.redirectStatus, l.redirectBody), (0, ""));
    } else {
      var d := ds[0];
      var next := ApplyLocation(d.name, d.args, l).value;
      OneRedirect(d, l);
      AcceptedDecides(d, l);
      LastDecides("redirect", ds[1..], next);
      RedirectOutcome(ds[1..], next);
      RedirectDecided(Last("redirect", ds[1..]), (next.redirectStatus, next.redirectBody), (l.redirectStatus, l.redirectBody));
    }
  }

  lemma {:induction false} CgiOutcome(ds: seq<Statement>, l: Location, extension: string)
    requires LocationMeaning(ds, l).Success?
    ensures var r := LocationMeaning(ds, l).value;
            && CgiFor(r.cgis, extension) == RunnerOf(extension, ds, CgiFor(l.cgis, extension))
            && (r.cgis == map[] <==> l.cgis == map[] && Collected("cgi", ds) == [])
    decreases |ds|
  {
    hide ApplyLocation, CgiFor, PathOf;
    if ds != [] {
      var d := ds[0];
      OneCgi(d, l);
      if d.name == "cgi" { CgiMapHolds(l.cgis, d.args[..|d.args| - 1], d.args[|d.args| - 1], extension); }
      CgiOutcome(ds[1..], ApplyLocation(d.name, d.args, l).value, extension);
    }
  }

  lemma {:induction false} IndexOutcome(ds: seq<Statement>, l: Location)
    requires LocationMeaning(ds, l).Success?
    ensures var r := LocationMeaning(ds, l).value; r.path == l.path && r.indexes == l.indexes + Collected("index", ds)
    decreases |ds|
  {
    hide ApplyLocation;
    if ds == [] {
      assert l.indexes + Collected("index", ds) == l.indexes;
    } else {
      var d := ds[0];
      OneOutcome(d, l);
      IndexOutcome(ds[1..], ApplyLocation(d.name, d.args, l).value);
      Assoc(l.indexes, if d.name == "index" then d.args else [], Collected("index", ds[1..]));
    }
  }

  /** The methods that names stand for. */
  function Indexes(names: seq<string>): set<nat> {
    set name <- names :: HeadParsing.MethodIndex(name)
  }

  lemma IndexesAppend(xs: seq<string>, ys: seq<string>)
    ensures Indexes(xs + ys) == Indexes(xs) + Indexes(ys) && Indexes([]) == {}
  {
    hide HeadParsing.MethodIndex;
    assert forall name :: name in xs + ys <==> name in xs || name in ys;
  }

  lemma {:induction false} AllowOutcome(ds: seq<Statement>, l: Location)
    requires LocationMeaning(ds, l).Success?
    ensures LocationMeaning(ds, l).value.allowed == l.allowed + Indexes(Collected("allow", ds))
    decreases |ds|
  {
    hide ApplyLocation, Indexes;
    if ds == [] {
      IndexesAppend([], []);
    } else {
      var d := ds[0];
      OneOutcome(d, l);
      AllowOutcome(ds[1..], ApplyLocation(d.name, d.args, l).value);
      IndexesAppend(if d.name == "allow" then d.args else [], Collected("allow", ds[1..]));
      IndexesAppend([], []);
    }
  }

  /** Every way to write a location: what it holds in the end. */
  lemma LocationOutcome(ds: seq<Statement>, l: Location)
    requires LocationMeaning(ds, l).Success?
    ensures Outcome(ds, l, LocationMeaning(ds, l).value)
  {
    hide LocationMeaning, DirectoryOf, MaximumOf, ListingOf, RedirectOf, RunnerOf, CgiFor, HeadParsing.MethodIndex, Last, Collected;
    RedirectOutcome(ds, l);
    CgiOutcome(ds, l, "");
    forall extension ensures CgiFor(LocationMeaning(ds, l).value.cgis, extension) == RunnerOf(extension, ds, CgiFor(l.cgis, extension)) {
      CgiOutcome(ds, l, extension);
    }
    DirectoryOutcome("root", ds, l);
    DirectoryOutcome("client_body_upload_path", ds, l);
    DirectoryOutcome("client_body_temp_path", ds, l);
    NumberOutcome(ds, l);
    IndexOutcome(ds, l);
    AllowOutcome(ds, l);
  }

  // ---- Servers

  /** The location-level statements of a server. */
  function GlobalStatements(items: seq<ServerItem>): seq<Statement> {
    if items == [] then []
    else (if LocationLevel(items[0]) then [items[0].statement] else []) + GlobalStatements(items[1..])
  }

  lemma GlobalStep(hostOf: string -> Option<Host>, x: ServerItem, s: Server)
    requires ServerItemMeaning(hostOf, x, s).Success?
    ensures var t := ServerItemMeaning(hostOf, x, s).value;
            if LocationLevel(x) then
              t.block == s.block && ApplyLocation(x.statement.name, x.statement.args, s.global) == Success(t.global)
            else t.global == s.global
    ensures var t := ServerItemMeaning(hostOf, x, s).value;
            match x
            case LocationItem(name, ds) =>
              LocationMade(name, ds).Success? && t.block.locations == s.block.locations + [LocationMade(name, ds).value]
            case Setting(_) => t.block.locations == s.block.locations
  {
    hide ApplyLocation, LocationMade, AddErrorPages, PathOf;
    if x.Setting? && x.statement.name == "error_page" {
      var args := x.statement.args;
      PagesAdded(s.block, args[..|args| - 1], PathOf(s.global.root.str + args[|args| - 1]));
    }
  }

  lemma {:induction false} GlobalOutcome(hostOf: string -> Option<Host>, items: seq<ServerItem>, s: Server)
    requires ServerMeaning(hostOf, items, s).Success?
    ensures LocationMeaning(GlobalStatements(items), s.global) == Success(ServerMeaning(hostOf, items, s).value.global)
    decreases |items|
  {
    hide ServerItemMeaning, ApplyLocation;
    if items != [] {
      GlobalStep(hostOf, items[0], s);
      GlobalOutcome(hostOf, items[1..], ServerItemMeaning(hostOf, items[0], s).value);
      if LocationLevel(items[0]) {
        var ds := GlobalStatements(items);
        assert ds[0] == items[0].statement && ds[1..] == GlobalStatements(items[1..]);
      } else {
        assert GlobalStatements(items) == GlobalStatements(items[1..]);
      }
    }
  }

  /** `ls` is `before`, and then the locations that `items` make, in order. */
  ghost predicate Makes(before: seq<Location>, items: seq<ServerItem>, ls: seq<Location>) {
    && |ls| == |before| + |items| && ls[..|before|] == before
    && forall i :: 0 <= i < |items| ==>
         items[i].LocationItem? && LocationMade(items[i].name, items[i].statements) == Success(ls[|before| + i])
  }

  lemma MakesOne(before: seq<Location>, x: ServerItem, l: Location, rest: seq<ServerItem>, ls: seq<Location>)
    requires x.LocationItem? && LocationMade(x.name, x.statements) == Success(l) && Makes(before + [l], rest, ls)
    ensures Makes(before, [x] + rest, ls)
  {
    hide LocationMade;
    var n, items := |before|, [x] + rest;
    assert ls[n] == ls[..n + 1][n] == l;
    assert ls[..n] == ls[..n + 1][..n];
    forall i | 0 <= i < |items|
      ensures items[i].LocationItem? && LocationMade(items[i].name, items[i].statements) == Success(ls[n + i])
    {
      if i > 0 { assert items[i] == rest[i - 1]; }
    }
  }

  /** The locations are those of the items, in order. */
  lemma {:induction false} LocationsAreMade(hostOf: string -> Option<Host>, items: seq<ServerItem>, s: Server)
    requires ServerMeaning(hostOf, items, s).Success?
    ensures Makes(s.block.locations, LocationsOf(items), ServerMeaning(hostOf, items, s).value.block.locations)
    decreases |items|
  {
    hide ServerItemMeaning, LocationMade;
    if items != [] {
      GlobalStep(hostOf, items[0], s);
      var next := ServerItemMeaning(hostOf, items[0], s).value;
      LocationsAreMade(hostOf, items[1..], next);
      hide Makes;
      var rest, ls := LocationsOf(items[1..]), ServerMeaning(hostOf, items, s).value.block.locations;
      match items[0]
      case LocationItem(name, ds) => MakesOne(s.block.locations, items[0], LocationMade(name, ds).value, rest, ls);
      case Setting(_) => assert [] + rest == rest;
    }
  }

  lemma MadeOutcome(name: string, ds: seq<Statement>)
    requires LocationMade(name, ds).Success?
    ensures PathOf(name + "/").OriginForm()
    ensures Outcome(ds, NewLocation(PathOf(name + "/")), LocationMade(name, ds).value)
  {
    hide LocationMeaning, Outcome;
    LocationOutcome(ds, NewLocation(PathOf(name + "/")));
  }

  /** What the statements `ds` of a location and those of its server, `global`, come to: the own value, else
      the value of the server, else the default. */
  ghost predicate Effective(name: string, ds: seq<Statement>, global: seq<Statement>, r: Location) {
    && r.path == PathOf(name + "/")
    && r.root == DirectoryOf(Last("root", ds), DirectoryOf(Last("root", global), EMPTY))
    && r.uploadPath == DirectoryOf(Last("client_body_upload_path", ds), DirectoryOf(Last("client_body_upload_path", global), EMPTY))
    && r.tempPath == DirectoryOf(Last("client_body_temp_path", ds), DirectoryOf(Last("client_body_temp_path", global), EMPTY))
    && r.dirListing == ListingOf(Last("autoindex", ds), ListingOf(Last("autoindex", global), 0))
    && (var own := MaximumOf(Last("client_max_body_size", ds), UNDEFINED);
        r.maxBodySize == if own != UNDEFINED then own else MaximumOf(Last("client_max_body_size", global), DEFAULT_MAXBODYSIZE))
    && (var own, others := Collected("index", ds), Collected("index", global);
        r.indexes == if own != [] then own else if others != [] then others else [DEFAULT_INDEX])
    && (var own, others := Collected("allow", ds), Collected("allow", global);
        r.allowed == Indexes(if own != [] then own else others))
    && (r.redirectStatus, r.redirectBody) == RedirectOf(Last("redirect", ds), RedirectOf(Last("redirect", global), (0, "")))
    && (forall extension ::
          CgiFor(r.cgis, extension) == RunnerOf(extension, if Collected("cgi", ds) != [] then ds else global, None))
  }

  lemma OwnDirectory(args: Option<seq<string>>, other: Path)
    ensures var own := DirectoryOf(args, EMPTY);
            DirectoryOf(args, other) == if own.Empty() then other else own
  {
    hide Chunks;
  }

  lemma OwnListing(args: Option<seq<string>>, other: int)
    ensures ListingOf(args, other) == if ListingOf(args, UNDEFINED) == UNDEFINED then other else ListingOf(args, UNDEFINED)
  {}

  lemma OwnRedirect(args: Option<seq<string>>, other: (int, string))
    ensures var own := RedirectOf(args, (0, ""));
            RedirectOf(args, other) == if own.0 == 0 then other else own
  {
    hide Stoi;
  }

  lemma FillOutcome(name: string, ds: seq<Statement>, global: seq<Statement>, l: Location, g: Location)
    requires Outcome(ds, NewLocation(PathOf(name + "/")), l) && Outcome(global, GlobalLocation(), g)
    ensures Effective(name, ds, global, Fill(l, g))
  {
    hide PathOf, DirectoryOf, MaximumOf, ListingOf, RedirectOf, RunnerOf, HeadParsing.MethodIndex, Last, Collected;
    OwnRedirect(Last("redirect", ds), (g.redirectStatus, g.redirectBody));
    OwnDirectory(Last("root", ds), g.root);
    OwnDirectory(Last("client_body_upload_path", ds), g.uploadPath);
    OwnDirectory(Last("client_body_temp_path", ds), g.tempPath);
    OwnListing(Last("autoindex", ds), g.dirListing);
    var own := Collected("allow", ds);
    assert own != [] ==> HeadParsing.MethodIndex(own[0]) in l.allowed;
    assert [] + Collected("index", ds) == Collected("index", ds) && [] + Collected("index", global) == Collected("index", global);
  }

  /** Inheritance: in every accepted server block, each of the eleven fields of each location is its own
      value, else the server's, else the default, wherever in the block the directives stand. */
  lemma EffectiveSettings(hostOf: string -> Option<Host>, items: seq<ServerItem>, i: nat)
    requires ServerMeaning(hostOf, items, NEW_SERVER).Success? && i < |LocationsOf(items)|
    ensures var s := ServerMeaning(hostOf, items, NEW_SERVER).value;
            var item, ls := LocationsOf(items)[i], Finish(s.block, s.global).locations;
            && |ls| == |LocationsOf(items)| && item.LocationItem?
            && Effective(item.name, item.statements, GlobalStatements(items), ls[i])
  {
    hide ServerMeaning, LocationMade, Outcome, Effective, Fill, LocationMeaning, LocationsOf, GlobalStatements;
    GlobalOutcome(hostOf, items, NEW_SERVER);
    LocationOutcome(GlobalStatements(items), GlobalLocation());
    LocationsAreMade(hostOf, items, NEW_SERVER);
    var s, item := ServerMeaning(hostOf, items, NEW_SERVER).value, LocationsOf(items)[i];
    assert item == LocationsOf(items)[i] && item.LocationItem?;
    assert LocationMade(item.name, item.statements) == Success(s.block.locations[0 + i]);
    MadeOutcome(item.name, item.statements);
    FillOutcome(item.name, item.statements, GlobalStatements(items), s.block.locations[i], s.global);
  }

  /** A size that the location sets itself counts, with the one exception of 2^32 - 1, which reads as "not
      set"; from 2^31 on, sizes are kept as negative numbers. */
  lemma OwnMaximumExactly(size: nat)
    requires size <= 0xFFFF_FFFF
    ensures MaximumOf(Some([Numeral(size, Decimal)]), UNDEFINED) != UNDEFINED <==> size != 0xFFFF_FFFF
    ensures MaximumOf(Some([Numeral(size, Decimal)]), UNDEFINED) == size <==> size <= INT32_MAX
  {
    hide Stoi, Numeral;
    StoiNumeral(size, 0, 0xFFFF_FFFF);
  }

  /** Filling in the server's values a second time changes nothing. */
  lemma FillTwice(l: Location, g: Location)
    ensures Fill(Fill(l, g), g) == Fill(l, g)
  {
    hide Path.Empty;
  }

  // ---- Parsed locations are fit for routing

  lemma DirectoryIsPath(args: Option<seq<string>>, other: Path)
    requires other.Empty() || (other == PathOf(other.str) && other.DirFormat())
    ensures var p := DirectoryOf(args, other); p.Empty() || (p == PathOf(p.str) && p.DirFormat())
  {
    hide Squeeze, Chunks;
    if args.Some? && |args.value| == 1 { Routing.DirectoryPath(args.value[0]); }
  }

  lemma EffectiveIsConfigured(name: string, ds: seq<Statement>, global: seq<Statement>, r: Location)
    requires Effective(name, ds, global, r) && PathOf(name + "/").OriginForm()
    ensures Routing.Configured(r) && (!r.root.Empty() ==> Routing.Rooted(r))
  {
    hide DirectoryOf, MaximumOf, ListingOf, RedirectOf, RunnerOf, CgiFor, HeadParsing.MethodIndex, Last, Collected, Squeeze, Chunks;
    Routing.DirectoryPath(name);
    DirectoryIsPath(Last("root", global), EMPTY);
    DirectoryIsPath(Last("root", ds), DirectoryOf(Last("root", global), EMPTY));
  }

  /** Every location of an accepted server block is one that the routing theorems speak of, and so is its
      root, if it has one. */
  lemma ParsedLocationsAreConfigured(hostOf: string -> Option<Host>, items: seq<ServerItem>, i: nat)
    requires ServerMeaning(hostOf, items, NEW_SERVER).Success? && i < |LocationsOf(items)|
    ensures var s := ServerMeaning(hostOf, items, NEW_SERVER).value;
            var ls := Finish(s.block, s.global).locations;
            && i < |ls| && Routing.Configured(ls[i]) && (!ls[i].root.Empty() ==> Routing.Rooted(ls[i]))
  {
    hide ServerMeaning, LocationsOf, GlobalStatements, Effective, Fill, LocationMade;
    EffectiveSettings(hostOf, items, i);
    LocationsAreMade(hostOf, items, NEW_SERVER);
    var item, s := LocationsOf(items)[i], ServerMeaning(hostOf, items, NEW_SERVER).value;
    assert item == LocationsOf(items)[i];
    assert LocationMade(item.name, item.statements) == Success(s.block.locations[0 + i]);
    MadeOutcome(item.name, item.statements);
    hide *;
    EffectiveIsConfigured(item.name, item.statements, GlobalStatements(items), Finish(s.block, s.global).locations[i]);
  }
}
