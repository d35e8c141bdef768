/** The order of the directives in a server block (srcs/Configuration/ConfFile-servers.cpp:14-43): which may
    change places without changing what the block means. */
module ItemOrder {
  import opened Octets
  import opened Numbers
  import opened Wrappers
  import opened Paths
  import opened Settings
  import opened ConfGrammar
  import HeadParsing

  // ---- What one directive changes

  /** The field that a location-level directive changes, and how. */
  datatype Change =
    | SetRoot(root: Path) | AddAllowed(methods: set<nat>) | SetMaximum(size: int) | SetListing(listing: int)
    | SetRedirect(status: int, body: string) | AddIndexes(names: seq<string>)
    | AddCgi(extensions: seq<string>, binary: string) | SetUpload(upload: Path) | SetTemp(temp: Path)

  function AllowedMethods(names: seq<string>): Result<set<nat>, ConfError>
    decreases |names|
  {
    if names == [] then Success({})
    else
      var i := HeadParsing.MethodIndex(names[0]);
      if i == HeadParsing.INVALID_METHOD then Failure(InvalidMethod)
      else
        var more :- AllowedMethods(names[1..]);
        Success({i} + more)
  }

  function CgiMap(cgis: map<string, Path>, extensions: seq<string>, binary: string): map<string, Path>
    decreases |extensions|
  {
    if extensions == [] then cgis else CgiMap(cgis[extensions[0] := PathOf(binary)], extensions[1..], binary)
  }

  function ChangeOf(name: string, args: seq<string>): Result<Change, ConfError>
    requires name in LOCATION_DIRECTIVES
  {
    if !ArgumentsFit(name, |args|) then Failure(InvalidArgumentNumber)
    else if name == "root" then Success(SetRoot(PathOf(args[0] + "/")))
    else if name == "allow" then
      var methods :- AllowedMethods(args);
      Success(AddAllowed(methods))
    else if name == "client_max_body_size" then
      var size :- Stoi(args[0], 0, 0xFFFF_FFFF);
      Success(SetMaximum(Int32(size)))
    else if name == "autoindex" then
      if args[0] == "on" then Success(SetListing(1))
      else if args[0] == "off" then Success(SetListing(0))
      else Failure(InvalidValue)
    else if name == "redirect" then
      var code :- Stoi(args[0], 0, 0xFFFF);
      if code in {300, 301, 302, 303, 304, 307, 308} then Success(SetRedirect(code, args[1])) else Failure(InvalidValue)
    else if name == "index" then Success(AddIndexes(args))
    else if name == "cgi" then Success(AddCgi(args[..|args| - 1], args[|args| - 1]))
    else if name == "client_body_upload_path" then Success(SetUpload(PathOf(args[0] + "/")))
    else Success(SetTemp(PathOf(args[0] + "/")))
  }

  function Changed(l: Location, c: Change): Location {
    match c
    case SetRoot(root) => l.(root := root)
    case AddAllowed(methods) => l.(allowed := l.allowed + methods)
    case SetMaximum(size) => l.(maxBodySize := size)
    case SetListing(listing) => l.(dirListing := listing)
    case SetRedirect(status, body) => l.(redirectStatus := status, redirectBody := body)
    case AddIndexes(names) => l.(indexes := l.indexes + names)
    case AddCgi(extensions, binary) => l.(cgis := CgiMap(l.cgis, extensions, binary))
    case SetUpload(upload) => l.(uploadPath := upload)
    case SetTemp(temp) => l.(tempPath := temp)
  }

  function ChangedBy(l: Location, c: Result<Change, ConfError>): Result<Location, ConfError> {
    match c
    case Success(change) => Success(Changed(l, change))
    case Failure(e) => Failure(e)
  }

  lemma {:induction false} AllowAdds(l: Location, names: seq<string>)
    ensures Allow(l, names) == match AllowedMethods(names)
                               case Success(methods) => Success(l.(allowed := l.allowed + methods))
                               case Failure(e) => Failure(e)
    decreases |names|
  {
    hide HeadParsing.MethodIndex;
    if names == [] {
      assert l.allowed + {} == l.allowed;
    } else {
      var i := HeadParsing.MethodIndex(names[0]);
      if i != HeadParsing.INVALID_METHOD {
        AllowAdds(l.(allowed := l.allowed + {i}), names[1..]);
        if AllowedMethods(names[1..]).Success? {
          var more := AllowedMethods(names[1..]).value;
          assert l.allowed + {i} + more == l.allowed + ({i} + more);
        }
      }
    }
  }

  lemma {:induction false} CgisAdded(l: Location, extensions: seq<string>, binary: string)
    ensures AddCgis(l, extensions, binary) == l.(cgis := CgiMap(l.cgis, extensions, binary))
    decreases |extensions|
  {
    hide PathOf;
    if extensions != [] {
      CgisAdded(l.(cgis := l.cgis[extensions[0] := PathOf(binary)]), extensions[1..], binary);
    }
  }

  /** Whether a directive is accepted, and what it changes, does not depend on the location. */
  lemma ApplyIsChange(name: string, args: seq<string>, l: Location)
    requires name in LOCATION_DIRECTIVES
    ensures ApplyLocation(name, args, l) == ChangedBy(l, ChangeOf(name, args))
  {
    hide Stoi, PathOf, Allow, AllowedMethods, AddCgis, CgiMap;
    if ArgumentsFit(name, |args|) {
      if name == "allow" {
        AllowAdds(l, args);
      } else if name == "cgi" {
        CgisAdded(l, args[..|args| - 1], args[|args| - 1]);
      }
    }
  }

  /** The field that a change is about. */
  function Field(c: Change): nat {
    match c
    case SetRoot(_) => 0
    case AddAllowed(_) => 1
    case SetMaximum(_) => 2
    case SetListing(_) => 3
    case SetRedirect(_, _) => 4
    case AddIndexes(_) => 5
    case AddCgi(_, _) => 6
    case SetUpload(_) => 7
    case SetTemp(_) => 8
  }

  function FieldOf(name: string): nat
    requires name in LOCATION_DIRECTIVES
  {
    if name == "root" then 0 else if name == "allow" then 1 else if name == "client_max_body_size" then 2
    else if name == "autoindex" then 3 else if name == "redirect" then 4 else if name == "index" then 5
    else if name == "cgi" then 6 else if name == "client_body_upload_path" then 7 else 8
  }

  lemma FieldOfChange(name: string, args: seq<string>)
    requires name in LOCATION_DIRECTIVES && ChangeOf(name, args).Success?
    ensures Field(ChangeOf(name, args).value) == FieldOf(name)
  {
    hide Stoi, PathOf, AllowedMethods;
  }

  lemma OneNameForAField(a: string, b: string)
    requires a in LOCATION_DIRECTIVES && b in LOCATION_DIRECTIVES && FieldOf(a) == FieldOf(b)
    ensures a == b
  {}

  lemma FieldsCommute(c: Change, d: Change, l: Location)
    requires Field(c) < Field(d)
    ensures Changed(Changed(l, c), d) == Changed(Changed(l, d), c)
  {
    hide CgiMap;
    match c {
      case SetRoot(_) =>
      case AddAllowed(_) =>
      case SetMaximum(_) =>
      case SetListing(_) =>
      case SetRedirect(_, _) =>
      case AddIndexes(_) =>
      case AddCgi(_, _) =>
      case SetUpload(_) =>
    }
  }

  lemma ChangesCommute(a: string, xs: seq<string>, b: string, ys: seq<string>, l: Location)
    requires a in LOCATION_DIRECTIVES && b in LOCATION_DIRECTIVES && a != b
    requires ChangeOf(a, xs).Success? && ChangeOf(b, ys).Success?
    ensures Changed(Changed(l, ChangeOf(a, xs).value), ChangeOf(b, ys).value)
            == Changed(Changed(l, ChangeOf(b, ys).value), ChangeOf(a, xs).value)
  {
    hide *;
    FieldOfChange(a, xs);
    FieldOfChange(b, ys);
    if FieldOf(a) == FieldOf(b) {
      OneNameForAField(a, b);
    }
    var c, d := ChangeOf(a, xs).value, ChangeOf(b, ys).value;
    if Field(c) < Field(d) {
      FieldsCommute(c, d, l);
    } else {
      FieldsCommute(d, c, l);
    }
  }

  // ---- Directives that can change places

  function Pages(m: map<int, Path>, codes: seq<string>, file: Path): Result<map<int, Path>, ConfError>
    decreases |codes|
  {
    if codes == [] then Success(m)
    else
      var code :- Stoi(codes[0], 0, 0xFFFF);
      if code < 400 || code > 599 then Failure(InvalidValue) else Pages(m[code := file], codes[1..], file)
  }

  lemma {:induction false} PagesAdded(b: Block, codes: seq<string>, file: Path)
    ensures AddErrorPages(b, codes, file) == match Pages(b.errorPages, codes, file)
                                             case Success(m) => Success(b.(errorPages := m))
                                             case Failure(e) => Failure(e)
    decreases |codes|
  {
    hide Stoi;
    if codes != [] && Stoi(codes[0], 0, 0xFFFF).Success? {
      PagesAdded(b.(errorPages := b.errorPages[Stoi(codes[0], 0, 0xFFFF).value := file]), codes[1..], file);
    }
  }

  /** Two items of a server whose order does not matter: a location and a setting, or settings of two
      names, of which not one is `root` and the other `error_page`. */
  predicate Independent(x: ServerItem, y: ServerItem) {
    match (x, y)
    case (Setting(a), Setting(b)) => a.name != b.name && {a.name, b.name} != {"root", "error_page"}
    case (LocationItem(_, _), LocationItem(_, _)) => false
    case _ => true
  }

  function Both(hostOf: string -> Option<Host>, x: ServerItem, y: ServerItem, s: Server): Result<Server, ConfError> {
    var next :- ServerItemMeaning(hostOf, x, s);
    ServerItemMeaning(hostOf, y, next)
  }

  /** Both fail, or both give the same. */
  predicate SameSuccess<T(==)>(r: Result<T, ConfError>, q: Result<T, ConfError>) {
    (r.Success? || q.Success?) ==> r == q
  }

  predicate LocationLevel(item: ServerItem) {
    item.Setting? && item.statement.name in LOCATION_DIRECTIVES
  }

  /** A location-level directive of a server, before and after. */
  lemma GlobalMeaning(hostOf: string -> Option<Host>, item: ServerItem, s: Server)
    requires LocationLevel(item)
    ensures var d := item.statement;
            ServerItemMeaning(hostOf, item, s) == match ChangeOf(d.name, d.args)
                                                  case Success(c) => Success(s.(global := Changed(s.global, c)))
                                                  case Failure(e) => Failure(e)
  {
    var d := item.statement;
    ApplyIsChange(d.name, d.args, s.global);
    hide ApplyLocation, ChangeOf, Changed;
  }

  lemma GlobalsCommute(hostOf: string -> Option<Host>, x: ServerItem, y: ServerItem, s: Server)
    requires LocationLevel(x) && LocationLevel(y) && x.statement.name != y.statement.name
    ensures SameSuccess(Both(hostOf, x, y, s), Both(hostOf, y, x, s))
  {
    var a, b := x.statement, y.statement;
    var c, d := ChangeOf(a.name, a.args), ChangeOf(b.name, b.args);
    GlobalMeaning(hostOf, x, s);
    GlobalMeaning(hostOf, y, s);
    if c.Success? && d.Success? {
      GlobalMeaning(hostOf, y, s.(global := Changed(s.global, c.value)));
      GlobalMeaning(hostOf, x, s.(global := Changed(s.global, d.value)));
      ChangesCommute(a.name, a.args, b.name, b.args, s.global);
    } else if c.Success? {
      GlobalMeaning(hostOf, y, s.(global := Changed(s.global, c.value)));
    } else if d.Success? {
      GlobalMeaning(hostOf, x, s.(global := Changed(s.global, d.value)));
    }
    hide ServerItemMeaning, ChangeOf, Changed;
  }

  /** An item that neither reads nor writes the global location, but perhaps its root. */
  lemma OutsideGlobal(hostOf: string -> Option<Host>, y: ServerItem, s: Server, g: Location)
    requires !LocationLevel(y)
    requires y.Setting? && y.statement.name == "error_page" ==> g.root == s.global.root
    ensures ServerItemMeaning(hostOf, y, s.(global := g)) == match ServerItemMeaning(hostOf, y, s)
                                                             case Success(t) => Success(t.(global := g))
                                                             case Failure(e) => Failure(e)
    ensures ServerItemMeaning(hostOf, y, s).Success? ==> ServerItemMeaning(hostOf, y, s).value.global == s.global
  {
    hide LocationMade, AddErrorPages, PathOf;
  }

  lemma RootKept(name: string, args: seq<string>, l: Location)
    requires name in LOCATION_DIRECTIVES && ChangeOf(name, args).Success?
    ensures name != "root" ==> Changed(l, ChangeOf(name, args).value).root == l.root
  {
    hide ChangeOf;
    FieldOfChange(name, args);
    if FieldOf(name) == 0 { OneNameForAField(name, "root"); }
  }

  lemma GlobalCommutes(hostOf: string -> Option<Host>, x: ServerItem, y: ServerItem, s: Server)
    requires LocationLevel(x) && !LocationLevel(y) && Independent(x, y)
    ensures SameSuccess(Both(hostOf, x, y, s), Both(hostOf, y, x, s))
  {
    var d := x.statement;
    var c := ChangeOf(d.name, d.args);
    GlobalMeaning(hostOf, x, s);
    if c.Success? {
      var g := Changed(s.global, c.value);
      RootKept(d.name, d.args, s.global);
      OutsideGlobal(hostOf, y, s, g);
    }
    hide ChangeOf, Changed, Independent;
    var r := ServerItemMeaning(hostOf, y, s);
    if r.Success? {
      assert r.value.global == s.global by { OutsideGlobal(hostOf, y, s, s.global); }
      GlobalMeaning(hostOf, x, r.value);
    }
    hide ServerItemMeaning;
  }

  /** The items that change the block only: each its own part of it. */
  lemma BlocksCommute(hostOf: string -> Option<Host>, x: ServerItem, y: ServerItem, s: Server)
    requires !LocationLevel(x) && !LocationLevel(y) && Independent(x, y)
    ensures SameSuccess(Both(hostOf, x, y, s), Both(hostOf, y, x, s))
  {
    hide LocationMade, AddErrorPages, PathOf;
    if x.Setting? && x.statement.name == "error_page" && |x.statement.args| >= 2 {
      PagesStep(hostOf, x, y, s);
    } else if y.Setting? && y.statement.name == "error_page" && |y.statement.args| >= 2 {
      PagesStep(hostOf, y, x, s);
    }
  }

  lemma ErrorPagesSetting(hostOf: string -> Option<Host>, x: ServerItem, s: Server)
    requires x.Setting? && x.statement.name == "error_page" && |x.statement.args| >= 2
    ensures ServerItemMeaning(hostOf, x, s) == ErrorPage(s, x.statement.args)
  {
    hide ApplyLocation, ErrorPage;
  }

  lemma ErrorPagesMeaning(hostOf: string -> Option<Host>, x: ServerItem, s: Server)
    requires x.Setting? && x.statement.name == "error_page" && |x.statement.args| >= 2
    ensures var args := x.statement.args;
            ServerItemMeaning(hostOf, x, s) ==
            if s.global.root.Empty() then Success(s)
            else match Pages(s.block.errorPages, args[..|args| - 1], PathOf(s.global.root.str + args[|args| - 1]))
                 case Success(m) => Success(s.(block := s.block.(errorPages := m)))
                 case Failure(e) => Failure(e)
  {
    hide *;
    ErrorPagesSetting(hostOf, x, s);
    ErrorPageMeaning(s, x.statement.args);
  }

  lemma ErrorPageMeaning(s: Server, args: seq<string>)
    requires |args| >= 2
    ensures ErrorPage(s, args) ==
            if s.global.root.Empty() then Success(s)
            else match Pages(s.block.errorPages, args[..|args| - 1], PathOf(s.global.root.str + args[|args| - 1]))
                 case Success(m) => Success(s.(block := s.block.(errorPages := m)))
                 case Failure(e) => Failure(e)
  {
    hide Pages, AddErrorPages, PathOf;
    PagesAdded(s.block, args[..|args| - 1], PathOf(s.global.root.str + args[|args| - 1]));
  }

  /** Everything that neither is `error_page` nor changes the root. */
  lemma OutsidePages(hostOf: string -> Option<Host>, y: ServerItem, s: Server, m: map<int, Path>)
    requires !LocationLevel(y) && (y.Setting? ==> y.statement.name != "error_page")
    ensures ServerItemMeaning(hostOf, y, s.(block := s.block.(errorPages := m)))
            == match ServerItemMeaning(hostOf, y, s)
               case Success(t) => Success(t.(block := t.block.(errorPages := m)))
               case Failure(e) => Failure(e)
    ensures ServerItemMeaning(hostOf, y, s).Success? ==>
              var t := ServerItemMeaning(hostOf, y, s).value;
              t.global == s.global && t.block.errorPages == s.block.errorPages
  {
    hide LocationMade;
  }

  lemma PagesStep(hostOf: string -> Option<Host>, x: ServerItem, y: ServerItem, s: Server)
    requires x.Setting? && x.statement.name == "error_page" && |x.statement.args| >= 2
    requires !LocationLevel(y) && (y.Setting? ==> y.statement.name != "error_page")
    ensures SameSuccess(Both(hostOf, x, y, s), Both(hostOf, y, x, s))
  {
    hide ServerItemMeaning, PathOf, Pages, LocationLevel;
    ErrorPagesMeaning(hostOf, x, s);
    OutsidePages(hostOf, y, s, s.block.errorPages);
    var r := ServerItemMeaning(hostOf, y, s);
    if r.Success? { ErrorPagesMeaning(hostOf, x, r.value); }
    var args := x.statement.args;
    var pages := Pages(s.block.errorPages, args[..|args| - 1], PathOf(s.global.root.str + args[|args| - 1]));
    if pages.Success? { OutsidePages(hostOf, y, s, pages.value); }
  }

  lemma Commute(hostOf: string -> Option<Host>, x: ServerItem, y: ServerItem, s: Server)
    requires Independent(x, y)
    ensures SameSuccess(Both(hostOf, x, y, s), Both(hostOf, y, x, s))
  {
    hide Both, ServerItemMeaning;
    if LocationLevel(x) && LocationLevel(y) {
      GlobalsCommute(hostOf, x, y, s);
    } else if LocationLevel(x) {
      GlobalCommutes(hostOf, x, y, s);
    } else if LocationLevel(y) {
      IndependentSymmetric(x, y);
      GlobalCommutes(hostOf, y, x, s);
    } else {
      BlocksCommute(hostOf, x, y, s);
    }
  }

  lemma IndependentSymmetric(x: ServerItem, y: ServerItem)
    requires Independent(x, y)
    ensures Independent(y, x)
  {
    if x.Setting? && y.Setting? {
      assert {x.statement.name, y.statement.name} == {y.statement.name, x.statement.name};
    }
  }

  // ---- Whole server blocks

  function Then(hostOf: string -> Option<Host>, r: Result<Server, ConfError>, items: seq<ServerItem>): Result<Server, ConfError> {
    match r
    case Success(s) => ServerMeaning(hostOf, items, s)
    case Failure(e) => Failure(e)
  }

  lemma {:induction false} MeaningAppends(hostOf: string -> Option<Host>, xs: seq<ServerItem>, ys: seq<ServerItem>, s: Server)
    ensures ServerMeaning(hostOf, xs + ys, s) == Then(hostOf, ServerMeaning(hostOf, xs, s), ys)
    decreases |xs|
  {
    hide ServerItemMeaning;
    if xs == [] {
      assert xs + ys == ys;
    } else {
      assert (xs + ys)[0] == xs[0] && (xs + ys)[1..] == xs[1..] + ys;
      var next := ServerItemMeaning(hostOf, xs[0], s);
      if next.Success? { MeaningAppends(hostOf, xs[1..], ys, next.value); }
    }
  }

  lemma PairMeaning(hostOf: string -> Option<Host>, x: ServerItem, y: ServerItem, rest: seq<ServerItem>, s: Server)
    ensures ServerMeaning(hostOf, [x, y] + rest, s) == Then(hostOf, Both(hostOf, x, y, s), rest)
  {
    hide ServerItemMeaning;
    var items := [x, y] + rest;
    assert items[1..] == [y] + rest && items[1..][1..] == rest;
  }

  /** Two neighbours have changed places. */
  ghost predicate Swapped(xs: seq<ServerItem>, ys: seq<ServerItem>) {
    exists front, x, y, rest ::
      Independent(x, y) && xs == front + ([x, y] + rest) && ys == front + ([y, x] + rest)
  }

  lemma SwapKeeps(hostOf: string -> Option<Host>, xs: seq<ServerItem>, ys: seq<ServerItem>, s: Server)
    requires Swapped(xs, ys)
    ensures SameSuccess(ServerMeaning(hostOf, xs, s), ServerMeaning(hostOf, ys, s))
  {
    var front, x, y, rest :| Independent(x, y) && xs == front + ([x, y] + rest) && ys == front + ([y, x] + rest);
    hide ServerItemMeaning, ServerMeaning, Both, Independent;
    MeaningAppends(hostOf, front, [x, y] + rest, s);
    MeaningAppends(hostOf, front, [y, x] + rest, s);
    var t := ServerMeaning(hostOf, front, s);
    if t.Success? {
      PairMeaning(hostOf, x, y, rest, t.value);
      PairMeaning(hostOf, y, x, rest, t.value);
      Commute(hostOf, x, y, t.value);
    }
  }

  /** Rearranging a server block, neighbour by neighbour, never changes what it means, as long as no two
      locations, no two directives of one name, and no `root` and `error_page` pass each other. */
  lemma {:induction false} OrderIndependent(hostOf: string -> Option<Host>, chain: seq<seq<ServerItem>>, s: Server)
    requires chain != [] && forall i :: 0 <= i < |chain| - 1 ==> Swapped(chain[i], chain[i + 1])
    ensures SameSuccess(ServerMeaning(hostOf, chain[0], s), ServerMeaning(hostOf, chain[|chain| - 1], s))
    decreases |chain|
  {
    hide ServerMeaning, Swapped;
    if |chain| > 1 {
      var rest := chain[1..];
      forall i | 0 <= i < |rest| - 1 ensures Swapped(rest[i], rest[i + 1]) {
        assert rest[i] == chain[i + 1] && rest[i + 1] == chain[i + 2];
      }
      SwapKeeps(hostOf, chain[0], chain[1], s);
      OrderIndependent(hostOf, rest, s);
      assert rest[|rest| - 1] == chain[|chain| - 1];
    }
  }

  function SettingsOf(items: seq<ServerItem>): seq<ServerItem> {
    if items == [] then [] else (if items[0].Setting? then [items[0]] else []) + SettingsOf(items[1..])
  }

  function LocationsOf(items: seq<ServerItem>): seq<ServerItem> {
    if items == [] then [] else (if items[0].LocationItem? then [items[0]] else []) + LocationsOf(items[1..])
  }

  lemma {:induction false} LocationPasses(
    hostOf: string -> Option<Host>, x: ServerItem, settings: seq<ServerItem>, rest: seq<ServerItem>, s: Server)
    requires x.LocationItem? && forall i :: 0 <= i < |settings| ==> settings[i].Setting?
    ensures SameSuccess(ServerMeaning(hostOf, [x] + settings + rest, s), ServerMeaning(hostOf, settings + [x] + rest, s))
    decreases |settings|
  {
    hide ServerMeaning;
    if settings == [] {
      assert [x] + settings + rest == settings + [x] + rest;
    } else {
      var y, more := settings[0], settings[1..];
      assert settings == [y] + more && y.Setting? && Independent(x, y);
      hide Independent;
      var after := [x] + more + rest;
      assert [x] + settings + rest == [] + ([x, y] + (more + rest));
      assert [y] + after == [] + ([y, x] + (more + rest));
      assert Swapped([x] + settings + rest, [y] + after);
      SwapKeeps(hostOf, [x] + settings + rest, [y] + after, s);
      MeaningAppends(hostOf, [y], after, s);
      assert settings + [x] + rest == [y] + (more + [x] + rest);
      MeaningAppends(hostOf, [y], more + [x] + rest, s);
      var next := ServerMeaning(hostOf, [y], s);
      if next.Success? { LocationPasses(hostOf, x, more, rest, next.value); }
    }
  }

  lemma {:induction false} AreSettings(items: seq<ServerItem>)
    ensures forall i :: 0 <= i < |SettingsOf(items)| ==> SettingsOf(items)[i].Setting?
  {
    if items != [] { AreSettings(items[1..]); }
  }

  lemma SortedStep(items: seq<ServerItem>)
    requires items != []
    ensures var x, rest := items[0], items[1..];
            var sorted := SettingsOf(items) + LocationsOf(items);
            && (x.Setting? ==> sorted == [x] + (SettingsOf(rest) + LocationsOf(rest)))
            && (x.LocationItem? ==>
                  && sorted == SettingsOf(rest) + [x] + LocationsOf(rest)
                  && [x] + (SettingsOf(rest) + LocationsOf(rest)) == [x] + SettingsOf(rest) + LocationsOf(rest))
  {
    var x, rest := items[0], items[1..];
    var settings, locations := SettingsOf(rest), LocationsOf(rest);
    assert [] + settings == settings && [] + locations == locations;
    Assoc([x], settings, locations);
    Assoc(settings, [x], locations);
  }

  /** The settings may all stand before the locations. */
  lemma {:induction false} LocationsLast(hostOf: string -> Option<Host>, items: seq<ServerItem>, s: Server)
    ensures SameSuccess(ServerMeaning(hostOf, items, s), ServerMeaning(hostOf, SettingsOf(items) + LocationsOf(items), s))
    decreases |items|
  {
    if items != [] {
      hide ServerMeaning, SettingsOf, LocationsOf;
      var x, rest := items[0], items[1..];
      var sorted := SettingsOf(rest) + LocationsOf(rest);
      assert items == [x] + rest;
      SortedStep(items);
      AreSettings(rest);
      MeaningAppends(hostOf, [x], rest, s);
      MeaningAppends(hostOf, [x], sorted, s);
      var next := ServerMeaning(hostOf, [x], s);
      if next.Success? { LocationsLast(hostOf, rest, next.value); }
      if x.LocationItem? { LocationPasses(hostOf, x, SettingsOf(rest), LocationsOf(rest), s); }
    }
  }

  /** However settings and locations are interleaved, the server block is the same. */
  lemma Interleavings(hostOf: string -> Option<Host>, xs: seq<ServerItem>, ys: seq<ServerItem>, s: Server)
    requires SettingsOf(xs) == SettingsOf(ys) && LocationsOf(xs) == LocationsOf(ys)
    ensures SameSuccess(ServerMeaning(hostOf, xs, s), ServerMeaning(hostOf, ys, s))
  {
    hide ServerMeaning;
    LocationsLast(hostOf, xs, s);
    LocationsLast(hostOf, ys, s);
  }

  // ---- The one order that matters

  lemma {:induction false} PagesKeep(m: map<int, Path>, codes: seq<string>, file: Path, code: int)
    requires Pages(m, codes, file).Success? && code in m && m[code] == file
    ensures code in Pages(m, codes, file).value && Pages(m, codes, file).value[code] == file
    decreases |codes|
  {
    hide Stoi;
    if codes != [] { PagesKeep(m[Stoi(codes[0], 0, 0xFFFF).value := file], codes[1..], file, code); }
  }

  lemma {:induction false} PagesOf(m: map<int, Path>, codes: seq<string>, file: Path, other: Path)
    ensures Pages(m, codes, file).Success? <==> Pages(m, codes, other).Success?
    ensures Pages(m, codes, file).Success? && codes != [] && file != other ==>
              Pages(m, codes, file).value != Pages(m, codes, other).value
    decreases |codes|
  {
    hide Stoi;
    SameCodes(m, m, codes, file, other);
    if codes != [] && Pages(m, codes, file).Success? {
      var code := Stoi(codes[0], 0, 0xFFFF).value;
      PagesKeep(m[code := file], codes[1..], file, code);
      PagesKeep(m[code := other], codes[1..], other, code);
    }
  }

  lemma {:induction false} SameCodes(m: map<int, Path>, n: map<int, Path>, codes: seq<string>, file: Path, other: Path)
    ensures Pages(m, codes, file).Success? <==> Pages(n, codes, other).Success?
    decreases |codes|
  {
    hide Stoi;
    if codes != [] && Stoi(codes[0], 0, 0xFFFF).Success? {
      var code := Stoi(codes[0], 0, 0xFFFF).value;
      SameCodes(m[code := file], n[code := other], codes[1..], file, other);
    }
  }

  /** The error page that a directive names, below a root. */
  function PageBelow(root: Path, args: seq<string>): Path
    requires args != []
  {
    PathOf(root.str + args[|args| - 1])
  }

  lemma RootMeaning(hostOf: string -> Option<Host>, dir: string, s: Server)
    ensures var x := Setting(Statement("root", [dir]));
            ServerItemMeaning(hostOf, x, s) == Success(s.(global := s.global.(root := PathOf(dir + "/"))))
    ensures !PathOf(dir + "/").Empty()
  {
    var x := Setting(Statement("root", [dir]));
    assert LocationLevel(x);
    GlobalMeaning(hostOf, x, s);
    hide ServerItemMeaning;
  }

  /** No error page is stored before a root is known. */
  predicate PagesNeedRoot(s: Server) {
    s.global.root.Empty() ==> s.block.errorPages == map[]
  }

  lemma ItemKeepsPages(hostOf: string -> Option<Host>, x: ServerItem, s: Server)
    requires PagesNeedRoot(s) && ServerItemMeaning(hostOf, x, s).Success?
    ensures PagesNeedRoot(ServerItemMeaning(hostOf, x, s).value)
  {
    if LocationLevel(x) {
      GlobalMeaning(hostOf, x, s);
      var d := x.statement;
      RootKept(d.name, d.args, s.global);
      if d.name == "root" { assert d.args == [d.args[0]]; RootMeaning(hostOf, d.args[0], s); assert x == Setting(Statement("root", [d.args[0]])); }
      hide ServerItemMeaning, ChangeOf, Changed;
    } else if x.Setting? && x.statement.name == "error_page" {
      hide AddErrorPages, PathOf;
    } else {
      OutsidePages(hostOf, x, s, s.block.errorPages);
      hide ServerItemMeaning;
    }
  }

  lemma {:induction false} EveryServerPagesNeedRoot(hostOf: string -> Option<Host>, items: seq<ServerItem>, s: Server)
    requires PagesNeedRoot(s) && ServerMeaning(hostOf, items, s).Success?
    ensures PagesNeedRoot(ServerMeaning(hostOf, items, s).value)
    decreases |items|
  {
    hide ServerItemMeaning, PagesNeedRoot;
    if items != [] {
      ItemKeepsPages(hostOf, items[0], s);
      EveryServerPagesNeedRoot(hostOf, items[1..], ServerItemMeaning(hostOf, items[0], s).value);
    }
  }

  lemma PagesNotEmpty(codes: seq<string>, file: Path)
    requires codes != [] && Pages(map[], codes, file).Success?
    ensures Pages(map[], codes, file).value != map[]
  {
    var code := Stoi(codes[0], 0, 0xFFFF).value;
    hide Stoi;
    PagesKeep(map[][code := file], codes[1..], file, code);
  }

  function PagesAfter(s: Server, args: seq<string>, root: Path): Result<map<int, Path>, ConfError>
    requires |args| >= 2
  {
    if root.Empty() then Success(s.block.errorPages)
    else Pages(s.block.errorPages, args[..|args| - 1], PageBelow(root, args))
  }

  /** A `root` and an `error_page`, in either order: the block gets the pages below the root that is known. */
  lemma RootAndPages(hostOf: string -> Option<Host>, dir: string, args: seq<string>, s: Server)
    requires |args| >= 2
    ensures var x, y := Setting(Statement("root", [dir])), Setting(Statement("error_page", args));
            var t := s.(global := s.global.(root := PathOf(dir + "/")));
            && (match PagesAfter(s, args, PathOf(dir + "/"))
                case Success(m) => Both(hostOf, x, y, s) == Success(t.(block := s.block.(errorPages := m)))
                case Failure(e) => Both(hostOf, x, y, s) == Failure(e))
            && (match PagesAfter(s, args, s.global.root)
                case Success(m) => Both(hostOf, y, x, s) == Success(t.(block := s.block.(errorPages := m)))
                case Failure(e) => Both(hostOf, y, x, s) == Failure(e))
  {
    var y := Setting(Statement("error_page", args));
    var t := s.(global := s.global.(root := PathOf(dir + "/")));
    hide ServerItemMeaning, Pages, PathOf;
    RootMeaning(hostOf, dir, s);
    ErrorPagesMeaning(hostOf, y, s);
    ErrorPagesMeaning(hostOf, y, t);
    if PagesAfter(s, args, s.global.root).Success? {
      RootMeaning(hostOf, dir, s.(block := s.block.(errorPages := PagesAfter(s, args, s.global.root).value)));
    }
  }

  /** An `error_page` and a `root` commute exactly when a root was set before them and the page lies at the
      same place below both roots. */
  lemma RootAndErrorPageExactly(hostOf: string -> Option<Host>, dir: string, args: seq<string>, s: Server)
    requires |args| >= 2 && Pages(map[], args[..|args| - 1], EMPTY).Success? && PagesNeedRoot(s)
    ensures var x, y := Setting(Statement("root", [dir])), Setting(Statement("error_page", args));
            Both(hostOf, x, y, s) == Both(hostOf, y, x, s) <==>
            !s.global.root.Empty() && PageBelow(s.global.root, args) == PageBelow(PathOf(dir + "/"), args)
  {
    var root, codes, m := PathOf(dir + "/"), args[..|args| - 1], s.block.errorPages;
    var before, after := PageBelow(s.global.root, args), PageBelow(root, args);
    RootAndPages(hostOf, dir, args, s);
    RootMeaning(hostOf, dir, s);
    hide Both, ServerItemMeaning, Pages, PathOf, PageBelow;
    SameCodes(map[], m, codes, EMPTY, before);
    SameCodes(map[], m, codes, EMPTY, after);
    PagesOf(m, codes, before, after);
    if s.global.root.Empty() { PagesNotEmpty(codes, after); }
  }
}
