/** Printing, tokenizing and parsing a configuration: the parser makes of a printed tree what the tree
    means, and accepts nothing but printed trees. */
module ConfRoundTrip {
  import opened Octets
  import opened Wrappers
  import opened Settings
  import opened ConfTokens
  import opened ConfGrammar

  /** An answer together with the tokens that follow. */
  function With<T>(r: Result<T, ConfError>, after: tokens): Result<(T, tokens), ConfError> {
    match r
    case Success(x) => Success((x, after))
    case Failure(e) => Failure(e)
  }

  function BodyFrom(hostOf: string -> Option<Host>, r: Result<Server, ConfError>, after: tokens)
    : Result<(Block, tokens), ConfError>
  {
    match r
    case Success(s) => ServerBody(hostOf, after, s)
    case Failure(e) => Failure(e)
  }

  function Finished(r: Result<Server, ConfError>, after: tokens): Result<(Block, tokens), ConfError> {
    match r
    case Success(s) => Success((Finish(s.block, s.global), after))
    case Failure(e) => Failure(e)
  }

  function ParseFrom(hostOf: string -> Option<Host>, r: Result<Conf, ConfError>, after: tokens)
    : Result<Conf, ConfError>
  {
    match r
    case Success(c) => Parse(hostOf, after, c)
    case Failure(e) => Failure(e)
  }

  // ---- Parsing what was printed

  lemma {:induction false} CountPrinted(args: seq<string>, after: tokens)
    requires forall i :: 0 <= i < |args| ==> !IsMetatoken(args[i])
    ensures CountArgs(args + [";"] + after) == Success(|args|)
    ensures CountBlockArgs(args + ["{"] + after) == Success(|args|)
    decreases |args|
  {
    var ts, us := args + [";"] + after, args + ["{"] + after;
    if args != [] {
      assert ts[1..] == args[1..] + [";"] + after && us[1..] == args[1..] + ["{"] + after;
      CountPrinted(args[1..], after);
      assert ts[0] == args[0] == us[0];
    }
  }

  /** A printed statement: its name, its arguments, and what follows. */
  lemma StatementPrinted(d: Statement, after: tokens)
    requires forall i :: 0 <= i < |d.args| ==> !IsMetatoken(d.args[i])
    ensures var ts := StatementTokens(d) + after;
            && |ts| >= 2 + |d.args| && ts[0] == d.name
            && CountArgs(ts[1..]) == Success(|d.args|)
            && ts[1..|d.args| + 1] == d.args
            && ts[|d.args| + 2..] == after
  {
    var ts := StatementTokens(d) + after;
    CountPrinted(d.args, after);
    assert ts[1..] == d.args + [";"] + after;
  }

  lemma StatementsPrinted(ds: seq<Statement>, after: tokens)
    requires ds != []
    ensures StatementsTokens(ds) + ["}"] + after == StatementTokens(ds[0]) + (StatementsTokens(ds[1..]) + ["}"] + after)
  {
    hide StatementTokens;
    Assoc(StatementTokens(ds[0]), StatementsTokens(ds[1..]), ["}"]);
    Assoc(StatementTokens(ds[0]), StatementsTokens(ds[1..]) + ["}"], after);
  }

  lemma CloseBrace(after: tokens)
    ensures var ts := ["}"] + after; ts != [] && ts[0] == "}" && ts[1..] == after
  {}

  lemma EmptyStatements(after: tokens)
    ensures StatementsTokens([]) + ["}"] + after == ["}"] + after
  {}

  lemma {:induction false} LocationBodyPrinted(ds: seq<Statement>, after: tokens, l: Location)
    requires PlainAll(ds)
    ensures LocationBody(StatementsTokens(ds) + ["}"] + after, l) == With(LocationMeaning(ds, l), after)
    decreases |ds|
  {
    hide ApplyLocation, StatementTokens, StatementsTokens, CountArgs;
    if ds == [] {
      EmptyStatements(after);
      CloseBrace(after);
    } else {
      var d, rest := ds[0], StatementsTokens(ds[1..]) + ["}"] + after;
      assert Plain(d);
      StatementsPrinted(ds, after);
      StatementPrinted(d, rest);
      if d.name in LOCATION_DIRECTIVES && ApplyLocation(d.name, d.args, l).Success? {
        LocationBodyPrinted(ds[1..], after, ApplyLocation(d.name, d.args, l).value);
      }
    }
  }

  lemma BlockOpened(name: tokens, args: seq<string>, body: tokens, after: tokens)
    requires |name| == 1 && forall i :: 0 <= i < |args| ==> !IsMetatoken(args[i])
    ensures var ts := name + args + ["{"] + (body + ["}"] + after);
            && |ts| >= 2 + |args| && ts[0] == name[0]
            && ts[1..][..|args|] == args
            && CountBlockArgs(ts[1..]) == Success(|args|)
            && ts[1..][|args| + 1..] == body + ["}"] + after
  {
    var rest := body + ["}"] + after;
    var ts := name + args + ["{"] + rest;
    hide *;
    CountPrinted(args, rest);
    assert ts[1..] == args + ["{"] + rest;
  }

  lemma LocationPrinted(name: string, ds: seq<Statement>, after: tokens)
    requires !IsMetatoken(name) && PlainAll(ds)
    ensures var ts := ServerItemTokens(LocationItem(name, ds)) + after;
            && |ts| >= 2 && ts[0] == "location"
            && LocationDirective(ts[1..]) ==
               With(LocationMade(name, ds), after)
  {
    var ts := ServerItemTokens(LocationItem(name, ds)) + after;
    hide LocationPath, LocationBody, StatementsTokens, LocationMeaning, ServerItemTokens, CountBlockArgs;
    LocationTokens(name, ds, after);
    BlockOpened(["location"], [name], StatementsTokens(ds), after);
    assert ts[1..][0] == ts[1..][..1][0];
    if LocationPath(name).Success? {
      LocationBodyPrinted(ds, after, LocationPath(name).value);
    }
  }

  lemma ServerItemsPrinted(items: seq<ServerItem>, after: tokens)
    requires items != []
    ensures ServerItemsTokens(items) + ["}"] + after
            == ServerItemTokens(items[0]) + (ServerItemsTokens(items[1..]) + ["}"] + after)
  {
    hide ServerItemTokens;
    Assoc(ServerItemTokens(items[0]), ServerItemsTokens(items[1..]), ["}"]);
    Assoc(ServerItemTokens(items[0]), ServerItemsTokens(items[1..]) + ["}"], after);
  }

  lemma EmptyServerItems(after: tokens)
    ensures ServerItemsTokens([]) + ["}"] + after == ["}"] + after
  {}

  lemma ServerItemPrinted(hostOf: string -> Option<Host>, item: ServerItem, after: tokens, s: Server)
    requires PrintableServerItem(item)
    ensures ServerBody(hostOf, ServerItemTokens(item) + after, s) ==
            BodyFrom(hostOf, ServerItemMeaning(hostOf, item, s), after)
  {
    hide ApplyServer, LocationDirective, LocationPath, LocationMeaning, CountArgs;
    match item {
      case Setting(d) =>
        StatementPrinted(d, after);
        assert !IsMetatoken(d.name);
        hide StatementTokens;
      case LocationItem(name, ds) =>
        LocationPrinted(name, ds, after);
        hide ServerItemTokens;
    }
  }

  lemma {:induction false} ServerBodyPrinted(
    hostOf: string -> Option<Host>, items: seq<ServerItem>, after: tokens, s: Server)
    requires forall i :: 0 <= i < |items| ==> PrintableServerItem(items[i])
    ensures ServerBody(hostOf, ServerItemsTokens(items) + ["}"] + after, s) ==
            Finished(ServerMeaning(hostOf, items, s), after)
    decreases |items|
  {
    hide ServerItemMeaning, ServerItemTokens, ServerItemsTokens, Finish, PrintableServerItem;
    if items == [] {
      EmptyServerItems(after);
      CloseBrace(after);
    } else {
      var rest := ServerItemsTokens(items[1..]) + ["}"] + after;
      ServerItemsPrinted(items, after);
      ServerItemPrinted(hostOf, items[0], rest, s);
      var next := ServerItemMeaning(hostOf, items[0], s);
      hide ServerBody;
      if next.Success? {
        ServerBodyPrinted(hostOf, items[1..], after, next.value);
      }
    }
  }

  lemma {:induction false} TypesBodyPrinted(ds: seq<Statement>, after: tokens, types: map<string, string>)
    requires forall i :: 0 <= i < |ds| ==> Entry(ds[i])
    ensures TypesBody(StatementsTokens(ds) + ["}"] + after, types) == Success((TypesMeaning(ds, types), after))
    decreases |ds|
  {
    hide StatementTokens, StatementsTokens, CountArgs, AddTypes;
    if ds == [] {
      EmptyStatements(after);
      CloseBrace(after);
    } else {
      var d, rest := ds[0], StatementsTokens(ds[1..]) + ["}"] + after;
      assert Entry(d);
      StatementsPrinted(ds, after);
      StatementPrinted(d, rest);
      TypesBodyPrinted(ds[1..], after, AddTypes(types, d.name, d.args));
    }
  }

  lemma OpenedServer(hostOf: string -> Option<Host>, rest: tokens)
    requires CountBlockArgs(rest) == Success(0)
    ensures rest != [] && ServerDirective(hostOf, rest) == ServerBody(hostOf, rest[1..], NEW_SERVER)
  {
    hide ServerBody, CountBlockArgs;
  }

  lemma OpenedTypes(rest: tokens, types: map<string, string>)
    requires CountBlockArgs(rest) == Success(0)
    ensures rest != [] && TypesDirective(rest, types) == TypesBody(rest[1..], types)
  {
    hide TypesBody, CountBlockArgs;
  }

  lemma ServerPrinted(hostOf: string -> Option<Host>, items: seq<ServerItem>, after: tokens)
    requires forall i :: 0 <= i < |items| ==> PrintableServerItem(items[i])
    ensures var ts := ItemTokens(ServerItems(items)) + after;
            && ts != [] && ts[0] == "server"
            && ServerDirective(hostOf, ts[1..]) == Finished(ServerMeaning(hostOf, items, NEW_SERVER), after)
  {
    hide *;
    var ts := ItemTokens(ServerItems(items)) + after;
    ServerTokens(items, after);
    BlockOpened(["server"], [], ServerItemsTokens(items), after);
    ServerBodyPrinted(hostOf, items, after, NEW_SERVER);
    OpenedServer(hostOf, ts[1..]);
  }

  lemma TypesPrinted(entries: seq<Statement>, after: tokens, types: map<string, string>)
    requires forall i :: 0 <= i < |entries| ==> Entry(entries[i])
    ensures var ts := ItemTokens(Types(entries)) + after;
            && ts != [] && ts[0] == "types"
            && TypesDirective(ts[1..], types) == Success((TypesMeaning(entries, types), after))
  {
    hide *;
    var ts := ItemTokens(Types(entries)) + after;
    TypesTokens(entries, after);
    BlockOpened(["types"], [], StatementsTokens(entries), after);
    TypesBodyPrinted(entries, after, types);
    OpenedTypes(ts[1..], types);
  }

  lemma ItemPrinted(hostOf: string -> Option<Host>, item: Item, after: tokens, c: Conf)
    requires Printable(item)
    ensures Parse(hostOf, ItemTokens(item) + after, c) == ParseFrom(hostOf, ItemMeaning(hostOf, item, c), after)
  {
    hide ApplyTimeout, CountArgs, ServerDirective, TypesDirective, ServerMeaning, TypesMeaning, Finish, StatementTokens;
    match item {
      case ServerItems(items) =>
        ServerPrinted(hostOf, items, after);
        hide ItemTokens;
      case Types(entries) =>
        TypesPrinted(entries, after, c.mimetypes);
        hide ItemTokens;
      case Timeout(d) =>
        StatementPrinted(d, after);
    }
  }

  /** Parsing the tokens of a tree gives what the tree means: the blocks with what they inherit, or the
      error of the first directive that has one. */
  lemma {:induction false} RoundTrip(hostOf: string -> Option<Host>, file: seq<Item>, c: Conf)
    requires PrintableFile(file)
    ensures Parse(hostOf, FileTokens(file), c) == Meaning(hostOf, file, c)
    decreases |file|
  {
    if file != [] {
      ItemPrinted(hostOf, file[0], FileTokens(file[1..]), c);
      hide ItemMeaning, ItemTokens, Printable;
      var next := ItemMeaning(hostOf, file[0], c);
      if next.Success? {
        hide Parse;
        RoundTrip(hostOf, file[1..], next.value);
      }
    }
  }

  /** The same from the text: any layout of the tokens, with any comments. */
  lemma TextRoundTrip(hostOf: string -> Option<Host>, file: seq<Item>, lines: seq<string>, parts: seq<seq<string>>)
    requires PrintableFile(file) && FileLaysOut(lines, parts) && Concat(parts) == FileTokens(file)
    ensures Parse(hostOf, Tokenize(lines), DEFAULTS) == Meaning(hostOf, file, DEFAULTS)
  {
    TokenizeFile(lines, parts);
    RoundTrip(hostOf, file, DEFAULTS);
  }

  // ---- Nothing else is accepted

  /** The statement at the head of tokens whose arguments were counted. */
  lemma StatementRead(rest: tokens, n: nat) returns (d: Statement)
    requires rest != [] && CountArgs(rest[1..]) == Success(n)
    ensures d == Statement(rest[0], rest[1..n + 1]) && rest == StatementTokens(d) + rest[n + 2..]
    ensures forall i :: 0 <= i < |d.args| ==> !IsMetatoken(d.args[i])
  {
    var ts := rest[1..];
    assert ts[n] == rest[n + 1] == ";";
    d := Statement(rest[0], rest[1..n + 1]);
    forall i | 0 <= i < |d.args| ensures !IsMetatoken(d.args[i]) {
      assert d.args[i] == ts[i];
    }
    assert rest == [rest[0]] + rest[1..n + 1] + [rest[n + 1]] + rest[n + 2..];
  }

  lemma {:induction false} LocationRead(rest: tokens, l: Location) returns (ds: seq<Statement>)
    requires LocationBody(rest, l).Success?
    ensures PlainAll(ds) && rest == StatementsTokens(ds) + ["}"] + LocationBody(rest, l).value.1
    decreases |rest|
  {
    hide ApplyLocation, StatementTokens, CountArgs;
    if IsMetatoken(rest[0]) {
      ds := [];
      assert rest == ["}"] + rest[1..];
    } else {
      var n := CountArgs(rest[1..]).value;
      var d := StatementRead(rest, n);
      var more := LocationRead(rest[n + 2..], ApplyLocation(rest[0], d.args, l).value);
      ds := [d] + more;
      assert ds[1..] == more;
      StatementsPrinted(ds, LocationBody(rest, l).value.1);
    }
  }

  lemma BlockRead(ts: tokens, n: nat)
    requires ts != [] && CountBlockArgs(ts[1..]) == Success(n)
    ensures n + 2 <= |ts| && ts == [ts[0]] + ts[1..n + 1] + ["{"] + ts[n + 2..]
    ensures forall i :: 1 <= i < n + 1 ==> !IsMetatoken(ts[i])
  {
    var us := ts[1..];
    assert us[n] == ts[n + 1] == "{";
    forall i | 1 <= i < n + 1 ensures !IsMetatoken(ts[i]) {
      assert ts[i] == us[i - 1];
    }
  }

  lemma LocationDirectiveParts(rest: tokens)
    requires LocationDirective(rest).Success?
    ensures CountBlockArgs(rest) == Success(1) && |rest| >= 2
    ensures LocationPath(rest[0]).Success?
    ensures LocationBody(rest[2..], LocationPath(rest[0]).value) == LocationDirective(rest)
  {
    hide LocationBody, LocationPath, CountBlockArgs;
  }

  lemma LocationTokens(name: string, ds: seq<Statement>, after: tokens)
    ensures ServerItemTokens(LocationItem(name, ds)) + after
            == ["location"] + [name] + ["{"] + (StatementsTokens(ds) + ["}"] + after)
  {
    hide StatementsTokens;
    Assoc(["location", name, "{"], StatementsTokens(ds), ["}"]);
    Assoc(["location", name, "{"], StatementsTokens(ds) + ["}"], after);
    assert ["location", name, "{"] == ["location"] + [name] + ["{"];
  }

  lemma LocationItemPrintable(name: string, ds: seq<Statement>)
    requires !IsMetatoken(name) && PlainAll(ds)
    ensures PrintableServerItem(LocationItem(name, ds))
  {}

  lemma BlocksPrintable(items: seq<ServerItem>, entries: seq<Statement>)
    requires forall i :: 0 <= i < |items| ==> PrintableServerItem(items[i])
    requires forall i :: 0 <= i < |entries| ==> Entry(entries[i])
    ensures Printable(ServerItems(items)) && Printable(Types(entries))
  {}

  lemma FilePrintable(item: Item, more: seq<Item>)
    requires Printable(item) && PrintableFile(more)
    ensures PrintableFile([item] + more)
  {}

  /** A location that was read is printed by an item. */
  lemma LocationItemRead(ts: tokens) returns (item: ServerItem)
    requires ts != [] && ts[0] == "location" && LocationDirective(ts[1..]).Success?
    ensures PrintableServerItem(item) && ts == ServerItemTokens(item) + LocationDirective(ts[1..]).value.1
  {
    hide *;
    LocationDirectiveParts(ts[1..]);
    BlockRead(ts, 1);
    assert ts[1..][0] == ts[1] && ts[1..][2..] == ts[3..] && ts[1..2] == [ts[1]];
    var ds := LocationRead(ts[3..], LocationPath(ts[1]).value);
    item := LocationItem(ts[1], ds);
    LocationTokens(ts[1], ds, LocationDirective(ts[1..]).value.1);
    LocationItemPrintable(ts[1], ds);
  }

  lemma ServerItemsCons(item: ServerItem, more: seq<ServerItem>, rest: tokens, after: tokens)
    requires rest == ServerItemTokens(item) + (ServerItemsTokens(more) + ["}"] + after)
    ensures rest == ServerItemsTokens([item] + more) + ["}"] + after
  {
    var items := [item] + more;
    assert items[0] == item && items[1..] == more;
    hide ServerItemTokens, ServerItemsTokens;
    ServerItemsPrinted(items, after);
  }

  lemma SettingTokens(d: Statement)
    requires Plain(d) && d.name != "location"
    ensures PrintableServerItem(Setting(d)) && ServerItemTokens(Setting(d)) == StatementTokens(d)
  {}

  lemma DirectivesAreWords(name: string)
    requires name in SERVER_DIRECTIVES
    ensures !IsMetatoken(name) && name != "location"
  {}

  /** One item of a server that was read, and the rest of the body. */
  lemma ServerStep(hostOf: string -> Option<Host>, rest: tokens, s: Server)
    returns (item: ServerItem, after: tokens, next: Server)
    requires ServerBody(hostOf, rest, s).Success? && rest[0] != "}"
    ensures PrintableServerItem(item) && rest == ServerItemTokens(item) + after && |after| < |rest|
    ensures ServerBody(hostOf, rest, s) == ServerBody(hostOf, after, next)
  {
    hide ApplyServer, CountArgs, LocationDirective, ServerItemTokens, StatementTokens, PrintableServerItem;
    if rest[0] == "location" {
      var p := LocationDirective(rest[1..]).value;
      after, next := p.1, AddLocation(s, p.0);
      item := LocationItemRead(rest);
    } else {
      var n := CountArgs(rest[1..]).value;
      var d := StatementRead(rest, n);
      DirectivesAreWords(d.name);
      SettingTokens(d);
      item, after, next := Setting(d), rest[n + 2..], ApplyServer(hostOf, rest[0], d.args, s).value;
    }
  }

  lemma {:induction false} ServerRead(hostOf: string -> Option<Host>, rest: tokens, s: Server)
    returns (items: seq<ServerItem>)
    requires ServerBody(hostOf, rest, s).Success?
    ensures forall i :: 0 <= i < |items| ==> PrintableServerItem(items[i])
    ensures rest == ServerItemsTokens(items) + ["}"] + ServerBody(hostOf, rest, s).value.1
    decreases |rest|
  {
    if rest[0] == "}" {
      items := [];
      assert rest == ["}"] + rest[1..];
    } else {
      hide *;
      var item, after, next := ServerStep(hostOf, rest, s);
      var more := ServerRead(hostOf, after, next);
      items := [item] + more;
      ServerItemsCons(item, more, rest, ServerBody(hostOf, rest, s).value.1);
    }
  }

  lemma {:induction false} TypesRead(rest: tokens, types: map<string, string>) returns (ds: seq<Statement>)
    requires TypesBody(rest, types).Success?
    ensures forall i :: 0 <= i < |ds| ==> Entry(ds[i])
    ensures rest == StatementsTokens(ds) + ["}"] + TypesBody(rest, types).value.1
    decreases |rest|
  {
    hide AddTypes, StatementTokens, CountArgs;
    if rest[0] == "}" {
      ds := [];
      assert rest == ["}"] + rest[1..];
    } else {
      var n := CountArgs(rest[1..]).value;
      var d := StatementRead(rest, n);
      var more := TypesRead(rest[n + 2..], AddTypes(types, rest[0], d.args));
      ds := [d] + more;
      assert ds[1..] == more;
      StatementsPrinted(ds, TypesBody(rest, types).value.1);
    }
  }

  lemma ServerDirectiveParts(hostOf: string -> Option<Host>, rest: tokens)
    requires ServerDirective(hostOf, rest).Success?
    ensures CountBlockArgs(rest) == Success(0)
    ensures rest != [] && ServerBody(hostOf, rest[1..], NEW_SERVER) == ServerDirective(hostOf, rest)
  {
    hide ServerBody, CountBlockArgs;
  }

  lemma ServerTokens(items: seq<ServerItem>, after: tokens)
    ensures ItemTokens(ServerItems(items)) + after == ["server"] + [] + ["{"] + (ServerItemsTokens(items) + ["}"] + after)
  {
    hide ServerItemsTokens;
    Assoc(["server", "{"], ServerItemsTokens(items), ["}"]);
    Assoc(["server", "{"], ServerItemsTokens(items) + ["}"], after);
    assert ["server", "{"] == ["server"] + [] + ["{"];
  }

  lemma ServerDirectiveRead(hostOf: string -> Option<Host>, ts: tokens) returns (item: Item)
    requires ts != [] && ts[0] == "server" && ServerDirective(hostOf, ts[1..]).Success?
    ensures Printable(item) && ts == ItemTokens(item) + ServerDirective(hostOf, ts[1..]).value.1
  {
    hide *;
    ServerDirectiveParts(hostOf, ts[1..]);
    BlockRead(ts, 0);
    assert ts[1..][1..] == ts[2..] && ts[1..1] == [];
    var items := ServerRead(hostOf, ts[2..], NEW_SERVER);
    item := ServerItems(items);
    ServerTokens(items, ServerDirective(hostOf, ts[1..]).value.1);
    BlocksPrintable(items, []);
  }

  lemma TypesDirectiveParts(rest: tokens, types: map<string, string>)
    requires TypesDirective(rest, types).Success?
    ensures CountBlockArgs(rest) == Success(0) && |rest| >= 1
    ensures TypesBody(rest[1..], types) == TypesDirective(rest, types)
  {
    hide TypesBody, CountBlockArgs;
  }

  lemma TypesTokens(entries: seq<Statement>, after: tokens)
    ensures ItemTokens(Types(entries)) + after == ["types"] + [] + ["{"] + (StatementsTokens(entries) + ["}"] + after)
  {
    hide StatementsTokens;
    Assoc(["types", "{"], StatementsTokens(entries), ["}"]);
    Assoc(["types", "{"], StatementsTokens(entries) + ["}"], after);
    assert ["types", "{"] == ["types"] + [] + ["{"];
  }

  lemma TypesDirectiveRead(ts: tokens, types: map<string, string>) returns (item: Item)
    requires ts != [] && ts[0] == "types" && TypesDirective(ts[1..], types).Success?
    ensures Printable(item) && ts == ItemTokens(item) + TypesDirective(ts[1..], types).value.1
  {
    hide *;
    TypesDirectiveParts(ts[1..], types);
    BlockRead(ts, 0);
    assert ts[1..][1..] == ts[2..] && ts[1..1] == [];
    var entries := TypesRead(ts[2..], types);
    item := Types(entries);
    TypesTokens(entries, TypesDirective(ts[1..], types).value.1);
    BlocksPrintable([], entries);
  }

  lemma FileCons(item: Item, more: seq<Item>)
    ensures FileTokens([item] + more) == ItemTokens(item) + FileTokens(more)
  {
    assert ([item] + more)[1..] == more;
  }

  lemma TimeoutTokens(d: Statement)
    requires Plain(d) && d.name in TIMEOUTS
    ensures Printable(Timeout(d)) && ItemTokens(Timeout(d)) == StatementTokens(d)
  {}

  /** One item of a file that was read, and the rest of the file. */
  lemma FileStep(hostOf: string -> Option<Host>, ts: tokens, c: Conf) returns (item: Item, after: tokens, next: Conf)
    requires Parse(hostOf, ts, c).Success? && ts != []
    ensures Printable(item) && ts == ItemTokens(item) + after && |after| < |ts|
    ensures Parse(hostOf, ts, c) == Parse(hostOf, after, next)
  {
    hide ServerDirective, TypesDirective, ApplyTimeout, CountArgs, Printable, ItemTokens, StatementTokens;
    if ts[0] == "server" {
      var p := ServerDirective(hostOf, ts[1..]).value;
      item := ServerDirectiveRead(hostOf, ts);
      after, next := p.1, AddBlock(c, p.0);
    } else if ts[0] == "types" {
      var p := TypesDirective(ts[1..], c.mimetypes).value;
      item := TypesDirectiveRead(ts, c.mimetypes);
      after, next := p.1, c.(mimetypes := p.0);
    } else {
      var n := CountArgs(ts[1..]).value;
      var d := StatementRead(ts, n);
      item, after, next := Timeout(d), ts[n + 2..], ApplyTimeout(ts[0], d.args, c).value;
      TimeoutTokens(d);
    }
  }

  /** Tokens that the parser accepts are those of a tree. */
  lemma {:induction false} FileRead(hostOf: string -> Option<Host>, ts: tokens, c: Conf) returns (file: seq<Item>)
    requires Parse(hostOf, ts, c).Success?
    ensures PrintableFile(file) && FileTokens(file) == ts
    decreases |ts|
  {
    if ts == [] {
      file := [];
    } else {
      hide *;
      var item, after, next := FileStep(hostOf, ts, c);
      var more := FileRead(hostOf, after, next);
      file := [item] + more;
      FileCons(item, more);
      FilePrintable(item, more);
    }
  }

  /** The parser accepts exactly the printed trees that have a meaning, and gives it. */
  lemma AcceptsExactly(hostOf: string -> Option<Host>, ts: tokens, c: Conf, result: Conf)
    ensures Parse(hostOf, ts, c) == Success(result) <==>
            exists file ::
              PrintableFile(file) && FileTokens(file) == ts && Meaning(hostOf, file, c) == Success(result)
  {
    hide *;
    if Parse(hostOf, ts, c) == Success(result) {
      var file := FileRead(hostOf, ts, c);
      RoundTrip(hostOf, file, c);
    }
    if file :| PrintableFile(file) && FileTokens(file) == ts && Meaning(hostOf, file, c) == Success(result) {
      RoundTrip(hostOf, file, c);
    }
  }

  /** A text is accepted, with a certain result, exactly if it is some layout of a tree of that meaning. */
  lemma TextAcceptsExactly(hostOf: string -> Option<Host>, lines: seq<string>, result: Conf)
    ensures Parse(hostOf, Tokenize(lines), DEFAULTS) == Success(result) <==>
            exists file, parts ::
              PrintableFile(file) && FileLaysOut(lines, parts) && Concat(parts) == FileTokens(file)
              && Meaning(hostOf, file, DEFAULTS) == Success(result)
  {
    hide *;
    AcceptsExactly(hostOf, Tokenize(lines), DEFAULTS, result);
    if Parse(hostOf, Tokenize(lines), DEFAULTS) == Success(result) {
      var file :| PrintableFile(file) && FileTokens(file) == Tokenize(lines) && Meaning(hostOf, file, DEFAULTS) == Success(result);
      var parts := LinesOf(lines);
      assert Concat(parts) == FileTokens(file);
    }
    if file, parts :| PrintableFile(file) && FileLaysOut(lines, parts) && Concat(parts) == FileTokens(file)
                      && Meaning(hostOf, file, DEFAULTS) == Success(result)
    {
      TokenizeFile(lines, parts);
    }
  }
}
