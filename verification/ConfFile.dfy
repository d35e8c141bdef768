/** The configuration parser (srcs/Configuration/ConfFile*.cpp): handlers that move one shared cursor over
    the tokens, proved against ConfGrammar.

    A handler starts with the cursor on the name of its directive, and leaves it on the `;` or on the `}`
    that ends the directive. An exception is a `Failure`, after which nothing is said of the state. */
module ConfFiles {
  import opened Octets
  import opened Wrappers
  import opened Paths
  import opened Settings
  import opened ConfTokens
  import opened LocationBlocks
  import opened Numbers
  import HeadParsing
  import G = ConfGrammar

  type Status = Result<(), ConfError>

  /** What a location-level directive makes of its location, and how many arguments lie before its `;`. */
  function Setting(name: string, rest: G.tokens, l: Location): Result<(Location, nat), ConfError>
    requires name in LOCATION_DIRECTIVES
  {
    var n :- G.CountArgs(rest);
    var next :- ApplyLocation(name, rest[..n], l);
    Success((next, n))
  }

  /** The same for a server-level directive that ends in `;`. */
  function ServerSetting(hostOf: string -> Option<Host>, name: string, rest: G.tokens, s: G.Server)
    : Result<(G.Server, nat), ConfError>
    requires name in G.SERVER_DIRECTIVES
  {
    var n :- G.CountArgs(rest);
    var next :- G.ApplyServer(hostOf, name, rest[..n], s);
    Success((next, n))
  }

  /** A count that goes on after `n` tokens. */
  function Plus(n: nat, r: Result<nat, ConfError>): Result<nat, ConfError> {
    match r
    case Success(m) => Success(n + m)
    case Failure(e) => Failure(e)
  }

  lemma CountStep(ts: G.tokens, it: nat)
    requires it < |ts|
    ensures G.CountArgs(ts[it..]) == if ts[it] == ";" then Success(0) else if IsMetatoken(ts[it]) then Failure(UnexpectedToken)
                                     else Plus(1, G.CountArgs(ts[it + 1..]))
    ensures G.CountBlockArgs(ts[it..]) == if ts[it] == "{" then Success(0) else if IsMetatoken(ts[it]) then Failure(UnexpectedToken)
                                          else Plus(1, G.CountBlockArgs(ts[it + 1..]))
  {
    assert ts[it..][0] == ts[it] && ts[it..][1..] == ts[it + 1..];
    hide IsMetatoken;
  }

  lemma CountNone(ts: G.tokens)
    ensures G.CountArgs(ts[|ts|..]) == Failure(UnexpectedEOF) && G.CountBlockArgs(ts[|ts|..]) == Failure(MissingOpening)
  {}

  lemma ArgumentsAt(ts: G.tokens, at: nat, n: nat)
    requires at < |ts| && G.CountArgs(ts[at + 1..]) == Success(n)
    ensures at + n + 1 < |ts| && ts[at + n + 1] == ";"
    ensures ts[at + 1..][..n] == ts[at + 1..at + n + 1]
  {
    hide G.CountArgs;
    assert ts[at + 1..][n] == ts[at + n + 1];
  }

  /** The arguments, counted from the name or from the token after it. */
  lemma ArgumentsIn(rest: G.tokens)
    requires rest != []
    ensures var n := G.CountArgs(rest[1..]); n.Success? ==> rest[1..][..n.value] == rest[1..n.value + 1]
  {
    hide G.CountArgs;
  }

  /** Where the loop over the directives of a location ends. */
  lemma LocationEnds(ts: G.tokens, at: nat, l: Location)
    requires at <= |ts|
    ensures at == |ts| ==> G.LocationBody(ts[at..], l) == Failure(UnexpectedEOF)
    ensures at < |ts| && ts[at] == "}" ==> G.LocationBody(ts[at..], l) == Success((l, ts[at + 1..]))
    ensures at < |ts| && ts[at] != "}" && IsMetatoken(ts[at]) ==> G.LocationBody(ts[at..], l) == Failure(UnexpectedToken)
  {
    hide ApplyLocation, G.CountArgs;
    if at < |ts| { assert ts[at..][0] == ts[at] && ts[at..][1..] == ts[at + 1..]; }
  }

  /** Where the loop over the entries of `types` ends. */
  lemma TypesEnd(ts: G.tokens, at: nat, types: map<string, string>)
    requires at <= |ts|
    ensures at == |ts| ==> G.TypesBody(ts[at..], types) == Failure(UnexpectedEOF)
    ensures at + 1 == |ts| && ts[at] != "}" ==> G.TypesBody(ts[at..], types) == Failure(UnexpectedEOF)
    ensures at < |ts| && ts[at] == "}" ==> G.TypesBody(ts[at..], types) == Success((types, ts[at + 1..]))
  {
    hide G.AddTypes, G.CountArgs;
    if at < |ts| { assert ts[at..][0] == ts[at] && ts[at..][1..] == ts[at + 1..]; }
  }

  /** One entry of `types`: its `;` is the token `at + n + 1`. */
  lemma TypesStep(ts: G.tokens, at: nat, types: map<string, string>)
    requires at + 1 < |ts| && ts[at] != "}"
    ensures G.TypesBody(ts[at..], types) == match G.CountArgs(ts[at + 1..])
                                            case Failure(e) => Failure(e)
                                            case Success(n) => G.TypesBody(ts[at + n + 2..], G.AddTypes(types, ts[at], ts[at + 1..][..n]))
  {
    hide G.AddTypes, G.CountArgs;
    var rest := ts[at..];
    assert rest[0] == ts[at] && rest[1..] == ts[at + 1..];
    ArgumentsIn(rest);
    var n := G.CountArgs(rest[1..]);
    if n.Success? { assert rest[n.value + 2..] == ts[at + n.value + 2..]; }
  }

  /** A timeout as an item of the file. */
  lemma TimeoutStep(hostOf: string -> Option<Host>, ts: G.tokens, at: nat, c: G.Conf)
    requires at < |ts| && ts[at] in G.TIMEOUTS
    ensures G.Parse(hostOf, ts[at..], c) == match G.CountArgs(ts[at + 1..])
                                            case Failure(e) => Failure(e)
                                            case Success(n) =>
                                              match G.ApplyTimeout(ts[at], ts[at + 1..][..n], c)
                                              case Failure(e) => Failure(e)
                                              case Success(next) => G.Parse(hostOf, ts[at + n + 2..], next)
  {
    hide G.ApplyTimeout, G.CountArgs, G.ServerDirective, G.TypesDirective;
    var rest := ts[at..];
    assert rest[0] == ts[at] && rest[1..] == ts[at + 1..];
    ArgumentsIn(rest);
    var n := G.CountArgs(rest[1..]);
    if n.Success? { assert rest[n.value + 2..] == ts[at + n.value + 2..]; }
  }

  /** Where the loop over the items of a server ends. */
  lemma ServerEnds(hostOf: string -> Option<Host>, ts: G.tokens, at: nat, s: G.Server)
    requires at <= |ts|
    ensures at == |ts| ==> G.ServerBody(hostOf, ts[at..], s) == Failure(UnexpectedEOF)
    ensures at + 1 == |ts| && ts[at] != "}" ==> G.ServerBody(hostOf, ts[at..], s) == Failure(UnexpectedEOF)
    ensures at < |ts| && ts[at] == "}" ==> G.ServerBody(hostOf, ts[at..], s) == Success((Finish(s.block, s.global), ts[at + 1..]))
  {
    hide Finish, G.ApplyServer, G.LocationDirective, G.CountArgs;
    if at < |ts| { assert ts[at..][0] == ts[at] && ts[at..][1..] == ts[at + 1..]; }
  }

  class ConfFile {
    const hostOf: string -> Option<Host>
    var tokens: seq<string>
    var token: nat
    var root: Path
    var blocks: seq<Block>
    var mimetypes: map<string, string>
    var headerTimeout: int
    var bodyTimeout: int
    var sendTimeout: int

    function State(): G.Conf
      reads this
    {
      G.Conf(blocks, mimetypes, headerTimeout, bodyTimeout, sendTimeout)
    }

    /** The tokens that follow the one under the cursor. */
    function Rest(): G.tokens
      requires token < |tokens|
      reads this
    {
      tokens[token + 1..]
    }

    predicate On(t: string)
      reads this
    {
      token < |tokens| && tokens[token] == t
    }

    constructor (hostOf: string -> Option<Host>)
      ensures this.hostOf == hostOf && tokens == [] && token == 0 && State() == G.DEFAULTS
    {
      this.hostOf := hostOf;
      tokens, token, root := [], 0, EMPTY;
      blocks, mimetypes := [], map[];
      headerTimeout, bodyTimeout, sendTimeout := 10, 60, 60;
    }

    // ---- Tokens

    /** `_tokenize`. */
    method TokenizeLine(line: string)
      modifies this`tokens
      ensures tokens == old(tokens) + ConfTokens.TokenizeLine(line)
    {
      var word := "";
      var it := 0;
      ghost var all := ConfTokens.TokenizeLine(line);
      assert line[0..] == line && tokens + all == old(tokens) + all;
      while it < |line|
        invariant 0 <= it <= |line|
        invariant tokens + TokenizeFrom(line[it..], word) == old(tokens) + all
      {
        var c := line[it];
        ghost var rest := line[it..];
        assert rest[0] == c && rest[1..] == line[it + 1..];
        if IsComment(c) {
          break;
        }
        if IsSpace(c) || IsMetachar(c) {
          ghost var more := TokenizeFrom(rest[1..], "");
          ghost var w := if word == "" then [] else [word];
          ghost var m := if IsMetachar(c) then [[c]] else [];
          Assoc(tokens + w, m, more);
          Assoc(tokens, w, m + more);
          assert TokenizeFrom(rest, word) == w + m + more == w + (m + more);
          if word != "" {
            tokens := tokens + [word];
            word := "";
          } else {
            assert tokens + w == tokens;
          }
          if IsMetachar(c) {
            tokens := tokens + [[c]];
          } else {
            assert tokens + m == tokens;
          }
        } else {
          word := word + [c];
        }
        it := it + 1;
      }
      if word != "" {
        tokens := tokens + [word];
      }
    }

    /** `_countArgs`. */
    method CountArgs() returns (r: Result<nat, ConfError>)
      requires token < |tokens|
      ensures r == G.CountArgs(Rest())
    {
      hide G.CountArgs, IsMetatoken;
      var it, args := token + 1, 0;
      while it < |tokens|
        invariant token < it <= |tokens|
        invariant G.CountArgs(Rest()) == Plus(args, G.CountArgs(tokens[it..]))
      {
        CountStep(tokens, it);
        if tokens[it] == ";" {
          return Success(args);
        } else if IsMetatoken(tokens[it]) {
          return Failure(UnexpectedToken);
        }
        args := args + 1;
        it := it + 1;
      }
      CountNone(tokens);
      r := Failure(UnexpectedEOF);
    }

    /** `_countBlockArgs`. */
    method CountBlockArgs() returns (r: Result<nat, ConfError>)
      requires token < |tokens|
      ensures r == G.CountBlockArgs(Rest())
    {
      hide G.CountBlockArgs, IsMetatoken;
      var it, args := token + 1, 0;
      while it < |tokens|
        invariant token < it <= |tokens|
        invariant G.CountBlockArgs(Rest()) == Plus(args, G.CountBlockArgs(tokens[it..]))
      {
        CountStep(tokens, it);
        if tokens[it] == "{" {
          return Success(args);
        } else if IsMetatoken(tokens[it]) {
          return Failure(UnexpectedToken);
        }
        args := args + 1;
        it := it + 1;
      }
      CountNone(tokens);
      r := Failure(MissingOpening);
    }

    // ---- Location-level handlers

    /** The handler did what the directive means, and left the cursor on the `;` that `_countArgs` found. */
    twostate predicate SettingDone(name: string, location: LocationBlock, new r: Status)
      requires old(token) < |old(tokens)| && name in LOCATION_DIRECTIVES
      reads this, location
    {
      match Setting(name, old(Rest()), old(location.Value()))
      case Failure(e) => r == Failure(e)
      case Success((l, n)) => r.Success? && location.Value() == l && token == old(token) + n + 1 && On(";")
    }

    method RootDirective(location: LocationBlock) returns (r: Status)
      requires token < |tokens|
      modifies this`token, location
      ensures SettingDone("root", location, r)
    {
      hide G.CountArgs, PathOf;
      var args :- CountArgs();
      ArgumentsAt(tokens, token, args);
      token := token + 1;
      if args != 1 {
        return Failure(InvalidArgumentNumber);
      }
      location.SetRoot(tokens[token] + "/");
      token := token + 1;
      r := Success(());
    }

    method AllowDirective(location: LocationBlock) returns (r: Status)
      requires token < |tokens|
      modifies this`token, location
      ensures SettingDone("allow", location, r)
    {
      hide G.CountArgs, HeadParsing.MethodIndex;
      var args :- CountArgs();
      ghost var names := Rest()[..args];
      ArgumentsAt(tokens, token, args);
      token := token + 1;
      if args == 0 {
        return Failure(InvalidArgumentNumber);
      }
      for i := 0 to args
        invariant token == old(token) + 1 + i
        invariant Allow(location.Value(), names[i..]) == Allow(old(location.Value()), names)
      {
        assert names[i..][0] == tokens[token] && names[i..][1..] == names[i + 1..];
        var ok := location.AllowMethod(tokens[token]);
        if !ok {
          return Failure(InvalidMethod);
        }
        token := token + 1;
      }
      r := Success(());
    }

    method ClientMaxBodySizeDirective(location: LocationBlock) returns (r: Status)
      requires token < |tokens|
      modifies this`token, location
      ensures SettingDone("client_max_body_size", location, r)
    {
      hide G.CountArgs, Stoi;
      var args :- CountArgs();
      ArgumentsAt(tokens, token, args);
      token := token + 1;
      if args != 1 {
        return Failure(InvalidArgumentNumber);
      }
      var size :- Stoi(tokens[token], 0, 0xFFFF_FFFF);
      location.SetMaxBodySize(size);
      token := token + 1;
      r := Success(());
    }

    method AutoindexDirective(location: LocationBlock) returns (r: Status)
      requires token < |tokens|
      modifies this`token, location
      ensures SettingDone("autoindex", location, r)
    {
      hide G.CountArgs;
      var args :- CountArgs();
      ArgumentsAt(tokens, token, args);
      token := token + 1;
      if args != 1 {
        return Failure(InvalidArgumentNumber);
      }
      var ok := location.SetDirListing(tokens[token]);
      if !ok {
        return Failure(InvalidValue);
      }
      token := token + 1;
      r := Success(());
    }

    method RedirectionDirective(location: LocationBlock) returns (r: Status)
      requires token < |tokens|
      modifies this`token, location
      ensures SettingDone("redirect", location, r)
    {
      hide G.CountArgs, Stoi;
      var args :- CountArgs();
      ArgumentsAt(tokens, token, args);
      token := token + 1;
      if args != 2 {
        return Failure(InvalidArgumentNumber);
      }
      var status :- Stoi(tokens[token], 0, 0xFFFF);
      token := token + 1;
      var ok := location.SetRedirect(status, tokens[token]);
      if !ok {
        return Failure(InvalidValue);
      }
      token := token + 1;
      r := Success(());
    }

    method IndexDirective(location: LocationBlock) returns (r: Status)
      requires token < |tokens|
      modifies this`token, location
      ensures SettingDone("index", location, r)
    {
      hide G.CountArgs;
      var args :- CountArgs();
      ghost var names := Rest()[..args];
      ArgumentsAt(tokens, token, args);
      token := token + 1;
      if args == 0 {
        return Failure(InvalidArgumentNumber);
      }
      for i := 0 to args
        invariant token == old(token) + 1 + i
        invariant location.Value() == old(location.Value()).(indexes := old(location.indexes) + names[..i])
      {
        assert names[..i + 1] == names[..i] + [tokens[token]];
        location.AddIndex(tokens[token]);
        token := token + 1;
      }
      assert names[..args] == names;
      r := Success(());
    }

    method CgiDirective(location: LocationBlock) returns (r: Status)
      requires token < |tokens|
      modifies this`token, location
      ensures SettingDone("cgi", location, r)
    {
      hide G.CountArgs, PathOf;
      var args :- CountArgs();
      ghost var names := Rest()[..args];
      ArgumentsAt(tokens, token, args);
      token := token + 1;
      if args < 2 {
        return Failure(InvalidArgumentNumber);
      }
      var binary := tokens[token + args - 1];
      ghost var extensions := names[..args - 1];
      for i := 0 to args - 1
        invariant token == old(token) + 1 + i
        invariant AddCgis(location.Value(), extensions[i..], binary) == AddCgis(old(location.Value()), extensions, binary)
      {
        assert extensions[i..][0] == tokens[token] && extensions[i..][1..] == extensions[i + 1..];
        location.AddCGI(tokens[token], binary);
        token := token + 1;
      }
      token := token + 1;
      r := Success(());
    }

    method ClientBodyUploadPathDirective(location: LocationBlock) returns (r: Status)
      requires token < |tokens|
      modifies this`token, location
      ensures SettingDone("client_body_upload_path", location, r)
    {
      hide G.CountArgs, PathOf;
      var args :- CountArgs();
      ArgumentsAt(tokens, token, args);
      token := token + 1;
      if args != 1 {
        return Failure(InvalidArgumentNumber);
      }
      location.SetClientBodyUploadPath(tokens[token] + "/");
      token := token + 1;
      r := Success(());
    }

    method ClientBodyTempPathDirective(location: LocationBlock) returns (r: Status)
      requires token < |tokens|
      modifies this`token, location
      ensures SettingDone("client_body_temp_path", location, r)
    {
      hide G.CountArgs, PathOf;
      var args :- CountArgs();
      ArgumentsAt(tokens, token, args);
      token := token + 1;
      if args != 1 {
        return Failure(InvalidArgumentNumber);
      }
      location.SetClientBodyTempPath(tokens[token] + "/");
      token := token + 1;
      r := Success(());
    }

    /** The handler that the table of location-level directives has for the token. */
    method LocationSetting(location: LocationBlock) returns (r: Status)
      requires token < |tokens| && tokens[token] in LOCATION_DIRECTIVES
      modifies this`token, location
      ensures SettingDone(old(tokens[token]), location, r)
    {
      hide Setting;
      match tokens[token]
      case "root" => r := RootDirective(location);
      case "allow" => r := AllowDirective(location);
      case "client_max_body_size" => r := ClientMaxBodySizeDirective(location);
      case "autoindex" => r := AutoindexDirective(location);
      case "redirect" => r := RedirectionDirective(location);
      case "index" => r := IndexDirective(location);
      case "cgi" => r := CgiDirective(location);
      case "client_body_upload_path" => r := ClientBodyUploadPathDirective(location);
      case _ => r := ClientBodyTempPathDirective(location);
    }

    /** `_locationDirective`: the location is added to the server, and the cursor is left on its `}`. */
    method LocationDirective(server: ServerBlock) returns (r: Status)
      requires token < |tokens|
      modifies this`token, server`locations
      ensures match G.LocationDirective(old(Rest()))
              case Failure(e) => r == Failure(e)
              case Success((l, after)) =>
                r.Success? && server.locations == old(server.locations) + [l] && On("}") && Rest() == after
    {
      hide G.CountBlockArgs, PathOf, G.LocationBody;
      var args :- CountBlockArgs();
      token := token + 1;
      if args != 1 {
        return Failure(InvalidArgumentNumber);
      }
      var path := NewPath(tokens[token] + "/");
      if !path.OriginForm() {
        return Failure(InvalidPath);
      }
      token := token + 1;
      var location := new LocationBlock(path);
      assert old(Rest())[2..] == Rest();
      r := LocationBody(location);
      if r.Success? {
        server.locations := server.locations + [location.Value()];
      }
    }

    /** One directive of a location; the cursor ends on its `;`. */
    method LocationItem(location: LocationBlock) returns (r: Status)
      requires token < |tokens| && !IsMetatoken(tokens[token])
      modifies this`token, location
      ensures r.Failure? ==> G.LocationBody(old(tokens[token..]), old(location.Value())) == Failure(r.error)
      ensures r.Success? ==> old(token) < token < |tokens|
      ensures r.Success? ==> G.LocationBody(old(tokens[token..]), old(location.Value())) == G.LocationBody(Rest(), location.Value())
    {
      hide G.CountArgs, ApplyLocation;
      ghost var rest, at := tokens[token..], token;
      assert rest[0] == tokens[token] && rest[1..] == Rest();
      if tokens[token] in LOCATION_DIRECTIVES && token + 1 < |tokens| {
        ArgumentsIn(rest);
        r := LocationSetting(location);
        if r.Success? {
          assert rest[token - at + 1..] == Rest();
        }
      } else if tokens[token] !in LOCATION_DIRECTIVES {
        r := Failure(UnknownDirective);
      } else {
        r := Failure(UnexpectedEOF);
      }
    }

    /** The loop of `_locationDirective`, which starts on the `{` and ends on the `}`. */
    method LocationBody(location: LocationBlock) returns (r: Status)
      requires token < |tokens|
      modifies this`token, location
      ensures match G.LocationBody(old(Rest()), old(location.Value()))
              case Failure(e) => r == Failure(e)
              case Success((l, after)) => r.Success? && location.Value() == l && On("}") && Rest() == after
    {
      hide G.LocationBody;
      token := token + 1;
      while token < |tokens| && !IsMetatoken(tokens[token])
        invariant old(token) < token <= |tokens|
        invariant G.LocationBody(tokens[token..], location.Value()) == G.LocationBody(old(Rest()), old(location.Value()))
        decreases |tokens| - token
      {
        r := LocationItem(location);
        if r.Failure? {
          return;
        }
        token := token + 1;
      }
      LocationEnds(tokens, token, location.Value());
      if token == |tokens| {
        return Failure(UnexpectedEOF);
      }
      if tokens[token] != "}" {
        return Failure(UnexpectedToken);
      }
      r := Success(());
    }

    // ---- Server-level handlers

    /** The server that the block under construction and its global location make up. */
    function ServerState(server: ServerBlock, global: LocationBlock): G.Server
      reads server, global
    {
      G.Server(server.Value(), global.Value())
    }

    twostate predicate ServerSettingDone(name: string, server: ServerBlock, global: LocationBlock, new r: Status)
      requires old(token) < |old(tokens)| && name in G.SERVER_DIRECTIVES
      reads this, server, global
    {
      match ServerSetting(hostOf, name, old(Rest()), old(ServerState(server, global)))
      case Failure(e) => r == Failure(e)
      case Success((s, n)) =>
        && r.Success? && ServerState(server, global) == s
        && token == old(token) + n + 1 && On(";") && root == global.root
    }

    method ListenDirective(server: ServerBlock, ghost global: LocationBlock) returns (r: Status)
      requires token < |tokens| && root == global.root
      modifies this`token, server
      ensures ServerSettingDone("listen", server, global, r)
    {
      hide G.CountArgs;
      var args :- CountArgs();
      ArgumentsAt(tokens, token, args);
      token := token + 1;
      if args != 1 {
        return Failure(InvalidArgumentNumber);
      }
      var host := hostOf(tokens[token]);
      if host.None? {
        return Failure(HostNotFound);
      }
      server.hosts := server.hosts + [host.value];
      token := token + 1;
      r := Success(());
    }

    method ServerNameDirective(server: ServerBlock, ghost global: LocationBlock) returns (r: Status)
      requires token < |tokens| && root == global.root
      modifies this`token, server
      ensures ServerSettingDone("server_name", server, global, r)
    {
      hide G.CountArgs;
      var args :- CountArgs();
      ghost var names := Rest()[..args];
      ArgumentsAt(tokens, token, args);
      token := token + 1;
      if args == 0 {
        return Failure(InvalidArgumentNumber);
      }
      for i := 0 to args
        invariant token == old(token) + 1 + i
        invariant server.Value() == old(server.Value()).(names := old(server.names) + names[..i])
      {
        assert names[..i + 1] == names[..i] + [tokens[token]];
        server.names := server.names + [tokens[token]];
        token := token + 1;
      }
      assert names[..args] == names;
      r := Success(());
    }

    /** The codes of an `error_page`: from the cursor on, `count` of them. */
    method AddErrorPages(server: ServerBlock, file: Path, count: nat) returns (r: Status)
      requires token + count <= |tokens|
      modifies this`token, server
      ensures match Settings.AddErrorPages(old(server.Value()), old(tokens[token..token + count]), file)
              case Failure(e) => r == Failure(e)
              case Success(b) => r.Success? && server.Value() == b && token == old(token) + count
    {
      hide Stoi;
      ghost var codes := tokens[token..token + count];
      for i := 0 to count
        invariant token == old(token) + i
        invariant Settings.AddErrorPages(server.Value(), codes[i..], file)
                  == Settings.AddErrorPages(old(server.Value()), codes, file)
      {
        assert codes[i..][0] == tokens[token] && codes[i..][1..] == codes[i + 1..];
        var code :- Stoi(tokens[token], 0, 0xFFFF);
        if code < 400 || code > 599 {
          return Failure(InvalidValue);
        }
        server.errorPages := server.errorPages[code := file];
        token := token + 1;
      }
      r := Success(());
    }

    method ErrorPageDirective(server: ServerBlock, ghost global: LocationBlock) returns (r: Status)
      requires token < |tokens| && root == global.root
      modifies this`token, server
      ensures ServerSettingDone("error_page", server, global, r)
    {
      hide G.CountArgs, PathOf, Settings.AddErrorPages;
      var args :- CountArgs();
      ghost var names := Rest()[..args];
      ArgumentsAt(tokens, token, args);
      token := token + 1;
      if args < 2 {
        return Failure(InvalidArgumentNumber);
      }
      if root.Empty() {
        token := token + args;
        return Success(());
      }
      var file := NewPath(root.str + tokens[token + args - 1]);
      assert names[..args - 1] == tokens[token..token + (args - 1)];
      var added :- AddErrorPages(server, file, args - 1);
      token := token + 1;
      r := Success(());
    }

    /** A location-level directive of a server, after which `_root` is the root of the global location. */
    method GlobalSetting(server: ServerBlock, global: LocationBlock) returns (r: Status)
      requires token < |tokens| && tokens[token] in LOCATION_DIRECTIVES
      modifies this`token, this`root, global
      ensures ServerSettingDone(old(tokens[token]), server, global, r)
    {
      hide G.CountArgs, ApplyLocation;
      r := LocationSetting(global);
      root := global.root;
    }

    /** The handler of a server-level directive that ends in `;`. */
    method OneServerSetting(server: ServerBlock, global: LocationBlock) returns (r: Status)
      requires token < |tokens| && tokens[token] in G.SERVER_DIRECTIVES && root == global.root
      modifies this`token, this`root, server, global
      ensures ServerSettingDone(old(tokens[token]), server, global, r)
    {
      hide ServerSetting;
      match tokens[token]
      case "listen" => r := ListenDirective(server, global);
      case "server_name" => r := ServerNameDirective(server, global);
      case "error_page" => r := ErrorPageDirective(server, global);
      case _ => r := GlobalSetting(server, global);
    }

    /** One item of a server, location or not; the cursor ends on its `;` or `}`. */
    method ServerItem(server: ServerBlock, global: LocationBlock) returns (r: Status)
      requires token + 1 < |tokens| && tokens[token] != "}" && root == global.root
      modifies this`token, this`root, server, global
      ensures r.Failure? ==> G.ServerBody(hostOf, old(tokens[token..]), old(ServerState(server, global))) == Failure(r.error)
      ensures r.Success? ==> old(token) < token < |tokens| && root == global.root
      ensures r.Success? ==>
                G.ServerBody(hostOf, old(tokens[token..]), old(ServerState(server, global)))
                == G.ServerBody(hostOf, Rest(), ServerState(server, global))
    {
      hide G.CountArgs, G.ApplyServer, G.LocationDirective;
      ghost var rest, at := tokens[token..], token;
      assert rest[0] == tokens[token] && rest[1..] == Rest();
      if tokens[token] == "location" {
        r := LocationDirective(server);
      } else if tokens[token] in G.SERVER_DIRECTIVES {
        ArgumentsIn(rest);
        r := OneServerSetting(server, global);
        if r.Success? {
          assert rest[token - at + 1..] == Rest();
        }
      } else {
        r := Failure(UnknownDirective);
      }
    }

    /** The loop of `_serverDirective`, which starts on the `{` and ends on the `}`. */
    method ServerItems(server: ServerBlock, global: LocationBlock) returns (r: Status)
      requires token < |tokens| && root == global.root
      modifies this`token, this`root, server, global
      ensures var spec := G.ServerBody(hostOf, old(Rest()), old(ServerState(server, global)));
              && (r.Failure? ==> spec == Failure(r.error))
              && (r.Success? ==> old(token) < token && On("}") && spec == Success((Finish(server.Value(), global.Value()), Rest())))
    {
      hide Finish, G.ServerBody;
      token := token + 1;
      while token < |tokens| && tokens[token] != "}"
        invariant old(token) < token <= |tokens| && root == global.root
        invariant G.ServerBody(hostOf, tokens[token..], ServerState(server, global))
                  == G.ServerBody(hostOf, old(Rest()), old(ServerState(server, global)))
        decreases |tokens| - token
      {
        ServerEnds(hostOf, tokens, token, ServerState(server, global));
        if token + 1 == |tokens| {
          return Failure(UnexpectedEOF);
        }
        r := ServerItem(server, global);
        if r.Failure? {
          return;
        }
        token := token + 1;
      }
      ServerEnds(hostOf, tokens, token, ServerState(server, global));
      if token == |tokens| {
        return Failure(UnexpectedEOF);
      }
      r := Success(());
    }

    /** The end of a server block. */
    method FinishServer(server: ServerBlock, global: LocationBlock)
      modifies server
      ensures server.Value() == Finish(old(server.Value()), global.Value())
    {
      if |server.hosts| == 0 {
        server.hosts := server.hosts + [DEFAULT_HOST];
      }
      server.FillLocations(global);
    }

    /** `_serverDirective`. */
    method ServerDirective() returns (r: Status)
      requires token < |tokens|
      modifies this`token, this`root, this`blocks
      ensures match G.ServerDirective(hostOf, old(Rest()))
              case Failure(e) => r == Failure(e)
              case Success((b, after)) =>
                r.Success? && blocks == old(blocks) + [b] && old(token) < token && On("}") && Rest() == after
    {
      hide Finish, G.CountBlockArgs, G.ServerBody, Fill;
      var args :- CountBlockArgs();
      token := token + 1;
      if args != 0 {
        return Failure(InvalidArgumentNumber);
      }
      var server := new ServerBlock();
      var global := new LocationBlock(EMPTY);
      root := EMPTY;
      global.SetDefaults();
      assert old(Rest())[1..] == Rest();
      r := ServerItems(server, global);
      if r.Failure? {
        return;
      }
      FinishServer(server, global);
      blocks := blocks + [server.Value()];
    }

    // ---- Top-level handlers

    /** `_loadType`: the cursor is on the type. */
    method LoadType() returns (r: Status)
      requires token < |tokens|
      modifies this`token, this`mimetypes
      ensures match G.CountArgs(old(Rest()))
              case Failure(e) => r == Failure(e)
              case Success(n) =>
                && r.Success? && token == old(token) + n + 1 && On(";")
                && mimetypes == G.AddTypes(old(mimetypes), old(tokens[token]), old(Rest())[..n])
    {
      hide G.CountArgs;
      var args :- CountArgs();
      var mime := tokens[token];
      ghost var names := Rest()[..args];
      ArgumentsAt(tokens, token, args);
      token := token + 1;
      for i := 0 to args
        invariant token == old(token) + 1 + i
        invariant G.AddTypes(mimetypes, mime, names[i..]) == G.AddTypes(old(mimetypes), mime, names)
      {
        assert names[i..][0] == tokens[token] && names[i..][1..] == names[i + 1..];
        mimetypes := mimetypes[tokens[token] := mime];
        token := token + 1;
      }
      r := Success(());
    }

    /** `_typesDirective`. */
    method TypesDirective() returns (r: Status)
      requires token < |tokens|
      modifies this`token, this`mimetypes
      ensures match G.TypesDirective(old(Rest()), old(mimetypes))
              case Failure(e) => r == Failure(e)
              case Success((types, after)) =>
                r.Success? && mimetypes == types && old(token) < token && On("}") && Rest() == after
    {
      hide G.CountBlockArgs, G.TypesBody;
      var args :- CountBlockArgs();
      token := token + 1;
      if args != 0 {
        return Failure(InvalidArgumentNumber);
      }
      assert old(Rest())[1..] == Rest();
      r := LoadTypes();
    }

    /** The loop of `_typesDirective`, which starts on the `{` and ends on the `}`. */
    method LoadTypes() returns (r: Status)
      requires token < |tokens|
      modifies this`token, this`mimetypes
      ensures match G.TypesBody(old(Rest()), old(mimetypes))
              case Failure(e) => r == Failure(e)
              case Success((types, after)) =>
                r.Success? && mimetypes == types && old(token) < token && On("}") && Rest() == after
    {
      hide G.CountArgs, G.AddTypes, G.TypesBody;
      token := token + 1;
      while token < |tokens| && tokens[token] != "}"
        invariant old(token) < token <= |tokens|
        invariant G.TypesBody(tokens[token..], mimetypes) == G.TypesBody(old(Rest()), old(mimetypes))
        decreases |tokens| - token
      {
        TypesEnd(tokens, token, mimetypes);
        if token + 1 == |tokens| {
          return Failure(UnexpectedEOF);
        }
        TypesStep(tokens, token, mimetypes);
        r := LoadType();
        if r.Failure? {
          return;
        }
        token := token + 1;
      }
      TypesEnd(tokens, token, mimetypes);
      if token == |tokens| {
        return Failure(UnexpectedEOF);
      }
      r := Success(());
    }

    /** The three timeout handlers, which differ only in the entry that they write. */
    method TimeoutDirective() returns (r: Status)
      requires token < |tokens| && tokens[token] in G.TIMEOUTS
      modifies this`token, this`headerTimeout, this`bodyTimeout, this`sendTimeout
      ensures match G.CountArgs(old(Rest()))
              case Failure(e) => r == Failure(e)
              case Success(n) =>
                match G.ApplyTimeout(old(tokens[token]), old(Rest())[..n], old(State()))
                case Failure(e) => r == Failure(e)
                case Success(c) => r.Success? && State() == c && token == old(token) + n + 1 && On(";")
    {
      hide G.CountArgs, Strtol, CString;
      var args :- CountArgs();
      var name := tokens[token];
      ArgumentsAt(tokens, token, args);
      token := token + 1;
      if args != 1 {
        return Failure(InvalidArgumentNumber);
      }
      var duration :- Stoi(tokens[token], -0x8000_0000, 0x7FFF_FFFF);
      if duration < 0 {
        return Failure(InvalidValue);
      }
      match name {
        case "client_header_timeout" => headerTimeout := duration;
        case "client_body_timeout" => bodyTimeout := duration;
        case _ => sendTimeout := duration;
      }
      token := token + 1;
      r := Success(());
    }

    /** A timeout as an item of the file. */
    method TimeoutItem() returns (r: Status)
      requires token < |tokens| && tokens[token] in G.TIMEOUTS
      modifies this`token, this`headerTimeout, this`bodyTimeout, this`sendTimeout
      ensures r.Failure? ==> G.Parse(hostOf, old(tokens[token..]), old(State())) == Failure(r.error)
      ensures r.Success? ==> old(token) < token < |tokens| && On(";")
      ensures r.Success? ==> G.Parse(hostOf, old(tokens[token..]), old(State())) == G.Parse(hostOf, Rest(), State())
    {
      hide G.CountArgs, G.ApplyTimeout, G.Parse;
      TimeoutStep(hostOf, tokens, token, State());
      r := TimeoutDirective();
    }

    /** One top-level directive, from its name to its `;` or `}`. */
    method Directive() returns (r: Status)
      requires token < |tokens|
      modifies this`token, this`root, this`blocks, this`mimetypes, this`headerTimeout, this`bodyTimeout, this`sendTimeout
      ensures r.Failure? ==> G.Parse(hostOf, old(tokens[token..]), old(State())) == Failure(r.error)
      ensures r.Success? ==> old(token) < token < |tokens| && (On(";") || On("}"))
      ensures r.Success? ==> G.Parse(hostOf, old(tokens[token..]), old(State())) == G.Parse(hostOf, Rest(), State())
    {
      hide G.CountArgs, G.ServerDirective, G.TypesDirective, G.ApplyTimeout;
      assert tokens[token..][0] == tokens[token] && tokens[token..][1..] == Rest();
      if tokens[token] == "server" {
        r := ServerDirective();
      } else if tokens[token] == "types" {
        r := TypesDirective();
      } else if tokens[token] in G.TIMEOUTS {
        r := TimeoutItem();
      } else {
        r := Failure(UnknownDirective);
      }
    }

    /** `parse`, on the lines of the file: the cursor ends exactly behind the last token. */
    method Parse(lines: seq<string>) returns (r: Status)
      requires tokens == [] && token == 0
      modifies this
      ensures tokens == Tokenize(lines)
      ensures match G.Parse(hostOf, Tokenize(lines), old(State()))
              case Failure(e) => r == Failure(e)
              case Success(c) => r.Success? && State() == c && token == |tokens|
    {
      hide G.Parse, ConfTokens.TokenizeLine;
      assert lines[0..] == lines;
      for i := 0 to |lines|
        invariant State() == old(State()) && token == 0
        invariant tokens + Tokenize(lines[i..]) == Tokenize(lines)
      {
        assert lines[i..][0] == lines[i] && lines[i..][1..] == lines[i + 1..];
        Assoc(tokens, ConfTokens.TokenizeLine(lines[i]), Tokenize(lines[i + 1..]));
        TokenizeLine(lines[i]);
      }
      assert tokens == Tokenize(lines) && tokens[0..] == tokens;
      while token < |tokens|
        invariant token <= |tokens| && tokens == Tokenize(lines)
        invariant G.Parse(hostOf, tokens[token..], State()) == G.Parse(hostOf, Tokenize(lines), old(State()))
        decreases |tokens| - token
      {
        r := Directive();
        if r.Failure? {
          return;
        }
        token := token + 1;
      }
      assert tokens[token..] == [];
      NothingToParse(hostOf, State());
      r := Success(());
    }
  }

  lemma NothingToParse(hostOf: string -> Option<Host>, c: G.Conf)
    ensures G.Parse(hostOf, [], c) == Success(c)
  {}
}
