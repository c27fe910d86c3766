/**
  The reply selection of `handle_command` and the request handling of
  `handle_client` in app/main.py. The socket I/O around them is left out:
  the decoded request text comes in, and the outcome says whether a reply
  would be written, which one, or which exception ends the handler.
 */
module Dispatch {

  import opened Wrappers
  import opened Decimal
  import opened Resp
  import opened ReplyReader
  import opened PyText

  /** `Constant.INVALID_COMMAND` */
  const INVALID_COMMAND: string := "ERR unknown command"

  /** The exceptions `handle_command` can raise. */
  datatype PyError =
    | IndexError      // `commands[0]` of an empty token list
    | AttributeError  // `.encode()` of a configuration value that is still `None`

  /** What one request leads to. */
  datatype Outcome = NoReply | Respond(reply: string) | Raise(error: PyError)

  /** The two configuration parameters `CONFIG GET` answers. */
  datatype Param = Dir | DbFilename

  function ParamName(p: Param): string {
    match p
    case Dir => "dir"
    case DbFilename => "dbfilename"
  }

  /** The configured value of a parameter: the `dir` or `dbfilename` global. */
  function ConfigValue(p: Param, dir: Option<string>, dbfilename: Option<string>): Option<string> {
    match p
    case Dir => dir
    case DbFilename => dbfilename
  }

  /** The branch of `handle_command` a token list takes. */
  datatype Route = NoCommand | NotConfig | Unknown | ConfigGet(param: Param)

  function RouteOf(commands: seq<string>): Route {
    if |commands| == 0 then NoCommand
    else if Upper(commands[0]) != "CONFIG" then NotConfig
    else if |commands| < 3 then Unknown
    else if Lower(commands[1]) == "get" && Lower(commands[2]) == "dir" then ConfigGet(Dir)
    else if Lower(commands[1]) == "get" && Lower(commands[2]) == "dbfilename" then ConfigGet(DbFilename)
    else Unknown
  }

  /** The error reply for every malformed CONFIG request. */
  function UnknownCommandReply(): string {
    Encode(SimpleError(INVALID_COMMAND))
  }

  /**
    The CONFIG GET reply as the source builds it: the name and the value are
    first bulk-encoded as `bytes`, and those encodings are then the elements
    of the array, bulk-encoded a second time.
   */
  function ConfigGetAsWritten(name: string, value: string): string {
    Encode(Array([Str(EncodeBulk(Bytes(name))), Str(EncodeBulk(Bytes(value)))]))
  }

  /** The CONFIG GET reply a client expects: an array of the name and the value. */
  function ConfigGetIntended(name: string, value: string): string {
    Encode(Array([Str(name), Str(value)]))
  }

  /** `handle_command` as written. */
  function HandleCommand(commands: seq<string>, dir: Option<string>, dbfilename: Option<string>): Outcome {
    match RouteOf(commands)
    case NoCommand => Raise(IndexError)
    case NotConfig => NoReply
    case Unknown => Respond(UnknownCommandReply())
    case ConfigGet(p) =>
      match ConfigValue(p, dir, dbfilename)
      case None => Raise(AttributeError)
      case Some(v) => Respond(ConfigGetAsWritten(ParamName(p), v))
  }

  /** `handle_command` with the CONFIG GET reply built as intended. */
  function HandleCommandIntended(commands: seq<string>, dir: Option<string>, dbfilename: Option<string>): Outcome {
    match RouteOf(commands)
    case NoCommand => Raise(IndexError)
    case NotConfig => NoReply
    case Unknown => Respond(UnknownCommandReply())
    case ConfigGet(p) =>
      match ConfigValue(p, dir, dbfilename)
      case None => Raise(AttributeError)
      case Some(v) => Respond(ConfigGetIntended(ParamName(p), v))
  }

  /** `handle_client` from the decoded request text on: tokenize, then dispatch. */
  function HandleClient(message: string, dir: Option<string>, dbfilename: Option<string>): Outcome {
    HandleCommand(Tokenize(message), dir, dbfilename)
  }

  // ---- which branch ----------------------------------------------------------

  /** A request whose first token is not CONFIG in any case gets no reply at all. */
  lemma SilentUnlessConfig(commands: seq<string>, dir: Option<string>, dbfilename: Option<string>)
    ensures HandleCommand(commands, dir, dbfilename) == NoReply
        <==> |commands| > 0 && Upper(commands[0]) != "CONFIG"
  {
  }

  /** The handler raises `IndexError` exactly for a request that is blank. */
  lemma BlankRequestRaises(message: string, dir: Option<string>, dbfilename: Option<string>)
    ensures HandleClient(message, dir, dbfilename) == Raise(IndexError) <==> AllSpace(message)
  {
    StripThenSplit(message);
    SplitEmptyIffBlank(message);
    IndexErrorIffNoTokens(Tokenize(message), dir, dbfilename);
  }

  lemma IndexErrorIffNoTokens(commands: seq<string>, dir: Option<string>, dbfilename: Option<string>)
    ensures HandleCommand(commands, dir, dbfilename) == Raise(IndexError) <==> commands == []
  {
  }

  /** The unknown-command reply is the text `-ERR unknown command\r\n`. */
  lemma UnknownCommandText()
    ensures UnknownCommandReply() == "-ERR unknown command\r\n"
  {
  }

  /** A client reads the unknown-command reply back as `Constant.INVALID_COMMAND`. */
  lemma UnknownCommandReads()
    ensures ReadError(UnknownCommandReply()) == Some((INVALID_COMMAND, ""))
  {
    ReadEncodedError(INVALID_COMMAND, "");
    assert UnknownCommandReply() + "" == UnknownCommandReply();
  }

  /** CONFIG with fewer than three tokens is answered with the unknown-command error. */
  lemma ShortConfigIsUnknown(commands: seq<string>, dir: Option<string>, dbfilename: Option<string>)
    requires 0 < |commands| < 3 && Upper(commands[0]) == "CONFIG"
    ensures HandleCommand(commands, dir, dbfilename) == Respond(UnknownCommandReply())
  {
  }

  /**
    CONFIG whose second token is not `get`, or whose third is neither `dir`
    nor `dbfilename`, is answered with the unknown-command error and not with
    an empty array.
   */
  lemma OtherConfigIsUnknown(commands: seq<string>, dir: Option<string>, dbfilename: Option<string>)
    requires |commands| >= 3 && Upper(commands[0]) == "CONFIG"
    requires Lower(commands[1]) != "get" || (Lower(commands[2]) != "dir" && Lower(commands[2]) != "dbfilename")
    ensures HandleCommand(commands, dir, dbfilename) == Respond(UnknownCommandReply())
    ensures HandleCommand(commands, dir, dbfilename) != Respond(Encode(Array([])))
  {
    UnknownIsNotEmptyArray();
  }

  /** The unknown-command error and the empty array are different replies. */
  lemma UnknownIsNotEmptyArray()
    ensures UnknownCommandReply() != Encode(Array([]))
  {
    UnknownCommandText();
    EmptyArray();
    assert UnknownCommandReply()[0] != Encode(Array([]))[0];
  }

  /**
    The match is case-insensitive: CONFIG, get and the parameter name spelt
    in any mixture of ASCII cases select the parameter.
   */
  lemma ConfigGetAnyCase(commands: seq<string>, p: Param)
    requires |commands| >= 3
    requires SpellsUpper(commands[0], "CONFIG")
    requires SpellsLower(commands[1], "get")
    requires SpellsLower(commands[2], ParamName(p))
    ensures RouteOf(commands) == ConfigGet(p)
  {
    UpperOfSpelling(commands[0], "CONFIG");
    LowerOfSpelling(commands[1], "get");
    LowerOfSpelling(commands[2], ParamName(p));
  }

  /**
    For ASCII tokens the converse holds as well: CONFIG GET selects a
    parameter only when the three tokens spell CONFIG, get and its name.
   */
  lemma ConfigGetOnlyAsciiSpellings(commands: seq<string>, p: Param)
    requires RouteOf(commands) == ConfigGet(p)
    requires IsAscii(commands[0]) && IsAscii(commands[1]) && IsAscii(commands[2])
    ensures SpellsUpper(commands[0], "CONFIG")
    ensures SpellsLower(commands[1], "get")
    ensures SpellsLower(commands[2], ParamName(p))
  {
    SpellingOfUpper(commands[0], "CONFIG");
    SpellingOfLower(commands[1], "get");
    SpellingOfLower(commands[2], ParamName(p));
  }

  /** `upper()` maps the dotless i (U+0131) to `I`, so `conf\u0131g` is taken for CONFIG. */
  lemma DotlessIConfig()
    ensures RouteOf(["conf\U{131}g", "get", "dir"]) == ConfigGet(Dir)
  {
    DotlessIUpper();
    LowerGet();
    LowerDir();
  }

  lemma DotlessIUpper()
    ensures Upper("conf\U{131}g") == "CONFIG"
  {
    assert Upper("\U{131}g") == "IG";
    assert Upper("onf\U{131}g") == "ONFIG";
  }

  /** `upper()` maps the ligature fi (U+FB01) to `FI`, so the five characters `con\ufb01g` are taken for CONFIG. */
  lemma LigatureConfig()
    ensures RouteOf(["con\U{FB01}g", "get", "dir"]) == ConfigGet(Dir)
  {
    LigatureUpper();
    LowerGet();
    LowerDir();
  }

  lemma LigatureUpper()
    ensures Upper("con\U{FB01}g") == "CONFIG"
  {
    assert Upper("\U{FB01}g") == "FIG";
    assert Upper("on\U{FB01}g") == "ONFIG";
  }

  /**
    A request sent as a RESP array, such as `*3\r\n$6\r\nCONFIG\r\n...` the
    way Redis clients send commands, gets no reply: its first token is the
    array header, which is never CONFIG.
   */
  lemma RespFramedRequestIgnored(message: string, dir: Option<string>, dbfilename: Option<string>)
    requires |message| > 0 && message[0] == '*'
    ensures HandleClient(message, dir, dbfilename) == NoReply
  {
    StripThenSplit(message);
    FirstToken(message);
    StarCommandIgnored(Split(message), dir, dbfilename);
  }

  /** A first token that starts with `*` is never CONFIG in any case. */
  lemma StarCommandIgnored(commands: seq<string>, dir: Option<string>, dbfilename: Option<string>)
    requires |commands| > 0 && |commands[0]| > 0 && commands[0][0] == '*'
    ensures HandleCommand(commands, dir, dbfilename) == NoReply
  {
    var head := commands[0];
    assert Upper(head) == UpperChar('*') + Upper(head[1..]);
    assert Upper(head)[0] == '*';
  }

  /** Tokens after the third never change the outcome. */
  lemma ExtraTokensIgnored(commands: seq<string>, extra: seq<string>, dir: Option<string>, dbfilename: Option<string>)
    requires |commands| >= 3
    ensures HandleCommand(commands + extra, dir, dbfilename) == HandleCommand(commands, dir, dbfilename)
  {
    var all := commands + extra;
    assert all[0] == commands[0] && all[1] == commands[1] && all[2] == commands[2];
  }

  /** A selected parameter that was never configured makes `.encode()` raise. */
  lemma UnsetParamRaises(commands: seq<string>, dir: Option<string>, dbfilename: Option<string>)
    requires RouteOf(commands).ConfigGet?
    ensures HandleCommand(commands, dir, dbfilename) == Raise(AttributeError)
        <==> ConfigValue(RouteOf(commands).param, dir, dbfilename).None?
  {
  }

  // ---- what the client reads ------------------------------------------------

  /**
    The CONFIG GET reply as written is one well-framed array of two elements,
    but its elements are the bulk encodings of the `bytes` name and value, not
    the name and the value themselves.
   */
  lemma ConfigGetAsWrittenReads(name: string, value: string)
    ensures ReadArray(ConfigGetAsWritten(name, value))
         == Some(([EncodeBulk(Bytes(name)), EncodeBulk(Bytes(value))], ""))
    ensures ReadArray(ConfigGetAsWritten(name, value)) != Some(([name, value], ""))
  {
    var texts := [EncodeBulk(Bytes(name)), EncodeBulk(Bytes(value))];
    assert AsStr(texts) == [Str(texts[0]), Str(texts[1])];
    ReadEncodedArray(texts, "");
    assert ConfigGetAsWritten(name, value) + "" == ConfigGetAsWritten(name, value);
    assert |texts[0]| > |name|;
  }

  lemma BytesBulkOfTmp()
    ensures EncodeBulk(Bytes("/tmp")) == "$4\r\nb'/tmp'\r\n"
  {
    assert Digits(4) == "4";
  }

  /**
    For `CONFIG GET dir` with dir `/tmp`, a client reads two fragments that
    are not themselves readable bulk strings.
   */
  lemma ConfigGetDirExample()
    ensures ReadArray(ConfigGetAsWritten("dir", "/tmp"))
         == Some((["$3\r\nb'dir'\r\n", "$4\r\nb'/tmp'\r\n"], ""))
    ensures ReadBulk("$3\r\nb'dir'\r\n") == None
  {
    BytesBulkOfDirUnreadable();
    BytesBulkOfTmp();
    ConfigGetAsWrittenReads("dir", "/tmp");
  }

  /** The intended CONFIG GET reply reads back as exactly the name and the value. */
  lemma ConfigGetIntendedReads(name: string, value: string)
    ensures ReadArray(ConfigGetIntended(name, value)) == Some(([name, value], ""))
  {
    assert AsStr([name, value]) == [Str(name), Str(value)];
    ReadEncodedArray([name, value], "");
    assert ConfigGetIntended(name, value) + "" == ConfigGetIntended(name, value);
  }

  /**
    Every reply the handler writes is one complete RESP frame: either the
    unknown-command error or an array of two bulk strings, with nothing after it.
   */
  lemma RepliesAreFrames(commands: seq<string>, dir: Option<string>, dbfilename: Option<string>)
    requires HandleCommand(commands, dir, dbfilename).Respond?
    ensures var r := HandleCommand(commands, dir, dbfilename).reply;
      || ReadError(r) == Some((INVALID_COMMAND, ""))
      || (ReadArray(r).Some? && |ReadArray(r).value.0| == 2 && ReadArray(r).value.1 == "")
  {
    match RouteOf(commands)
    case Unknown => UnknownCommandReads();
    case ConfigGet(p) =>
      var v := ConfigValue(p, dir, dbfilename).value;
      ConfigGetAsWrittenReads(ParamName(p), v);
  }

  /**
    With the corrected reply, a CONFIG GET for a configured parameter is read
    by the client as the parameter's name and its value.
   */
  lemma IntendedConfigGet(commands: seq<string>, dir: Option<string>, dbfilename: Option<string>)
    requires RouteOf(commands).ConfigGet?
    requires ConfigValue(RouteOf(commands).param, dir, dbfilename).Some?
    ensures var p := RouteOf(commands).param;
      && HandleCommandIntended(commands, dir, dbfilename).Respond?
      && ReadArray(HandleCommandIntended(commands, dir, dbfilename).reply)
         == Some(([ParamName(p), ConfigValue(p, dir, dbfilename).value], ""))
  {
    var p := RouteOf(commands).param;
    ConfigGetIntendedReads(ParamName(p), ConfigValue(p, dir, dbfilename).value);
  }

  /** The correction changes only the CONFIG GET reply; every other outcome is the source's. */
  lemma IntendedAgreesElsewhere(commands: seq<string>, dir: Option<string>, dbfilename: Option<string>)
    requires !HandleCommand(commands, dir, dbfilename).Respond? || RouteOf(commands).Unknown?
    ensures HandleCommandIntended(commands, dir, dbfilename) == HandleCommand(commands, dir, dbfilename)
  {
  }

  /**
    A request line made of tokens joined by single spaces, followed by any
    whitespace (such as the `\r\n` a client sends), is dispatched on exactly
    those tokens.
   */
  lemma JoinedRequest(ts: seq<string>, trailer: string, dir: Option<string>, dbfilename: Option<string>)
    requires forall i :: 0 <= i < |ts| ==> IsToken(ts[i])
    requires AllSpace(trailer)
    ensures HandleClient(JoinSpace(ts) + trailer, dir, dbfilename) == HandleCommand(ts, dir, dbfilename)
  {
    StripThenSplit(JoinSpace(ts) + trailer);
    SplitIgnoresTrailingSpace(JoinSpace(ts), trailer);
    SplitJoinSpace(ts);
  }

  /** The words of a `CONFIG GET dir` request are tokens. */
  lemma ConfigGetDirTokens()
    ensures var ts := ["CONFIG", "GET", "dir"];
      forall i :: 0 <= i < |ts| ==> IsToken(ts[i])
  {
    var ts := ["CONFIG", "GET", "dir"];
    assert IsToken(ts[0]) && IsToken(ts[1]) && IsToken(ts[2]);
  }

  lemma UpperConfig()
    ensures Upper("CONFIG") == "CONFIG"
  {
    UpperOfSpelling("CONFIG", "CONFIG");
  }

  lemma LowerGet()
    ensures Lower("GET") == "get"
  {
    forall i | 0 <= i < 3
      ensures "GET"[i] == ("get"[i] as int - 32) as char
    {
    }
    LowerOfSpelling("GET", "get");
  }

  lemma LowerDir()
    ensures Lower("dir") == "dir"
  {
    LowerOfSpelling("dir", "dir");
  }

  /** The words `CONFIG GET dir` select the `dir` parameter. */
  lemma ConfigGetDirRoute()
    ensures RouteOf(["CONFIG", "GET", "dir"]) == ConfigGet(Dir)
  {
    UpperConfig();
    LowerGet();
    LowerDir();
  }

  /** A whole `CONFIG GET dir` request line, end to end, is answered with the as-written reply. */
  lemma ConfigGetDirRequest(d: string, dbfilename: Option<string>)
    ensures HandleClient(JoinSpace(["CONFIG", "GET", "dir"]) + "\r\n", Some(d), dbfilename)
         == Respond(ConfigGetAsWritten("dir", d))
  {
    ConfigGetDirTokens();
    ConfigGetDirRoute();
    JoinedRequest(["CONFIG", "GET", "dir"], "\r\n", Some(d), dbfilename);
  }
}
