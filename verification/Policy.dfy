/** The command policy as a function of a token's capabilities. */
module Policy {
  import opened Prelude
  import opened Text
  import opened Config

  const DENIED_SCRIPTING: seq<string> :=
    ["EVAL", "EVAL_RO", "EVALSHA", "EVALSHA_RO", "FCALL", "FCALL_RO", "FUNCTION", "SCRIPT"]

  const DENIED_COMMANDS: seq<string> := DENIED_SCRIPTING + [
    "ACL", "CLIENT",
    "CLUSTER", "COMMAND", "CONFIG", "MODULE", "XGROUP", "ASKING", "AUTH", "HELLO", "QUIT", "READONLY",
    "READWRITE", "RESET", "SELECT", "DISCARD", "EXEC", "MULTI", "UNWATCH", "WATCH", "BGREWRITEAOF", "BGSAVE",
    "BLMOVE", "BLMPOP", "BLPOP", "BRPOP", "BRPOPLPUSH", "BZPOPMAX", "BZPOPMIN", "BZMPOP", "DBSIZE", "DEBUG",
    "FLUSHALL", "FLUSHDB", "INFO", "KEYS", "LASTSAVE", "LATENCY", "MEMORY", "MIGRATE", "MONITOR", "PSUBSCRIBE",
    "PSYNC", "PUNSUBSCRIBE", "PUBLISH", "PUBSUB", "REPLCONF", "REPLICAOF", "RESTORE", "ROLE", "SAVE",
    "SHUTDOWN", "SLAVEOF", "SLOWLOG", "SORT", "SORT_RO", "SSUBSCRIBE", "SUNSUBSCRIBE", "SUBSCRIBE", "SWAPDB",
    "SYNC", "UNSUBSCRIBE", "WAIT", "WAITAOF", "XREAD", "XREADGROUP"
  ]

  const RATELIMIT_COMMANDS: seq<string> := ["EVAL", "EVALSHA", "SCRIPT"]

  const REALTIME_COMMANDS: seq<string> := ["EXPIRE", "PUBLISH", "XADD", "XRANGE"]

  datatype CommandArg = Str(value: string) | Number(text: string) | Bool(b: bool) | Null

  datatype RedisCommand = RedisCommand(name: string, args: seq<seq<Byte>>)

  datatype SecurityPolicy = SecurityPolicy(
    allowed: set<string>, blocked: set<string>, maxPipelineCommands: nat, maxCommandArgs: nat, maxArgBytes: nat)

  datatype PolicyError =
    | EmptyAllowlist | DeniedInAllowlist
    | EmptyCommand | TooManyArguments | NotAString | HardDenied | NotAllowed | Blocked
    | BadScriptSubcommand | NullArgument | ArgumentTooLarge | PipelineTooLarge

  /** `is_denied_command`. */
  predicate IsDenied(name: string, ratelimit: bool, realtime: bool) {
    if ratelimit && name in RATELIMIT_COMMANDS then false
    else if realtime && name in REALTIME_COMMANDS then false
    else name in DENIED_COMMANDS
  }

  /** `validate`. */
  function Validate(policy: SecurityPolicy): Result<(), PolicyError> {
    if policy.allowed == {} then Err(EmptyAllowlist)
    else if (set c | c in policy.allowed && IsDenied(c, false, false)) != {} then Err(DeniedInAllowlist)
    else Ok(())
  }

  /** A string argument as a keyword. */
  function Keyword(arg: CommandArg): Option<string> {
    if arg.Str? then Some(Upper(Trim(arg.value))) else None
  }

  /** `validate_subcommand`. */
  function ScriptOk(words: seq<CommandArg>): Result<(), PolicyError> {
    if |words| < 2 || Keyword(words[1]).None? then Err(BadScriptSubcommand)
    else
      match Keyword(words[1]).value
      case "LOAD" => if |words| != 3 then Err(BadScriptSubcommand) else Ok(())
      case "EXISTS" => if |words| < 3 then Err(BadScriptSubcommand) else Ok(())
      case "FLUSH" =>
        if |words| > 3 then Err(BadScriptSubcommand)
        else if |words| == 3 then
          if Keyword(words[2]) == Some("SYNC") || Keyword(words[2]) == Some("ASYNC") then Ok(())
          else Err(BadScriptSubcommand)
        else Ok(())
      case _ => Err(BadScriptSubcommand)
  }

  /** The bytes an argument is sent as; null has none. */
  function Rendered(arg: CommandArg): Option<seq<Byte>> {
    match arg
    case Str(value) => Some(Utf8(value))
    case Number(text) => Some(Utf8(text))
    case Bool(b) => Some(if b then Ascii("true") else Ascii("false"))
    case Null => None
  }

  /** `to_arg_bytes`. */
  function ArgBytes(arg: CommandArg, max: nat): Result<seq<Byte>, PolicyError> {
    match Rendered(arg)
    case None => Err(NullArgument)
    case Some(bytes) => if |bytes| > max then Err(ArgumentTooLarge) else Ok(bytes)
  }

  /** Converting arguments in order, stopping at the first error. */
  function AllArgBytes(args: seq<CommandArg>, max: nat): Result<seq<seq<Byte>>, PolicyError> {
    if args == [] then Ok([])
    else
      match ArgBytes(args[0], max)
      case Err(error) => Err(error)
      case Ok(first) =>
        match AllArgBytes(args[1..], max)
        case Err(error) => Err(error)
        case Ok(rest) => Ok([first] + rest)
  }

  /** The gate a command name must pass, up to its arguments. */
  function Admits(policy: SecurityPolicy, words: seq<CommandArg>, name: string, caps: TokenCaps):
    Result<(), PolicyError>
  {
    var gate :=
      if name == "SCRIPT" && caps.ratelimit then ScriptOk(words)
      else if IsDenied(name, caps.ratelimit, caps.realtime) then Err(HardDenied) else Ok(());
    if gate.Err? then gate
    else if !(caps.command && name in policy.allowed)
            && !(caps.ratelimit && name in RATELIMIT_COMMANDS)
            && !(caps.realtime && name in REALTIME_COMMANDS) then Err(NotAllowed)
    else if name in policy.blocked then Err(Blocked)
    else Ok(())
  }

  /** `parse_command_array`. */
  function ParseCommandArray(policy: SecurityPolicy, words: seq<CommandArg>, caps: TokenCaps):
    Result<RedisCommand, PolicyError>
  {
    if words == [] then Err(EmptyCommand)
    else if |words| > Min(policy.maxCommandArgs + 1, WORD - 1) then Err(TooManyArguments)
    else if Keyword(words[0]).None? then Err(NotAString)
    else
      var name := Keyword(words[0]).value;
      if name == "" then Err(EmptyCommand)
      else
        match Admits(policy, words, name, caps)
        case Err(error) => Err(error)
        case Ok(_) =>
          match AllArgBytes(words[1..], policy.maxArgBytes)
          case Err(error) => Err(error)
          case Ok(args) => Ok(RedisCommand(name, args))
  }

  /** Parsing commands in order, stopping at the first error. */
  function ParseAll(policy: SecurityPolicy, commands: seq<seq<CommandArg>>, caps: TokenCaps):
    Result<seq<RedisCommand>, PolicyError>
  {
    if commands == [] then Ok([])
    else
      match ParseCommandArray(policy, commands[0], caps)
      case Err(error) => Err(error)
      case Ok(first) =>
        match ParseAll(policy, commands[1..], caps)
        case Err(error) => Err(error)
        case Ok(rest) => Ok([first] + rest)
  }

  /** `parse_command_list`. */
  function ParseCommandList(policy: SecurityPolicy, commands: seq<seq<CommandArg>>, caps: TokenCaps):
    Result<seq<RedisCommand>, PolicyError>
  {
    if |commands| > policy.maxPipelineCommands then Err(PipelineTooLarge)
    else ParseAll(policy, commands, caps)
  }

  /** The capabilities a token holds, one at a time. */
  function Singles(caps: TokenCaps): set<TokenCaps> {
    (if caps.command then {TokenCaps(true, false, false)} else {})
    + (if caps.ratelimit then {TokenCaps(false, true, false)} else {})
    + (if caps.realtime then {TokenCaps(false, false, true)} else {})
  }

  lemma ScriptIsScoped()
    ensures "SCRIPT" in DENIED_COMMANDS && "SCRIPT" in RATELIMIT_COMMANDS && "SCRIPT" !in REALTIME_COMMANDS
  {
  }

  /** The gate in closed form, one disjunct per capability. */
  lemma AdmitsMeans(policy: SecurityPolicy, words: seq<CommandArg>, name: string, caps: TokenCaps)
    ensures Admits(policy, words, name, caps).Ok? <==>
            && name !in policy.blocked
            && (|| (caps.command && name in policy.allowed && name !in DENIED_COMMANDS)
                || (caps.ratelimit && name in RATELIMIT_COMMANDS && (name == "SCRIPT" ==> ScriptOk(words).Ok?))
                || (caps.realtime && name in REALTIME_COMMANDS))
  {
    ScriptIsScoped();
  }

  /** The name gate opens for a set of capabilities exactly when it opens for one of them. */
  lemma AdmitsIsUnion(policy: SecurityPolicy, words: seq<CommandArg>, name: string, caps: TokenCaps)
    ensures Admits(policy, words, name, caps).Ok? <==>
            exists single :: single in Singles(caps) && Admits(policy, words, name, single).Ok?
  {
    hide Admits, ScriptOk;
    AdmitsMeans(policy, words, name, caps);
    AdmitsMeans(policy, words, name, TokenCaps(true, false, false));
    AdmitsMeans(policy, words, name, TokenCaps(false, true, false));
    AdmitsMeans(policy, words, name, TokenCaps(false, false, true));
    assert caps.command ==> TokenCaps(true, false, false) in Singles(caps);
    assert caps.ratelimit ==> TokenCaps(false, true, false) in Singles(caps);
    assert caps.realtime ==> TokenCaps(false, false, true) in Singles(caps);
  }

  /** Capabilities compose as a union: a command array is accepted for a token exactly when some single capability
      of the token accepts it, and every one that does yields the same command. */
  lemma CapabilitiesCompose(policy: SecurityPolicy, words: seq<CommandArg>, caps: TokenCaps)
    ensures ParseCommandArray(policy, words, caps).Ok? <==>
            exists single :: single in Singles(caps) && ParseCommandArray(policy, words, single).Ok?
    ensures forall single :: single in Singles(caps) && ParseCommandArray(policy, words, single).Ok? ==>
              ParseCommandArray(policy, words, single) == ParseCommandArray(policy, words, caps)
  {
    if words != [] && Keyword(words[0]).Some? {
      AdmitsIsUnion(policy, words, Keyword(words[0]).value, caps);
      forall single | single in Singles(caps) && ParseCommandArray(policy, words, single).Ok?
        ensures ParseCommandArray(policy, words, single) == ParseCommandArray(policy, words, caps)
      {
        assert Admits(policy, words, Keyword(words[0]).value, single).Ok?;
      }
      if ParseCommandArray(policy, words, caps).Ok? {
        var single :| single in Singles(caps) && Admits(policy, words, Keyword(words[0]).value, single).Ok?;
        assert ParseCommandArray(policy, words, single).Ok?;
      }
    }
  }

  lemma {:induction false} ParseAllInOrder(policy: SecurityPolicy, commands: seq<seq<CommandArg>>, caps: TokenCaps)
    ensures ParseAll(policy, commands, caps).Ok? <==>
            forall i :: 0 <= i < |commands| ==> ParseCommandArray(policy, commands[i], caps).Ok?
    ensures ParseAll(policy, commands, caps).Ok? ==>
              var parsed := ParseAll(policy, commands, caps).value;
              |parsed| == |commands|
              && forall i :: 0 <= i < |commands| ==> ParseCommandArray(policy, commands[i], caps) == Ok(parsed[i])
  {
    hide ParseCommandArray;
    if commands != [] {
      ParseAllInOrder(policy, commands[1..], caps);
      assert forall i :: 1 <= i < |commands| ==> commands[i] == commands[1..][i - 1];
    }
  }

  /** A pipeline is accepted for a token exactly when it fits and each of its commands is accepted for some single
      capability of the token. */
  lemma PipelinesCompose(policy: SecurityPolicy, commands: seq<seq<CommandArg>>, caps: TokenCaps)
    ensures ParseCommandList(policy, commands, caps).Ok? <==>
            && |commands| <= policy.maxPipelineCommands
            && forall i :: 0 <= i < |commands| ==>
                 exists single :: single in Singles(caps) && ParseCommandArray(policy, commands[i], single).Ok?
  {
    ParseAllInOrder(policy, commands, caps);
    forall i | 0 <= i < |commands|
      ensures ParseCommandArray(policy, commands[i], caps).Ok? <==>
              exists single :: single in Singles(caps) && ParseCommandArray(policy, commands[i], single).Ok?
    {
      CapabilitiesCompose(policy, commands[i], caps);
    }
  }

  /** The name is one the token may use: allowlisted and not denied, or in the profile of a held capability. */
  ghost predicate Entitled(policy: SecurityPolicy, name: string, caps: TokenCaps) {
    || (caps.command && name in policy.allowed && name !in DENIED_COMMANDS)
    || (caps.ratelimit && name in RATELIMIT_COMMANDS)
    || (caps.realtime && name in REALTIME_COMMANDS)
  }

  /** The SCRIPT forms the ratelimit profile admits. */
  ghost predicate PermittedScript(words: seq<CommandArg>) {
    && |words| >= 2
    && (|| (Keyword(words[1]) == Some("LOAD") && |words| == 3)
        || (Keyword(words[1]) == Some("EXISTS") && |words| >= 3)
        || (Keyword(words[1]) == Some("FLUSH")
            && (|words| == 2 || (|words| == 3 && Keyword(words[2]) in {Some("SYNC"), Some("ASYNC")}))))
  }

  lemma ValidatedAllowlist(policy: SecurityPolicy)
    ensures Validate(policy).Ok? <==>
            policy.allowed != {} && forall c :: c in policy.allowed ==> c !in DENIED_COMMANDS
  {
    var denied := set c | c in policy.allowed && IsDenied(c, false, false);
    if c :| c in policy.allowed && c in DENIED_COMMANDS {
      assert c in denied;
    }
  }

  lemma ScriptOkIff(words: seq<CommandArg>)
    ensures ScriptOk(words).Ok? <==> PermittedScript(words)
  {
  }

  /** The bytes say what the client wrote: a string or the text of a number in UTF-8, a boolean by its name. There are
      none for null. */
  ghost predicate Carries(arg: CommandArg, bytes: seq<Byte>) {
    match arg
    case Str(value) => FromUtf8(bytes) == Some(value)
    case Number(text) => FromUtf8(bytes) == Some(text)
    case Bool(b) => FromUtf8(bytes) == Some(if b then "true" else "false")
    case Null => false
  }

  lemma RenderedIff(arg: CommandArg, bytes: seq<Byte>)
    ensures Rendered(arg) == Some(bytes) <==> Carries(arg, bytes)
  {
    AsciiIsUtf8("true");
    AsciiIsUtf8("false");
    hide Utf8, FromUtf8, Ascii;
    match arg
    case Str(value) => Utf8IffFrom(value, bytes);
    case Number(text) => Utf8IffFrom(text, bytes);
    case Bool(b) => Utf8IffFrom(if b then "true" else "false", bytes);
    case Null =>
  }

  lemma ArgBytesIff(arg: CommandArg, max: nat, bytes: seq<Byte>)
    ensures ArgBytes(arg, max) == Ok(bytes) <==> Carries(arg, bytes) && |bytes| <= max
  {
    RenderedIff(arg, bytes);
    hide Rendered, Carries;
  }

  lemma {:induction false} AllArgBytesIff(args: seq<CommandArg>, max: nat, bytes: seq<seq<Byte>>)
    ensures AllArgBytes(args, max) == Ok(bytes) <==>
            |bytes| == |args| && forall i :: 0 <= i < |args| ==> Carries(args[i], bytes[i]) && |bytes[i]| <= max
  {
    hide ArgBytes, Carries;
    if args == [] {
    } else if bytes == [] {
      AllArgBytesIff(args[1..], max, []);
    } else {
      AllArgBytesIff(args[1..], max, bytes[1..]);
      ArgBytesIff(args[0], max, bytes[0]);
      assert bytes == [bytes[0]] + bytes[1..];
      if |bytes| == |args| {
        assert forall i :: 1 <= i < |args| ==> args[i] == args[1..][i - 1] && bytes[i] == bytes[1..][i - 1];
      }
    }
  }

  /** One held capability covers the command: allowlisted and not denied, or in the profile of the capability, where
      SCRIPT must have a permitted form. */
  ghost predicate Covered(policy: SecurityPolicy, words: seq<CommandArg>, name: string, caps: TokenCaps) {
    || (caps.command && name in policy.allowed && name !in DENIED_COMMANDS)
    || (caps.ratelimit && name in RATELIMIT_COMMANDS && (name == "SCRIPT" ==> PermittedScript(words)))
    || (caps.realtime && name in REALTIME_COMMANDS)
  }

  /** The words are that command, and the policy and the capabilities let it through. */
  ghost predicate IsCommand(policy: SecurityPolicy, words: seq<CommandArg>, caps: TokenCaps, command: RedisCommand) {
    && 1 <= |words| <= policy.maxCommandArgs + 1 && |words| < WORD
    && words[0].Str? && command.name == Upper(Trim(words[0].value)) && command.name != ""
    && command.name !in policy.blocked && Covered(policy, words, command.name, caps)
    && |command.args| == |words| - 1
    && forall k :: 0 <= k < |command.args| ==>
         Carries(words[k + 1], command.args[k]) && |command.args[k]| <= policy.maxArgBytes
  }

  lemma AdmitsIffCovered(policy: SecurityPolicy, words: seq<CommandArg>, name: string, caps: TokenCaps)
    ensures Admits(policy, words, name, caps).Ok? <==>
            name !in policy.blocked && Covered(policy, words, name, caps)
  {
    AdmitsMeans(policy, words, name, caps);
    ScriptOkIff(words);
    hide Admits, ScriptOk, PermittedScript;
  }

  /** Parsing a command array, in closed form: exactly these words are accepted, as exactly this command. */
  lemma CommandIff(policy: SecurityPolicy, words: seq<CommandArg>, caps: TokenCaps, command: RedisCommand)
    ensures ParseCommandArray(policy, words, caps) == Ok(command) <==> IsCommand(policy, words, caps, command)
  {
    hide Admits, Covered, AllArgBytes, Carries, Upper, Trim;
    if words != [] && words[0].Str? {
      AdmitsIffCovered(policy, words, Upper(Trim(words[0].value)), caps);
      AllArgBytesIff(words[1..], policy.maxArgBytes, command.args);
      if |command.args| == |words| - 1 {
        assert forall k :: 0 <= k < |command.args| ==> words[k + 1] == words[1..][k];
      }
    }
  }

  /** Parsing a pipeline, in closed form: it is accepted exactly when it fits and each of its arrays is a command, and
      the commands come out in order. */
  lemma PipelineIff(policy: SecurityPolicy, commands: seq<seq<CommandArg>>, caps: TokenCaps,
                    parsed: seq<RedisCommand>)
    ensures ParseCommandList(policy, commands, caps) == Ok(parsed) <==>
            && |commands| <= policy.maxPipelineCommands && |parsed| == |commands|
            && forall i :: 0 <= i < |commands| ==> IsCommand(policy, commands[i], caps, parsed[i])
  {
    ParseAllInOrder(policy, commands, caps);
    hide ParseCommandArray, IsCommand, ParseAll;
    if |parsed| == |commands| {
      forall i | 0 <= i < |commands|
        ensures ParseCommandArray(policy, commands[i], caps) == Ok(parsed[i]) <==>
                IsCommand(policy, commands[i], caps, parsed[i])
      {
        CommandIff(policy, commands[i], caps, parsed[i]);
      }
      if forall i :: 0 <= i < |commands| ==> IsCommand(policy, commands[i], caps, parsed[i]) {
        assert ParseAll(policy, commands, caps).value == parsed;
      }
    }
  }

  /** So under any policy, validated or not, every command of an accepted pipeline stands in its place, is one the token
      is entitled to, is not blocked, is a permitted form if it is SCRIPT, says what the client wrote, and respects
      both size limits. */
  lemma AcceptedPipeline(policy: SecurityPolicy, commands: seq<seq<CommandArg>>, caps: TokenCaps, i: nat)
    requires ParseCommandList(policy, commands, caps).Ok? && i < |commands|
    ensures var parsed := ParseCommandList(policy, commands, caps).value;
            && |parsed| == |commands| <= policy.maxPipelineCommands
            && |commands[i]| == |parsed[i].args| + 1
            && Keyword(commands[i][0]) == Some(parsed[i].name)
            && Entitled(policy, parsed[i].name, caps)
            && parsed[i].name !in policy.blocked
            && (parsed[i].name == "SCRIPT" ==> caps.ratelimit && PermittedScript(commands[i]))
            && |parsed[i].args| <= policy.maxCommandArgs
            && forall k :: 0 <= k < |parsed[i].args| ==>
                 Carries(commands[i][k + 1], parsed[i].args[k]) && |parsed[i].args[k]| <= policy.maxArgBytes
  {
    var parsed := ParseCommandList(policy, commands, caps).value;
    PipelineIff(policy, commands, caps, parsed);
    assert IsCommand(policy, commands[i], caps, parsed[i]);
    ScriptIsScoped();
    hide ParseCommandList, Carries, PermittedScript;
  }

  /** An argument too long to send. */
  ghost predicate TooLong(arg: CommandArg, max: nat) {
    exists bytes :: Carries(arg, bytes) && |bytes| > max
  }

  /** What each error says of the words. */
  ghost predicate Reason(policy: SecurityPolicy, words: seq<CommandArg>, caps: TokenCaps, error: PolicyError) {
    var name := if words != [] && words[0].Str? then Upper(Trim(words[0].value)) else "";
    match error
    case EmptyCommand => words == [] || (words[0].Str? && name == "")
    case TooManyArguments => |words| > policy.maxCommandArgs + 1 || |words| >= WORD
    case NotAString => words != [] && !words[0].Str?
    case HardDenied => name in DENIED_COMMANDS && !Covered(policy, words, name, caps)
    case NotAllowed => !Covered(policy, words, name, caps)
    case Blocked => name in policy.blocked
    case BadScriptSubcommand => name == "SCRIPT" && caps.ratelimit && !PermittedScript(words)
    case NullArgument => Null in words
    case ArgumentTooLarge => exists k :: 1 <= k < |words| && TooLong(words[k], policy.maxArgBytes)
    case _ => false
  }

  lemma {:induction false} ArgFault(args: seq<CommandArg>, max: nat)
    requires AllArgBytes(args, max).Err?
    ensures match AllArgBytes(args, max).error
            case NullArgument => Null in args
            case ArgumentTooLarge => exists k :: 0 <= k < |args| && TooLong(args[k], max)
            case _ => false
  {
    match ArgBytes(args[0], max)
    case Ok(_) =>
      ArgFault(args[1..], max);
      if AllArgBytes(args, max).error.ArgumentTooLarge? {
        var k :| 0 <= k < |args[1..]| && TooLong(args[1..][k], max);
        assert TooLong(args[k + 1], max);
      }
    case Err(error) =>
      if error.ArgumentTooLarge? {
        RenderedIff(args[0], Rendered(args[0]).value);
        assert TooLong(args[0], max);
      }
  }

  lemma AdmitsFault(policy: SecurityPolicy, words: seq<CommandArg>, name: string, caps: TokenCaps)
    requires Admits(policy, words, name, caps).Err?
    ensures match Admits(policy, words, name, caps).error
            case HardDenied => name in DENIED_COMMANDS && !Covered(policy, words, name, caps)
            case NotAllowed => !Covered(policy, words, name, caps)
            case Blocked => name in policy.blocked
            case BadScriptSubcommand => name == "SCRIPT" && caps.ratelimit && !PermittedScript(words)
            case _ => false
  {
    ScriptOkIff(words);
    ScriptFault(words);
    hide ScriptOk, PermittedScript;
  }

  lemma ScriptFault(words: seq<CommandArg>)
    ensures ScriptOk(words).Err? ==> ScriptOk(words).error == BadScriptSubcommand
  {
  }

  lemma WordFault(words: seq<CommandArg>, max: nat)
    requires words != [] && AllArgBytes(words[1..], max).Err?
    ensures match AllArgBytes(words[1..], max).error
            case NullArgument => Null in words
            case ArgumentTooLarge => exists k :: 1 <= k < |words| && TooLong(words[k], max)
            case _ => false
  {
    hide TooLong;
    var args := words[1..];
    ArgFault(args, max);
    hide AllArgBytes;
    assert forall k :: 0 <= k < |args| ==> args[k] == words[k + 1];
  }

  /** Every refusal names a fault the words have. */
  lemma RefusalIsTrue(policy: SecurityPolicy, words: seq<CommandArg>, caps: TokenCaps)
    requires ParseCommandArray(policy, words, caps).Err?
    ensures Reason(policy, words, caps, ParseCommandArray(policy, words, caps).error)
  {
    hide Admits, Covered, PermittedScript, AllArgBytes, TooLong;
    if words != [] && words[0].Str? {
      var name := Upper(Trim(words[0].value));
      if Admits(policy, words, name, caps).Err? {
        AdmitsFault(policy, words, name, caps);
      }
      if AllArgBytes(words[1..], policy.maxArgBytes).Err? {
        WordFault(words, policy.maxArgBytes);
      }
    }
  }
}
