/** Token configuration: from the deserialised file to validated targets. */
module Config {
  import opened Prelude
  import opened Text

  /** A token hash; only equality matters. */
  type Hash = nat

  datatype TokenCaps = TokenCaps(command: bool, ratelimit: bool, realtime: bool)

  const DEFAULT_CAPS := TokenCaps(true, false, false)

  /** The token_type field once `TokenCaps::parse` has read it. */
  datatype CapsField = Absent | Parsed(caps: TokenCaps) | Malformed

  /** A token entry; `hash` is what `hmac_sha256_parse` makes of the field. */
  datatype FileToken = FileToken(id: string, name: Option<string>, hash: Option<Hash>, enabled: bool, caps: CapsField)

  datatype FileTarget = FileTarget(
    rrbId: string, connectionString: string, operationLimit: nat, connectionShards: nat, tokens: seq<FileToken>)

  datatype FileConfig = FileConfig(version: nat, targets: seq<FileTarget>)

  datatype AuthToken = AuthToken(id: string, name: Option<string>, hash: Hash, enabled: bool, caps: TokenCaps)

  datatype Redis = Redis(
    rrbId: string, connectionString: string, operationLimit: nat, connectionShards: nat, tokens: seq<AuthToken>)

  datatype ConfigError =
    | MissingHashToken | UnsupportedVersion | NoTargets
    | EmptyRrbId | DuplicateRrbId | EmptyConnectionString | ZeroOperationLimit | ZeroShards | NoTokens
    | EmptyTokenId | DuplicateTokenId | BadTokenType | BadHash | DuplicateHash | NoEnabledTokens

  predicate TokenOk(token: FileToken) {
    Trim(token.id) != "" && !token.caps.Malformed? && token.hash.Some?
  }

  predicate TargetOk(target: FileTarget) {
    && Trim(target.rrbId) != "" && Trim(target.connectionString) != ""
    && target.operationLimit > 0 && target.connectionShards > 0
    && target.tokens != []
    && (forall t :: t in target.tokens ==> TokenOk(t))
    && exists t :: t in target.tokens && t.enabled
  }

  /** The tokens of all targets, in file order. */
  function AllTokens(targets: seq<FileTarget>): seq<FileToken> {
    if targets == [] then [] else AllTokens(targets[..|targets| - 1]) + Last(targets).tokens
  }

  /** Token ids differ pairwise, and so do the hashes of enabled tokens. */
  ghost predicate TokensDistinct(tokens: seq<FileToken>) {
    forall i, j :: 0 <= i < j < |tokens| ==>
      && Trim(tokens[i].id) != Trim(tokens[j].id)
      && (tokens[i].enabled && tokens[j].enabled ==> tokens[i].hash != tokens[j].hash)
  }

  ghost predicate RrbIdsDistinct(targets: seq<FileTarget>) {
    forall i, j :: 0 <= i < j < |targets| ==> Trim(targets[i].rrbId) != Trim(targets[j].rrbId)
  }

  ghost predicate TargetsAccepted(targets: seq<FileTarget>) {
    && (forall t :: t in targets ==> TargetOk(t))
    && RrbIdsDistinct(targets)
    && TokensDistinct(AllTokens(targets))
  }

  /** What the file must satisfy to be accepted. */
  ghost predicate Accepted(config: FileConfig, hashToken: Option<string>) {
    && hashToken.Some? && Trim(hashToken.value) != ""
    && config.version == 1 && config.targets != []
    && TargetsAccepted(config.targets)
  }

  function TranslatedName(name: Option<string>): Option<string> {
    if name.Some? && Trim(name.value) != "" then Some(Trim(name.value)) else None
  }

  function TranslatedToken(token: FileToken): AuthToken
    requires TokenOk(token)
  {
    AuthToken(Trim(token.id), TranslatedName(token.name), token.hash.value, token.enabled,
              if token.caps.Absent? then DEFAULT_CAPS else token.caps.caps)
  }

  function Translated(target: FileTarget): Redis
    requires TargetOk(target)
  {
    Redis(Trim(target.rrbId), Trim(target.connectionString), target.operationLimit, target.connectionShards,
          seq(|target.tokens|, i requires 0 <= i < |target.tokens| => TranslatedToken(target.tokens[i])))
  }

  /** The ids seen in a stretch of tokens. */
  ghost function Ids(tokens: seq<FileToken>): set<string> {
    set t | t in tokens :: Trim(t.id)
  }

  /** The hashes of the enabled ones. */
  ghost function Hashes(tokens: seq<FileToken>): set<Hash> {
    set t | t in tokens && t.enabled && t.hash.Some? :: t.hash.value
  }

  lemma PrefixDistinct(a: seq<FileToken>, b: seq<FileToken>)
    requires TokensDistinct(a + b)
    ensures TokensDistinct(a)
  {
    forall i, j | 0 <= i < j < |a|
      ensures Trim(a[i].id) != Trim(a[j].id)
      ensures a[i].enabled && a[j].enabled ==> a[i].hash != a[j].hash
    {
      assert (a + b)[i] == a[i] && (a + b)[j] == a[j];
    }
  }

  lemma SnocDistinct(tokens: seq<FileToken>, token: FileToken)
    requires TokensDistinct(tokens) && token.hash.Some?
    requires forall t :: t in tokens ==> t.hash.Some?
    ensures TokensDistinct(tokens + [token]) <==>
            Trim(token.id) !in Ids(tokens) && (token.enabled ==> token.hash.value !in Hashes(tokens))
  {
    var all := tokens + [token];
    if TokensDistinct(all) {
      forall i | 0 <= i < |tokens|
        ensures Trim(tokens[i].id) != Trim(token.id)
        ensures tokens[i].enabled && token.enabled ==> tokens[i].hash != token.hash
      {
        assert all[i] == tokens[i] && all[|tokens|] == token;
      }
    }
  }

  lemma {:induction false} AllTokensPrefix(targets: seq<FileTarget>, i: nat)
    requires i <= |targets|
    ensures AllTokens(targets[..i]) <= AllTokens(targets)
    decreases |targets| - i
  {
    if i == |targets| {
      assert targets[..i] == targets;
    } else {
      AllTokensPrefix(targets, i + 1);
      assert targets[..i + 1][..i] == targets[..i];
      assert AllTokens(targets[..i + 1]) == AllTokens(targets[..i]) + targets[i].tokens;
    }
  }

  /** The parsed name is the written one without its white space, if anything is left of it. */
  predicate NameDescribes(written: Option<string>, name: Option<string>) {
    match name
    case Some(text) => written.Some? && text == Trim(written.value) && text != ""
    case None => written.None? || Trim(written.value) == ""
  }

  /** The parsed token is the written one; with no type it may send commands and nothing else. */
  predicate TokenDescribes(written: FileToken, token: AuthToken) {
    && token.id == Trim(written.id) && NameDescribes(written.name, token.name)
    && Some(token.hash) == written.hash && token.enabled == written.enabled
    && (written.caps.Absent? ==> token.caps == TokenCaps(true, false, false))
    && (written.caps.Parsed? ==> token.caps == written.caps.caps)
  }

  /** The parsed target is the written one, field by field and token by token. */
  ghost predicate Describes(written: FileTarget, target: Redis) {
    && target.rrbId == Trim(written.rrbId) && target.connectionString == Trim(written.connectionString)
    && target.operationLimit == written.operationLimit && target.connectionShards == written.connectionShards
    && |target.tokens| == |written.tokens|
    && forall k :: 0 <= k < |target.tokens| ==> TokenDescribes(written.tokens[k], target.tokens[k])
  }

  lemma TranslatedDescribes(target: FileTarget)
    requires TargetOk(target)
    ensures Describes(target, Translated(target))
  {
    forall k | 0 <= k < |target.tokens|
      ensures TokenDescribes(target.tokens[k], Translated(target).tokens[k])
    {
      assert TokenOk(target.tokens[k]);
      hide Trim;
    }
  }

  /** A stretch of tokens that can follow `before`. */
  ghost predicate TokensFine(before: seq<FileToken>, tokens: seq<FileToken>) {
    (forall t :: t in tokens ==> TokenOk(t)) && TokensDistinct(before + tokens)
  }

  /** The checks of a token, in the order of the code. */
  function TokenFault(token: FileToken, ids: set<string>, hashes: set<Hash>): Option<ConfigError> {
    if Trim(token.id) == "" then Some(EmptyTokenId)
    else if Trim(token.id) in ids then Some(DuplicateTokenId)
    else if token.caps.Malformed? then Some(BadTokenType)
    else if token.hash.None? then Some(BadHash)
    else if token.enabled && token.hash.value in hashes then Some(DuplicateHash)
    else None
  }

  /** The error is the first fault of the first token that has one. */
  ghost predicate FirstTokenFault(before: seq<FileToken>, tokens: seq<FileToken>, n: nat, error: ConfigError) {
    && n < |tokens| && TokensFine(before, tokens[..n])
    && TokenFault(tokens[n], Ids(before + tokens[..n]), Hashes(before + tokens[..n])) == Some(error)
  }

  /** The checks find no fault with a token exactly when it can follow those seen. */
  lemma NoFaultIff(seen: seq<FileToken>, token: FileToken)
    requires TokensDistinct(seen) && forall t :: t in seen ==> t.hash.Some?
    ensures TokenFault(token, Ids(seen), Hashes(seen)).None? <==> TokenOk(token) && TokensDistinct(seen + [token])
  {
    if token.hash.Some? {
      SnocDistinct(seen, token);
    }
  }

  /** A faulty token spoils every stretch it is in. */
  lemma FaultSpoils(before: seq<FileToken>, tokens: seq<FileToken>, n: nat)
    requires n < |tokens| && TokensDistinct(before + tokens[..n])
    requires forall t :: t in before + tokens[..n] ==> t.hash.Some?
    requires TokenFault(tokens[n], Ids(before + tokens[..n]), Hashes(before + tokens[..n])).Some?
    ensures !TokensFine(before, tokens)
  {
    var seen := before + tokens[..n];
    NoFaultIff(seen, tokens[n]);
    hide TokenFault, TokensDistinct, TokenOk;
    if TokensFine(before, tokens) {
      assert before + tokens == seen + [tokens[n]] + tokens[n + 1..];
      PrefixDistinct(seen + [tokens[n]], tokens[n + 1..]);
    }
  }

  lemma SeenSnoc(seen: seq<FileToken>, token: FileToken)
    requires token.hash.Some?
    ensures Ids(seen + [token]) == Ids(seen) + {Trim(token.id)}
    ensures Hashes(seen + [token]) == Hashes(seen) + (if token.enabled then {token.hash.value} else {})
  {
    assert forall t :: t in seen + [token] <==> t in seen || t == token;
  }

  /** The loop over one target's tokens. `before` are the tokens of the earlier targets, which the two sets
      summarise. */
  method ParseTokens(tokens: seq<FileToken>, tokenIds: set<string>, tokenHashes: set<Hash>,
                     ghost before: seq<FileToken>)
    returns (r: Result<seq<AuthToken>, ConfigError>, ids: set<string>, hashes: set<Hash>)
    requires TokensDistinct(before) && forall t :: t in before ==> t.hash.Some?
    requires tokenIds == Ids(before) && tokenHashes == Hashes(before)
    ensures r.Ok? <==> TokensFine(before, tokens)
    ensures r.Err? ==> exists n :: FirstTokenFault(before, tokens, n, r.error)
    ensures r.Ok? ==> ids == Ids(before + tokens) && hashes == Hashes(before + tokens)
    ensures r.Ok? ==>
              && |r.value| == |tokens|
              && forall i :: 0 <= i < |tokens| ==> TokenOk(tokens[i]) && r.value[i] == TranslatedToken(tokens[i])
  {
    var parsed := [];
    ids, hashes := tokenIds, tokenHashes;
    assert before + tokens[..0] == before;
    for n := 0 to |tokens|
      invariant |parsed| == n
      invariant forall i :: 0 <= i < n ==> TokenOk(tokens[i]) && parsed[i] == TranslatedToken(tokens[i])
      invariant TokensFine(before, tokens[..n])
      invariant ids == Ids(before + tokens[..n]) && hashes == Hashes(before + tokens[..n])
    {
      hide TokensDistinct, Ids, Hashes, TranslatedName;
      var token := tokens[n];
      ghost var seen := before + tokens[..n];
      var fault := TokenFault(token, ids, hashes);
      if fault.Some? {
        FaultSpoils(before, tokens, n);
        assert FirstTokenFault(before, tokens, n, fault.value);
        return Err(fault.value), ids, hashes;
      }
      NoFaultIff(seen, token);
      SeenSnoc(seen, token);
      assert before + tokens[..n + 1] == seen + [token];
      ids := ids + {Trim(token.id)};
      if token.enabled {
        hashes := hashes + {token.hash.value};
      }
      parsed := parsed + [AuthToken(Trim(token.id), TranslatedName(token.name), token.hash.value, token.enabled,
                                    if token.caps.Absent? then DEFAULT_CAPS else token.caps.caps)];
    }
    assert tokens[..|tokens|] == tokens;
    return Ok(parsed), ids, hashes;
  }

  /** The checks a target must pass before its tokens are read, in the order of the code. */
  function HeaderFault(target: FileTarget, duplicate: bool): Option<ConfigError> {
    if Trim(target.rrbId) == "" then Some(EmptyRrbId)
    else if duplicate then Some(DuplicateRrbId)
    else if Trim(target.connectionString) == "" then Some(EmptyConnectionString)
    else if target.operationLimit == 0 then Some(ZeroOperationLimit)
    else if target.connectionShards == 0 then Some(ZeroShards)
    else if target.tokens == [] then Some(NoTokens)
    else None
  }

  /** The error is the first fault of a target that follows others with these ids and tokens. */
  ghost predicate TargetFault(target: FileTarget, rrbIds: set<string>, before: seq<FileToken>, error: ConfigError) {
    match HeaderFault(target, Trim(target.rrbId) in rrbIds)
    case Some(fault) => error == fault
    case None =>
      if TokensFine(before, target.tokens) then
        error == NoEnabledTokens && forall t :: t in target.tokens ==> !t.enabled
      else exists n :: FirstTokenFault(before, target.tokens, n, error)
  }

  /** One turn of the loop over targets. */
  method ParseTarget(target: FileTarget, rrbIds: set<string>, tokenIds: set<string>, tokenHashes: set<Hash>,
                     ghost before: seq<FileToken>)
    returns (r: Result<Redis, ConfigError>, ids: set<string>, hashes: set<Hash>)
    requires TokensDistinct(before) && forall t :: t in before ==> t.hash.Some?
    requires tokenIds == Ids(before) && tokenHashes == Hashes(before)
    ensures r.Ok? <==>
            TargetOk(target) && Trim(target.rrbId) !in rrbIds && TokensDistinct(before + target.tokens)
    ensures r.Err? ==> TargetFault(target, rrbIds, before, r.error)
    ensures r.Ok? ==> r.value == Translated(target)
    ensures r.Ok? ==> ids == Ids(before + target.tokens) && hashes == Hashes(before + target.tokens)
  {
    hide TokensDistinct, Ids, Hashes, TranslatedName;
    var rrbId := Trim(target.rrbId);
    ids, hashes := tokenIds, tokenHashes;
    var fault := HeaderFault(target, rrbId in rrbIds);
    if fault.Some? {
      return Err(fault.value), ids, hashes;
    }
    var tokens;
    tokens, ids, hashes := ParseTokens(target.tokens, tokenIds, tokenHashes, before);
    if tokens.Err? {
      return Err(tokens.error), ids, hashes;
    }
    if exists i :: 0 <= i < |tokens.value| && tokens.value[i].enabled {
      assert exists i :: 0 <= i < |target.tokens| && target.tokens[i].enabled;
      var redis := Redis(rrbId, Trim(target.connectionString), target.operationLimit, target.connectionShards,
                         tokens.value);
      assert redis.tokens == Translated(target).tokens;
      return Ok(redis), ids, hashes;
    }
    assert forall i :: 0 <= i < |target.tokens| ==> tokens.value[i].enabled == target.tokens[i].enabled;
    return Err(NoEnabledTokens), ids, hashes;
  }

  ghost function RrbIds(targets: seq<FileTarget>): set<string> {
    set t | t in targets :: Trim(t.rrbId)
  }

  lemma RrbIdsSnoc(targets: seq<FileTarget>, target: FileTarget)
    requires RrbIdsDistinct(targets)
    ensures RrbIdsDistinct(targets + [target]) <==> Trim(target.rrbId) !in RrbIds(targets)
    ensures RrbIds(targets + [target]) == RrbIds(targets) + {Trim(target.rrbId)}
  {
    var all := targets + [target];
    assert forall t :: t in all <==> t in targets || t == target;
    if RrbIdsDistinct(all) {
      forall i | 0 <= i < |targets| ensures Trim(targets[i].rrbId) != Trim(target.rrbId) {
        assert all[i] == targets[i] && all[|targets|] == target;
      }
    }
  }

  /** Accepted tokens have hashes. */
  lemma {:induction false} AcceptedHashes(targets: seq<FileTarget>)
    requires forall t :: t in targets ==> TargetOk(t)
    ensures forall t :: t in AllTokens(targets) ==> t.hash.Some?
  {
    if targets != [] {
      AcceptedHashes(targets[..|targets| - 1]);
      assert TargetOk(Last(targets));
      assert forall t :: t in Last(targets).tokens ==> TokenOk(t);
    }
  }

  lemma AllTokensSnoc(targets: seq<FileTarget>, target: FileTarget)
    ensures AllTokens(targets + [target]) == AllTokens(targets) + target.tokens
  {
    assert (targets + [target])[..|targets|] == targets;
  }

  /** Targets are accepted one by one. */
  lemma AcceptedSnoc(targets: seq<FileTarget>, target: FileTarget)
    requires TargetsAccepted(targets)
    ensures TargetsAccepted(targets + [target]) <==>
            && TargetOk(target) && Trim(target.rrbId) !in RrbIds(targets)
            && TokensDistinct(AllTokens(targets) + target.tokens)
  {
    hide TargetOk, TokensDistinct, RrbIdsDistinct, RrbIds, AllTokens;
    RrbIdsSnoc(targets, target);
    AllTokensSnoc(targets, target);
    assert forall t :: t in targets + [target] <==> t in targets || t == target;
  }

  lemma PrefixAccepted(targets: seq<FileTarget>, n: nat)
    requires TargetsAccepted(targets) && n <= |targets|
    ensures TargetsAccepted(targets[..n])
  {
    AllTokensPrefix(targets, n);
    var prefix := AllTokens(targets[..n]);
    assert AllTokens(targets) == prefix + AllTokens(targets)[|prefix|..];
    PrefixDistinct(prefix, AllTokens(targets)[|prefix|..]);
  }

  /** What a file is turned down for: the first fault of the first target that has one. */
  ghost predicate FileFault(config: FileConfig, hashToken: Option<string>, error: ConfigError) {
    if hashToken.None? || Trim(hashToken.value) == "" then error == MissingHashToken
    else if config.version != 1 then error == UnsupportedVersion
    else if config.targets == [] then error == NoTargets
    else exists n :: FirstTargetFault(config.targets, n, error)
  }

  ghost predicate FirstTargetFault(targets: seq<FileTarget>, n: nat, error: ConfigError) {
    && n < |targets| && TargetsAccepted(targets[..n])
    && TargetFault(targets[n], RrbIds(targets[..n]), AllTokens(targets[..n]), error)
  }

  /** The first `n` targets are accepted and parsed, and the three sets summarise them. */
  ghost predicate ParsedUpTo(targets: seq<FileTarget>, n: nat, parsed: seq<Redis>, rrbIds: set<string>,
                             tokenIds: set<string>, tokenHashes: set<Hash>)
    requires n <= |targets|
  {
    var done := targets[..n];
    && TargetsAccepted(done) && rrbIds == RrbIds(done)
    && tokenIds == Ids(AllTokens(done)) && tokenHashes == Hashes(AllTokens(done))
    && TranslatedUpTo(targets, n, parsed)
  }

  ghost predicate TranslatedUpTo(targets: seq<FileTarget>, n: nat, parsed: seq<Redis>)
    requires n <= |targets|
  {
    |parsed| == n && forall i :: 0 <= i < n ==> TargetOk(targets[i]) && parsed[i] == Translated(targets[i])
  }

  lemma ParsedOneMore(targets: seq<FileTarget>, n: nat, parsed: seq<Redis>, rrbIds: set<string>,
                      tokenIds: set<string>, tokenHashes: set<Hash>)
    requires n < |targets| && TargetOk(targets[n])
    requires TargetsAccepted(targets[..n]) && rrbIds == RrbIds(targets[..n]) && TranslatedUpTo(targets, n, parsed)
    requires Trim(targets[n].rrbId) !in rrbIds
    requires var seen := AllTokens(targets[..n]) + targets[n].tokens;
             TokensDistinct(seen) && tokenIds == Ids(seen) && tokenHashes == Hashes(seen)
    ensures ParsedUpTo(targets, n + 1, parsed + [Translated(targets[n])], rrbIds + {Trim(targets[n].rrbId)},
                       tokenIds, tokenHashes)
  {
    hide TokensDistinct, Ids, Hashes, Translated, TargetOk, AllTokens, RrbIds;
    assert targets[..n + 1] == targets[..n] + [targets[n]];
    AcceptedSnoc(targets[..n], targets[n]);
    AllTokensSnoc(targets[..n], targets[n]);
    RrbIdsSnoc(targets[..n], targets[n]);
  }

  /** A target that cannot follow the accepted ones before it spoils the file. */
  lemma TargetSpoils(targets: seq<FileTarget>, n: nat)
    requires n < |targets| && TargetsAccepted(targets[..n])
    requires !(&& TargetOk(targets[n]) && Trim(targets[n].rrbId) !in RrbIds(targets[..n])
               && TokensDistinct(AllTokens(targets[..n]) + targets[n].tokens))
    ensures !TargetsAccepted(targets)
  {
    hide TargetOk, TokensDistinct, AllTokens, RrbIds, TargetsAccepted;
    AcceptedSnoc(targets[..n], targets[n]);
    assert targets[..n + 1] == targets[..n] + [targets[n]];
    if TargetsAccepted(targets) {
      PrefixAccepted(targets, n + 1);
    }
  }

  /** `parse_file_targets`: it succeeds exactly on the accepted configurations, and then yields the trimmed
      targets in file order; otherwise it reports the first fault. */
  method ParseFileTargets(config: FileConfig, hashToken: Option<string>) returns (r: Result<seq<Redis>, ConfigError>)
    ensures r.Ok? <==> Accepted(config, hashToken)
    ensures r.Err? ==> FileFault(config, hashToken, r.error)
    ensures r.Ok? ==> |r.value| == |config.targets|
                      && forall i :: 0 <= i < |config.targets| ==>
                           && TargetOk(config.targets[i]) && r.value[i] == Translated(config.targets[i])
                           && Describes(config.targets[i], r.value[i])
  {
    hide TargetOk, TargetFault, Translated, TokensDistinct, Ids, Hashes, AllTokens, RrbIds, Describes;
    if hashToken.None? || Trim(hashToken.value) == "" {
      return Err(MissingHashToken);
    }
    if config.version != 1 {
      return Err(UnsupportedVersion);
    }
    if config.targets == [] {
      return Err(NoTargets);
    }
    var rrbIds: set<string>, tokenIds: set<string>, tokenHashes: set<Hash> := {}, {}, {};
    var parsed: seq<Redis> := [];
    NothingParsed(config.targets);
    for n := 0 to |config.targets|
      invariant ParsedUpTo(config.targets, n, parsed, rrbIds, tokenIds, tokenHashes)
    {
      var target := config.targets[n];
      ghost var before := AllTokens(config.targets[..n]);
      AcceptedHashes(config.targets[..n]);
      var redis;
      redis, tokenIds, tokenHashes := ParseTarget(target, rrbIds, tokenIds, tokenHashes, before);
      if redis.Err? {
        TargetSpoils(config.targets, n);
        assert FirstTargetFault(config.targets, n, redis.error);
        return Err(redis.error);
      }
      ParsedOneMore(config.targets, n, parsed, rrbIds, tokenIds, tokenHashes);
      rrbIds := rrbIds + {Trim(target.rrbId)};
      parsed := parsed + [redis.value];
    }
    assert config.targets[..|config.targets|] == config.targets;
    forall i | 0 <= i < |config.targets|
      ensures TargetOk(config.targets[i]) && Describes(config.targets[i], Translated(config.targets[i]))
    {
      TranslatedDescribes(config.targets[i]);
    }
    return Ok(parsed);
  }

  lemma NothingParsed(targets: seq<FileTarget>)
    ensures ParsedUpTo(targets, 0, [], {}, {}, {})
  {
    assert targets[..0] == [];
  }

  lemma FirstFaultUnique(before: seq<FileToken>, tokens: seq<FileToken>, n: nat, m: nat, e: ConfigError, f: ConfigError)
    requires TokensDistinct(before) && forall t :: t in before ==> t.hash.Some?
    requires FirstTokenFault(before, tokens, n, e) && FirstTokenFault(before, tokens, m, f) && n <= m
    ensures e == f && !TokensFine(before, tokens)
  {
    FaultSpoils(before, tokens, n);
    if n < m {
      assert tokens[..m][..n] == tokens[..n] && tokens[..m][n] == tokens[n];
      FaultSpoils(before, tokens[..m], n);
    }
  }

  /** A target has one first fault, and none if it can follow the others. */
  lemma TargetFaultUnique(target: FileTarget, rrbIds: set<string>, before: seq<FileToken>,
                          e: ConfigError, f: ConfigError)
    requires TokensDistinct(before) && forall t :: t in before ==> t.hash.Some?
    requires TargetFault(target, rrbIds, before, e) && TargetFault(target, rrbIds, before, f)
    ensures e == f
    ensures !(TargetOk(target) && Trim(target.rrbId) !in rrbIds && TokensDistinct(before + target.tokens))
  {
    hide TokensDistinct, FirstTokenFault;
    if HeaderFault(target, Trim(target.rrbId) in rrbIds).None? && !TokensFine(before, target.tokens) {
      var n :| FirstTokenFault(before, target.tokens, n, e);
      var m :| FirstTokenFault(before, target.tokens, m, f);
      if n <= m {
        FirstFaultUnique(before, target.tokens, n, m, e, f);
      } else {
        FirstFaultUnique(before, target.tokens, m, n, f, e);
      }
    }
  }

  lemma FirstTargetFaultUnique(targets: seq<FileTarget>, n: nat, m: nat, e: ConfigError, f: ConfigError)
    requires FirstTargetFault(targets, n, e) && FirstTargetFault(targets, m, f) && n <= m
    ensures e == f && !TargetsAccepted(targets)
  {
    hide TargetOk, TargetFault, TokensDistinct, RrbIdsDistinct, AllTokens, RrbIds;
    var rrbIds, before := RrbIds(targets[..n]), AllTokens(targets[..n]);
    AcceptedHashes(targets[..n]);
    TargetFaultUnique(targets[n], rrbIds, before, e, if n == m then f else e);
    TargetSpoils(targets, n);
    if n < m {
      assert targets[..m][..n] == targets[..n] && targets[..m][n] == targets[n];
      TargetSpoils(targets[..m], n);
    }
  }

  /** A file has at most one first fault, so the contract of `ParseFileTargets` settles which error is reported; and an
      accepted file has none. */
  lemma FileFaultUnique(config: FileConfig, hashToken: Option<string>, e: ConfigError, f: ConfigError)
    requires FileFault(config, hashToken, e) && FileFault(config, hashToken, f)
    ensures e == f && !Accepted(config, hashToken)
  {
    hide FirstTargetFault, TargetsAccepted;
    if hashToken.Some? && Trim(hashToken.value) != "" && config.version == 1 && config.targets != [] {
      var n :| FirstTargetFault(config.targets, n, e);
      var m :| FirstTargetFault(config.targets, m, f);
      if n <= m {
        FirstTargetFaultUnique(config.targets, n, m, e, f);
      } else {
        FirstTargetFaultUnique(config.targets, m, n, f, e);
      }
    }
  }

  /** The token has the fault. */
  predicate HasFault(token: FileToken, ids: set<string>, hashes: set<Hash>, error: ConfigError) {
    match error
    case EmptyTokenId => Trim(token.id) == ""
    case DuplicateTokenId => Trim(token.id) in ids
    case BadTokenType => token.caps.Malformed?
    case BadHash => token.hash.None?
    case DuplicateHash => token.enabled && token.hash.Some? && token.hash.value in hashes
    case _ => false
  }

  /** The target has the fault, before its tokens are looked at. */
  predicate HeaderHasFault(target: FileTarget, duplicate: bool, error: ConfigError) {
    match error
    case EmptyRrbId => Trim(target.rrbId) == ""
    case DuplicateRrbId => duplicate
    case EmptyConnectionString => Trim(target.connectionString) == ""
    case ZeroOperationLimit => target.operationLimit == 0
    case ZeroShards => target.connectionShards == 0
    case NoTokens => target.tokens == []
    case _ => false
  }

  /** The order in which faults are looked for. */
  const TOKEN_CHECKS := [EmptyTokenId, DuplicateTokenId, BadTokenType, BadHash, DuplicateHash]
  const HEADER_CHECKS :=
    [EmptyRrbId, DuplicateRrbId, EmptyConnectionString, ZeroOperationLimit, ZeroShards, NoTokens]

  /** The fault found with a token is the first in that order that it has. */
  lemma TokenFaultIsFirst(token: FileToken, ids: set<string>, hashes: set<Hash>, n: nat)
    requires n < |TOKEN_CHECKS|
    ensures TokenFault(token, ids, hashes) == Some(TOKEN_CHECKS[n]) <==>
            && HasFault(token, ids, hashes, TOKEN_CHECKS[n])
            && forall m :: 0 <= m < n ==> !HasFault(token, ids, hashes, TOKEN_CHECKS[m])
  {
    assert TOKEN_CHECKS[0] == EmptyTokenId && TOKEN_CHECKS[1] == DuplicateTokenId && TOKEN_CHECKS[2] == BadTokenType;
    assert TOKEN_CHECKS[3] == BadHash && TOKEN_CHECKS[4] == DuplicateHash;
    hide Trim;
  }

  /** So is the fault found with a target's own fields. */
  lemma HeaderFaultIsFirst(target: FileTarget, duplicate: bool, n: nat)
    requires n < |HEADER_CHECKS|
    ensures HeaderFault(target, duplicate) == Some(HEADER_CHECKS[n]) <==>
            && HeaderHasFault(target, duplicate, HEADER_CHECKS[n])
            && forall m :: 0 <= m < n ==> !HeaderHasFault(target, duplicate, HEADER_CHECKS[m])
  {
    assert HEADER_CHECKS[0] == EmptyRrbId && HEADER_CHECKS[1] == DuplicateRrbId;
    assert HEADER_CHECKS[2] == EmptyConnectionString && HEADER_CHECKS[3] == ZeroOperationLimit;
    assert HEADER_CHECKS[4] == ZeroShards && HEADER_CHECKS[5] == NoTokens;
    hide Trim;
  }
}
