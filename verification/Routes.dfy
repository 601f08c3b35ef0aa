/** The token route index built at startup, against a linear search of the configuration. */
module Routes {
  import opened Prelude
  import opened Config

  /** Where an authenticated token leads. */
  datatype Route = Route(target: nat, caps: TokenCaps)

  datatype StartupError = ZeroLimit | NoShards | InvalidUrl | DuplicateEnabledHash

  /** A token and the index of its target. */
  datatype Listing = Listing(target: nat, token: AuthToken)

  function ListedFrom(target: nat, tokens: seq<AuthToken>): seq<Listing> {
    seq(|tokens|, i requires 0 <= i < |tokens| => Listing(target, tokens[i]))
  }

  /** All tokens in configuration order. */
  function Listed(targets: seq<Redis>): seq<Listing> {
    if targets == [] then []
    else Listed(targets[..|targets| - 1]) + ListedFrom(|targets| - 1, Last(targets).tokens)
  }

  predicate Matches(listing: Listing, hash: Hash) {
    listing.token.enabled && listing.token.hash == hash
  }

  /** The linear search: the first enabled token with this hash. */
  function Search(listings: seq<Listing>, hash: Hash): Option<Route> {
    if listings == [] then None
    else if Matches(listings[0], hash) then Some(Route(listings[0].target, listings[0].token.caps))
    else Search(listings[1..], hash)
  }

  ghost predicate EnabledDistinct(listings: seq<Listing>) {
    forall i, j :: 0 <= i < j < |listings| && listings[i].token.enabled && listings[j].token.enabled ==>
      listings[i].token.hash != listings[j].token.hash
  }

  lemma {:induction false} SearchSnoc(listings: seq<Listing>, last: Listing, hash: Hash)
    ensures Search(listings + [last], hash) ==
            if Search(listings, hash).Some? then Search(listings, hash)
            else if Matches(last, hash) then Some(Route(last.target, last.token.caps)) else None
  {
    if listings != [] {
      SearchSnoc(listings[1..], last, hash);
      assert (listings + [last])[1..] == listings[1..] + [last];
    }
  }

  lemma {:induction false} SearchFails(listings: seq<Listing>, hash: Hash)
    ensures Search(listings, hash) == None <==> forall i :: 0 <= i < |listings| ==> !Matches(listings[i], hash)
  {
    if listings != [] {
      SearchFails(listings[1..], hash);
      assert forall i :: 1 <= i < |listings| ==> listings[i] == listings[1..][i - 1];
    }
  }

  /** With distinct hashes the search finds the one matching token. */
  lemma {:induction false} SearchFinds(listings: seq<Listing>, hash: Hash, k: nat)
    requires k < |listings| && Matches(listings[k], hash) && EnabledDistinct(listings)
    ensures Search(listings, hash) == Some(Route(listings[k].target, listings[k].token.caps))
  {
    if k > 0 {
      assert !Matches(listings[0], hash);
      assert forall i :: 1 <= i < |listings| ==> listings[i] == listings[1..][i - 1];
      SearchFinds(listings[1..], hash, k - 1);
    }
  }

  /** The map answers every hash as the search does. */
  ghost predicate Indexes(routes: map<Hash, Route>, listings: seq<Listing>) {
    forall hash :: (if hash in routes then Some(routes[hash]) else None) == Search(listings, hash)
  }

  lemma IndexesSnoc(routes: map<Hash, Route>, listings: seq<Listing>, last: Listing)
    requires Indexes(routes, listings) && EnabledDistinct(listings)
    ensures last.token.enabled && last.token.hash in routes ==> !EnabledDistinct(listings + [last])
    ensures !last.token.enabled ==> Indexes(routes, listings + [last]) && EnabledDistinct(listings + [last])
    ensures last.token.enabled && last.token.hash !in routes ==>
              && EnabledDistinct(listings + [last])
              && Indexes(routes[last.token.hash := Route(last.target, last.token.caps)], listings + [last])
  {
    var all := listings + [last];
    forall hash
      ensures Search(all, hash) ==
              if Search(listings, hash).Some? then Search(listings, hash)
              else if Matches(last, hash) then Some(Route(last.target, last.token.caps)) else None
    {
      SearchSnoc(listings, last, hash);
    }
    SearchFails(listings, last.token.hash);
    if last.token.enabled && last.token.hash in routes {
      assert Search(listings, last.token.hash).Some?;
      var i :| 0 <= i < |listings| && Matches(listings[i], last.token.hash);
      assert all[i] == listings[i] && all[|listings|] == last;
    }
  }

  /** The loop over one target's tokens. */
  method RouteTokens(routes: map<Hash, Route>, target: nat, tokens: seq<AuthToken>, ghost before: seq<Listing>)
    returns (r: Result<map<Hash, Route>, StartupError>)
    requires Indexes(routes, before) && EnabledDistinct(before)
    ensures r.Ok? <==> EnabledDistinct(before + ListedFrom(target, tokens))
    ensures r.Ok? ==> Indexes(r.value, before + ListedFrom(target, tokens))
    ensures r.Err? ==> r.error == DuplicateEnabledHash
  {
    var index: map<Hash, Route> := routes;
    ghost var all := ListedFrom(target, tokens);
    assert before + all[..0] == before;
    for n := 0 to |tokens|
      invariant Indexes(index, before + all[..n]) && EnabledDistinct(before + all[..n])
    {
      ghost var seen := before + all[..n];
      assert before + all[..n + 1] == seen + [all[n]];
      IndexesSnoc(index, seen, all[n]);
      if tokens[n].enabled {
        if tokens[n].hash in index {
          assert before + all == seen + [all[n]] + all[n + 1..];
          PrefixEnabledDistinct(seen + [all[n]], all[n + 1..]);
          return Err(DuplicateEnabledHash);
        }
        index := index[tokens[n].hash := Route(target, tokens[n].caps)];
      }
    }
    assert before + all[..|tokens|] == before + all;
    return Ok(index);
  }

  lemma PrefixEnabledDistinct(a: seq<Listing>, b: seq<Listing>)
    ensures EnabledDistinct(a + b) ==> EnabledDistinct(a)
  {
    if EnabledDistinct(a + b) {
      forall i, j | 0 <= i < j < |a| && a[i].token.enabled && a[j].token.enabled
        ensures a[i].token.hash != a[j].token.hash
      {
        assert (a + b)[i] == a[i] && (a + b)[j] == a[j];
      }
    }
  }

  lemma {:induction false} ListedPrefix(targets: seq<Redis>, i: nat)
    requires i <= |targets|
    ensures Listed(targets[..i]) <= Listed(targets)
    decreases |targets| - i
  {
    if i == |targets| {
      assert targets[..i] == targets;
    } else {
      ListedPrefix(targets, i + 1);
      assert targets[..i + 1][..i] == targets[..i];
    }
  }

  /** The target's own settings let the bridge start. */
  predicate Startable(target: Redis, urlOk: string -> bool) {
    target.operationLimit > 0 && target.connectionShards > 0 && urlOk(target.connectionString)
  }

  /** The route-building loop of `AppState::new`: it succeeds exactly when every target can start and no two
      enabled tokens share a hash, and then the map answers every hash as a linear search would. */
  method BuildRoutes(targets: seq<Redis>, urlOk: string -> bool) returns (r: Result<map<Hash, Route>, StartupError>)
    ensures r.Ok? <==> (forall t :: t in targets ==> Startable(t, urlOk)) && EnabledDistinct(Listed(targets))
    ensures r.Ok? ==> Indexes(r.value, Listed(targets))
    ensures r == Err(ZeroLimit) ==> exists t :: t in targets && t.operationLimit == 0
    ensures r == Err(NoShards) ==> exists t :: t in targets && t.connectionShards == 0
    ensures r == Err(InvalidUrl) ==> exists t :: t in targets && !urlOk(t.connectionString)
    ensures r == Err(DuplicateEnabledHash) ==> !EnabledDistinct(Listed(targets))
  {
    var routes: map<Hash, Route> := map[];
    for n := 0 to |targets|
      invariant forall i :: 0 <= i < n ==> Startable(targets[i], urlOk)
      invariant Indexes(routes, Listed(targets[..n])) && EnabledDistinct(Listed(targets[..n]))
    {
      var target := targets[n];
      assert target in targets;
      if target.operationLimit == 0 {
        return Err(ZeroLimit);
      }
      if target.connectionShards == 0 {
        return Err(NoShards);
      }
      if !urlOk(target.connectionString) {
        return Err(InvalidUrl);
      }
      ghost var before := Listed(targets[..n]);
      assert targets[..n + 1][..n] == targets[..n];
      assert Listed(targets[..n + 1]) == before + ListedFrom(n, target.tokens);
      var routed := RouteTokens(routes, n, target.tokens, before);
      if routed.Err? {
        ListedPrefix(targets, n + 1);
        ghost var prefix := Listed(targets[..n + 1]);
        assert Listed(targets) == prefix + Listed(targets)[|prefix|..];
        PrefixEnabledDistinct(prefix, Listed(targets)[|prefix|..]);
        return Err(routed.error);
      }
      routes := routed.value;
    }
    assert targets[..|targets|] == targets;
    return Ok(routes);
  }

  ghost function TranslatedAll(targets: seq<FileTarget>): seq<Redis>
    requires forall t :: t in targets ==> TargetOk(t)
  {
    seq(|targets|, i requires 0 <= i < |targets| => assert targets[i] in targets; Translated(targets[i]))
  }

  /** Listing the translated targets is translating the listed tokens. */
  lemma {:induction false} ListedTranslated(targets: seq<FileTarget>)
    requires forall t :: t in targets ==> TargetOk(t)
    ensures var listed, tokens := Listed(TranslatedAll(targets)), AllTokens(targets);
            && |listed| == |tokens|
            && forall k :: 0 <= k < |tokens| ==> TokenOk(tokens[k]) && listed[k].token == TranslatedToken(tokens[k])
  {
    if targets != [] {
      var init, last := targets[..|targets| - 1], Last(targets);
      ListedTranslated(init);
      assert TranslatedAll(targets)[..|targets| - 1] == TranslatedAll(init);
      assert last in targets;
      TranslatedTokens(last, |targets| - 1);
      hide TargetOk, TokenOk, TranslatedToken, Translated;
      assert AllTokens(targets) == AllTokens(init) + last.tokens;
    }
  }

  lemma TranslatedTokens(target: FileTarget, n: nat)
    requires TargetOk(target)
    ensures var listed := ListedFrom(n, Translated(target).tokens);
            && |listed| == |target.tokens|
            && forall k :: 0 <= k < |target.tokens| ==>
                 TokenOk(target.tokens[k]) && listed[k].token == TranslatedToken(target.tokens[k])
  {
    hide TokenOk, TranslatedToken;
    assert forall k :: 0 <= k < |target.tokens| ==> target.tokens[k] in target.tokens;
  }

  lemma {:induction false} ListedAt(targets: seq<Redis>, i: nat, k: nat) returns (at: nat)
    requires i < |targets| && k < |targets[i].tokens|
    ensures at < |Listed(targets)| && Listed(targets)[at] == Listing(i, targets[i].tokens[k])
    decreases |targets|
  {
    var init := targets[..|targets| - 1];
    if i < |init| {
      at := ListedAt(init, i, k);
    } else {
      at := |Listed(init)| + k;
    }
  }

  /** Some token leads to this target. */
  ghost predicate Reachable(listings: seq<Listing>, target: nat) {
    exists hash :: Search(listings, hash).Some? && Search(listings, hash).value.target == target
  }

  /** The route index agrees with the configuration: for every accepted file, startup meets none of its own
      zero-limit, zero-shard or duplicate-hash failures, each enabled token is found by its hash with its own
      target and capabilities, and every target is reachable. With `BuildRoutes`, so is every lookup in the map. */
  lemma AcceptedConfigRoutes(config: FileConfig, hashToken: Option<string>)
    requires Accepted(config, hashToken)
    ensures var targets := TranslatedAll(config.targets);
            && (forall i :: 0 <= i < |targets| ==> targets[i].operationLimit > 0 && targets[i].connectionShards > 0)
            && EnabledDistinct(Listed(targets))
            && (forall i, k :: 0 <= i < |targets| && 0 <= k < |targets[i].tokens| && targets[i].tokens[k].enabled ==>
                  Search(Listed(targets), targets[i].tokens[k].hash) == Some(Route(i, targets[i].tokens[k].caps)))
            && (forall i: nat :: i < |targets| ==> Reachable(Listed(targets), i))
  {
    var targets := TranslatedAll(config.targets);
    var listed := Listed(targets);
    ListedTranslated(config.targets);
    forall i | 0 <= i < |targets|
      ensures targets[i].operationLimit > 0 && targets[i].connectionShards > 0
    {
      assert TargetOk(config.targets[i]);
    }
    assert EnabledDistinct(listed) by {
      var tokens := AllTokens(config.targets);
      forall i, j | 0 <= i < j < |listed| && listed[i].token.enabled && listed[j].token.enabled
        ensures listed[i].token.hash != listed[j].token.hash
      {
        assert tokens[i].hash != tokens[j].hash;
      }
    }
    forall i, k | 0 <= i < |targets| && 0 <= k < |targets[i].tokens| && targets[i].tokens[k].enabled
      ensures Search(listed, targets[i].tokens[k].hash) == Some(Route(i, targets[i].tokens[k].caps))
    {
      var at := ListedAt(targets, i, k);
      SearchFinds(listed, targets[i].tokens[k].hash, at);
    }
    forall i: nat | i < |targets|
      ensures Reachable(listed, i)
    {
      var file := config.targets[i];
      assert file in config.targets;
      var t :| t in file.tokens && t.enabled;
      var k :| 0 <= k < |file.tokens| && file.tokens[k] == t;
      assert targets[i].tokens[k].enabled;
      assert Search(listed, targets[i].tokens[k].hash) == Some(Route(i, targets[i].tokens[k].caps));
    }
  }
}
