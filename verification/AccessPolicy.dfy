/**
 * Per-key access policies and the selector that enforces them
 * (internal/app/cliproxyapi/access_policy.go).
 */
module AccessPolicy {
  import opened Basics

  datatype MatchResult = Match | NoMatch | BadPattern

  /**
   * Library calls: strings.ToLower of strings.TrimSpace, strings.TrimSpace,
   * path.Match, the SHA-256 fingerprint of a credential and its base URL, and
   * whether uuid.Parse accepts a string.
   */
  datatype Library = Library(
    normalize: string -> string,
    trim: string -> string,
    pathMatch: (string, string) -> MatchResult,
    fingerprint: (string, string) -> string,
    isUuid: string -> bool)

  datatype Policy = Policy(restrictedProviders: seq<string>, restrictedModels: seq<string>)

  datatype Value = Str(s: string) | NotAString

  datatype Auth = Auth(
    id: string, provider: string, metadata: Option<map<string, Value>>, attributes: Option<map<string, string>>)

  // ---------- normalising ----------

  /** The normal forms of the values that are not blank, each at its first occurrence. */
  function NormalizedFrom(lib: Library, values: seq<string>, seen: set<string>): seq<string> {
    if values == [] then []
    else
      var v := lib.normalize(values[0]);
      if v == "" || v in seen then NormalizedFrom(lib, values[1..], seen)
      else [v] + NormalizedFrom(lib, values[1..], seen + {v})
  }

  function Normalized(lib: Library, values: seq<string>): seq<string> {
    NormalizedFrom(lib, values, {})
  }

  method NormalizeRestrictions(lib: Library, values: seq<string>) returns (result: seq<string>)
    ensures result == Normalized(lib, values)
  {
    result := [];
    var seen: set<string> := {};
    assert values[0..] == values;
    for i := 0 to |values|
      invariant result + NormalizedFrom(lib, values[i..], seen) == Normalized(lib, values)
    {
      var value := lib.normalize(values[i]);
      assert values[i..][1..] == values[i + 1..];
      if value == "" {
        continue;
      }
      if value in seen {
        continue;
      }
      seen := seen + {value};
      assert result + ([value] + NormalizedFrom(lib, values[i + 1..], seen))
          == result + [value] + NormalizedFrom(lib, values[i + 1..], seen);
      result := result + [value];
    }
    assert result + [] == result;
  }

  /** What a restriction list means: the set of its normal forms, blanks left out. */
  ghost function Meaning(lib: Library, values: seq<string>): set<string> {
    (set v | v in values :: lib.normalize(v)) - {""}
  }

  ghost predicate Distinct(s: seq<string>) {
    forall i, j :: 0 <= i < j < |s| ==> s[i] != s[j]
  }

  lemma DistinctCons(v: string, s: seq<string>)
    requires Distinct(s) && v !in s
    ensures Distinct([v] + s)
  {
  }

  lemma {:induction false} NormalizedExact(lib: Library, values: seq<string>, seen: set<string>)
    ensures forall r :: r in NormalizedFrom(lib, values, seen) <==> r in Meaning(lib, values) && r !in seen
    ensures Distinct(NormalizedFrom(lib, values, seen))
    decreases |values|
  {
    if values != [] {
      var v := lib.normalize(values[0]);
      var rest := values[1..];
      assert Meaning(lib, values) == Meaning(lib, rest) + ({v} - {""}) by {
        assert values == [values[0]] + rest;
        assert forall x :: x in values <==> x == values[0] || x in rest;
      }
      if v == "" || v in seen {
        NormalizedExact(lib, rest, seen);
      } else {
        NormalizedExact(lib, rest, seen + {v});
        DistinctCons(v, NormalizedFrom(lib, rest, seen + {v}));
      }
    }
  }

  // ---------- matching ----------

  /** The value itself and, if it starts with "models/", what follows. */
  function Variants(value: string): seq<string> {
    if "models/" <= value then [value, value[7..]] else [value]
  }

  /** A malformed pattern denies. */
  predicate Hits(lib: Library, restriction: string, variant: string) {
    lib.pathMatch(restriction, variant) != NoMatch || restriction == variant
  }

  ghost predicate Restricts(lib: Library, restrictions: seq<string>, value: string) {
    var v := lib.normalize(value);
    v != "" && exists r, w :: r in restrictions && w in Variants(v) && Hits(lib, r, w)
  }

  method RestrictedMatch(lib: Library, restrictions: seq<string>, value: string) returns (b: bool)
    ensures b <==> Restricts(lib, restrictions, value)
  {
    var v := lib.normalize(value);
    if v == "" {
      return false;
    }
    var variants := Variants(v);
    for i := 0 to |restrictions|
      invariant forall r, w :: r in restrictions[..i] && w in variants ==> !Hits(lib, r, w)
    {
      assert restrictions[..i + 1] == restrictions[..i] + [restrictions[i]];
      for j := 0 to |variants|
        invariant forall w :: w in variants[..j] ==> !Hits(lib, restrictions[i], w)
      {
        assert variants[..j + 1] == variants[..j] + [variants[j]];
        assert restrictions[i] in restrictions && variants[j] in Variants(v);
        var matched := lib.pathMatch(restrictions[i], variants[j]);
        if matched == BadPattern {
          return true;
        }
        if matched == Match || restrictions[i] == variants[j] {
          return true;
        }
      }
      assert variants[..|variants|] == variants;
    }
    assert restrictions[..|restrictions|] == restrictions;
    return false;
  }

  predicate Contains(s: string, sub: string) {
    sub <= s || (s != [] && Contains(s[1..], sub))
  }

  predicate HasSuffix(s: string, suffix: string) {
    |suffix| <= |s| && s[|s| - |suffix|..] == suffix
  }

  /** Which provider types one restriction stands for. */
  predicate CoversType(restriction: string, provider: string) {
    if restriction == "openai" then provider == "openai" || provider == "codex"
    else if restriction == "anthropic" then provider == "anthropic" || provider == "claude"
    else if restriction == "grok" then provider == "grok" || provider == "xai"
    else if restriction in ["kimi", "moonshot"] then
      provider == "kimi" || provider == "moonshot" || provider == "openai-compatible-kimi"
    else if restriction == "antigravity" then provider == "antigravity" || provider == "gemini"
    else if restriction in ["opencode-zen", "opencode_zen", "zen"] then
      Contains(provider, "opencode") && Contains(provider, "zen")
    else if restriction in ["opencode-go", "opencode_go", "go"] then
      Contains(provider, "opencode") && (HasSuffix(provider, "-go") || HasSuffix(provider, "_go"))
    else false
  }

  lemma {:induction false} ContainsExact(s: string, sub: string)
    ensures Contains(s, sub) <==> exists a, b :: s == a + sub + b
  {
    if sub <= s {
      assert s == "" + sub + s[|sub|..];
    } else if s != [] {
      ContainsExact(s[1..], sub);
      if Contains(s[1..], sub) {
        var a, b :| s[1..] == a + sub + b;
        assert s == ([s[0]] + a) + sub + b;
      }
    }
    if a, b :| s == a + sub + b {
      if a == "" {
        assert s[..|sub|] == sub;
      } else {
        assert s[1..] == a[1..] + sub + b;
        assert s != [];
      }
    }
  }

  /** The types that each of the plain restrictions stands for; all others but the two opencode families stand for none. */
  const COVERED: map<string, set<string>> := map[
    "openai" := {"openai", "codex"},
    "anthropic" := {"anthropic", "claude"},
    "grok" := {"grok", "xai"},
    "kimi" := {"kimi", "moonshot", "openai-compatible-kimi"},
    "moonshot" := {"kimi", "moonshot", "openai-compatible-kimi"},
    "antigravity" := {"antigravity", "gemini"}]

  lemma CoversTypeExact(restriction: string, provider: string)
    ensures restriction in COVERED ==> (CoversType(restriction, provider) <==> provider in COVERED[restriction])
    ensures restriction in {"opencode-zen", "opencode_zen", "zen"} ==>
      (CoversType(restriction, provider) <==> Contains(provider, "opencode") && Contains(provider, "zen"))
    ensures restriction in {"opencode-go", "opencode_go", "go"} ==>
      (CoversType(restriction, provider) <==>
        Contains(provider, "opencode") && (HasSuffix(provider, "-go") || HasSuffix(provider, "_go")))
    ensures restriction !in COVERED && CoversType(restriction, provider) ==> Contains(provider, "opencode")
  {
    hide Contains, HasSuffix;
  }

  predicate ProviderTypeRestricted(lib: Library, restrictions: seq<string>, provider: string) {
    exists r :: r in restrictions && CoversType(r, lib.normalize(provider))
  }

  function MetadataString(lib: Library, metadata: Option<map<string, Value>>, key: string): string {
    if metadata.None? then ""
    else lib.trim(if key in metadata.value && metadata.value[key].Str? then metadata.value[key].s else "")
  }

  function Attribute(lib: Library, attributes: Option<map<string, string>>, key: string): string {
    if attributes.None? then "" else lib.trim(if key in attributes.value then attributes.value[key] else "")
  }

  /** The candidate's API key, from its metadata or else its attributes. */
  function ApiKeyOf(lib: Library, candidate: Auth): string {
    var apiKey := MetadataString(lib, candidate.metadata, "api_key");
    if apiKey == "" && candidate.attributes.Some? then Attribute(lib, candidate.attributes, "api_key") else apiKey
  }

  function FingerprintOf(lib: Library, candidate: Auth): string {
    lib.fingerprint(ApiKeyOf(lib, candidate), Attribute(lib, candidate.attributes, "base_url"))
  }

  /** The candidate is restricted by id, provider, provider type, provider id, or a known credential. */
  ghost predicate RestrictsAuth(
    lib: Library, fingerprints: map<string, string>, restrictions: seq<string>, candidate: Auth)
  {
    || Restricts(lib, restrictions, candidate.id)
    || Restricts(lib, restrictions, candidate.provider)
    || ProviderTypeRestricted(lib, restrictions, candidate.provider)
    || Restricts(lib, restrictions, MetadataString(lib, candidate.metadata, "provider_id"))
    || (ApiKeyOf(lib, candidate) != ""
        && exists r :: r in restrictions && r in fingerprints && fingerprints[r] == FingerprintOf(lib, candidate))
  }

  method ProviderRestricted(
    lib: Library, fingerprints: map<string, string>, restrictions: seq<string>, candidate: Auth) returns (b: bool)
    ensures b <==> RestrictsAuth(lib, fingerprints, restrictions, candidate)
  {
    var byId := RestrictedMatch(lib, restrictions, candidate.id);
    var byProvider := RestrictedMatch(lib, restrictions, candidate.provider);
    if byId || byProvider {
      return true;
    }
    if ProviderTypeRestricted(lib, restrictions, candidate.provider) {
      return true;
    }
    var byProviderId := RestrictedMatch(lib, restrictions, MetadataString(lib, candidate.metadata, "provider_id"));
    if byProviderId {
      return true;
    }
    var apiKey := MetadataString(lib, candidate.metadata, "api_key");
    if apiKey == "" && candidate.attributes.Some? {
      apiKey := Attribute(lib, candidate.attributes, "api_key");
    }
    if apiKey == "" {
      return false;
    }
    var baseUrl := "";
    if candidate.attributes.Some? {
      baseUrl := Attribute(lib, candidate.attributes, "base_url");
    }
    var fingerprint := lib.fingerprint(apiKey, baseUrl);
    for i := 0 to |restrictions|
      invariant forall r :: r in restrictions[..i] ==> !(r in fingerprints && fingerprints[r] == fingerprint)
    {
      assert restrictions[..i + 1] == restrictions[..i] + [restrictions[i]];
      if restrictions[i] in fingerprints && fingerprints[restrictions[i]] == fingerprint {
        return true;
      }
    }
    assert restrictions[..|restrictions|] == restrictions;
    return false;
  }

  // ---------- picking ----------

  /** What the selector does: hand a candidate list to the inner selector, or refuse. */
  datatype Outcome = Delegate(auths: seq<Option<Auth>>) | ForbiddenModel(model: string) | ForbiddenProvider

  datatype Request = Request(model: string, requestedModel: string, auths: seq<Option<Auth>>)

  ghost predicate Permitted(lib: Library, fingerprints: map<string, string>, policy: Policy, candidate: Option<Auth>) {
    candidate.Some? && !RestrictsAuth(lib, fingerprints, policy.restrictedProviders, candidate.value)
  }

  /** The permitted candidates, in their order. */
  ghost function Allowed(
    lib: Library, fingerprints: map<string, string>, policy: Policy, auths: seq<Option<Auth>>): seq<Option<Auth>>
  {
    if auths == [] then []
    else
      (if Permitted(lib, fingerprints, policy, auths[0]) then [auths[0]] else [])
      + Allowed(lib, fingerprints, policy, auths[1..])
  }

  ghost predicate ModelRestricted(lib: Library, policy: Policy, req: Request) {
    Restricts(lib, policy.restrictedModels, req.model) || Restricts(lib, policy.restrictedModels, req.requestedModel)
  }

  ghost function PickOutcome(
    lib: Library, fingerprints: map<string, string>, policy: Option<Policy>, req: Request): Outcome
  {
    if policy.None? then Delegate(req.auths)
    else if ModelRestricted(lib, policy.value, req) then
      ForbiddenModel(if lib.trim(req.requestedModel) != "" then lib.trim(req.requestedModel) else lib.trim(req.model))
    else
      var allowed := Allowed(lib, fingerprints, policy.value, req.auths);
      if allowed == [] && req.auths != [] then ForbiddenProvider else Delegate(allowed)
  }

  lemma {:induction false} AllowedAppend(
    lib: Library, fingerprints: map<string, string>, policy: Policy, a: seq<Option<Auth>>, b: seq<Option<Auth>>)
    ensures Allowed(lib, fingerprints, policy, a + b)
         == Allowed(lib, fingerprints, policy, a) + Allowed(lib, fingerprints, policy, b)
  {
    hide Permitted;
    if a == [] {
      assert a + b == b;
    } else {
      assert (a + b)[1..] == a[1..] + b;
      AllowedAppend(lib, fingerprints, policy, a[1..], b);
    }
  }

  method Pick(lib: Library, fingerprints: map<string, string>, policy: Option<Policy>, req: Request)
    returns (outcome: Outcome)
    ensures outcome == PickOutcome(lib, fingerprints, policy, req)
  {
    hide Restricts, RestrictsAuth;
    if policy.None? {
      return Delegate(req.auths);
    }
    var byModel := RestrictedMatch(lib, policy.value.restrictedModels, req.model);
    var byRequested := RestrictedMatch(lib, policy.value.restrictedModels, req.requestedModel);
    if byModel || byRequested {
      var blockedModel := lib.trim(req.requestedModel);
      if blockedModel == "" {
        blockedModel := lib.trim(req.model);
      }
      return ForbiddenModel(blockedModel);
    }
    var allowed: seq<Option<Auth>> := [];
    for i := 0 to |req.auths|
      invariant allowed == Allowed(lib, fingerprints, policy.value, req.auths[..i])
    {
      var candidate := req.auths[i];
      assert req.auths[..i + 1] == req.auths[..i] + [candidate];
      AllowedAppend(lib, fingerprints, policy.value, req.auths[..i], [candidate]);
      if candidate.None? {
        continue;
      }
      var restricted := ProviderRestricted(lib, fingerprints, policy.value.restrictedProviders, candidate.value);
      if restricted {
        continue;
      }
      allowed := allowed + [candidate];
    }
    assert req.auths[..|req.auths|] == req.auths;
    if |allowed| == 0 && |req.auths| > 0 {
      return ForbiddenProvider;
    }
    return Delegate(allowed);
  }

  /** Strictly rising positions, and among them all the permitted ones and no other. */
  ghost predicate Selects(
    lib: Library, fingerprints: map<string, string>, policy: Policy, auths: seq<Option<Auth>>, at: seq<nat>)
  {
    && (forall k :: 0 <= k < |at| ==> at[k] < |auths| && Permitted(lib, fingerprints, policy, auths[at[k]]))
    && (forall k, l :: 0 <= k < l < |at| ==> at[k] < at[l])
    && (forall i :: 0 <= i < |auths| && Permitted(lib, fingerprints, policy, auths[i]) ==> At(at, i))
  }

  ghost predicate At(at: seq<nat>, i: nat) {
    exists k :: 0 <= k < |at| && at[k] == i
  }

  lemma AllowedOne(lib: Library, fingerprints: map<string, string>, policy: Policy, c: Option<Auth>)
    ensures Allowed(lib, fingerprints, policy, [c]) == if Permitted(lib, fingerprints, policy, c) then [c] else []
  {
    hide Permitted;
    assert [c][1..] == [];
  }

  /** The inner selector's candidates are the permitted ones exactly, each in its place in the order. */
  lemma {:induction false} AllowedExact(
    lib: Library, fingerprints: map<string, string>, policy: Policy, auths: seq<Option<Auth>>) returns (at: seq<nat>)
    ensures Selects(lib, fingerprints, policy, auths, at)
    ensures var allowed := Allowed(lib, fingerprints, policy, auths);
      |allowed| == |at| && forall k :: 0 <= k < |at| ==> allowed[k] == auths[at[k]]
    decreases |auths|
  {
    hide Permitted;
    at := [];
    if auths != [] {
      var n := |auths| - 1;
      var front := auths[..n];
      at := AllowedExact(lib, fingerprints, policy, front);
      assert auths == front + [auths[n]];
      AllowedAppend(lib, fingerprints, policy, front, [auths[n]]);
      AllowedOne(lib, fingerprints, policy, auths[n]);
      hide Allowed;
      assert forall i :: 0 <= i < n ==> auths[i] == front[i];
      at := SelectsOne(lib, fingerprints, policy, auths, at);
    }
  }

  /** Positions selected among all but the last candidate, with the last one's added if it is permitted. */
  lemma SelectsOne(
    lib: Library, fingerprints: map<string, string>, policy: Policy, auths: seq<Option<Auth>>, before: seq<nat>)
    returns (at: seq<nat>)
    requires auths != [] && Selects(lib, fingerprints, policy, auths[..|auths| - 1], before)
    ensures Selects(lib, fingerprints, policy, auths, at)
    ensures at == before + if Permitted(lib, fingerprints, policy, auths[|auths| - 1]) then [|auths| - 1] else []
  {
    hide Permitted;
    var n := |auths| - 1;
    at := before + if Permitted(lib, fingerprints, policy, auths[n]) then [n] else [];
    forall i | 0 <= i < |auths| && Permitted(lib, fingerprints, policy, auths[i]) ensures At(at, i) {
      if i < n {
        assert At(before, i);
        var k :| 0 <= k < |before| && before[k] == i;
        assert at[k] == i;
      } else {
        assert at[|before|] == n;
      }
    }
  }

  /** The inner selector is called exactly when no policy stands in the way, and refusal of a provider means nothing was left. */
  lemma PickExact(lib: Library, fingerprints: map<string, string>, policy: Policy, req: Request)
    ensures var outcome := PickOutcome(lib, fingerprints, Some(policy), req);
      && (outcome.ForbiddenModel? <==> ModelRestricted(lib, policy, req))
      && (outcome.ForbiddenProvider? <==>
            && !ModelRestricted(lib, policy, req) && req.auths != []
            && forall c :: c in req.auths ==> !Permitted(lib, fingerprints, policy, c))
      && (outcome.Delegate? ==> outcome.auths == Allowed(lib, fingerprints, policy, req.auths))
  {
    hide Permitted, ModelRestricted, Allowed;
    var at := AllowedExact(lib, fingerprints, policy, req.auths);
    var allowed := Allowed(lib, fingerprints, policy, req.auths);
    if |at| > 0 {
      assert req.auths[at[0]] in req.auths && Permitted(lib, fingerprints, policy, req.auths[at[0]]);
    }
    if c :| c in req.auths && Permitted(lib, fingerprints, policy, c) {
      var i: nat :| i < |req.auths| && req.auths[i] == c;
      assert At(at, i);
      assert allowed != [];
    }
  }

  // ---------- the store ----------

  /** What Set keeps for a key: nothing when no restriction is left after normalising. */
  function PolicyOf(lib: Library, providers: seq<string>, models: seq<string>): Option<Policy> {
    var p := Policy(Normalized(lib, providers), Normalized(lib, models));
    if p.restrictedProviders == [] && p.restrictedModels == [] then None else Some(p)
  }

  /** providerFingerprintTTL, in seconds. */
  const FINGERPRINT_TTL := 30

  /** A provider row as far as its credential goes. */
  datatype Credential = Credential(clientSecret: string, baseUrl: string)

  /** The fingerprints of looked-up providers, and when each was last looked up. */
  datatype Cache = Cache(fingerprints: map<string, string>, resolvedAt: map<string, int>)

  function Entry<V>(m: map<string, V>, key: string): Option<V> {
    if key in m then Some(m[key]) else None
  }

  /** What a lookup leaves for the selector; None for a failed one and for an OAuth provider. */
  function Resolution(lib: Library, found: Option<Credential>): Option<string> {
    if found.None? || "oauth:" <= found.value.clientSecret then None
    else Some(lib.fingerprint(found.value.clientSecret, found.value.baseUrl))
  }

  predicate Due(lib: Library, resolvedAt: map<string, int>, now: int, id: string) {
    lib.isUuid(id) && !(id in resolvedAt && now - resolvedAt[id] < FINGERPRINT_TTL)
  }

  /** `after` is `before` with every id that is due looked up at `now`, and nothing else changed. */
  ghost predicate Resolved(
    lib: Library, lookup: string -> Option<Credential>, now: int, ids: seq<string>, before: Cache, after: Cache)
  {
    forall id :: ResolvedOne(lib, lookup, now, id in ids, id, before, after)
  }

  ghost predicate ResolvedOne(
    lib: Library, lookup: string -> Option<Credential>, now: int, wanted: bool, id: string, before: Cache, after: Cache)
  {
    if wanted && Due(lib, before.resolvedAt, now, id) then
      Entry(after.resolvedAt, id) == Some(now) && Entry(after.fingerprints, id) == Resolution(lib, lookup(id))
    else
      Entry(after.resolvedAt, id) == Entry(before.resolvedAt, id)
      && Entry(after.fingerprints, id) == Entry(before.fingerprints, id)
  }

  /** One turn of the loop over the ids. */
  function ResolveOne(
    lib: Library, lookup: string -> Option<Credential>, now: int, id: string, cache: Cache): Cache
  {
    if !Due(lib, cache.resolvedAt, now, id) then cache
    else
      Cache(match Resolution(lib, lookup(id))
            case None => cache.fingerprints - {id}
            case Some(fingerprint) => cache.fingerprints[id := fingerprint],
            cache.resolvedAt[id := now])
  }

  /** A second turn for the same id finds it looked up already. */
  lemma ResolvedNext(
    lib: Library, lookup: string -> Option<Credential>, now: int, ids: seq<string>, id: string, before: Cache, cache: Cache)
    requires Resolved(lib, lookup, now, ids, before, cache)
    ensures Resolved(lib, lookup, now, ids + [id], before, ResolveOne(lib, lookup, now, id, cache))
  {
    hide Resolution;
    var after := ResolveOne(lib, lookup, now, id, cache);
    assert ResolvedOne(lib, lookup, now, id in ids, id, before, cache);
    forall other ensures ResolvedOne(lib, lookup, now, other in ids + [id], other, before, after) {
      assert ResolvedOne(lib, lookup, now, other in ids, other, before, cache);
    }
  }

  lemma NothingResolved(lib: Library, lookup: string -> Option<Credential>, now: int, cache: Cache)
    ensures Resolved(lib, lookup, now, [], cache, cache)
  {
  }

  class AccessPolicyStore {
    var policies: map<string, Policy>
    var cache: Cache

    constructor ()
      ensures policies == map[] && cache == Cache(map[], map[])
    {
      policies, cache := map[], Cache(map[], map[]);
    }

    /** resolveProviderFingerprints, at time `now`; `lookup` is GetProvider, if the store has a repository. */
    method ResolveProviderFingerprints(
      lib: Library, lookup: Option<string -> Option<Credential>>, now: int, providerIds: seq<string>)
      modifies this
      ensures policies == old(policies)
      ensures if lookup.None? then cache == old(cache)
              else Resolved(lib, lookup.value, now, providerIds, old(cache), cache)
    {
      if lookup.None? {
        return;
      }
      hide Resolved;
      NothingResolved(lib, lookup.value, now, cache);
      for i := 0 to |providerIds|
        invariant policies == old(policies)
        invariant Resolved(lib, lookup.value, now, providerIds[..i], old(cache), cache)
      {
        var id := providerIds[i];
        assert providerIds[..i + 1] == providerIds[..i] + [id];
        ResolvedNext(lib, lookup.value, now, providerIds[..i], id, old(cache), cache);
        if !lib.isUuid(id) {
          continue;
        }
        if id in cache.resolvedAt && now - cache.resolvedAt[id] < FINGERPRINT_TTL {
          continue;
        }
        cache := cache.(resolvedAt := cache.resolvedAt[id := now]);
        var provider := lookup.value(id);
        if provider.None? || "oauth:" <= provider.value.clientSecret {
          cache := cache.(fingerprints := cache.fingerprints - {id});
          continue;
        }
        var fingerprint := lib.fingerprint(provider.value.clientSecret, provider.value.baseUrl);
        cache := cache.(fingerprints := cache.fingerprints[id := fingerprint]);
      }
      assert providerIds[..|providerIds|] == providerIds;
    }

    /** Set; `scope` is the caller scope derived from the key's id, empty when there is none. */
    method Set(
      lib: Library, lookup: Option<string -> Option<Credential>>, now: int,
      scope: string, providers: seq<string>, models: seq<string>)
      modifies this
      ensures scope == "" ==> policies == old(policies) && cache == old(cache)
      ensures scope != "" ==> policies - {scope} == old(policies) - {scope}
      ensures scope != "" ==>
        PolicyOf(lib, providers, models) == if scope in policies then Some(policies[scope]) else None
      ensures scope != "" ==>
        if lookup.None? then cache == old(cache)
        else Resolved(lib, lookup.value, now, Normalized(lib, providers), old(cache), cache)
    {
      if scope == "" {
        return;
      }
      var restrictedProviders := NormalizeRestrictions(lib, providers);
      var restrictedModels := NormalizeRestrictions(lib, models);
      ResolveProviderFingerprints(lib, lookup, now, restrictedProviders);
      if |restrictedProviders| == 0 && |restrictedModels| == 0 {
        policies := policies - {scope};
        return;
      }
      policies := policies[scope := Policy(restrictedProviders, restrictedModels)];
    }
  }

  /** What the provider table says, at every time. */
  type History = (int, string) -> Option<Credential>

  /** Every cached fingerprint is the outcome of the last lookup, at the time noted for it. */
  ghost predicate Honest(lib: Library, history: History, cache: Cache) {
    forall id :: Entry(cache.fingerprints, id) ==
      if id in cache.resolvedAt then Resolution(lib, history(cache.resolvedAt[id], id)) else None
  }

  /**
   * The cache starts honest and every resolution keeps it so. A provider that
   * was to be resolved is judged by what the table said less than the time to
   * live ago, also after its credential was changed or removed.
   */
  lemma ResolutionHonest(
    lib: Library, history: History, now: int, ids: seq<string>, before: Cache, after: Cache)
    requires Honest(lib, history, before)
    requires Resolved(lib, id => history(now, id), now, ids, before, after)
    ensures Honest(lib, history, Cache(map[], map[])) && Honest(lib, history, after)
    ensures forall id :: id in ids && lib.isUuid(id) ==>
      && id in after.resolvedAt && now - after.resolvedAt[id] < FINGERPRINT_TTL
      && Entry(after.fingerprints, id) == Resolution(lib, history(after.resolvedAt[id], id))
  {
    hide Resolution;
    forall id
      ensures Entry(after.fingerprints, id) ==
        if id in after.resolvedAt then Resolution(lib, history(after.resolvedAt[id], id)) else None
      ensures id in ids && lib.isUuid(id) ==> id in after.resolvedAt && now - after.resolvedAt[id] < FINGERPRINT_TTL
    {
      assert ResolvedOne(lib, id => history(now, id), now, id in ids, id, before, after);
      assert Entry(before.fingerprints, id) ==
        if id in before.resolvedAt then Resolution(lib, history(before.resolvedAt[id], id)) else None;
    }
  }

  lemma RestrictsByMeaning(lib: Library, a: seq<string>, b: seq<string>, value: string)
    requires forall r :: r in a <==> r in b
    ensures Restricts(lib, a, value) <==> Restricts(lib, b, value)
  {
  }

  lemma RestrictsAuthByMeaning(
    lib: Library, fingerprints: map<string, string>, a: seq<string>, b: seq<string>, candidate: Auth)
    requires forall r :: r in a <==> r in b
    ensures RestrictsAuth(lib, fingerprints, a, candidate) <==> RestrictsAuth(lib, fingerprints, b, candidate)
  {
    RestrictsByMeaning(lib, a, b, candidate.id);
    RestrictsByMeaning(lib, a, b, candidate.provider);
    RestrictsByMeaning(lib, a, b, MetadataString(lib, candidate.metadata, "provider_id"));
    hide Restricts, CoversType, ApiKeyOf, FingerprintOf, MetadataString;
  }

  lemma {:induction false} AllowedByMeaning(
    lib: Library, fingerprints: map<string, string>, p: Policy, q: Policy, auths: seq<Option<Auth>>)
    requires forall r :: r in p.restrictedProviders <==> r in q.restrictedProviders
    ensures Allowed(lib, fingerprints, p, auths) == Allowed(lib, fingerprints, q, auths)
    decreases |auths|
  {
    hide RestrictsAuth;
    if auths != [] {
      AllowedByMeaning(lib, fingerprints, p, q, auths[1..]);
      if auths[0].Some? {
        RestrictsAuthByMeaning(lib, fingerprints, p.restrictedProviders, q.restrictedProviders, auths[0].value);
      }
    }
  }

  /**
   * Only the meaning of the two lists counts: reordering, repeating, re-casing
   * or padding their entries changes the outcome of no request.
   */
  lemma OutcomeByMeaning(
    lib: Library, fingerprints: map<string, string>, req: Request,
    providers: seq<string>, models: seq<string>, providers': seq<string>, models': seq<string>)
    requires Meaning(lib, providers) == Meaning(lib, providers')
    requires Meaning(lib, models) == Meaning(lib, models')
    ensures PickOutcome(lib, fingerprints, PolicyOf(lib, providers, models), req)
         == PickOutcome(lib, fingerprints, PolicyOf(lib, providers', models'), req)
  {
    NormalizedExact(lib, providers, {});
    NormalizedExact(lib, providers', {});
    NormalizedExact(lib, models, {});
    NormalizedExact(lib, models', {});
    hide Restricts, RestrictsAuth, NormalizedFrom, Meaning, Allowed;
    var p, q := PolicyOf(lib, providers, models), PolicyOf(lib, providers', models');
    var np, nq := Normalized(lib, providers), Normalized(lib, providers');
    var mp, mq := Normalized(lib, models), Normalized(lib, models');
    SameElements(np, nq);
    SameElements(mp, mq);
    if p.Some? {
      AllowedByMeaning(lib, fingerprints, p.value, q.value, req.auths);
      RestrictsByMeaning(lib, mp, mq, req.model);
      RestrictsByMeaning(lib, mp, mq, req.requestedModel);
    }
  }

  lemma SameElements(a: seq<string>, b: seq<string>)
    requires forall r :: r in a <==> r in b
    ensures a == [] <==> b == []
  {
    if a != [] {
      assert a[0] in b;
    }
    if b != [] {
      assert b[0] in a;
    }
  }

  // ---------- the outcome from the meaning of the lists ----------

  /** A value is blocked when its normal form, or what follows "models/" in it, meets one of the restrictions. */
  ghost predicate Blocked(lib: Library, restrictions: set<string>, value: string) {
    var v := lib.normalize(value);
    && v != ""
    && exists r :: r in restrictions &&
         (Meets(lib, r, v) || (|v| >= 7 && v[..7] == "models/" && Meets(lib, r, v[7..])))
  }

  /** The pattern matches or is malformed, or it is the same text. */
  predicate Meets(lib: Library, r: string, v: string) {
    lib.pathMatch(r, v) == Match || lib.pathMatch(r, v) == BadPattern || r == v
  }

  /** The candidate is blocked by its id, provider, provider type, provider id, or the credential of a known provider. */
  ghost predicate BlockedAuth(lib: Library, fingerprints: map<string, string>, restrictions: set<string>, c: Auth) {
    || Blocked(lib, restrictions, c.id)
    || Blocked(lib, restrictions, c.provider)
    || (exists r :: r in restrictions && CoversType(r, lib.normalize(c.provider)))
    || Blocked(lib, restrictions, MetadataString(lib, c.metadata, "provider_id"))
    || (ApiKeyOf(lib, c) != ""
        && exists r :: r in restrictions && r in fingerprints && fingerprints[r] == FingerprintOf(lib, c))
  }

  lemma BlockedExact(lib: Library, list: seq<string>, restrictions: set<string>, value: string)
    requires forall r :: r in list <==> r in restrictions
    ensures Restricts(lib, list, value) <==> Blocked(lib, restrictions, value)
  {
    var v := lib.normalize(value);
    assert "models/" <= v <==> |v| >= 7 && v[..7] == "models/";
    if Restricts(lib, list, value) {
      var r, w :| r in list && w in Variants(v) && Hits(lib, r, w);
      assert r in restrictions && Meets(lib, r, w);
    }
    if Blocked(lib, restrictions, value) {
      var r :| r in restrictions && (Meets(lib, r, v) || (|v| >= 7 && v[..7] == "models/" && Meets(lib, r, v[7..])));
      var w := if Meets(lib, r, v) then v else v[7..];
      assert r in list && w in Variants(v) && Hits(lib, r, w);
    }
  }

  lemma BlockedAuthExact(
    lib: Library, fingerprints: map<string, string>, list: seq<string>, restrictions: set<string>, c: Auth)
    requires forall r :: r in list <==> r in restrictions
    ensures RestrictsAuth(lib, fingerprints, list, c) <==> BlockedAuth(lib, fingerprints, restrictions, c)
  {
    BlockedExact(lib, list, restrictions, c.id);
    BlockedExact(lib, list, restrictions, c.provider);
    BlockedExact(lib, list, restrictions, MetadataString(lib, c.metadata, "provider_id"));
    hide Restricts, Blocked, CoversType, ApiKeyOf, FingerprintOf, MetadataString;
  }

  /** Rising positions of all candidates that are there and not blocked. */
  ghost predicate Passes(
    lib: Library, fingerprints: map<string, string>, restrictions: set<string>, auths: seq<Option<Auth>>, at: seq<nat>)
  {
    && (forall k :: 0 <= k < |at| ==> at[k] < |auths| && auths[at[k]].Some?)
    && (forall k :: 0 <= k < |at| ==> !BlockedAuth(lib, fingerprints, restrictions, auths[at[k]].value))
    && (forall k, l :: 0 <= k < l < |at| ==> at[k] < at[l])
    && (forall i :: 0 <= i < |auths| && auths[i].Some? && !BlockedAuth(lib, fingerprints, restrictions, auths[i].value)
          ==> At(at, i))
  }

  /**
   * What a request meets after Set, from what the two lists mean. Without any
   * restriction the whole candidate list is passed on as it is. Otherwise the
   * request is refused for its model exactly when one of its two names is
   * blocked; if not, the candidates that are there and not blocked are passed
   * on in order, or the request is refused when it had some and none is left.
   */
  lemma OutcomeAfterSet(
    lib: Library, fingerprints: map<string, string>, providers: seq<string>, models: seq<string>, req: Request)
    returns (at: seq<nat>)
    ensures var p, m := Meaning(lib, providers), Meaning(lib, models);
      var outcome := PickOutcome(lib, fingerprints, PolicyOf(lib, providers, models), req);
      if p == {} && m == {} then outcome == Delegate(req.auths)
      else if Blocked(lib, m, req.model) || Blocked(lib, m, req.requestedModel) then
        outcome == ForbiddenModel(
          if lib.trim(req.requestedModel) == "" then lib.trim(req.model) else lib.trim(req.requestedModel))
      else
        && Passes(lib, fingerprints, p, req.auths, at)
        && outcome == if at == [] && req.auths != [] then ForbiddenProvider
                      else Delegate(seq(|at|, k requires 0 <= k < |at| && at[k] < |req.auths| => req.auths[at[k]]))
  {
    var p, m := Meaning(lib, providers), Meaning(lib, models);
    NormalizedExact(lib, providers, {});
    NormalizedExact(lib, models, {});
    hide NormalizedFrom, Meaning, Restricts, RestrictsAuth, Blocked, BlockedAuth, Allowed;
    var policy := Policy(Normalized(lib, providers), Normalized(lib, models));
    BlockedExact(lib, policy.restrictedModels, m, req.model);
    BlockedExact(lib, policy.restrictedModels, m, req.requestedModel);
    at := AllowedExact(lib, fingerprints, policy, req.auths);
    PassesExact(lib, fingerprints, policy, p, req.auths, at);
    assert policy.restrictedProviders == [] <==> p == {} by { EmptyAlike(policy.restrictedProviders, p); }
    assert policy.restrictedModels == [] <==> m == {} by { EmptyAlike(policy.restrictedModels, m); }
  }

  lemma EmptyAlike(list: seq<string>, s: set<string>)
    requires forall r :: r in list <==> r in s
    ensures list == [] <==> s == {}
  {
    if list != [] {
      assert list[0] in s;
    }
  }

  lemma PassesExact(
    lib: Library, fingerprints: map<string, string>, policy: Policy, restrictions: set<string>,
    auths: seq<Option<Auth>>, at: seq<nat>)
    requires forall r :: r in policy.restrictedProviders <==> r in restrictions
    requires Selects(lib, fingerprints, policy, auths, at)
    ensures Passes(lib, fingerprints, restrictions, auths, at)
  {
    hide RestrictsAuth, BlockedAuth;
    forall i | 0 <= i < |auths|
      ensures Permitted(lib, fingerprints, policy, auths[i])
         <==> auths[i].Some? && !BlockedAuth(lib, fingerprints, restrictions, auths[i].value)
    {
      if auths[i].Some? {
        BlockedAuthExact(lib, fingerprints, policy.restrictedProviders, restrictions, auths[i].value);
      }
    }
  }
}
