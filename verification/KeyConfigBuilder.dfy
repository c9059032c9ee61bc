/**
 Building the registry at startup from a base configuration and the declared keys.
 The environment and the table of role names are parameters.
 */
module KeyConfigBuilder {
  import opened Common
  import opened ApiKeys
  import opened KeyRegistry

  datatype Entry = Entry(keyId: string, role: string, tenant: Option<string>, secretEnv: string)

  datatype BuildError = SecretNotSet | BlankSecret | UnknownRole | DuplicateKeyId | DuplicateSecret

  datatype BuildResult = Built | BuildFailed(place: nat, error: BuildError)

  type Environment = string -> Option<string>

  type RoleTable = string -> Option<Role>

  /** The White_Space property of Unicode, which trimming removes. */
  predicate IsWhitespace(c: char) {
    || '\U{9}' <= c <= '\U{D}' || c in {' ', '\U{85}', '\U{A0}', '\U{1680}'}
    || '\U{2000}' <= c <= '\U{200A}' || c in {'\U{2028}', '\U{2029}', '\U{202F}', '\U{205F}', '\U{3000}'}
  }

  predicate IsBlank(s: string) {
    forall i :: 0 <= i < |s| ==> IsWhitespace(s[i])
  }

  /** An entry without an id is known by the name of its environment variable. */
  function DeclaredId(e: Entry): string {
    if e.keyId == "" then e.secretEnv else e.keyId
  }

  predicate Readable(e: Entry, env: Environment, roles: RoleTable) {
    env(e.secretEnv).Some? && !IsBlank(env(e.secretEnv).value) && roles(e.role).Some?
  }

  function DeclaredKey(e: Entry, env: Environment, roles: RoleTable, now: Instant): ApiKey
    requires Readable(e, env, roles)
  {
    NewKey(env(e.secretEnv).value, roles(e.role).value, DeclaredId(e), e.tenant, now)
  }

  /** The id is that of a valid base key or of an earlier entry. */
  ghost predicate IdTaken(base: seq<ApiKey>, entries: seq<Entry>, k: nat, id: string, now: Instant)
    requires k <= |entries|
  {
    || (exists i :: 0 <= i < |base| && base[i].IsValid(now) && base[i].keyId == id)
    || (exists j :: 0 <= j < k && DeclaredId(entries[j]) == id)
  }

  ghost predicate SecretTaken(base: seq<ApiKey>, entries: seq<Entry>, k: nat, secret: string, env: Environment,
                              now: Instant)
    requires k <= |entries|
  {
    || (exists i :: 0 <= i < |base| && base[i].IsValid(now) && base[i].secret == secret)
    || (exists j :: 0 <= j < k && env(entries[j].secretEnv) == Some(secret))
  }

  /** What is wrong with the k-th entry, judged by the base and the entries before it. */
  ghost function Problem(base: seq<ApiKey>, entries: seq<Entry>, k: nat, env: Environment, roles: RoleTable,
                         now: Instant): Option<BuildError>
    requires k < |entries|
  {
    var e := entries[k];
    match env(e.secretEnv)
    case None => Some(SecretNotSet)
    case Some(secret) =>
      if IsBlank(secret) then Some(BlankSecret)
      else if roles(e.role).None? then Some(UnknownRole)
      else if IdTaken(base, entries, k, DeclaredId(e), now) then Some(DuplicateKeyId)
      else if SecretTaken(base, entries, k, secret, env, now) then Some(DuplicateSecret)
      else None
  }

  ghost predicate GoodUpTo(base: seq<ApiKey>, entries: seq<Entry>, n: nat, env: Environment, roles: RoleTable,
                           now: Instant)
    requires n <= |entries|
  {
    forall k :: 0 <= k < n ==> Problem(base, entries, k, env, roles, now) == None
  }

  /** The registry is the base followed by one key for each of the first n entries, in order. */
  ghost predicate IsExtension(keys: seq<ApiKey>, base: seq<ApiKey>, entries: seq<Entry>, n: nat, env: Environment,
                              roles: RoleTable, now: Instant)
    requires n <= |entries|
  {
    && |keys| == |base| + n && keys[..|base|] == base
    && forall k :: 0 <= k < n ==>
      Readable(entries[k], env, roles) && keys[|base| + k] == DeclaredKey(entries[k], env, roles, now)
  }

  /** Collect the secrets and the ids of the valid keys of the base. */
  method SeenInBase(base: seq<ApiKey>, now: Instant) returns (secrets: seq<string>, ids: seq<string>)
    ensures forall s :: s in secrets <==> exists i :: 0 <= i < |base| && base[i].IsValid(now) && base[i].secret == s
    ensures forall s :: s in ids <==> exists i :: 0 <= i < |base| && base[i].IsValid(now) && base[i].keyId == s
  {
    secrets, ids := [], [];
    for n := 0 to |base|
      invariant forall s :: s in secrets <==> exists i :: 0 <= i < n && base[i].IsValid(now) && base[i].secret == s
      invariant forall s :: s in ids <==> exists i :: 0 <= i < n && base[i].IsValid(now) && base[i].keyId == s
    {
      if base[n].IsValid(now) {
        secrets := secrets + [base[n].secret];
        ids := ids + [base[n].keyId];
      }
    }
  }

  /**
   Building succeeds exactly when no entry has a problem, and otherwise stops at the first
   entry that has one; either way the keys are the base followed by the entries read so far.
   */
  method BuildApiKeyConfig(config: ApiKeyConfig, entries: seq<Entry>, env: Environment, roles: RoleTable, now: Instant)
    returns (r: BuildResult)
    modifies config`keys
    ensures r.Built? <==> GoodUpTo(old(config.keys), entries, |entries|, env, roles, now)
    ensures r.Built? ==> IsExtension(config.keys, old(config.keys), entries, |entries|, env, roles, now)
    ensures r.BuildFailed? ==>
      && r.place < |entries|
      && GoodUpTo(old(config.keys), entries, r.place, env, roles, now)
      && Problem(old(config.keys), entries, r.place, env, roles, now) == Some(r.error)
      && IsExtension(config.keys, old(config.keys), entries, r.place, env, roles, now)
  {
    ghost var base := config.keys;
    var secrets, ids := SeenInBase(config.keys, now);
    for k := 0 to |entries|
      invariant forall s :: s in ids <==> IdTaken(base, entries, k, s, now)
      invariant forall s :: s in secrets <==> SecretTaken(base, entries, k, s, env, now)
      invariant GoodUpTo(base, entries, k, env, roles, now)
      invariant IsExtension(config.keys, base, entries, k, env, roles, now)
    {
      var entry := entries[k];
      var found := env(entry.secretEnv);
      if found.None? {
        assert Problem(base, entries, k, env, roles, now) == Some(SecretNotSet);
        return BuildFailed(k, SecretNotSet);
      }
      var secret := found.value;
      if IsBlank(secret) {
        assert Problem(base, entries, k, env, roles, now) == Some(BlankSecret);
        return BuildFailed(k, BlankSecret);
      }
      var role := roles(entry.role);
      if role.None? {
        assert Problem(base, entries, k, env, roles, now) == Some(UnknownRole);
        return BuildFailed(k, UnknownRole);
      }
      var keyId := if entry.keyId == "" then entry.secretEnv else entry.keyId;
      if keyId in ids {
        assert Problem(base, entries, k, env, roles, now) == Some(DuplicateKeyId);
        return BuildFailed(k, DuplicateKeyId);
      }
      if secret in secrets {
        assert Problem(base, entries, k, env, roles, now) == Some(DuplicateSecret);
        return BuildFailed(k, DuplicateSecret);
      }
      ids := ids + [keyId];
      secrets := secrets + [secret];
      config.AddKey(NewKey(secret, role.value, keyId, entry.tenant, now));
    }
    r := Built;
  }

  // ---------------------------------------------------------------- what was built, field by field

  /** The code points with the White_Space property. */
  const WHITE_SPACE: set<int> := {
    0x9, 0xA, 0xB, 0xC, 0xD, 0x20, 0x85, 0xA0, 0x1680, 0x2000, 0x2001, 0x2002, 0x2003, 0x2004, 0x2005, 0x2006, 0x2007,
    0x2008, 0x2009, 0x200A, 0x2028, 0x2029, 0x202F, 0x205F, 0x3000 }

  lemma WhitespaceExactly(c: char)
    ensures IsWhitespace(c) <==> c as int in WHITE_SPACE
  {
  }

  lemma BlankExactly(s: string)
    ensures IsBlank(s) <==> forall i :: 0 <= i < |s| ==> s[i] as int in WHITE_SPACE
  {
    forall i | 0 <= i < |s|
      ensures IsWhitespace(s[i]) <==> s[i] as int in WHITE_SPACE
    {
      WhitespaceExactly(s[i]);
    }
  }

  /** Every declared key is new and carries exactly what its entry declares, its tenant included. */
  lemma DeclaredFieldByField(base: seq<ApiKey>, keys: seq<ApiKey>, entries: seq<Entry>, env: Environment,
                             roles: RoleTable, now: Instant, k: nat)
    requires IsExtension(keys, base, entries, |entries|, env, roles, now) && k < |entries|
    ensures var e, key := entries[k], keys[|base| + k];
      && env(e.secretEnv) == Some(key.secret) && (exists i :: 0 <= i < |key.secret| && key.secret[i] as int !in WHITE_SPACE)
      && roles(e.role) == Some(key.role)
      && key.keyId == (if |e.keyId| == 0 then e.secretEnv else e.keyId)
      && key.tenant == e.tenant
      && key.createdAt == now && key.expiresAt == None && !key.revoked
      && key.failedAttempts == 0 && key.lockedUntil == None
  {
    BlankExactly(keys[|base| + k].secret);
  }

  /** Which error an entry gives, from the environment, the role table, the base and the entries before it. */
  lemma ProblemSpelledOut(base: seq<ApiKey>, entries: seq<Entry>, k: nat, env: Environment, roles: RoleTable, now: Instant)
    requires k < |entries|
    ensures var e, p := entries[k], Problem(base, entries, k, env, roles, now);
      var secret := env(e.secretEnv);
      var blank := secret.Some? && forall i :: 0 <= i < |secret.value| ==> secret.value[i] as int in WHITE_SPACE;
      var id := if |e.keyId| == 0 then e.secretEnv else e.keyId;
      var idTaken :=
        || (exists i :: 0 <= i < |base| && base[i].IsValid(now) && base[i].keyId == id)
        || (exists j :: 0 <= j < k && id == if |entries[j].keyId| == 0 then entries[j].secretEnv else entries[j].keyId);
      var secretTaken :=
        || (exists i :: 0 <= i < |base| && base[i].IsValid(now) && Some(base[i].secret) == secret)
        || (exists j :: 0 <= j < k && env(entries[j].secretEnv) == secret);
      && (p == Some(SecretNotSet) <==> secret == None)
      && (p == Some(BlankSecret) <==> blank)
      && (p == Some(UnknownRole) <==> secret.Some? && !blank && roles(e.role) == None)
      && (p == Some(DuplicateKeyId) <==> secret.Some? && !blank && roles(e.role).Some? && idTaken)
      && (p == Some(DuplicateSecret) <==> secret.Some? && !blank && roles(e.role).Some? && !idTaken && secretTaken)
  {
    var secret := env(entries[k].secretEnv);
    if secret.Some? {
      BlankExactly(secret.value);
    }
    assert forall j :: 0 <= j < k ==>
      DeclaredId(entries[j]) == if |entries[j].keyId| == 0 then entries[j].secretEnv else entries[j].keyId;
  }

  // ---------------------------------------------------------------- uniqueness of what was built

  /** A declared key repeats the secret of a base key that was already invalid at startup. */
  ghost predicate RevivesSecret(base: seq<ApiKey>, entries: seq<Entry>, env: Environment, now: Instant) {
    exists i, k :: 0 <= i < |base| && 0 <= k < |entries| && !base[i].IsValid(now)
                && env(entries[k].secretEnv) == Some(base[i].secret)
  }

  ghost predicate RevivesId(base: seq<ApiKey>, entries: seq<Entry>, now: Instant) {
    exists i, k :: 0 <= i < |base| && 0 <= k < |entries| && !base[i].IsValid(now)
                && DeclaredId(entries[k]) == base[i].keyId
  }

  ghost predicate Unique(names: seq<string>) {
    forall i, j :: 0 <= i < j < |names| ==> names[i] != names[j]
  }

  /** Names appended without repeating a checked name or each other clash only with unchecked ones. */
  lemma AppendedNamesUnique(before: seq<string>, checked: seq<bool>, added: seq<string>)
    requires |checked| == |before|
    requires forall i, k :: 0 <= i < |before| && 0 <= k < |added| && checked[i] ==> before[i] != added[k]
    requires Unique(added)
    ensures Unique(before + added) <==>
      Unique(before) && !exists i, k :: 0 <= i < |before| && 0 <= k < |added| && !checked[i] && before[i] == added[k]
  {
    var all := before + added;
    if Unique(all) {
      forall i, j | 0 <= i < j < |before|
        ensures before[i] != before[j]
      {
        assert all[i] == before[i] && all[j] == before[j];
      }
      forall i, k | 0 <= i < |before| && 0 <= k < |added|
        ensures before[i] != added[k]
      {
        assert all[i] == before[i] && all[|before| + k] == added[k];
      }
    }
  }

  /** The view of a registry through one of its name fields. */
  ghost function Names(keys: seq<ApiKey>, field: ApiKey -> string): (r: seq<string>)
    ensures |r| == |keys| && forall i :: 0 <= i < |keys| ==> r[i] == field(keys[i])
  {
    seq(|keys|, i requires 0 <= i < |keys| => field(keys[i]))
  }

  ghost function ValidFlags(keys: seq<ApiKey>, now: Instant): (r: seq<bool>)
    ensures |r| == |keys| && forall i :: 0 <= i < |keys| ==> r[i] == keys[i].IsValid(now)
  {
    seq(|keys|, i requires 0 <= i < |keys| => keys[i].IsValid(now))
  }

  /**
   A successful build has pairwise different secrets exactly when the base has and no entry
   repeats the secret of an invalid base key, which the duplicate check does not look at.
   */
  lemma BuiltSecretsUnique(base: seq<ApiKey>, keys: seq<ApiKey>, entries: seq<Entry>, env: Environment,
                           roles: RoleTable, now: Instant)
    requires GoodUpTo(base, entries, |entries|, env, roles, now)
    requires IsExtension(keys, base, entries, |entries|, env, roles, now)
    ensures UniqueSecrets(keys) <==> UniqueSecrets(base) && !RevivesSecret(base, entries, env, now)
  {
    var added := keys[|base|..];
    var secret := (k: ApiKey) => k.secret;
    var olds, news := Names(base, secret), Names(added, secret);
    assert Names(keys, secret) == olds + news by {
      assert keys == base + added;
    }
    forall k | 0 <= k < |entries|
      ensures env(entries[k].secretEnv) == Some(news[k])
      ensures !SecretTaken(base, entries, k, news[k], env, now)
    {
      assert Problem(base, entries, k, env, roles, now) == None;
      assert added[k] == keys[|base| + k];
    }
    AppendedNamesUnique(olds, ValidFlags(base, now), news);
    assert Unique(Names(keys, secret)) <==> UniqueSecrets(keys);
    assert Unique(olds) <==> UniqueSecrets(base);
  }

  /** The same for key ids. */
  lemma BuiltIdsUnique(base: seq<ApiKey>, keys: seq<ApiKey>, entries: seq<Entry>, env: Environment,
                       roles: RoleTable, now: Instant)
    requires GoodUpTo(base, entries, |entries|, env, roles, now)
    requires IsExtension(keys, base, entries, |entries|, env, roles, now)
    ensures UniqueIds(keys) <==> UniqueIds(base) && !RevivesId(base, entries, now)
  {
    var added := keys[|base|..];
    var id := (k: ApiKey) => k.keyId;
    var olds, news := Names(base, id), Names(added, id);
    assert Names(keys, id) == olds + news by {
      assert keys == base + added;
    }
    forall k | 0 <= k < |entries|
      ensures DeclaredId(entries[k]) == news[k]
      ensures !IdTaken(base, entries, k, news[k], now)
    {
      assert Problem(base, entries, k, env, roles, now) == None;
      assert added[k] == keys[|base| + k];
    }
    AppendedNamesUnique(olds, ValidFlags(base, now), news);
    assert Unique(Names(keys, id)) <==> UniqueIds(keys);
    assert Unique(olds) <==> UniqueIds(base);
  }

  /** A revoked base key's secret can be declared again: the build succeeds with two keys of one secret. */
  lemma RevokedSecretIsAccepted(k: ApiKey, role: Role, id: string, variable: string, now: Instant)
    returns (entries: seq<Entry>, env: Environment, roles: RoleTable)
    requires k.revoked && !IsBlank(k.secret)
    ensures GoodUpTo([k], entries, |entries|, env, roles, now) && RevivesSecret([k], entries, env, now)
    ensures forall keys :: IsExtension(keys, [k], entries, |entries|, env, roles, now) ==> !UniqueSecrets(keys)
  {
    entries := [Entry(id, "", None, variable)];
    env := (name: string) => Some(k.secret);
    roles := (name: string) => Some(role);
    assert [k][0] == k;
    assert entries[0] == Entry(id, "", None, variable);
    assert env(entries[0].secretEnv) == Some([k][0].secret);
    assert Problem([k], entries, 0, env, roles, now) == None;
    forall keys | IsExtension(keys, [k], entries, |entries|, env, roles, now)
      ensures !UniqueSecrets(keys)
    {
      BuiltSecretsUnique([k], keys, entries, env, roles, now);
    }
  }
}
