/**
 The two ways into the service. The REST middleware and the gRPC interceptor both search
 the registry, but they ask different questions of it: one takes the key id of the first
 entry with the secret, the other that of the first usable entry.
 */
module AuthChannels {
  import opened Common
  import opened ApiKeys
  import opened KeyRegistry
  import opened KeyConfigBuilder

  /** Permission bits, by number. */
  type Permission = set<nat>

  /** The permissions of each role. */
  type Grants = Role -> Permission

  datatype Caller = Caller(role: Role, keyId: string, tenant: Option<string>)

  datatype Access = Granted(caller: Caller) | Unauthenticated | Forbidden

  predicate Satisfies(grants: Grants, role: Role, required: Permission) {
    required <= grants(role)
  }

  predicate HasPermission(keys: seq<ApiKey>, grants: Grants, secret: string, required: Permission, now: Instant) {
    var role := Validate(keys, secret, now);
    role.Some? && (required == {} || Satisfies(grants, role.value, required))
  }

  /** The REST middleware, given the value of the API-key header. */
  function RestAccess(keys: seq<ApiKey>, grants: Grants, header: Option<string>, required: Permission, now: Instant): Access {
    match header
    case None => Unauthenticated
    case Some(secret) =>
      var keyId := LookupKeyId(keys, secret);
      var tenant := LookupTenant(keys, secret);
      var role := Validate(keys, secret, now);
      if HasPermission(keys, grants, secret, required, now)
      then Granted(Caller(if role.Some? then role.value else ReadOnly,
                          if keyId.Some? then keyId.value else "unknown", tenant))
      else Forbidden
  }

  function StripBearer(v: string): Option<string> {
    if "Bearer " <= v then Some(v[7..]) else None
  }

  /** The secret that the interceptor reads: the key header first, then a bearer token. */
  function PresentedSecret(apiKey: Option<string>, authorization: Option<string>): Option<string> {
    if apiKey.Some? then apiKey
    else if authorization.Some? then StripBearer(authorization.value)
    else None
  }

  /** The gRPC interceptor. */
  function Intercept(keys: seq<ApiKey>, secret: Option<string>, now: Instant): Access {
    match secret
    case None => Unauthenticated
    case Some(s) =>
      match ValidateWithIdentity(keys, s, now)
      case None => Unauthenticated
      case Some((role, keyId)) => Granted(Caller(role, keyId, LookupTenant(keys, s)))
  }

  /** The interceptor followed by the permission check of the handler. */
  function GrpcAccess(keys: seq<ApiKey>, grants: Grants, secret: Option<string>, required: Permission, now: Instant): Access {
    match Intercept(keys, secret, now)
    case Granted(caller) => if Satisfies(grants, caller.role, required) then Granted(caller) else Forbidden
    case other => other
  }

  /**
   For any registry whatsoever the two channels admit the same presented secrets, and they name
   the same caller exactly when the first entry with the secret and the first usable one have
   the same key id.
   */
  lemma ChannelsAgreeExactly(keys: seq<ApiKey>, grants: Grants, secret: string, required: Permission, now: Instant)
    ensures RestAccess(keys, grants, Some(secret), required, now).Granted?
       <==> GrpcAccess(keys, grants, Some(secret), required, now).Granted?
    ensures RestAccess(keys, grants, Some(secret), required, now).Granted? ==>
      var first, usable := BySecret(keys, secret), UsableBySecret(keys, secret, now);
      && first <= usable < |keys|
      && (RestAccess(keys, grants, Some(secret), required, now) == GrpcAccess(keys, grants, Some(secret), required, now)
          <==> keys[first].keyId == keys[usable].keyId)
  {
    var first, usable := BySecret(keys, secret), UsableBySecret(keys, secret, now);
    assert usable < |keys| ==> first <= usable;
  }

  /** A bearer token whose secret has the permission. */
  predicate BearerWithPermission(keys: seq<ApiKey>, grants: Grants, authorization: Option<string>, required: Permission,
                                 now: Instant)
  {
    && authorization.Some?
    && StripBearer(authorization.value).Some?
    && HasPermission(keys, grants, StripBearer(authorization.value).value, required, now)
  }

  /**
   For a whole request, the key header and the authorization header, the channels do not always
   agree, since only the interceptor reads bearer tokens: they admit alike exactly when there is a
   key header or the authorization is no bearer token with the permission, and otherwise it is the
   interceptor alone that admits.
   */
  lemma RequestsAgreeExactly(keys: seq<ApiKey>, grants: Grants, apiKey: Option<string>, authorization: Option<string>,
                             required: Permission, now: Instant)
    ensures var rest := RestAccess(keys, grants, apiKey, required, now);
      var grpc := GrpcAccess(keys, grants, PresentedSecret(apiKey, authorization), required, now);
      && ((rest.Granted? <==> grpc.Granted?)
          <==> apiKey.Some? || !BearerWithPermission(keys, grants, authorization, required, now))
      && (rest.Granted? ==> grpc.Granted?)
  {
    var secret := PresentedSecret(apiKey, authorization);
    if secret.Some? {
      ChannelsAgreeExactly(keys, grants, secret.value, required, now);
    }
  }

  /** A usable key presented as a bearer token is admitted by the interceptor and refused by the middleware. */
  lemma BearerSplitsChannels(k: ApiKey, grants: Grants, now: Instant)
    requires k.Usable(now)
    ensures var authorization := Some("Bearer " + k.secret);
      && RestAccess([k], grants, None, {}, now) == Unauthenticated
      && GrpcAccess([k], grants, PresentedSecret(None, authorization), {}, now)
         == Granted(Caller(k.role, k.keyId, k.tenant))
  {
    assert ("Bearer " + k.secret)[7..] == k.secret;
    assert UsableBySecret([k], k.secret, now) == 0 && BySecret([k], k.secret) == 0;
  }

  // ---------------------------------------------------------------- when each channel admits

  /** Not revoked, not expired and not locked. */
  ghost predicate InForce(k: ApiKey, now: Instant) {
    && !k.revoked
    && (k.expiresAt.Some? ==> now < k.expiresAt.value)
    && (k.lockedUntil.Some? ==> k.lockedUntil.value <= now)
  }

  /** The first entry with the secret that is in force. */
  ghost predicate FirstInForce(keys: seq<ApiKey>, secret: string, now: Instant, i: nat) {
    && i < |keys| && keys[i].secret == secret && InForce(keys[i], now)
    && forall j :: 0 <= j < i ==> keys[j].secret != secret || !InForce(keys[j], now)
  }

  ghost predicate HasAll(grants: Grants, role: Role, required: Permission) {
    forall p :: p in required ==> p in grants(role)
  }

  /**
   For any registry, the middleware admits exactly when some entry with the secret is in force and the
   first such entry's role has every required permission; otherwise it forbids, and without a key header
   it does not authenticate.
   */
  lemma RestExactly(keys: seq<ApiKey>, grants: Grants, secret: string, required: Permission, now: Instant)
    ensures var rest := RestAccess(keys, grants, Some(secret), required, now);
      && (forall i: nat :: FirstInForce(keys, secret, now, i) ==>
            if HasAll(grants, keys[i].role, required) then rest.Granted? && rest.caller.role == keys[i].role
            else rest == Forbidden)
      && ((forall i: nat :: !FirstInForce(keys, secret, now, i)) ==> rest == Forbidden)
    ensures RestAccess(keys, grants, None, required, now) == Unauthenticated
  {
    FirstInForceIsUsable(keys, secret, now);
    var i := UsableBySecret(keys, secret, now);
    assert FirstInForce(keys, secret, now, i) <==> i < |keys|;
    assert forall role :: HasAll(grants, role, required) <==> required <= grants(role);
  }

  /** The interceptor and the handler's check: the same entry and permissions, but no usable entry is not authenticated. */
  lemma GrpcExactly(keys: seq<ApiKey>, grants: Grants, secret: string, required: Permission, now: Instant)
    ensures var grpc := GrpcAccess(keys, grants, Some(secret), required, now);
      && (forall i: nat :: FirstInForce(keys, secret, now, i) ==>
            if HasAll(grants, keys[i].role, required)
            then grpc.Granted? && grpc.caller.role == keys[i].role && grpc.caller.keyId == keys[i].keyId
            else grpc == Forbidden)
      && ((forall i: nat :: !FirstInForce(keys, secret, now, i)) ==> grpc == Unauthenticated)
    ensures GrpcAccess(keys, grants, None, required, now) == Unauthenticated
  {
    FirstInForceIsUsable(keys, secret, now);
    var i := UsableBySecret(keys, secret, now);
    assert FirstInForce(keys, secret, now, i) <==> i < |keys|;
    assert forall role :: HasAll(grants, role, required) <==> required <= grants(role);
  }

  lemma FirstInForceIsUsable(keys: seq<ApiKey>, secret: string, now: Instant)
    ensures var i := UsableBySecret(keys, secret, now);
      forall j: nat :: FirstInForce(keys, secret, now, j) <==> i < |keys| && j == i
  {
    var i := UsableBySecret(keys, secret, now);
    assert forall k: ApiKey :: InForce(k, now) <==> k.Usable(now);
  }

  /** The caller is one entry's role, id and tenant. */
  ghost predicate OneEntry(keys: seq<ApiKey>, secret: string, caller: Caller, now: Instant) {
    exists i :: 0 <= i < |keys| && keys[i].secret == secret && keys[i].Usable(now)
             && caller == Caller(keys[i].role, keys[i].keyId, keys[i].tenant)
  }

  /**
   On every registry built from a base of distinct valid keys, and after any later run of
   failures, successes, locks, revocations and rotations to fresh secrets, the two channels
   derive the same caller, taken from a single entry, and reject the same requests.
   */
  lemma {:induction false} ChannelsAgreeOnRuns(base: seq<ApiKey>, built: seq<ApiKey>, entries: seq<Entry>, env: Environment,
                                               roles: RoleTable, start: Instant, evs: seq<Event>,
                                               grants: Grants, secret: string, required: Permission, now: Instant)
    requires UniqueSecrets(base) && forall i :: 0 <= i < |base| ==> base[i].IsValid(start)
    requires GoodUpTo(base, entries, |entries|, env, roles, start)
    requires IsExtension(built, base, entries, |entries|, env, roles, start)
    requires FreshRun(built, evs)
    ensures var keys := Exec(built, evs);
      var rest, grpc := RestAccess(keys, grants, Some(secret), required, now),
                        GrpcAccess(keys, grants, Some(secret), required, now);
      && (rest.Granted? <==> grpc.Granted?)
      && (rest.Granted? ==> rest == grpc && OneEntry(keys, secret, rest.caller, now))
  {
    BuiltSecretsUnique(base, built, entries, env, roles, start);
    UniqueSecretsKept(built, evs);
    var keys := Exec(built, evs);
    ChannelsAgreeExactly(keys, grants, secret, required, now);
    var i := UsableBySecret(keys, secret, now);
    if i < |keys| {
      FoundAtOwnPlace(keys, i);
    }
  }

  /** What the middleware answers for entry i, given that no other entry has its secret. */
  ghost function RestAnswer(k: ApiKey, grants: Grants, required: Permission, now: Instant): Access {
    if InForce(k, now) && HasAll(grants, k.role, required) then Granted(Caller(k.role, k.keyId, k.tenant)) else Forbidden
  }

  ghost function GrpcAnswer(k: ApiKey, grants: Grants, required: Permission, now: Instant): Access {
    if !InForce(k, now) then Unauthenticated else RestAnswer(k, grants, required, now)
  }

  lemma OwnEntryAnswers(keys: seq<ApiKey>, grants: Grants, i: nat, required: Permission, now: Instant)
    requires UniqueSecrets(keys) && i < |keys|
    ensures RestAccess(keys, grants, Some(keys[i].secret), required, now) == RestAnswer(keys[i], grants, required, now)
    ensures GrpcAccess(keys, grants, Some(keys[i].secret), required, now) == GrpcAnswer(keys[i], grants, required, now)
  {
    var secret := keys[i].secret;
    FoundAtOwnPlace(keys, i);
    RestExactly(keys, grants, secret, required, now);
    GrpcExactly(keys, grants, secret, required, now);
    assert forall j :: 0 <= j < |keys| && keys[j].secret == secret ==> j == i;
    assert InForce(keys[i], now) <==> FirstInForce(keys, secret, now, i);
  }

  /**
   On every registry built from distinct valid base keys and after every later run with fresh secrets, each
   channel's answer for an entry's secret is decided by that entry alone, and unknown secrets are refused.
   */
  lemma {:induction false} AnswersOnRuns(base: seq<ApiKey>, built: seq<ApiKey>, entries: seq<Entry>, env: Environment,
                                         roles: RoleTable, start: Instant, evs: seq<Event>, grants: Grants,
                                         required: Permission, now: Instant)
    requires UniqueSecrets(base) && forall i :: 0 <= i < |base| ==> base[i].IsValid(start)
    requires GoodUpTo(base, entries, |entries|, env, roles, start)
    requires IsExtension(built, base, entries, |entries|, env, roles, start)
    requires FreshRun(built, evs)
    ensures var keys := Exec(built, evs);
      && (forall i :: 0 <= i < |keys| ==>
            && RestAccess(keys, grants, Some(keys[i].secret), required, now) == RestAnswer(keys[i], grants, required, now)
            && GrpcAccess(keys, grants, Some(keys[i].secret), required, now) == GrpcAnswer(keys[i], grants, required, now))
      && (forall secret :: (forall i :: 0 <= i < |keys| ==> keys[i].secret != secret) ==>
            && RestAccess(keys, grants, Some(secret), required, now) == Forbidden
            && GrpcAccess(keys, grants, Some(secret), required, now) == Unauthenticated)
  {
    BuiltSecretsUnique(base, built, entries, env, roles, start);
    UniqueSecretsKept(built, evs);
    var keys := Exec(built, evs);
    forall i | 0 <= i < |keys|
      ensures RestAccess(keys, grants, Some(keys[i].secret), required, now) == RestAnswer(keys[i], grants, required, now)
      ensures GrpcAccess(keys, grants, Some(keys[i].secret), required, now) == GrpcAnswer(keys[i], grants, required, now)
    {
      OwnEntryAnswers(keys, grants, i, required, now);
    }
    forall secret | forall i :: 0 <= i < |keys| ==> keys[i].secret != secret
      ensures RestAccess(keys, grants, Some(secret), required, now) == Forbidden
      ensures GrpcAccess(keys, grants, Some(secret), required, now) == Unauthenticated
    {
      RestExactly(keys, grants, secret, required, now);
      GrpcExactly(keys, grants, secret, required, now);
    }
  }

  /** A declared key admits its caller with the declared role, id and tenant, exactly where the role has the permissions. */
  lemma DeclaredKeyAdmits(base: seq<ApiKey>, built: seq<ApiKey>, entries: seq<Entry>, env: Environment, roles: RoleTable,
                          start: Instant, grants: Grants, required: Permission, now: Instant, k: nat)
    requires UniqueSecrets(base) && forall i :: 0 <= i < |base| ==> base[i].IsValid(start)
    requires GoodUpTo(base, entries, |entries|, env, roles, start)
    requires IsExtension(built, base, entries, |entries|, env, roles, start) && k < |entries|
    ensures var e := entries[k];
      && env(e.secretEnv).Some? && roles(e.role).Some?
      && RestAccess(built, grants, env(e.secretEnv), required, now)
         == if forall p :: p in required ==> p in grants(roles(e.role).value)
            then Granted(Caller(roles(e.role).value, if |e.keyId| == 0 then e.secretEnv else e.keyId, e.tenant))
            else Forbidden
  {
    BuiltSecretsUnique(base, built, entries, env, roles, start);
    DeclaredFieldByField(base, built, entries, env, roles, start, k);
    OwnEntryAnswers(built, grants, |base| + k, required, now);
  }

  /** Rotating a key to its own secret makes the channels name different callers once the grace is over. */
  lemma ReusedSecretSplitsChannels(k: ApiKey, role: Role, grants: Grants, g: int, n: Instant)
    requires g >= 0
    ensures var keys := Rotate([k], k.keyId, k.secret, role, g, n);
      && RestAccess(keys, grants, Some(k.secret), {}, n + g) == Granted(Caller(role, k.keyId, k.tenant))
      && GrpcAccess(keys, grants, Some(k.secret), {}, n + g)
         == Granted(Caller(role, RotatedId(k.keyId), k.tenant))
  {
    var keys := Rotate([k], k.keyId, k.secret, role, g, n);
    assert ById([k], k.keyId) == 0;
    assert |keys| == 2 && keys[0] == k.(expiresAt := Some(n + g)) && keys[1] == RotatedKey(k.keyId, k.secret, role, n);
    assert BySecret(keys, k.secret) == 0;
    assert UsableBySecret(keys, k.secret, n + g) == 1;
  }
}
