/** The link from second-factor lockouts to API keys. */
module MfaKeyLink {
  import opened Common
  import opened MfaStore
  import opened MfaHandlers
  import opened MfaViews
  import opened ApiKeys
  import opened KeyRegistry

  /**
   When a verification locks a user, the calling API key, if it is the first with its id, is
   refused for as long as the user stays locked, on every later run of the registry that
   records no success for it; no other key changes.
   */
  lemma {:induction false} LockedUserLocksKey(env: Env, s: Store, u: User, code: string, t0: nat,
                                              keys: seq<ApiKey>, i: nat, evs: seq<KeyRegistry.Event>, t: nat)
    requires Verify(env, s, u, code, t0).response.LockedNow?
    requires UniqueSecrets(keys) && i < |keys| && ById(keys, keys[i].keyId) == i
    requires From(evs, t0) && NoSuccess(evs, keys[i].secret)
    requires FreshRun(LockById(keys, keys[i].keyId, t0), evs)
    requires IsLockedOut(Verify(env, s, u, code, t0).store, u, t)
    ensures Validate(Exec(LockById(keys, keys[i].keyId, t0), evs), keys[i].secret, t) == None
    ensures forall j :: 0 <= j < |keys| && j != i ==> LockById(keys, keys[i].keyId, t0)[j] == keys[j]
  {
    var after := Verify(env, s, u, code, t0).store;
    VerifyActs(env, s, u, code, t0);
    assert Locked(s.persistent, ViewOf(after, u), t);
    assert t < t0 + LOCKOUT;
    LockedKeyIsRefused(keys, keys[i].keyId, t0, evs, t);
  }
}
