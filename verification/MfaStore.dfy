/**
 The second-factor store: lockouts, failed attempts and backup codes, kept either in
 database rows or, without a database, in maps in memory. Instants are microseconds since
 the epoch; the maps in memory only see whole seconds.
 */
module MfaStore {
  import opened Common

  const MAX_TOTP_ATTEMPTS: nat := 5
  const TOTP_LOCKOUT_SECS: nat := 300
  const MAX_BACKUP_CODE_USES: nat := 3

  /** Microseconds in a second. */
  const SECOND: nat := 1_000_000

  type User = string
  type Secret = Bytes
  type Digest = string

  datatype LockoutRow = LockoutRow(failedAttempts: nat, lockedUntil: Option<nat>, backupCodeUsage: nat)

  datatype ConfigRow = ConfigRow(secret: Secret, backupCodes: seq<Digest>)

  datatype Database = Database(configs: map<User, ConfigRow>, lockouts: map<User, LockoutRow>)

  datatype Memory = Memory(
    totpConfigs: map<User, Secret>,
    backupCodes: map<User, seq<Digest>>,
    failedAttempts: map<User, nat>,
    lockouts: map<User, nat>,
    backupCodeUsage: map<User, nat>)

  /** Both halves of the manager; the database counts only when the store is persistent. */
  datatype Store = Store(persistent: bool, db: Database, memory: Memory)

  function NewStore(persistent: bool): Store {
    Store(persistent, Database(map[], map[]), Memory(map[], map[], map[], map[], map[]))
  }

  function GetOr<K, V>(m: map<K, V>, k: K, default: V): V {
    if k in m then m[k] else default
  }

  /** The user's row, or the row that an insertion starts from. */
  function Row(db: Database, u: User): LockoutRow {
    GetOr(db.lockouts, u, LockoutRow(0, None, 0))
  }

  // ---------------------------------------------------------------- reading

  function LoadSecret(s: Store, u: User): Option<Secret> {
    if s.persistent then
      if u in s.db.configs then Some(s.db.configs[u].secret) else None
    else if u in s.memory.totpConfigs then Some(s.memory.totpConfigs[u]) else None
  }

  function LoadBackupCodes(s: Store, u: User): Option<seq<Digest>> {
    if s.persistent then
      if u in s.db.configs then Some(s.db.configs[u].backupCodes) else None
    else if u in s.memory.backupCodes then Some(s.memory.backupCodes[u]) else None
  }

  function FailedAttempts(s: Store, u: User): nat {
    if s.persistent then Row(s.db, u).failedAttempts else GetOr(s.memory.failedAttempts, u, 0)
  }

  function BackupUsage(s: Store, u: User): nat {
    if s.persistent then Row(s.db, u).backupCodeUsage else GetOr(s.memory.backupCodeUsage, u, 0)
  }

  predicate IsLockedOut(s: Store, u: User, now: nat) {
    if s.persistent then
      var until := Row(s.db, u).lockedUntil;
      until.Some? && now < until.value
    else u in s.memory.lockouts && now / SECOND < s.memory.lockouts[u]
  }

  function LockoutRemaining(s: Store, u: User, now: nat): nat {
    if !IsLockedOut(s, u, now) then 0
    else if s.persistent then (Row(s.db, u).lockedUntil.value - now) / SECOND
    else s.memory.lockouts[u] - now / SECOND
  }

  // ---------------------------------------------------------------- writing

  function WithRow(s: Store, u: User, row: LockoutRow): Store {
    s.(db := s.db.(lockouts := s.db.lockouts[u := row]))
  }

  /** Rewrite the user's row if there is one, as an UPDATE does. */
  function UpdateRow(s: Store, u: User, row: LockoutRow): Store {
    if u in s.db.lockouts then WithRow(s, u, row) else s
  }

  function RecordFailedTotp(s: Store, u: User, now: nat): Store {
    var n := FailedAttempts(s, u) + 1;
    if s.persistent then
      var row := Row(s.db, u).(failedAttempts := n);
      WithRow(s, u, if n >= MAX_TOTP_ATTEMPTS
                    then row.(lockedUntil := Some(now + TOTP_LOCKOUT_SECS * SECOND)) else row)
    else
      var m := s.memory.(failedAttempts := s.memory.failedAttempts[u := n]);
      s.(memory := if n >= MAX_TOTP_ATTEMPTS
                   then m.(lockouts := m.lockouts[u := now / SECOND + TOTP_LOCKOUT_SECS]) else m)
  }

  /** The database forgets the lockout and the backup usage as well; the memory does not. */
  function ClearFailedAttempts(s: Store, u: User): Store {
    if s.persistent then UpdateRow(s, u, LockoutRow(0, None, 0))
    else s.(memory := s.memory.(failedAttempts := s.memory.failedAttempts - {u}))
  }

  function RecordBackupUsage(s: Store, u: User): Store {
    var n := BackupUsage(s, u) + 1;
    if s.persistent then WithRow(s, u, Row(s.db, u).(backupCodeUsage := n))
    else s.(memory := s.memory.(backupCodeUsage := s.memory.backupCodeUsage[u := n]))
  }

  function ResetBackupUsage(s: Store, u: User): Store {
    if s.persistent then UpdateRow(s, u, Row(s.db, u).(backupCodeUsage := 0))
    else s.(memory := s.memory.(backupCodeUsage := s.memory.backupCodeUsage - {u}))
  }

  function PutBackupCodes(s: Store, u: User, codes: seq<Digest>): Store {
    var m := s.(memory := s.memory.(backupCodes := s.memory.backupCodes[u := codes]));
    if s.persistent && u in s.db.configs
    then m.(db := s.db.(configs := s.db.configs[u := s.db.configs[u].(backupCodes := codes)]))
    else m
  }

  function StoreConfig(s: Store, u: User, secret: Secret, codes: seq<Digest>): Store {
    var memory := s.memory.(totpConfigs := s.memory.totpConfigs[u := secret],
                            backupCodes := s.memory.backupCodes[u := codes]);
    if s.persistent
    then s.(memory := memory, db := s.db.(configs := s.db.configs[u := ConfigRow(secret, codes)]))
    else s.(memory := memory)
  }

  /** The first place of a digest in a list, or the list's length. */
  function Position(codes: seq<Digest>, d: Digest): (i: nat)
    ensures i <= |codes| && (i < |codes| <==> d in codes) && (i < |codes| ==> codes[i] == d)
  {
    if codes == [] then 0 else if codes[0] == d then 0 else 1 + Position(codes[1..], d)
  }

  function Without(codes: seq<Digest>, i: nat): seq<Digest>
    requires i < |codes|
  {
    codes[..i] + codes[i + 1..]
  }

  predicate HasBackupCode(s: Store, u: User, d: Digest) {
    var codes := LoadBackupCodes(s, u);
    codes.Some? && d in codes.value
  }

  function ConsumeBackupCode(s: Store, u: User, d: Digest): Store {
    if HasBackupCode(s, u, d) then
      var codes := LoadBackupCodes(s, u).value;
      PutBackupCodes(s, u, Without(codes, Position(codes, d)))
    else s
  }

  // ---------------------------------------------------------------- the manager object

  class MfaManager {
    const persistent: bool
    var configRows: map<User, ConfigRow>
    var lockoutRows: map<User, LockoutRow>
    var totpConfigs: map<User, Secret>
    var backupCodes: map<User, seq<Digest>>
    var failedAttempts: map<User, nat>
    var lockouts: map<User, nat>
    var backupCodeUsage: map<User, nat>

    function State(): Store
      reads this
    {
      Store(persistent, Database(configRows, lockoutRows),
            Memory(totpConfigs, backupCodes, failedAttempts, lockouts, backupCodeUsage))
    }

    constructor (persistent: bool)
      ensures State() == NewStore(persistent)
    {
      this.persistent := persistent;
      configRows, lockoutRows := map[], map[];
      totpConfigs, backupCodes, failedAttempts, lockouts, backupCodeUsage := map[], map[], map[], map[], map[];
    }

    /** Without a key-encryption key nothing is stored. */
    method StoreTotpConfig(u: User, secret: Secret, codes: seq<Digest>, hasKek: bool) returns (ok: bool)
      modifies this
      ensures ok == hasKek
      ensures State() == if ok then StoreConfig(old(State()), u, secret, codes) else old(State())
    {
      if !hasKek {
        return false;
      }
      if persistent {
        configRows := configRows[u := ConfigRow(secret, codes)];
      }
      totpConfigs := totpConfigs[u := secret];
      backupCodes := backupCodes[u := codes];
      ok := true;
    }

    method LoadTotpConfig(u: User) returns (r: Option<Secret>)
      ensures r == LoadSecret(State(), u)
    {
      if persistent {
        return if u in configRows then Some(configRows[u].secret) else None;
      }
      r := if u in totpConfigs then Some(totpConfigs[u]) else None;
    }

    method LoadCodes(u: User) returns (r: Option<seq<Digest>>)
      ensures r == LoadBackupCodes(State(), u)
    {
      if persistent {
        return if u in configRows then Some(configRows[u].backupCodes) else None;
      }
      r := if u in backupCodes then Some(backupCodes[u]) else None;
    }

    method Consume(u: User, d: Digest) returns (found: bool)
      modifies this
      ensures found == HasBackupCode(old(State()), u, d)
      ensures State() == ConsumeBackupCode(old(State()), u, d)
    {
      var loaded := LoadCodes(u);
      if loaded.None? {
        return false;
      }
      var codes := loaded.value;
      var pos := Position(codes, d);
      if pos == |codes| {
        return false;
      }
      codes := codes[..pos] + codes[pos + 1..];
      if persistent && u in configRows {
        configRows := configRows[u := configRows[u].(backupCodes := codes)];
      }
      backupCodes := backupCodes[u := codes];
      found := true;
    }

    method RecordFailedTotpAttempt(u: User, now: nat) returns (locked: bool)
      modifies this
      ensures State() == RecordFailedTotp(old(State()), u, now)
      ensures locked <==> FailedAttempts(State(), u) >= MAX_TOTP_ATTEMPTS
    {
      if persistent {
        var row := if u in lockoutRows then lockoutRows[u] else LockoutRow(0, None, 0);
        row := row.(failedAttempts := row.failedAttempts + 1);
        lockoutRows := lockoutRows[u := row];
        locked := row.failedAttempts >= MAX_TOTP_ATTEMPTS;
        if locked {
          lockoutRows := lockoutRows[u := row.(lockedUntil := Some(now + 300 * SECOND))];
        }
        return;
      }
      var attempts := 1 + if u in failedAttempts then failedAttempts[u] else 0;
      failedAttempts := failedAttempts[u := attempts];
      locked := attempts >= MAX_TOTP_ATTEMPTS;
      if locked {
        lockouts := lockouts[u := now / SECOND + TOTP_LOCKOUT_SECS];
      }
    }

    method ClearAttempts(u: User)
      modifies this
      ensures State() == ClearFailedAttempts(old(State()), u)
    {
      if persistent {
        if u in lockoutRows {
          lockoutRows := lockoutRows[u := LockoutRow(0, None, 0)];
        }
        return;
      }
      failedAttempts := failedAttempts - {u};
    }

    method LockedOut(u: User, now: nat) returns (r: bool)
      ensures r == IsLockedOut(State(), u, now)
    {
      if persistent {
        return u in lockoutRows && lockoutRows[u].lockedUntil.Some? && now < lockoutRows[u].lockedUntil.value;
      }
      r := u in lockouts && now / SECOND < lockouts[u];
    }

    method LockoutRemainingSecs(u: User, now: nat) returns (r: nat)
      ensures r == LockoutRemaining(State(), u, now)
    {
      if persistent {
        if u in lockoutRows && lockoutRows[u].lockedUntil.Some? {
          var left := lockoutRows[u].lockedUntil.value - now;
          return if left > 0 then left / SECOND else 0;
        }
        return 0;
      }
      if u in lockouts && now / SECOND < lockouts[u] {
        return lockouts[u] - now / SECOND;
      }
      r := 0;
    }

    method FailedAttemptCount(u: User) returns (r: nat)
      ensures r == FailedAttempts(State(), u)
    {
      if persistent {
        return if u in lockoutRows then lockoutRows[u].failedAttempts else 0;
      }
      r := if u in failedAttempts then failedAttempts[u] else 0;
    }

    method RecordUsage(u: User) returns (exceeded: bool)
      modifies this
      ensures State() == RecordBackupUsage(old(State()), u)
      ensures exceeded <==> BackupUsage(State(), u) >= MAX_BACKUP_CODE_USES
    {
      if persistent {
        var row := if u in lockoutRows then lockoutRows[u] else LockoutRow(0, None, 0);
        row := row.(backupCodeUsage := row.backupCodeUsage + 1);
        lockoutRows := lockoutRows[u := row];
        return row.backupCodeUsage >= MAX_BACKUP_CODE_USES;
      }
      var usage := 1 + if u in backupCodeUsage then backupCodeUsage[u] else 0;
      backupCodeUsage := backupCodeUsage[u := usage];
      exceeded := usage >= MAX_BACKUP_CODE_USES;
    }

    method UsageCount(u: User) returns (r: nat)
      ensures r == BackupUsage(State(), u)
    {
      if persistent {
        return if u in lockoutRows then lockoutRows[u].backupCodeUsage else 0;
      }
      r := if u in backupCodeUsage then backupCodeUsage[u] else 0;
    }

    method ResetUsage(u: User)
      modifies this
      ensures State() == ResetBackupUsage(old(State()), u)
    {
      if persistent {
        if u in lockoutRows {
          lockoutRows := lockoutRows[u := lockoutRows[u].(backupCodeUsage := 0)];
        }
        return;
      }
      backupCodeUsage := backupCodeUsage - {u};
    }
  }
}
