# gm-kms: verified models

gm-kms is a key management service. This project models the parts of it that keep state or write bytes
by hand, and proves what they do on every run and for every input:

- the **second-factor store** (`MfaStore`, `MfaHandlers`, `MfaViews`, `MfaRuns`, `MfaAnswers`, `MfaKeyLink`): lockouts and
  backup codes, kept in memory or in a database, and the handlers that drive them;
- the **API-key registry** (`ApiKeys`, `KeyRegistry`, `KeyConfigBuilder`, `AuthChannels`): lockout, revocation,
  rotation, the startup builder, and the agreement of the REST and gRPC ways in;
- the **signed audit log** (`AuditChain`);
- **secret sharing** (`PrimeField`, `Interpolation`, `PolynomialRoots`, `ShareCommitments`, `Shamir`,
  `CandidateValues`), down to the field arithmetic modulo 2^61 - 1;
- the **rate limiter**, the **anomaly detector** and the **memory cache** (`RateLimiter`, `Anomaly`, `MemoryCache`);
- two **byte formats**: certificate requests (`CsrDer`) and additional authenticated data (`Aad`).

`dafny verify dfyconfig.toml` checks the whole project.

## How it is modelled

Objects whose methods update them are classes. Each method is proved against a function on values, and the
theorems about runs are lemmas about those functions: a run is a sequence of events, each with its instant,
and a handler call is one step. Instants are arguments: microseconds for keys, second factors and anomalies,
milliseconds for the rate limiter. MACs, digests, signatures, the TOTP check, random draws, the environment
and the role table are parameters about which nothing is assumed but the length of their output; results that
would need collision resistance exhibit the collision instead. Cache evictions and the order of hash maps are
left open, so what is proved holds for every choice.

## Where the code differs from its description

- The two second-factor stores do not always answer alike: the memory drops fractions of a second before it
  subtracts, the database after (`crates/kms-api/src/mfa.rs:612-642`). `MemoryMatchesDatabase` gives the exact
  condition, `FractionsDisagree` a run, and `WholeSecondClocksAgree` a clock under which they agree. For the same
  reason a lockout in memory may be short of its 300 seconds by less than one: `WrongCodesAreRationed` states the
  bound with that slack and when it is exact, `SixWithinALockout` gives a run.
- Rotating one key id twice gives two keys the same id (`crates/kms-api/src/auth.rs:749`), so that locking and
  revoking by id reach only the first. A rotated key has no tenant.
- The duplicate check of the builder looks at valid base keys only (`src/cmd/server.rs:475-478`), so that a declared
  key may repeat the secret of a revoked or expired one (`RevokedSecretIsAccepted`). The program's own call
  passes a single new key without expiry (`src/cmd/server.rs:1427-1429`), so this takes another caller.
- gRPC also accepts a key as a bearer token, REST does not (`crates/kms-api/src/grpc.rs:174-180`,
  `crates/kms-api/src/auth.rs:810-814`): `RequestsAgreeExactly` and `BearerSplitsChannels`.
- The "sliding window" of the rate limiter is a fixed one (`crates/kms-api/src/ratelimit.rs:74-75`).
- The limit of operations per minute counts all working-hour accesses there ever were
  (`crates/kms-api/src/anomaly.rs:349-353`).
- The buffer of the audit log no longer verifies on its own after a flush
  (`crates/kms-audit/src/logger.rs:558-571`).
- Certificate requests write one-byte lengths without a bound and two-byte lengths from 128 on, so they are
  readable only up to 116 bytes of name and distinguished only up to 25.
- The version bytes of the additional authenticated data are `00 02` (`crates/kms-core/src/aad.rs:107`), not
  `02 00` as its table says (`crates/kms-core/src/aad.rs:17`).
- Fewer shares than the threshold are said to reveal nothing (`crates/kms-core/src/shamir.rs:14`), but a zero draw is
  replaced by one (`crates/kms-core/src/shamir.rs:698`), so that some values are excluded: `PossibleExactly` says
  which, and `OneShareExcludesItself` that at threshold two it is the share's own value.
- An entry that cannot be written is dropped without notice (`crates/kms-audit/src/logger.rs:503-507`);
  `LossIsDetected` says that the chain shows every loss but that of its last entries.
- Splitting with a secret "longer than 8 bytes" into blocks uses blocks of seven bytes
  (`crates/kms-core/src/shamir.rs:190`).

## Model

| member | source | states |
|---|---|---|
| `MfaRuns.MemoryMatchesDatabase` | crates/kms-api/src/mfa.rs:485-752 | on every run of setup, verify and verify-backup with a clock that never goes back, the store in memory and the store in the database answer alike at every step if and only if no verification falls, during a database lockout, on an instant whose fraction of a second makes the memory see another remaining time |
| `MfaRuns.StepAgreesExactly` | crates/kms-api/src/rest.rs:1980-2118 | the simulation step: on stores that agree up to expired lockouts, one handler call answers alike exactly outside that gap, and then the stores agree again and both or neither lock the caller's key |
| `MfaRuns.ViewsAgreeExactly` | crates/kms-api/src/mfa.rs:582-642 | the same for one user's counters, codes and lock |
| `MfaRuns.WholeSecondClocksAgree` | crates/kms-api/src/mfa.rs:485-752 | when all instants are whole seconds the two stores always answer alike |
| `MfaRuns.FractionsDisagree` | crates/kms-api/src/mfa.rs:612-642 | the gap is reached: a run on which the two stores answer differently, half a second after a fifth wrong code |
| `MfaRuns.ClearAloneDiffers` | crates/kms-api/src/mfa.rs:562-579 | on agreeing stores, clearing the attempts alone keeps the backup usage in memory and forgets it in the database |
| `MfaRuns.WrongCodesAreRationed` | crates/kms-api/src/mfa.rs:535-609 | since the last correct code the k-th evaluated wrong code comes at least k - 5 lockouts of 300 s after the fifth, and between any two at most 5 + T / 300 were evaluated in T seconds: to the microsecond in the database, short by less than one second in memory; each bound holds in full if and only if no fraction of a second is borrowed between the two instants |
| `MfaRuns.SixWithinALockout` | crates/kms-api/src/mfa.rs:535-544 | in memory the full bound fails: a run with five wrong codes at 0.999999 s and a sixth evaluated at 300 s |
| `MfaRuns.WrongTimesInvariant` | crates/kms-api/src/rest.rs:1995-2033 | on every run the failure counter is the number of wrong codes evaluated since the last correct one, an expired lockout does not reset it, and from the fifth on the lock runs from the last of them |
| `MfaRuns.BackupCodesConserved` | crates/kms-api/src/mfa.rs:448-478 | since a user's last setup the stored digests are, as a multiset, those remaining and those accepted, so no code is accepted more often than it was stored |
| `MfaRuns.UsageCountsMisses` | crates/kms-api/src/mfa.rs:667-752 | the usage counter is the number of refused backup calls since the last accepted code of either kind, but never more than three |
| `MfaRuns.LimitHolds` | crates/kms-api/src/rest.rs:2059-2118 | once the usage is three every backup call is refused and changes nothing, on every run without a correct TOTP code for that user |
| `MfaAnswers.BackupByHistory` | crates/kms-api/src/rest.rs:2059-2118 | on every run a backup code is refused after three misses, and before that accepted if and only if its digest was accepted fewer times since the last setup than that setup declared codes with it; the third miss is answered with the limit and alone locks the caller's key |
| `MfaAnswers.VerifyByHistory` | crates/kms-api/src/rest.rs:1980-2057 | on every run the answer to a code, spelled out from the last setup and the instants of the wrong codes since the last correct one, with the five attempts, the 300 seconds and the remaining time of either store; the caller's key is locked exactly by the answer that locks the user |
| `MfaAnswers.SetupStoresDigests` | crates/kms-api/src/mfa.rs:310-367 | after a setup with a key-encryption key the secret is loaded, and place i of the loaded codes is the digest of code i, for every i |
| `MfaAnswers.SecretIsHistory` | crates/kms-api/src/mfa.rs:371-421 | on every run the loaded secret is the one last declared |
| `MfaAnswers.CodeLeftExactly` | crates/kms-api/src/mfa.rs:448-478 | on every run a digest is among the loaded codes if and only if it was accepted fewer times than declared |
| `MfaRuns.LastStep` | crates/kms-api/src/rest.rs:1924-2118 | a handler call changes its own user's state only, and its answer depends on that state only |
| `MfaViews.VerifyActs` | crates/kms-api/src/rest.rs:1980-2057 | verification acts on the user's view as specified and leaves every other user's view as it was |
| `MfaViews.VerifyBackupActs` | crates/kms-api/src/rest.rs:2059-2118 | the same for backup codes |
| `MfaViews.SetupActs` | crates/kms-api/src/rest.rs:1924-1970 | setup acts on the user's view only, and keeps counters and lock; SetupStoresDigests says what it stores |
| `MfaKeyLink.LockedUserLocksKey` | crates/kms-api/src/rest.rs:2019-2026 | when a verification locks a user, the calling API key is refused at every instant at which the user is locked, on every run without a recorded success for it, and no other key changes |
| `MfaHandlers.HandleVerify` | crates/kms-api/src/rest.rs:1980-2057 | the handler's answer and the new store, tied to the specification that the run theorems are about; the caller's key is locked exactly when the user is |
| `MfaHandlers.HandleVerifyBackup` | crates/kms-api/src/rest.rs:2059-2118 | the same for backup codes; the caller's key is locked exactly when this call reaches the limit |
| `MfaHandlers.HandleSetup` | crates/kms-api/src/rest.rs:1924-1970 | the secret is loaded afterwards, and the digest of every code in its place; without a key-encryption key nothing changes |
| `MfaStore.MfaManager.constructor` | crates/kms-api/src/mfa.rs:73-98 | an empty store, with or without a database |
| `MfaStore.MfaManager.StoreTotpConfig` | crates/kms-api/src/mfa.rs:310-367 | replaces secret and codes in the database row, if there is a database, and in memory; without a key-encryption key nothing changes |
| `MfaStore.MfaManager.LoadTotpConfig` | crates/kms-api/src/mfa.rs:371-404 | the database row when there is a database, otherwise the map |
| `MfaStore.MfaManager.LoadCodes` | crates/kms-api/src/mfa.rs:407-421 | the same for backup codes |
| `MfaStore.MfaManager.Consume` | crates/kms-api/src/mfa.rs:448-478 | found exactly when the digest is among the loaded codes, and then its first occurrence alone is removed |
| `MfaStore.MfaManager.RecordFailedTotpAttempt` | crates/kms-api/src/mfa.rs:485-559 | one more failure, inserting the row when missing; a lockout from now exactly when the count has reached five, in microseconds in the row and in whole seconds in memory |
| `MfaStore.MfaManager.ClearAttempts` | crates/kms-api/src/mfa.rs:562-579 | the row loses attempts, lock and usage, the memory only the attempts |
| `MfaStore.MfaManager.LockedOut` | crates/kms-api/src/mfa.rs:582-609 | whether an unexpired lock is stored, on the clock of the store |
| `MfaStore.MfaManager.LockoutRemainingSecs` | crates/kms-api/src/mfa.rs:612-642 | the remaining whole seconds, zero when not locked |
| `MfaStore.MfaManager.FailedAttemptCount` | crates/kms-api/src/mfa.rs:645-664 | the stored counter, zero for an unknown user |
| `MfaStore.MfaManager.RecordUsage` | crates/kms-api/src/mfa.rs:667-714 | one more use; exceeded exactly from three on |
| `MfaStore.MfaManager.UsageCount` | crates/kms-api/src/mfa.rs:717-737 | the stored usage, zero for an unknown user |
| `MfaStore.MfaManager.ResetUsage` | crates/kms-api/src/mfa.rs:740-752 | the usage becomes zero and nothing else changes |
| `MfaStore.Position` | crates/kms-api/src/mfa.rs:455 | the first place of a digest, and a place in the list exactly when the digest is in it |
| `KeyRegistry.LockedExactlyByHistory` | crates/kms-api/src/auth.rs:588-643 | on every run an entry's failure counter is the number of failures since its last success, and it is locked at t if and only if a fifth or later failure or a lock by its id since then lies less than 900 000 000 microseconds before t |
| `KeyRegistry.LockedKeyIsRefused` | crates/kms-api/src/auth.rs:714-728 | a locked key is refused at every instant of the lockout, on every run without a success for it |
| `KeyRegistry.LockByIdStopsCaller` | crates/kms-api/src/auth.rs:714-728 | locking by the caller's id stops the caller if and only if its entry is the first with that id |
| `KeyRegistry.RevokedNeverValidates` | crates/kms-api/src/auth.rs:698-710 | on every run with fresh secrets a revoked secret never validates again |
| `KeyRegistry.RotationGrace` | crates/kms-api/src/auth.rs:736-754 | after a rotation the old entry is valid at t if and only if it was not revoked and t is before the end of the grace, whatever its earlier expiry, until its id is revoked or rotated again; the appended key has the new secret and role, the suffixed id, and no tenant, expiry, failures or lock; all other entries are unchanged |
| `KeyRegistry.RotationKeepsUniqueIds` | crates/kms-api/src/auth.rs:748-749 | a rotation keeps ids unique if and only if the rotated id is not in use |
| `KeyRegistry.RotatingTwiceDuplicatesTheId` | crates/kms-api/src/auth.rs:736-754 | rotating one id twice leaves an entry that revoking the rotated id does not reach |
| `KeyRegistry.StepIsLocal` | crates/kms-api/src/auth.rs:588-754 | every step changes at most the entry it addresses, and never an entry's secret, role, id or tenant |
| `KeyRegistry.StepAppends` | crates/kms-api/src/auth.rs:736-754 | only a rotation of a known id adds an entry, and exactly one, without a tenant |
| `KeyRegistry.IdentityKept` | crates/kms-api/src/auth.rs:588-754 | entries never move and keep their identity on every run |
| `KeyRegistry.UniqueSecretsKept` | crates/kms-api/src/auth.rs:588-754 | unique secrets stay unique on every run that rotates to fresh secrets |
| `KeyRegistry.ValidateIsOwnEntry` | crates/kms-api/src/auth.rs:562-569 | with unique secrets a secret validates to its own entry's role exactly when that entry is usable |
| `KeyRegistry.FoundAtOwnPlace` | crates/kms-api/src/auth.rs:671-690 | with unique secrets the first entry with a secret is its own |
| `KeyRegistry.LockPersists` | crates/kms-api/src/auth.rs:379-402 | a lock never gets shorter except by a success |
| `KeyRegistry.ValidityKept` | crates/kms-api/src/auth.rs:374-376 | expiry and revocation of an entry change only by revoking or rotating its id |
| `KeyRegistry.DelayIsHistory` | crates/kms-api/src/auth.rs:588-630 | on every run of failures the delay for an unknown secret is 50 ms for each failure of the streak it ends, whose members are at most five minutes apart, and at most two seconds |
| `ApiKeys.ApiKeyConfig.constructor` | crates/kms-api/src/auth.rs:541-551 | a registry of the given keys with protection on |
| `ApiKeys.ApiKeyConfig.RecordFailedAttempt` | crates/kms-api/src/auth.rs:588-630 | without protection nothing changes; otherwise the first key with the secret is charged, or the unknown-secret counter and its delay follow, of which LockedExactlyByHistory and DelayIsHistory say what they are |
| `ApiKeys.ApiKeyConfig.RecordSuccessfulLogin` | crates/kms-api/src/auth.rs:633-643 | the first key with the secret loses counter and lock, nothing else changes |
| `ApiKeys.ApiKeyConfig.RevokeKey` | crates/kms-api/src/auth.rs:698-710 | the first key with the id is revoked; reports whether there was one |
| `ApiKeys.ApiKeyConfig.LockKeyById` | crates/kms-api/src/auth.rs:714-728 | the first key with the id is locked for 15 minutes, nothing else changes |
| `ApiKeys.ApiKeyConfig.RotateKey` | crates/kms-api/src/auth.rs:736-754 | the old key gets the end of the grace as expiry and a key without tenant is appended; nothing happens for an unknown id |
| `ApiKeys.ApiKeyConfig.AddKey` | crates/kms-api/src/auth.rs:693-695 | the key is appended |
| `ApiKeys.BySecret` | crates/kms-api/src/auth.rs:671-690 | the first entry with the secret, usable or not |
| `ApiKeys.UsableBySecret` | crates/kms-api/src/auth.rs:562-583 | the first entry with the secret that is valid and not locked |
| `ApiKeys.ById` | crates/kms-api/src/auth.rs:698-728 | the first entry with the id |
| `KeyConfigBuilder.BuildApiKeyConfig` | src/cmd/server.rs:462-542 | succeeds if and only if no entry has a problem, otherwise reports the first entry with one and which; the keys are the base followed by exactly one key per entry read, in order, with the declared tenant |
| `KeyConfigBuilder.DeclaredFieldByField` | src/cmd/server.rs:480-526 | every declared key has the environment's secret, which is not blank, the named role, the declared id or else the variable's name, the declared tenant, no expiry, failures or lock |
| `KeyConfigBuilder.ProblemSpelledOut` | src/cmd/server.rs:480-514 | which of the five errors an entry gives, each if and only if, from the environment, the role table, the valid base keys and the earlier entries |
| `KeyConfigBuilder.BlankExactly` | src/cmd/server.rs:488-494 | a secret is blank exactly when all its characters are among the 25 white-space code points |
| `KeyConfigBuilder.SeenInBase` | src/cmd/server.rs:472-478 | exactly the secrets and ids of the base's valid keys |
| `KeyConfigBuilder.BuiltSecretsUnique` | src/cmd/server.rs:480-526 | a successful build has distinct secrets if and only if the base has and no entry repeats the secret of an invalid base key |
| `KeyConfigBuilder.BuiltIdsUnique` | src/cmd/server.rs:503-512 | the same for key ids |
| `KeyConfigBuilder.RevokedSecretIsAccepted` | src/cmd/server.rs:475-478 | for any revoked base key with a non-blank secret there is a build that succeeds and gives two keys that secret |
| `AuthChannels.ChannelsAgreeExactly` | crates/kms-api/src/grpc.rs:182-208 | for any registry and the same presented secret REST and gRPC admit alike, and name the same caller if and only if the first entry with the secret and the first usable one have the same id |
| `AuthChannels.RestExactly` | crates/kms-api/src/auth.rs:663-667 | for any registry the middleware admits if and only if some entry with the secret is neither revoked, expired nor locked and the first such entry's role has every required permission; otherwise it forbids |
| `AuthChannels.GrpcExactly` | crates/kms-api/src/grpc.rs:182-208 | the same for the interceptor with the handler's check, which does not authenticate a secret without a usable entry |
| `AuthChannels.RequestsAgreeExactly` | crates/kms-api/src/grpc.rs:167-180 | for whole requests, by key header and authorization header, the channels admit alike if and only if there is a key header or the authorization is no bearer token of a secret with the permission; otherwise gRPC alone admits |
| `AuthChannels.BearerSplitsChannels` | crates/kms-api/src/grpc.rs:174-180 | any usable key sent as a bearer token only is admitted by gRPC and refused by REST |
| `AuthChannels.ChannelsAgreeOnRuns` | crates/kms-api/src/auth.rs:800-843 | on every registry built from distinct valid base keys and after every later run with fresh secrets, both channels derive the same role, id and tenant, all from one entry |
| `AuthChannels.AnswersOnRuns` | crates/kms-api/src/auth.rs:800-843 | on every built registry and every later run with fresh secrets each channel's whole answer to an entry's secret is decided by that entry alone, and unknown secrets are refused |
| `AuthChannels.DeclaredKeyAdmits` | src/cmd/server.rs:516-526 | a declared key admits its caller with the declared role, id and tenant, exactly where the role has every required permission |
| `AuthChannels.ReusedSecretSplitsChannels` | crates/kms-api/src/auth.rs:736-754 | rotating a key to its own secret makes the channels name different callers after the grace |
| `AuditChain.HeadDeterminesChain` | crates/kms-audit/src/lib.rs:129-152 | two accepted chains under one key that end in the same signature are equal entry by entry, or two different inputs with the same MAC are exhibited |
| `AuditChain.LossIsDetected` | crates/kms-audit/src/lib.rs:129-152 | what is left of an accepted, numbered chain after losing any entries is accepted if it is a beginning of the chain, and otherwise only with two inputs of the same MAC exhibited |
| `AuditChain.SigningInputInjective` | crates/kms-audit/src/lib.rs:89-94 | equal signed bytes come from equal sequence numbers, the same predecessor or absence of one, and equal payloads |
| `AuditChain.SignedLayout` | crates/kms-audit/src/lib.rs:89-94 | the signed bytes: eight of the sequence number, lowest first, the 32 of the predecessor if there is one, the payload |
| `AuditChain.PayloadIsNotLinked` | crates/kms-audit/src/lib.rs:156-158 | a payload is never a 32-byte signature followed by another payload |
| `AuditChain.NewEntry` | crates/kms-audit/src/lib.rs:79-107 | a new entry carries what it was given and is accepted after its predecessor |
| `AuditChain.Verify` | crates/kms-audit/src/lib.rs:110-121 | true exactly when the signature is the MAC of the signed bytes |
| `AuditChain.SignedAuditLogger.constructor` | crates/kms-audit/src/logger.rs:395-423 | an empty log with nothing written |
| `AuditChain.SignedAuditLogger.Log` | crates/kms-audit/src/logger.rs:426-460 | one more entry after all earlier ones, numbered in order, on a chain that stays accepted across flushes; nothing is flushed before the buffer is full, and it stays below its size; the output grows by the flushed entries that could be written |
| `AuditChain.SignedAuditLogger.Flush` | crates/kms-audit/src/logger.rs:468-524 | the buffer is drained, and exactly those of its entries that could be written are appended to the output, in order |
| `AuditChain.AllWritten` | crates/kms-audit/src/logger.rs:503-507 | when no write fails, everything flushed is written |
| `AuditChain.WritableExactly` | crates/kms-audit/src/logger.rs:503-507 | exactly the entries whose writing succeeds reach the output, in order |
| `AuditChain.SignedAuditLogger.VerifyAll` | crates/kms-audit/src/logger.rs:558-571 | true exactly when the buffered entries are an accepted chain from its start |
| `AuditChain.BufferVerifiesExactlyBeforeFlush` | crates/kms-audit/src/logger.rs:558-571 | the buffer of an accepted log verifies on its own if and only if nothing was flushed or it is empty |
| `Shamir.SplitThenReconstruct` | crates/kms-core/src/shamir.rs:453-590 | for every secret, threshold and number of shares, any choice of at least threshold different shares for every block reconstructs exactly the secret |
| `Shamir.ReconstructByPadding` | crates/kms-core/src/shamir.rs:548-563 | the same without recorded length and hash; the legacy path is the case of one block |
| `Shamir.BlockRecovered` | crates/kms-core/src/shamir.rs:508-530 | enough different shares of one block interpolate to its value |
| `Shamir.BlocksRecovered` | crates/kms-core/src/shamir.rs:502-535 | the recovered blocks are the padded secret |
| `Shamir.UnpadPadded` | crates/kms-core/src/shamir.rs:548-563 | removing the padding undoes adding it |
| `Shamir.UnpadExactly` | crates/kms-core/src/shamir.rs:548-563 | without a recorded length one to eight equal bytes that count themselves are removed, and nothing else |
| `Shamir.UnpadByLength` | crates/kms-core/src/shamir.rs:538-545 | with one, the beginning of that length, or all when it is longer |
| `Shamir.ShareAtPlace` | crates/kms-core/src/shamir.rs:234-244 | share x of block b is the value of that block's polynomial at x and stands at place b * total + x - 1 |
| `Shamir.CommitmentsAcceptDealt` | crates/kms-core/src/shamir.rs:353-400 | of all coefficient lists for a block, the commitments of a split accept exactly those that agree with the dealt coefficients in every place, or exhibit a collision of the kept digest bytes there |
| `CandidateValues.ExactlyOneFits` | crates/kms-core/src/shamir.rs:14 | whatever the value, exactly one polynomial of the threshold's length fits threshold - 1 different shares |
| `CandidateValues.PossibleExactly` | crates/kms-core/src/shamir.rs:693-699 | a value can be behind threshold - 1 shares if and only if the one fitting polynomial needs no zero among its drawn coefficients |
| `CandidateValues.OneShareExcludesItself` | crates/kms-core/src/shamir.rs:693-699 | at threshold two, one share excludes exactly the value equal to it |
| `CandidateValues.ZeroForTwoIsZeroForAll` | crates/kms-core/src/shamir.rs:693-699 | each drawn coefficient excludes no value, exactly one, or every value |
| `CandidateValues.AnyPolynomialsCanBeDealt` | crates/kms-core/src/shamir.rs:212-244 | every block has randomness of its own: for every choice of one polynomial per block, with the block's value in front and no zero after it, some random words make the splitter hand out exactly their values for all blocks at once |
| `CandidateValues.PossibleTogetherExactly` | crates/kms-core/src/shamir.rs:212-244 | block values are possible together behind threshold - 1 shares of every block if and only if each block's one fitting polynomial has no zero among its drawn coefficients |
| `CandidateValues.OtherWordsDoNotMatter` | crates/kms-core/src/shamir.rs:221-225 | the random words of one block change no share of another block |
| `ShareCommitments.VerifyCoefficients` | crates/kms-core/src/shamir.rs:353-400 | valid exactly when the block has commitments, no more coefficients than these, and each the committed value; otherwise the first mismatch, no commitments, or an index out of bounds |
| `ShareCommitments.CommitmentsBind` | crates/kms-core/src/shamir.rs:714-745 | a list is accepted if and only if it is no longer than the committed one and agrees with it, or collides with it, in every place |
| `ShareCommitments.CommitmentsOfBlock` | crates/kms-core/src/shamir.rs:361-364 | filtering all commitments by a block gives back that block's |
| `ShareCommitments.InputLayout` | crates/kms-core/src/shamir.rs:725-731 | the hashed bytes: four of the block, four of the place, eight of the coefficient, lowest first |
| `ShareCommitments.CommitmentAt` | crates/kms-core/src/shamir.rs:720-745 | each commitment names its block and place and keeps the first eight digest bytes of its coefficient |
| `Shamir.SplitSecret` | crates/kms-core/src/shamir.rs:168-281 | rejects exactly a threshold below two, too few shares and the empty secret, in that order, and otherwise hands out the values of the blocks' polynomials with length, block count and hash, and exactly on request the commitments to all coefficients |
| `Shamir.DrawCoefficients` | crates/kms-core/src/shamir.rs:221-225 | the block's value followed by threshold - 1 non-zero field elements |
| `Shamir.ShareBlock` | crates/kms-core/src/shamir.rs:234-244 | the polynomial's values at 1 to total, in order |
| `Shamir.ShareAll` | crates/kms-core/src/shamir.rs:212-251 | shares and commitments of all blocks, block after block |
| `Shamir.ShareOne` | crates/kms-core/src/shamir.rs:213-244 | one block's coefficients and shares |
| `Shamir.Pad` | crates/kms-core/src/shamir.rs:188-209 | the padded secret and its number of blocks |
| `Shamir.Reconstruct` | crates/kms-core/src/shamir.rs:453-590 | rejects no shares, less than one per block and uneven shares; otherwise interpolates, removes the padding and compares the hash |
| `Shamir.ReconstructionAnswers` | crates/kms-core/src/shamir.rs:453-590 | exactly when no shares, too few and uneven shares are answered, and that with a recorded hash only a secret of that hash is recovered |
| `Shamir.HashGuards` | crates/kms-core/src/shamir.rs:565-580 | with the hash of a secret recorded any shares whatsoever give that secret, a refusal, or a second secret of the same hash |
| `Shamir.ChangedShareChangesBlock` | crates/kms-core/src/shamir.rs:508-530 | a different value in any one of a block's shares changes the value recovered for the block |
| `Shamir.RecoverAll` | crates/kms-core/src/shamir.rs:502-535 | the recovered bytes of all blocks, in order |
| `Shamir.InterpolateBlock` | crates/kms-core/src/shamir.rs:508-530 | the residue of the Lagrange sum at zero over the block's shares |
| `Shamir.LagrangeCoefficient` | crates/kms-core/src/shamir.rs:513-527 | congruent to the product of the other points times the inverse of the product of their differences |
| `Shamir.EvaluatePolynomial` | crates/kms-core/src/shamir.rs:682-691 | the residue of the polynomial's value |
| `Shamir.PowMod` | crates/kms-core/src/shamir.rs:660-675 | the residue of the power |
| `Shamir.InvMod` | crates/kms-core/src/shamir.rs:677-680 | the inverse of PrimeField.InverseIsInverse |
| `Shamir.FieldElement` | crates/kms-core/src/shamir.rs:693-699 | a field element other than zero |
| `Shamir.FieldElementExactly` | crates/kms-core/src/shamir.rs:693-699 | a word becomes its own residue, or one exactly when the modulus divides it |
| `Shamir.Padded` | crates/kms-core/src/shamir.rs:189-202 | whole blocks that start with the secret |
| `PrimeField.InverseIsInverse` | crates/kms-core/src/shamir.rs:677-680 | a number not divisible by 2^61 - 1, raised to 2^61 - 3, is its inverse; proved from a certified generator, not from an assumed primality |
| `PrimeField.Generator` | crates/kms-core/src/shamir.rs:43 | some number has multiplicative order exactly 2^61 - 2 modulo 2^61 - 1, certified along the factorisation of 2^61 - 2 |
| `PrimeField.InverseUnique` | crates/kms-core/src/shamir.rs:677-680 | inverses are unique up to congruence |
| `Interpolation.InterpolatesAtZero` | crates/kms-core/src/shamir.rs:508-530 | the interpolation sum over at least as many points as coefficients is the constant term |
| `Interpolation.PolynomialVanishes` | crates/kms-core/src/shamir.rs:682-691 | the divided difference of a polynomial over more points than coefficients is zero |
| `PolynomialRoots.RootsForceZero` | crates/kms-core/src/shamir.rs:682-691 | a polynomial with as many different roots as coefficients is zero |
| `PolynomialRoots.SomeThrough` | crates/kms-core/src/shamir.rs:682-691 | through any points with different abscissae there is a polynomial with as many coefficients |
| `Anomaly.AlertIsHistory` | crates/kms-api/src/anomaly.rs:242-264 | on every run every alert is the one the whole history calls for: off hours, else more recorded accesses of the user than the limit, else enough of the tenant's failures in the last 15 minutes; the pruned list and the capped sum lose nothing |
| `Anomaly.AlertSpelledOut` | crates/kms-api/src/anomaly.rs:242-387 | every alert of every run with its finding and severity, from the date by weeks, days, hours and minutes since 1970, the user's accesses, and the tenant's failures of the last 900 000 000 microseconds |
| `Anomaly.CalendarExactly` | crates/kms-api/src/anomaly.rs:275-279 | hour, minute and weekday of every timestamp are those of its date, counted from a Thursday |
| `Anomaly.KnownDates` | crates/kms-api/src/anomaly.rs:438-446 | weekday and hour of dates the source names |
| `Anomaly.StatisticsAreHistory` | crates/kms-api/src/anomaly.rs:192-199 | on every run a user's totals are the recorded and the failed accesses, each hour's count is the accesses in that hour, the counts add up to the total, and the last time is that of the last recorded access |
| `Anomaly.ListIsHistory` | crates/kms-api/src/anomaly.rs:356-371 | the pruned list is exactly the tenant's failures of the 15 minutes before its last one |
| `Anomaly.OffHoursLeavesNoTrace` | crates/kms-api/src/anomaly.rs:242-246 | an access changes the state if and only if it falls in working hours |
| `Anomaly.FrequencyNeverRecovers` | crates/kms-api/src/anomaly.rs:344-354 | once a user has reached the limit every later working-hour access is answered with the frequency alert, however late and on any clock, and leaves the tenant's failure list as it is |
| `Anomaly.TenantsAreIndependent` | crates/kms-api/src/anomaly.rs:242-387 | an alert is the same as if the other tenants' accesses had not happened |
| `Anomaly.AnomalyDetector.constructor` | crates/kms-api/src/anomaly.rs:233-239 | a detector without statistics |
| `Anomaly.AnomalyDetector.CheckAccess` | crates/kms-api/src/anomaly.rs:242-264 | alert and new state, tied to the specification that the run theorems are about |
| `Anomaly.AnomalyDetector.RecordAccess` | crates/kms-api/src/anomaly.rs:267-272 | one more access in the user's totals and in its hour, everything else unchanged |
| `Anomaly.AnomalyDetector.CheckOffHours` | crates/kms-api/src/anomaly.rs:274-313 | Medium outside the hours of a weekday, Low at a weekend, nothing otherwise |
| `Anomaly.AnomalyDetector.CheckHighFrequency` | crates/kms-api/src/anomaly.rs:315-342 | an alert exactly when the user is known and the counts add up to more than the limit |
| `Anomaly.AnomalyDetector.CountRecentOps` | crates/kms-api/src/anomaly.rs:344-354 | the sum of all counts, in whatever order they come, capped one above the limit |
| `Anomaly.AnomalyDetector.CheckAuthFailures` | crates/kms-api/src/anomaly.rs:356-387 | only for auth and login: the list is pruned, a failure is appended, and the alert carries the count when it reaches the limit |
| `RateLimiter.WindowLetsThrough` | crates/kms-api/src/ratelimit.rs:65-136 | on every run, outages of Redis included, exactly the first rps counted requests of a tenant in a window are accepted, and besides them the uncounted ones if and only if the limiter fails open |
| `RateLimiter.IntervalBound` | crates/kms-api/src/ratelimit.rs:65-136 | any half-open interval of L ms accepts at most rps times one more than L / 1000 rounded up, plus, only when failing open, the requests during outages |
| `RateLimiter.TwiceTheLimit` | crates/kms-api/src/ratelimit.rs:72-75 | twice the limit within one second is reached: the window does not slide |
| `RateLimiter.VerdictIsHistory` | crates/kms-api/src/ratelimit.rs:106-136 | the k-th request of a tenant in its window leaves rps - k, or is told to retry after one second; during an outage the fail mode answers and nothing is counted |
| `RateLimiter.CounterIsHistory` | crates/kms-api/src/ratelimit.rs:78-97 | a counter is the number of its tenant's requests in its window and expires a window after the first, so never inside it |
| `RateLimiter.RetryReachesNextWindow` | crates/kms-api/src/ratelimit.rs:111-134 | waiting as told reaches exactly the next window, or the sixtieth after an outage |
| `RateLimiter.WindowKeyInjective` | crates/kms-api/src/ratelimit.rs:75 | printed window keys are injective for all tenant names, colons included |
| `RateLimiter.WindowKeyReads` | crates/kms-api/src/ratelimit.rs:75 | a key is the fixed prefix, the tenant, a colon and the window's number in decimal digits |
| `RateLimiter.UsageIsHistory` | crates/kms-api/src/ratelimit.rs:140-154 | the usage is the number of the tenant's requests in the current window |
| `RateLimiter.TenantRateLimiter.constructor` | crates/kms-api/src/ratelimit.rs:59-61 | no counters |
| `RateLimiter.TenantRateLimiter.Check` | crates/kms-api/src/ratelimit.rs:65-136 | one increment of the tenant's counter, the expiry set by the first, and the verdict on the new count; without Redis no change, and the answer of the fail mode |
| `RateLimiter.TenantRateLimiter.GetUsage` | crates/kms-api/src/ratelimit.rs:140-154 | the live counter's value or zero, and an error without Redis |
| `MemoryCache.NeverWrong` | crates/kms-api/src/cache.rs:229-262 | on every run a lookup gives a value only if the key's last set, not removed or cleared since, gave it at some t with time to live d and now <= t + d; and the size never exceeds the bound (or one entry for bound zero), whatever is evicted |
| `MemoryCache.ExactBelowBound` | crates/kms-api/src/cache.rs:239-262 | while fewer keys than the bound have been set since the last clear a lookup gives exactly the value last set at t with time to live d while now <= t + d, and nothing otherwise |
| `MemoryCache.CleanupExactly` | crates/kms-api/src/cache.rs:284-287 | after a cleanup exactly those keys of before it remain that were last set at some t with time to live d and now <= t + d |
| `MemoryCache.OverwriteAtBoundEvicts` | crates/kms-api/src/cache.rs:242-253 | for every bound from two on and any different keys, as many as the bound, there is a run that sets them, overwrites one and loses any chosen other, still live |
| `MemoryCache.SetKeepsOthersExactly` | crates/kms-api/src/cache.rs:239-262 | every outcome of a set keeps all other lookups if and only if fewer live entries than the bound are stored, or none but the key's own |
| `MemoryCache.CleanupUnobservable` | crates/kms-api/src/cache.rs:284-287 | every run with cleanups is matched by one without them with the same lookups from then on |
| `MemoryCache.CleanupsCanBeAdded` | crates/kms-api/src/cache.rs:284-287 | and every run without cleanups by one with them |
| `MemoryCache.SetSimulates` | crates/kms-api/src/cache.rs:239-262 | a set on one cache is matched by a set on any cache with the same live entries |
| `MemoryCache.Cache.constructor` | crates/kms-api/src/cache.rs:222-227 | an empty cache |
| `MemoryCache.Cache.Get` | crates/kms-api/src/cache.rs:229-237 | the stored value exactly up to the instant it expires at |
| `MemoryCache.Cache.Set` | crates/kms-api/src/cache.rs:239-262 | below the bound nothing else changes; at the bound expired entries go, and if it is still full one other entry |
| `MemoryCache.Cache.Remove` | crates/kms-api/src/cache.rs:264-267 | the key is gone, all else unchanged |
| `MemoryCache.Cache.Clear` | crates/kms-api/src/cache.rs:269-272 | empty |
| `MemoryCache.Cache.Cleanup` | crates/kms-api/src/cache.rs:284-287 | exactly the entries whose expiry has not passed, unchanged |
| `CsrDer.CriReadsBackExactly` | examples/generate_sm2_certs.rs:36-147 | for all names and keys, reading the output gives version 0, the name, the key and no attributes with no byte left over if and only if the name has at most 116 bytes and the content less than 65536; a strict reader also needs every length to be minimal (section 10.1 of X.690) |
| `CsrDer.DistinguishedUpTo25` | examples/generate_sm2_certs.rs:131-140 | for 65-byte keys the strict reader accepts if and only if the name has at most 25 bytes |
| `CsrDer.CriBytes` | examples/generate_sm2_certs.rs:127-147 | for 65-byte keys the output byte by byte: tag, length in one or three bytes, version, name, key, attributes |
| `CsrDer.SubjectNameBytes` | examples/generate_sm2_certs.rs:50-78 | the name's bytes, object identifier and tags included |
| `CsrDer.SpkiBytes` | examples/generate_sm2_certs.rs:80-125 | the key's bytes, object identifier and tags included |
| `CsrDer.LongNameMisread` | examples/generate_sm2_certs.rs:60-78 | a longer name is never read back, since its one-byte lengths mean something else |
| `CsrDer.RequestReadsBackExactly` | examples/generate_sm2_certs.rs:174-195 | the request splits back into its three parts if and only if they fit three length bytes |
| `CsrDer.CriIsElement` | examples/generate_sm2_certs.rs:127-147 | the certification request info is one element when its length fits two bytes |
| `CsrDer.BuildCri` | examples/generate_sm2_certs.rs:127-147 | the pushed bytes are the encoding of version, name, key and attributes |
| `CsrDer.BuildSubjectName` | examples/generate_sm2_certs.rs:59-78 | the pushed bytes are the nested name, with lengths cut to one byte |
| `CsrDer.BuildAlgorithm` | examples/generate_sm2_certs.rs:82-97 | the algorithm identifier of an SM2 key |
| `CsrDer.BuildSpki` | examples/generate_sm2_certs.rs:81-125 | the public-key info of the key |
| `CsrDer.PushLength` | examples/generate_sm2_certs.rs:133-140 | one length byte below 128, otherwise 0x82 and the low two bytes |
| `CsrDer.BuildRequest` | examples/generate_sm2_certs.rs:149-195 | the wrapped request with the signature of the info |
| `CsrDer.PushRequestLength` | examples/generate_sm2_certs.rs:176-189 | one, three or four bytes of length |
| `Aad.BuildV2` | crates/kms-core/src/aad.rs:104-114 | 42 bytes that parse back to exactly the purpose, key id, tenant digest and version |
| `Aad.ParseOfEncode` | crates/kms-core/src/aad.rs:104-114 | the parser undoes the encoding |
| `Aad.EncodeOfParse` | crates/kms-core/src/aad.rs:104-114 | every blob that parses is the encoding of what it parses to |
| `Aad.EqualExactly` | crates/kms-core/src/aad.rs:104-114 | two blobs are equal if and only if all four fields agree |
| `Aad.UserDataBinds` | crates/kms-core/src/aad.rs:84-86 | user-data blobs are equal if and only if key and version agree and the tenants are equal or their digests agree on 16 bytes |
| `Aad.ExportBinds` | crates/kms-core/src/aad.rs:100-102 | the same for export envelopes |
| `Aad.KekBinds` | crates/kms-core/src/aad.rs:90-96 | key-wrapping blobs are equal if and only if the key ids are |
| `Aad.Layout` | crates/kms-core/src/aad.rs:104-114 | every blob byte by byte: 6D B5 00 02, 00 and the purpose, the key, the tenant digest, the version |
| `Aad.ConstructorsParse` | crates/kms-core/src/aad.rs:84-102 | which purpose, tenant digest and version each of the three constructors writes |
| `Aad.PurposesNeverCoincide` | crates/kms-core/src/aad.rs:84-102 | blobs of different purposes never coincide, for any arguments |

## Left out

- Interleavings inside one handler, logger or registry call: every call is one step.
- Failures of the database.
- RateLimiter.TenantRateLimiter.Check: a script that ran although its answer was lost counts as not run.
- Shamir.SplitSecret: the random identifier, the creation time and the fixed version of the result are not modelled.
- Integer widths of counters (`u32`, `i32`, `u64`), block counts and lengths: they are unbounded, except for the
  `u64` field arithmetic, audit sequence numbers, share indices and AAD versions, whose ranges are stated.
- Encryption of TOTP secrets at rest, the TOTP algorithm, and reading codes back from JSON: a stored secret or
  code list is loaded as it was stored.
- Role names and permission tables: parameters. The configurable threshold and duration of the key lockout have
  their default values.
- Reading request headers, and the REST answer when no registry is attached to the request.
- The tenant a request claims for itself (`resolve_tenant`).
- Re-parsing of logged JSON, the empty text used when serialisation fails, trusted timestamps, and Kafka: a
  flush appends to a list, and whether each entry could be written is a parameter.
- How likely each remaining candidate value of a share is; the check of a single share (`verify_share`), which only
  compares it with the modulus; and sharing over another prime than 2^61 - 1.
- `CacheManager`, which puts four independent caches side by side.
- `clear_stats`, and the wording, timestamp and free-form context of anomaly alerts: an alert carries its type,
  severity, numbers, tenant and user.
- SM2 signing of certificate requests and their PEM form; the two parts written by the ASN.1 library are assumed
  to be single elements.
- The use of additional authenticated data by AES-GCM.
- Keystores, key services, policies, approvals, quotas, metrics, validation, rotation schedules, transport and
  startup: easy members, or code that only passes calls on.
