/**
 Saving and deleting a remembered password across four stores: the system keyring,
 the encrypted vault record, the vault's unlock key in the keyring, and the legacy
 unlock file. Any primitive may fail, with or without having taken effect.
 Encryption is ideal: a record opens with the key it was sealed with and no other.
 */
module Credentials {
  import opened Common

  type Secret = seq<byte>
  type Uuid = nat

  const MAX_VAULT_PASSWORD_BYTES: nat := 1024

  predicate ValidSecret(s: Secret) {
    1 <= |s| <= MAX_VAULT_PASSWORD_BYTES
  }

  datatype CredentialStorage = SystemKeyring | EncryptedVault

  /** A vault record on disk; `Foreign` is anything this application did not seal. */
  datatype Record = Sealed(session: Uuid, password: Secret, key: Secret) | Foreign(bytes: seq<byte>)

  function Unseal(record: Record, session: Uuid, key: Secret): Option<Secret> {
    if record.Sealed? && record.session == session && record.key == key then Some(record.password) else None
  }

  /** What the four stores hold for one session. */
  datatype Stores = Stores(system: Option<Secret>, vault: Option<Record>, unlock: Option<Secret>,
                           legacy: Option<Secret>) {
    /** The unlock key a reader gets: the legacy file shadows the keyring. */
    function EffectiveKey(): Option<Secret> {
      if legacy.Some? then legacy else unlock
    }

    /** The unlock key, if there is one, is within the accepted bounds. */
    predicate KeyIsReadable() {
      EffectiveKey().Some? ==> ValidSecret(EffectiveKey().value)
    }

    /** Reading the key takes two steps, moving a legacy file into the keyring three. */
    function KeySteps(): nat {
      if legacy.Some? then 3 else 2
    }

    function With(storage: CredentialStorage, session: Uuid, password: Secret, key: Secret): Stores {
      match storage
      case SystemKeyring => this.(system := Some(password))
      case EncryptedVault => this.(vault := Some(Sealed(session, password, key)))
    }

    function Without(storage: CredentialStorage): Stores {
      match storage
      case SystemKeyring => this.(system := None)
      case EncryptedVault => this.(vault := None)
    }

    predicate Holds(storage: CredentialStorage) {
      match storage
      case SystemKeyring => system.Some?
      case EncryptedVault => vault.Some?
    }
  }

  /** Equal for every reader: password, record and effective unlock key. */
  predicate Equivalent(a: Stores, b: Stores) {
    a.system == b.system && a.vault == b.vault && a.EffectiveKey() == b.EffectiveKey()
  }

  datatype Backup = SystemBackup(password: Option<Secret>) | VaultBackup(record: Option<Record>)

  /** A successful mutation's way back; `unlock` is present when the unlock key was backed up. */
  datatype Rollback = Rollback(backups: seq<(CredentialStorage, Backup)>, unlock: Option<Option<Secret>>)

  function RestoredOne(s: Stores, storage: CredentialStorage, backup: Backup): Stores {
    match backup
    case SystemBackup(p) => if storage == SystemKeyring then s.(system := p) else s
    case VaultBackup(r) => if storage == EncryptedVault then s.(vault := r) else s
  }

  function RestoredAll(s: Stores, backups: seq<(CredentialStorage, Backup)>): Stores
    decreases |backups|
  {
    if backups == [] then s else RestoredAll(RestoredOne(s, backups[0].0, backups[0].1), backups[1..])
  }

  lemma RestoredOneOrTwo(s: Stores, a: (CredentialStorage, Backup), b: (CredentialStorage, Backup))
    ensures RestoredAll(s, [a]) == RestoredOne(s, a.0, a.1)
    ensures RestoredAll(s, [a, b]) == RestoredOne(RestoredOne(s, a.0, a.1), b.0, b.1)
  {
    assert [a, b][1..] == [b] && [a][1..] == [] && [b][1..] == [];
    assert RestoredAll(RestoredOne(s, a.0, a.1), [b]) == RestoredOne(RestoredOne(s, a.0, a.1), b.0, b.1);
  }

  /** Writing the unlock key takes one step, removing it two. */
  function UnlockSteps(key: Option<Secret>): nat {
    if key.Some? then 1 else 2
  }

  /** A backup that can be written back where it came from: an illegal keyring password cannot. */
  predicate LegalBackup(storage: CredentialStorage, backup: Backup) {
    match (storage, backup)
    case (SystemKeyring, SystemBackup(p)) => p.Some? ==> ValidSecret(p.value)
    case (EncryptedVault, VaultBackup(_)) => true
    case _ => false
  }

  predicate LegalBackups(backups: seq<(CredentialStorage, Backup)>) {
    forall b :: b in backups ==> LegalBackup(b.0, b.1)
  }

  function RestoreSteps(r: Rollback): nat {
    |r.backups| + if r.unlock.Some? then UnlockSteps(r.unlock.value) else 0
  }

  /** A rollback that is only stopped by a fault. */
  predicate LegalRollback(r: Rollback) {
    LegalBackups(r.backups) && (r.unlock.Some? && r.unlock.value.Some? ==> ValidSecret(r.unlock.value.value))
  }

  function RestoredUnlock(s: Stores, unlock: Option<Option<Secret>>): Stores {
    match unlock
    case None => s
    case Some(Some(key)) => s.(unlock := Some(key))
    case Some(None) => s.(unlock := None, legacy := None)
  }

  /** What the stores hold after a successful rollback. */
  function RolledBack(s: Stores, r: Rollback): Stores {
    RestoredUnlock(RestoredAll(s, r.backups), r.unlock)
  }

  datatype Fault = Works | Fails | FailsAfterEffect

  function Next(faults: seq<Fault>): Fault {
    if faults == [] then Works else faults[0]
  }

  function Later(faults: seq<Fault>): seq<Fault> {
    if faults == [] then [] else faults[1..]
  }

  function FaultAt(faults: seq<Fault>, i: nat): Fault {
    if i < |faults| then faults[i] else Works
  }

  /** What is left of a script after `n` steps. */
  function Drop(faults: seq<Fault>, n: nat): seq<Fault> {
    if n <= |faults| then faults[n..] else []
  }

  /** The first `n` steps succeed. */
  predicate AllWork(faults: seq<Fault>, n: nat) {
    forall i :: 0 <= i < n ==> FaultAt(faults, i) == Works
  }

  /** How many of `n` steps succeed before one fails. */
  function StepsThatWork(faults: seq<Fault>, n: nat): (k: nat)
    ensures k <= n && AllWork(faults, k) && (k < n ==> FaultAt(faults, k) != Works)
  {
    if n == 0 then 0
    else
      var k := StepsThatWork(faults, n - 1);
      if k == n - 1 && FaultAt(faults, n - 1) == Works then n else k
  }

  lemma StepsThatWorkIs(faults: seq<Fault>, n: nat, k: nat)
    requires k <= n && AllWork(faults, k) && (k < n ==> FaultAt(faults, k) != Works)
    ensures StepsThatWork(faults, n) == k
  {
  }

  ghost predicate AtMostOneFault(faults: seq<Fault>) {
    forall i, j :: 0 <= i < j ==> FaultAt(faults, i) == Works || FaultAt(faults, j) == Works
  }

  lemma DropIsLater(faults: seq<Fault>)
    ensures Drop(faults, 0) == faults && Drop(faults, 1) == Later(faults) && FaultAt(faults, 0) == Next(faults)
    ensures AllWork(faults, 0) && (AllWork(faults, 1) <==> Next(faults) == Works)
  {
  }

  /** A script read in two parts. */
  lemma InTwoParts(faults: seq<Fault>, a: nat, b: nat)
    ensures Drop(Drop(faults, a), b) == Drop(faults, a + b)
    ensures FaultAt(Drop(faults, a), b) == FaultAt(faults, a + b)
    ensures AllWork(faults, a + b) <==> AllWork(faults, a) && AllWork(Drop(faults, a), b)
  {
    assert forall i :: 0 <= i < b ==> FaultAt(Drop(faults, a), i) == FaultAt(faults, a + i);
    if AllWork(faults, a) && AllWork(Drop(faults, a), b) {
      forall i | 0 <= i < a + b ensures FaultAt(faults, i) == Works {
        if i >= a {
          assert FaultAt(Drop(faults, a), i - a) == Works;
        }
      }
    }
  }

  /** Steps that fail in the second part of a script. */
  lemma StepsInTwoParts(faults: seq<Fault>, a: nat, b: nat)
    requires AllWork(faults, a)
    ensures StepsThatWork(faults, a + b) == a + StepsThatWork(Drop(faults, a), b)
  {
    var k := StepsThatWork(Drop(faults, a), b);
    InTwoParts(faults, a, k);
    StepsThatWorkIs(faults, a + b, a + k);
  }

  datatype Read<T> = Value(value: Option<T>) | ReadError

  /** The stores of one session behind primitives that fail as `faults` says. */
  class CredentialStore {
    const sessionId: Uuid
    var stores: Stores
    var faults: seq<Fault>

    constructor (sessionId: Uuid, stores: Stores, faults: seq<Fault>)
      ensures this.sessionId == sessionId && this.stores == stores && this.faults == faults
    {
      this.sessionId, this.stores, this.faults := sessionId, stores, faults;
    }

    method NextFault() returns (f: Fault)
      modifies this`faults
      ensures f == Next(old(faults)) && faults == Later(old(faults))
    {
      if faults == [] {
        return Works;
      }
      f := faults[0];
      faults := faults[1..];
    }

    /** One write or delete: it happens if it succeeds, and may happen even if it fails. */
    method Mutate(after: Stores) returns (ok: bool, ghost torn: bool)
      modifies this
      ensures stores == if ok || torn then after else old(stores)
      ensures (ok <==> Next(old(faults)) == Works) && (torn <==> Next(old(faults)) == FailsAfterEffect)
      ensures faults == Later(old(faults))
    {
      var f := NextFault();
      ok, torn := f == Works, f == FailsAfterEffect;
      if f != Fails {
        stores := after;
      }
    }

    method ReadFails() returns (failed: bool)
      modifies this`faults
      ensures (failed <==> Next(old(faults)) != Works) && faults == Later(old(faults))
    {
      var f := NextFault();
      failed := f != Works;
    }

    // ----- Keyring and vault primitives -----

    method LoadSystemPassword() returns (r: Read<Secret>)
      modifies this`faults
      ensures r.Value? ==> r.value == stores.system
      ensures (r.Value? <==> Next(old(faults)) == Works) && faults == Later(old(faults))
    {
      var failed := ReadFails();
      r := if failed then ReadError else Value(stores.system);
    }

    method SaveSystemPassword(password: Secret) returns (ok: bool)
      modifies this
      ensures ok ==> ValidSecret(password) && stores == old(stores).(system := Some(password))
      ensures !ok ==> stores == old(stores) || stores == old(stores).(system := Some(password))
      ensures ok <==> ValidSecret(password) && Next(old(faults)) == Works
      ensures faults == if ValidSecret(password) then Later(old(faults)) else old(faults)
    {
      if !ValidSecret(password) {
        return false;
      }
      ghost var torn;
      ok, torn := Mutate(stores.(system := Some(password)));
    }

    method ReadVaultRecord() returns (r: Read<Record>)
      modifies this`faults
      ensures r.Value? ==> r.value == stores.vault
      ensures (r.Value? <==> Next(old(faults)) == Works) && faults == Later(old(faults))
    {
      var failed := ReadFails();
      r := if failed then ReadError else Value(stores.vault);
    }

    method WriteVaultRecord(record: Record) returns (ok: bool)
      modifies this
      ensures ok ==> stores == old(stores).(vault := Some(record))
      ensures !ok ==> stores == old(stores) || stores == old(stores).(vault := Some(record))
      ensures (ok <==> Next(old(faults)) == Works) && faults == Later(old(faults))
    {
      ghost var torn;
      ok, torn := Mutate(stores.(vault := Some(record)));
    }

    method SaveVaultPassword(password: Secret, key: Secret) returns (ok: bool)
      modifies this
      ensures ok ==> && ValidSecret(password) && ValidSecret(key)
                     && stores == old(stores).With(EncryptedVault, sessionId, password, key)
      ensures !ok ==> stores == old(stores) || stores == old(stores).With(EncryptedVault, sessionId, password, key)
      ensures ok <==> ValidSecret(password) && ValidSecret(key) && Next(old(faults)) == Works
      ensures faults == if ValidSecret(password) && ValidSecret(key) then Later(old(faults)) else old(faults)
    {
      if !ValidSecret(password) || !ValidSecret(key) {
        return false;
      }
      ok := WriteVaultRecord(Sealed(sessionId, password, key));
    }

    /** Open the vault record, if there is one, with `key`. */
    method LoadVaultPassword(key: Secret) returns (r: Read<Secret>)
      modifies this`faults
      ensures r.Value? <==>
        && ValidSecret(key) && Next(old(faults)) == Works
        && (stores.vault.Some? ==> Unseal(stores.vault.value, sessionId, key).Some?)
      ensures r.Value? ==> r.value == if stores.vault.Some? then Unseal(stores.vault.value, sessionId, key) else None
    {
      if !ValidSecret(key) {
        return ReadError;
      }
      var record := ReadVaultRecord();
      if record.ReadError? {
        return ReadError;
      }
      if record.value.None? {
        return Value(None);
      }
      var password := Unseal(record.value.value, sessionId, key);
      r := if password.Some? then Value(password) else ReadError;
    }

    /** Deleting an entry that is already absent succeeds. */
    method DeletePassword(storage: CredentialStorage) returns (ok: bool, ghost torn: bool)
      modifies this
      ensures stores == if ok || torn then old(stores).Without(storage) else old(stores)
      ensures (ok <==> Next(old(faults)) == Works) && (torn <==> Next(old(faults)) == FailsAfterEffect)
      ensures faults == Later(old(faults))
    {
      ok, torn := Mutate(stores.Without(storage));
    }

    // ----- The vault's unlock key -----

    method LoadVaultUnlockPassword() returns (r: Read<Secret>)
      modifies this`faults
      ensures r.Value? ==> r.value == stores.unlock
      ensures r.Value? <==> Next(old(faults)) == Works && (stores.unlock.Some? ==> ValidSecret(stores.unlock.value))
      ensures faults == Later(old(faults))
    {
      var failed := ReadFails();
      if failed || (stores.unlock.Some? && !ValidSecret(stores.unlock.value)) {
        return ReadError;
      }
      r := Value(stores.unlock);
    }

    method SaveVaultUnlockPassword(key: Secret) returns (ok: bool)
      modifies this
      ensures ok ==> ValidSecret(key) && stores == old(stores).(unlock := Some(key))
      ensures !ok ==> stores == old(stores) || stores == old(stores).(unlock := Some(key))
      ensures ok <==> ValidSecret(key) && Next(old(faults)) == Works
      ensures faults == if ValidSecret(key) then Later(old(faults)) else old(faults)
    {
      if !ValidSecret(key) {
        return false;
      }
      ghost var torn;
      ok, torn := Mutate(stores.(unlock := Some(key)));
    }

    method DeleteLocalUnlockFile() returns (ok: bool)
      modifies this
      ensures ok ==> stores == old(stores).(legacy := None)
      ensures !ok ==> stores == old(stores) || stores == old(stores).(legacy := None)
      ensures (ok <==> Next(old(faults)) == Works) && faults == Later(old(faults))
    {
      ghost var torn;
      ok, torn := Mutate(stores.(legacy := None));
    }

    method DeleteVaultUnlockPassword() returns (ok: bool)
      modifies this
      ensures ok ==> stores == old(stores).(unlock := None, legacy := None)
      ensures !ok ==> exists key, file :: key in [None, old(stores).unlock] && file in [None, old(stores).legacy]
                                          && stores == old(stores).(unlock := key, legacy := file)
      ensures ok <==> AllWork(old(faults), 2)
      ensures faults == Drop(old(faults), if FaultAt(old(faults), 0) == Works then 2 else 1)
    {
      DropIsLater(faults);
      DropIsLater(Later(faults));
      InTwoParts(faults, 1, 1);
      ghost var torn;
      ok, torn := Mutate(stores.(unlock := None));
      if ok {
        ok := DeleteLocalUnlockFile();
      }
    }

    method ReadLocalUnlockFile() returns (r: Read<Secret>)
      modifies this`faults
      ensures r.Value? ==> r.value == stores.legacy && (stores.legacy.Some? ==> ValidSecret(stores.legacy.value))
      ensures r.Value? <==> Next(old(faults)) == Works && (stores.legacy.Some? ==> ValidSecret(stores.legacy.value))
      ensures faults == Later(old(faults))
    {
      var failed := ReadFails();
      if failed || (stores.legacy.Some? && !ValidSecret(stores.legacy.value)) {
        return ReadError;
      }
      r := Value(stores.legacy);
    }

    /**
     Move a legacy plaintext key into the keyring. Whatever step fails, and whether or
     not it took effect, every reader still gets the same key.
     */
    method LoadOrMigrateVaultUnlockPassword() returns (r: Read<Secret>)
      modifies this
      ensures Equivalent(stores, old(stores))
      ensures r.Value? ==> r.value == old(stores).EffectiveKey() && stores.legacy == None && stores.unlock == r.value
      ensures r.Value? <==> AllWork(old(faults), old(stores).KeySteps()) && old(stores).KeyIsReadable()
      ensures r.Value? ==> faults == Drop(old(faults), old(stores).KeySteps())
    {
      DropIsLater(faults);
      DropIsLater(Later(faults));
      DropIsLater(Later(Later(faults)));
      InTwoParts(faults, 1, 1);
      InTwoParts(faults, 2, 1);
      var file := ReadLocalUnlockFile();
      if file.ReadError? {
        return ReadError;
      }
      if file.value.Some? {
        var saved := SaveVaultUnlockPassword(file.value.value);
        if !saved {
          return ReadError;
        }
        var deleted := DeleteLocalUnlockFile();
        return if deleted then file else ReadError;
      }
      r := LoadVaultUnlockPassword();
    }

    method RestoreVaultUnlockPassword(key: Option<Secret>) returns (ok: bool)
      modifies this
      ensures ok ==> stores == RestoredUnlock(old(stores), Some(key))
      ensures ok <==> AllWork(old(faults), UnlockSteps(key)) && (key.Some? ==> ValidSecret(key.value))
    {
      DropIsLater(faults);
      match key
      case Some(k) => ok := SaveVaultUnlockPassword(k);
      case None => ok := DeleteVaultUnlockPassword();
    }

    // ----- Backups -----

    method MakeBackup(storage: CredentialStorage) returns (b: Option<Backup>)
      modifies this`faults
      ensures b.Some? ==> b.value == (match storage
              case SystemKeyring => SystemBackup(stores.system)
              case EncryptedVault => VaultBackup(stores.vault))
      ensures (b.Some? <==> Next(old(faults)) == Works) && faults == Later(old(faults))
    {
      match storage
      case SystemKeyring =>
        var r := LoadSystemPassword();
        b := if r.Value? then Some(SystemBackup(r.value)) else None;
      case EncryptedVault =>
        var r := ReadVaultRecord();
        b := if r.Value? then Some(VaultBackup(r.value)) else None;
    }

    method RestoreBackup(storage: CredentialStorage, backup: Backup) returns (ok: bool)
      modifies this
      ensures ok ==> stores == RestoredOne(old(stores), storage, backup)
      ensures ok <==> LegalBackup(storage, backup) && Next(old(faults)) == Works
      ensures ok ==> faults == Later(old(faults))
    {
      match (storage, backup)
      case (SystemKeyring, SystemBackup(Some(password))) => ok := SaveSystemPassword(password);
      case (SystemKeyring, SystemBackup(None)) => ghost var torn; ok, torn := DeletePassword(SystemKeyring);
      case (EncryptedVault, VaultBackup(Some(record))) => ok := WriteVaultRecord(record);
      case (EncryptedVault, VaultBackup(None)) => ghost var torn; ok, torn := DeletePassword(EncryptedVault);
      case _ => ok := false;
    }

    method RestoreBackups(backups: seq<(CredentialStorage, Backup)>) returns (ok: bool)
      modifies this
      ensures ok ==> stores == RestoredAll(old(stores), backups)
      ensures ok <==> LegalBackups(backups) && AllWork(old(faults), |backups|)
      ensures ok ==> faults == Drop(old(faults), |backups|)
    {
      var i := 0;
      while i < |backups|
        invariant 0 <= i <= |backups|
        invariant RestoredAll(old(stores), backups) == RestoredAll(stores, backups[i..])
        invariant LegalBackups(backups[..i]) && AllWork(old(faults), i) && faults == Drop(old(faults), i)
      {
        DropIsLater(faults);
        InTwoParts(old(faults), i, 1);
        assert backups[..i + 1] == backups[..i] + [backups[i]];
        var restored := RestoreBackup(backups[i].0, backups[i].1);
        if !restored {
          assert backups[i] in backups;
          InTwoParts(old(faults), i + 1, |backups| - i - 1);
          return false;
        }
        i := i + 1;
      }
      assert backups[..i] == backups;
      return true;
    }

    /** Put everything back: the credentials, then the unlock key if it was backed up. */
    method Restore(r: Rollback) returns (ok: bool)
      modifies this
      ensures ok ==> stores == RolledBack(old(stores), r)
      ensures ok <==> LegalRollback(r) && AllWork(old(faults), RestoreSteps(r))
    {
      ok := RestoreBackups(r.backups);
      InTwoParts(old(faults), |r.backups|, RestoreSteps(r) - |r.backups|);
      if ok && r.unlock.Some? {
        ok := RestoreVaultUnlockPassword(r.unlock.value);
      }
    }
  }

  // ----- The transactions -----

  /**
   `Rejected`: an error before or after which everything was put back.
   `RestoreFailed`: the compensation itself failed.
   */
  datatype Outcome = Done(rollback: Rollback) | Rejected | RestoreFailed

  datatype Request = Request(storage: CredentialStorage, password: Secret, key: Option<Secret>, generated: bool,
                             previousGenerated: bool, previous: Option<CredentialStorage>) {
    /** The storage being replaced, if it is a different one. */
    function Replaced(): Option<CredentialStorage> {
      if previous.Some? && previous.value != storage then previous else None
    }

    /** A vault needs a key. */
    predicate HasKey() {
      storage == EncryptedVault ==> key.Some?
    }

    /** The secrets to be written are within the accepted bounds. */
    predicate IsLegal() {
      ValidSecret(password) && (storage == EncryptedVault ==> key.Some? && ValidSecret(key.value))
    }

    /** The save settles the unlock key, so it is backed up. */
    predicate SettlesKey() {
      generated || previousGenerated
    }

    function BackupSteps(before: Stores): nat {
      1 + (if Replaced().Some? then 1 else 0) + (if SettlesKey() then before.KeySteps() else 0)
    }

    function KeyWriteSteps(): nat {
      if storage == EncryptedVault && generated then 1 else if previousGenerated then 2 else 0
    }

    function WriteSteps(): nat {
      1 + KeyWriteSteps() + (if Replaced().Some? then 1 else 0)
    }
  }

  // ----- When a save goes through, and when it cannot be undone -----

  predicate BacksUpFully(request: Request, before: Stores, faults: seq<Fault>) {
    AllWork(faults, request.BackupSteps(before)) && (request.SettlesKey() ==> before.KeyIsReadable())
  }

  predicate Writes(request: Request, faults: seq<Fault>) {
    request.IsLegal() && AllWork(faults, request.WriteSteps())
  }

  /** The steps taken up to the failure; an illegal secret is refused before the first. */
  function StepsToFailure(request: Request, faults: seq<Fault>): nat {
    if !request.IsLegal() then 0 else StepsThatWork(faults, request.WriteSteps()) + 1
  }

  function BackupOf(s: Stores, storage: CredentialStorage): Backup {
    match storage
    case SystemKeyring => SystemBackup(s.system)
    case EncryptedVault => VaultBackup(s.vault)
  }

  /** The rollback a save takes. */
  function RollbackOf(request: Request, before: Stores): Rollback {
    var own := (request.storage, BackupOf(before, request.storage));
    Rollback(match request.Replaced()
             case None => [own]
             case Some(replaced) => [own, (replaced, BackupOf(before, replaced))],
             if request.SettlesKey() then Some(before.EffectiveKey()) else None)
  }

  /** The save goes through. */
  predicate SaveSucceeds(request: Request, before: Stores, faults: seq<Fault>) {
    BacksUpFully(request, before, faults) && request.HasKey()
      && Writes(request, Drop(faults, request.BackupSteps(before)))
  }

  /** A write fails, and then putting the backups back fails too: a second fault, or an illegal backed-up secret. */
  predicate SaveCannotBeUndone(request: Request, before: Stores, faults: seq<Fault>) {
    var writing := Drop(faults, request.BackupSteps(before));
    var restoring := Drop(writing, StepsToFailure(request, writing));
    var rollback := RollbackOf(request, before);
    && BacksUpFully(request, before, faults) && request.HasKey() && !Writes(request, writing)
    && !(LegalRollback(rollback) && AllWork(restoring, RestoreSteps(rollback)))
  }

  /** One fault alone is always undone, unless what was there cannot be written back. */
  lemma OneFaultIsUndone(request: Request, before: Stores, faults: seq<Fault>)
    requires AtMostOneFault(faults) && request.IsLegal() && LegalRollback(RollbackOf(request, before))
    ensures !SaveCannotBeUndone(request, before, faults)
  {
    var b, n := request.BackupSteps(before), request.WriteSteps();
    var writing := Drop(faults, b);
    OneFaultThenNone(faults, b, n, RestoreSteps(RollbackOf(request, before)));
  }

  lemma OneFaultThenNone(faults: seq<Fault>, done: nat, n: nat, more: nat)
    requires AtMostOneFault(faults)
    ensures var rest := Drop(faults, done); var k := StepsThatWork(rest, n);
      k < n ==> AllWork(Drop(rest, k + 1), more)
  {
    var rest := Drop(faults, done);
    var k := StepsThatWork(rest, n);
    if k < n {
      InTwoParts(faults, done, k);
      var left := Drop(rest, k + 1);
      forall i | 0 <= i < more ensures FaultAt(left, i) == Works {
        InTwoParts(rest, k + 1, i);
        InTwoParts(faults, done, k + 1 + i);
      }
    }
  }

  /** What a save is for. */
  predicate SavedAsRequested(request: Request, session: Uuid, before: Stores, after: Stores) {
    && (request.storage == EncryptedVault ==> request.key.Some?)
    && (match request.storage
        case SystemKeyring => after.system == Some(request.password)
        case EncryptedVault => after.vault == Some(Sealed(session, request.password, request.key.value)))
    && (request.Replaced().Some? ==> !after.Holds(request.Replaced().value))
    && (request.Replaced().None? ==>
         match request.storage
         case SystemKeyring => after.vault == before.vault
         case EncryptedVault => after.system == before.system)
    && (if request.storage == EncryptedVault && request.generated
        then after.legacy == None && after.unlock == request.key
        else if request.previousGenerated then after.legacy == None && after.unlock == None
        else after.EffectiveKey() == before.EffectiveKey())
  }

  /** Only what the save may touch differs, and a legacy file of a settled key is gone. */
  predicate Disturbed(request: Request, s: Stores, after: Stores) {
    && (request.storage == SystemKeyring && request.Replaced().None? ==> after.vault == s.vault)
    && (request.storage == EncryptedVault && request.Replaced().None? ==> after.system == s.system)
    && after.legacy == s.legacy && (request.SettlesKey() ==> s.legacy == None)
    && (!request.SettlesKey() ==> after.unlock == s.unlock)
  }

  lemma RollbackUndoes(request: Request, s: Stores, after: Stores)
    requires Disturbed(request, s, after)
    ensures RolledBack(after, RollbackOf(request, s)) == s
  {
    var r := RollbackOf(request, s);
    RestoredOneOrTwo(after, r.backups[0], r.backups[|r.backups| - 1]);
  }

  method TakeBackups(store: CredentialStore, request: Request) returns (r: Option<Rollback>)
    modifies store
    ensures Equivalent(store.stores, old(store.stores))
    ensures r.Some? ==> r.value == RollbackOf(request, store.stores) == RollbackOf(request, old(store.stores))
    ensures r.Some? && request.SettlesKey() ==> store.stores.legacy == None
    ensures r.Some? <==> BacksUpFully(request, old(store.stores), old(store.faults))
    ensures r.Some? ==> store.faults == Drop(old(store.faults), request.BackupSteps(old(store.stores)))
  {
    ghost var faults, copies := store.faults, if request.Replaced().Some? then 2 else 1;
    ghost var keySteps := request.BackupSteps(store.stores) - copies;
    DropIsLater(faults);
    DropIsLater(Later(faults));
    InTwoParts(faults, 1, 1);
    InTwoParts(faults, 1, keySteps);
    InTwoParts(faults, 2, keySteps);
    InTwoParts(faults, 1, 1 + keySteps);
    var first := store.MakeBackup(request.storage);
    if first.None? {
      return None;
    }
    var backups := [(request.storage, first.value)];
    var replaced := request.Replaced();
    if replaced.Some? {
      var second := store.MakeBackup(replaced.value);
      if second.None? {
        return None;
      }
      backups := backups + [(replaced.value, second.value)];
    }
    if !request.generated && !request.previousGenerated {
      return Some(Rollback(backups, None));
    }
    var key := store.LoadOrMigrateVaultUnlockPassword();
    r := if key.ReadError? then None else Some(Rollback(backups, Some(key.value)));
  }

  /** Save a generated key, or remove the one a generated key leaves behind. */
  method SettleKey(store: CredentialStore, request: Request) returns (ok: bool)
    requires request.IsLegal()
    requires request.SettlesKey() ==> store.stores.legacy == None
    modifies store
    ensures store.stores == old(store.stores).(unlock := store.stores.unlock)
    ensures request.KeyWriteSteps() == 0 ==> store.stores == old(store.stores)
    ensures ok && request.storage == EncryptedVault && request.generated ==>
            store.stores == old(store.stores).(unlock := request.key)
    ensures ok && request.KeyWriteSteps() == 2 ==> store.stores.unlock == None
    ensures ok <==> AllWork(old(store.faults), request.KeyWriteSteps())
    ensures store.faults == Drop(old(store.faults),
      if ok then request.KeyWriteSteps() else StepsThatWork(old(store.faults), request.KeyWriteSteps()) + 1)
  {
    DropIsLater(store.faults);
    if request.storage == EncryptedVault && request.generated {
      ok := store.SaveVaultUnlockPassword(request.key.value);
    } else if request.previousGenerated {
      InTwoParts(store.faults, 1, 1);
      ok := store.DeleteVaultUnlockPassword();
    } else {
      ok := true;
    }
  }

  function WithPassword(request: Request, session: Uuid, s: Stores): Stores
    requires request.HasKey()
  {
    s.With(request.storage, session, request.password, if request.key.Some? then request.key.value else [])
  }

  method WritePassword(store: CredentialStore, request: Request) returns (ok: bool)
    requires request.HasKey()
    modifies store
    ensures store.stores == old(store.stores)
            || store.stores == WithPassword(request, store.sessionId, old(store.stores))
    ensures ok ==> store.stores == WithPassword(request, store.sessionId, old(store.stores))
    ensures ok <==> request.IsLegal() && Next(old(store.faults)) == Works
    ensures store.faults == if request.IsLegal() then Later(old(store.faults)) else old(store.faults)
  {
    match request.storage {
      case SystemKeyring => ok := store.SaveSystemPassword(request.password);
      case EncryptedVault => ok := store.SaveVaultPassword(request.password, request.key.value);
    }
  }

  /** What the writes, carried out in part or in full, do to the stores. */
  lemma WritesDisturb(request: Request, session: Uuid, s0: Stores, s1: Stores, s2: Stores, s3: Stores)
    requires request.HasKey() && (request.SettlesKey() ==> s0.legacy == None)
    requires s1 == s0 || s1 == WithPassword(request, session, s0)
    requires s2 == s1.(unlock := s2.unlock) && (request.KeyWriteSteps() == 0 ==> s2 == s1)
    requires s3 == s2 || (request.Replaced().Some? && s3 == s2.Without(request.Replaced().value))
    ensures Disturbed(request, s0, s3)
  {
  }

  lemma WritesSave(request: Request, session: Uuid, s0: Stores, s2: Stores)
    requires request.HasKey() && (request.SettlesKey() ==> s0.legacy == None)
    requires s2 == WithPassword(request, session, s0).(unlock := s2.unlock)
    requires if request.storage == EncryptedVault && request.generated then s2.unlock == request.key
      else if request.previousGenerated then s2.unlock == None
      else s2.unlock == s0.unlock
    ensures SavedAsRequested(request, session, s0, match request.Replaced()
            case None => s2
            case Some(r) => s2.Without(r))
  {
  }

  /** Write the password, settle the unlock key, drop the replaced password; stop at the first failure. */
  method WriteAll(store: CredentialStore, request: Request) returns (ok: bool)
    requires request.HasKey()
    requires request.SettlesKey() ==> store.stores.legacy == None
    modifies store
    ensures Disturbed(request, old(store.stores), store.stores)
    ensures ok ==> SavedAsRequested(request, store.sessionId, old(store.stores), store.stores)
    ensures ok <==> Writes(request, old(store.faults))
    ensures store.faults == Drop(old(store.faults),
      if ok then request.WriteSteps() else StepsToFailure(request, old(store.faults)))
  {
    ghost var faults, rest := store.faults, request.WriteSteps() - 1;
    hide StepsThatWork, AllWork, Drop, FaultAt, Disturbed, SavedAsRequested, WithPassword;
    hide Stores.With, Stores.Without, Request.KeyWriteSteps, Request.Replaced;
    FirstStepThenTheRest(faults, rest);
    ghost var s0 := store.stores;
    ok := WritePassword(store, request);
    ghost var s1 := store.stores;
    if ok {
      ok := SettleAndReplace(store, request, s0, s1);
    } else {
      WritesDisturb(request, store.sessionId, s0, s1, s1, s1);
    }
  }

  lemma FirstStepThenTheRest(faults: seq<Fault>, rest: nat)
    ensures Drop(faults, 0) == faults && Drop(faults, 1) == Later(faults)
    ensures Next(faults) != Works ==> !AllWork(faults, 1 + rest) && StepsThatWork(faults, 1 + rest) == 0
    ensures Next(faults) == Works ==>
      && (AllWork(faults, 1 + rest) <==> AllWork(Later(faults), rest))
      && StepsThatWork(faults, 1 + rest) == 1 + StepsThatWork(Later(faults), rest)
    ensures Drop(faults, 1 + rest) == Drop(Later(faults), rest)
    ensures var n := StepsThatWork(Later(faults), rest) + 1; Drop(faults, 1 + n) == Drop(Later(faults), n)
  {
    hide StepsThatWork, AllWork, Drop, FaultAt;
    DropIsLater(faults);
    InTwoParts(faults, 1, rest);
    InTwoParts(faults, 1, StepsThatWork(Later(faults), rest) + 1);
    if Next(faults) == Works {
      StepsInTwoParts(faults, 1, rest);
    } else {
      FirstStepFails(faults, 1 + rest);
    }
  }

  /** The writes after the password itself. */
  method SettleAndReplace(store: CredentialStore, request: Request, ghost s0: Stores, ghost s1: Stores)
    returns (ok: bool)
    requires request.IsLegal() && store.stores == s1 == WithPassword(request, store.sessionId, s0)
    requires request.SettlesKey() ==> s0.legacy == None
    modifies store
    ensures Disturbed(request, s0, store.stores)
    ensures ok ==> SavedAsRequested(request, store.sessionId, s0, store.stores)
    ensures var n := request.WriteSteps() - 1;
      && (ok <==> AllWork(old(store.faults), n))
      && store.faults == Drop(old(store.faults), if ok then n else StepsThatWork(old(store.faults), n) + 1)
  {
    ghost var faults, keySteps := store.faults, request.KeyWriteSteps();
    ghost var last := request.WriteSteps() - 1 - keySteps;
    hide StepsThatWork, AllWork, Drop, FaultAt, Disturbed, SavedAsRequested, WithPassword;
    LegacyStays(request, store.sessionId, s0);
    InTwoParts(faults, keySteps, last);
    DropIsLater(Drop(faults, keySteps));
    ok := SettleKey(store, request);
    ghost var s2 := store.stores;
    WritesDisturb(request, store.sessionId, s0, s1, s2, s2);
    if !ok {
      LaterStepsDoNotMatter(faults, keySteps, last);
      return;
    }
    StepsInTwoParts(faults, keySteps, last);
    WritesSave(request, store.sessionId, s0, s2);
    if request.Replaced().Some? {
      ghost var torn;
      ok, torn := store.DeletePassword(request.Replaced().value);
      WritesDisturb(request, store.sessionId, s0, s1, s2, store.stores);
      if !ok {
        FirstStepFails(Drop(faults, keySteps), 1);
        InTwoParts(faults, keySteps, 1);
      }
    }
  }

  lemma LegacyStays(request: Request, session: Uuid, s: Stores)
    requires request.HasKey()
    ensures WithPassword(request, session, s).legacy == s.legacy && WithPassword(request, session, s).unlock == s.unlock
  {
  }

  lemma FirstStepFails(faults: seq<Fault>, n: nat)
    requires n > 0 && Next(faults) != Works
    ensures StepsThatWork(faults, n) == 0 && !AllWork(faults, n)
  {
    assert FaultAt(faults, 0) != Works;
    StepsThatWorkIs(faults, n, 0);
  }

  lemma LaterStepsDoNotMatter(faults: seq<Fault>, n: nat, more: nat)
    requires !AllWork(faults, n)
    ensures StepsThatWork(faults, n + more) == StepsThatWork(faults, n) < n && !AllWork(faults, n + more)
  {
    StepsThatWorkIs(faults, n + more, StepsThatWork(faults, n));
  }

  /** All or nothing, for every script of faults; what can keep a failed save from being undone is spelled out. */
  method SavePassword(store: CredentialStore, request: Request) returns (r: Outcome)
    modifies store
    ensures r.Done? ==> SavedAsRequested(request, store.sessionId, old(store.stores), store.stores)
    ensures r.Done? ==> Equivalent(RolledBack(store.stores, r.rollback), old(store.stores))
    ensures r.Rejected? ==> Equivalent(store.stores, old(store.stores))
    ensures r.Done? <==> SaveSucceeds(request, old(store.stores), old(store.faults))
    ensures r.RestoreFailed? <==> SaveCannotBeUndone(request, old(store.stores), old(store.faults))
    ensures r.Done? ==> store.faults == Drop(old(store.faults),
              request.BackupSteps(old(store.stores)) + request.WriteSteps())
  {
    InTwoParts(store.faults, request.BackupSteps(store.stores), request.WriteSteps());
    var rollback := TakeBackups(store, request);
    if rollback.None? || (request.storage == EncryptedVault && request.key.None?) {
      return Rejected;
    }
    ghost var before := store.stores;
    var ok := WriteAll(store, request);
    RollbackUndoes(request, before, store.stores);
    if !ok {
      var restored := store.Restore(rollback.value);
      return if restored then Rejected else RestoreFailed;
    }
    return Done(rollback.value);
  }

  /** With a generated key the stores alone are enough to read the password back. */
  lemma GeneratedKeyOpensTheVault(request: Request, session: Uuid, before: Stores, after: Stores)
    requires SavedAsRequested(request, session, before, after)
    requires request.storage == EncryptedVault && request.generated
    ensures after.vault.Some? && after.EffectiveKey().Some?
    ensures Unseal(after.vault.value, session, after.EffectiveKey().value) == Some(request.password)
  {
  }

  /**
   Save, then read back the way a reader does: find the unlock key, migrating a legacy
   file, and open the vault with it. With a generated key the stores alone give the
   password back, and only a fault in one of the three reading steps keeps them from it.
   */
  method SaveThenLoad(store: CredentialStore, request: Request) returns (saved: Outcome, back: Read<Secret>)
    requires request.storage == EncryptedVault && request.generated
    modifies store
    ensures saved.Done? <==> SaveSucceeds(request, old(store.stores), old(store.faults))
    ensures back.Value? <==>
      && saved.Done?
      && AllWork(Drop(old(store.faults), request.BackupSteps(old(store.stores)) + request.WriteSteps()), 3)
    ensures back.Value? ==> back.value == Some(request.password)
  {
    back := ReadError;
    saved := SavePassword(store, request);
    if !saved.Done? {
      return;
    }
    GeneratedKeyOpensTheVault(request, store.sessionId, old(store.stores), store.stores);
    InTwoParts(store.faults, 2, 1);
    DropIsLater(Drop(store.faults, 2));
    var key := store.LoadOrMigrateVaultUnlockPassword();
    if key.Value? && key.value.Some? {
      back := store.LoadVaultPassword(key.value.value);
    }
  }

  /** A keyring password outside the accepted bounds can be read but not put back: a single fault is then not undone. */
  method IllegalPasswordIsNotPutBack() returns (store: CredentialStore, r: Outcome)
    ensures r == RestoreFailed
  {
    store := new CredentialStore(1, Stores(Some([]), None, None, None), [Works, FailsAfterEffect]);
    var request := Request(SystemKeyring, [1], None, false, false, None);
    ghost var faults := store.faults;
    assert request.BackupSteps(store.stores) == 1 && Drop(faults, 1) == [FailsAfterEffect];
    assert !LegalRollback(RollbackOf(request, store.stores)) by {
      assert (SystemKeyring, SystemBackup(Some([]))) in RollbackOf(request, store.stores).backups;
    }
    assert FaultAt(Drop(faults, 1), 0) != Works;
    r := SavePassword(store, request);
  }

  // ----- Deleting -----

  /** What a delete is for. */
  predicate DeletedAsRequested(storage: CredentialStorage, generated: bool, before: Stores, after: Stores) {
    && !after.Holds(storage)
    && (match storage
        case SystemKeyring => after.vault == before.vault
        case EncryptedVault => after.system == before.system)
    && (if generated then after.legacy == None && after.unlock == None
        else after.EffectiveKey() == before.EffectiveKey())
  }

  /** The steps before the first delete. */
  function DeleteBackupSteps(generated: bool, before: Stores): nat {
    1 + if generated then before.KeySteps() else 0
  }

  predicate DeleteStarts(generated: bool, before: Stores, faults: seq<Fault>) {
    AllWork(faults, DeleteBackupSteps(generated, before)) && (generated ==> before.KeyIsReadable())
  }

  function DeleteSteps(generated: bool): nat {
    1 + if generated then 2 else 0
  }

  function DeleteRollback(storage: CredentialStorage, generated: bool, before: Stores): Rollback {
    Rollback([(storage, BackupOf(before, storage))], if generated then Some(before.EffectiveKey()) else None)
  }

  /** The first delete is reached and fails after taking effect. */
  predicate DeleteIsTorn(generated: bool, before: Stores, faults: seq<Fault>) {
    DeleteStarts(generated, before, faults) && FaultAt(faults, DeleteBackupSteps(generated, before)) == FailsAfterEffect
  }

  predicate DeleteSucceeds(generated: bool, before: Stores, faults: seq<Fault>) {
    DeleteStarts(generated, before, faults)
      && AllWork(Drop(faults, DeleteBackupSteps(generated, before)), DeleteSteps(generated))
  }

  /** The password is gone, its key is not, and the password cannot be put back. */
  predicate DeleteCannotBeUndone(storage: CredentialStorage, generated: bool, before: Stores, faults: seq<Fault>) {
    var deleting := Drop(faults, DeleteBackupSteps(generated, before));
    var k := StepsThatWork(deleting, DeleteSteps(generated));
    var rollback := DeleteRollback(storage, generated, before);
    && DeleteStarts(generated, before, faults) && 0 < k < DeleteSteps(generated)
    && !(LegalRollback(rollback) && AllWork(Drop(deleting, k + 1), RestoreSteps(rollback)))
  }

  lemma OneFaultInADeleteIsUndone(storage: CredentialStorage, generated: bool, before: Stores, faults: seq<Fault>)
    requires AtMostOneFault(faults) && LegalRollback(DeleteRollback(storage, generated, before))
    ensures !DeleteCannotBeUndone(storage, generated, before, faults)
  {
    OneFaultThenNone(faults, DeleteBackupSteps(generated, before), DeleteSteps(generated),
                     RestoreSteps(DeleteRollback(storage, generated, before)));
  }

  /**
   Delete the password and, if it was generated, the unlock key. A rejected deletion
   left everything as it was exactly when the first delete was not torn, or there was
   nothing to delete.
   */
  method DeletePasswordInStore(store: CredentialStore, storage: CredentialStorage, generated: bool) returns (r: Outcome)
    modifies store
    ensures r.Done? ==> DeletedAsRequested(storage, generated, old(store.stores), store.stores)
    ensures r.Done? ==> Equivalent(RolledBack(store.stores, r.rollback), old(store.stores))
    ensures r.Done? <==> DeleteSucceeds(generated, old(store.stores), old(store.faults))
    ensures r.RestoreFailed? <==> DeleteCannotBeUndone(storage, generated, old(store.stores), old(store.faults))
    ensures DeleteIsTorn(generated, old(store.stores), old(store.faults)) ==>
      r.Rejected? && Equivalent(store.stores, old(store.stores).Without(storage))
    ensures r.Rejected? ==>
      (Equivalent(store.stores, old(store.stores))
       <==> !DeleteIsTorn(generated, old(store.stores), old(store.faults)) || !old(store.stores).Holds(storage))
  {
    hide AllWork, StepsThatWork, Drop, FaultAt, RolledBack, DeleteRollback, DeleteStarts, Stores.EffectiveKey;
    ghost var faults, before := store.faults, store.stores;
    ghost var start := DeleteBackupSteps(generated, before);
    var rollback := TakeDeleteBackups(store, storage, generated);
    if rollback.None? {
      return Rejected;
    }
    ghost var deleting, ready := store.faults, store.stores;
    StartOfTheDeletes(faults, start);
    FirstStep(deleting, DeleteSteps(generated));
    ghost var torn;
    var deleted;
    deleted, torn := store.DeletePassword(storage);
    if !deleted {
      TornOrUntouched(storage, before, ready);
      return Rejected;
    }
    r := FinishDelete(store, rollback.value, storage, generated, before);
  }

  /** What the first step of a script says about the first `n`. */
  lemma FirstStep(faults: seq<Fault>, n: nat)
    requires n > 0
    ensures AllWork(faults, n) <==> Next(faults) == Works && AllWork(Later(faults), n - 1)
    ensures Next(faults) != Works ==> StepsThatWork(faults, n) == 0
    ensures Next(faults) == Works ==> StepsThatWork(faults, n) == 1 + StepsThatWork(Later(faults), n - 1)
    ensures Next(faults) == Works ==>
      Drop(faults, StepsThatWork(faults, n) + 1) == Drop(Later(faults), StepsThatWork(Later(faults), n - 1) + 1)
  {
    hide AllWork, StepsThatWork, Drop, FaultAt, Later, Next;
    DropIsLater(faults);
    InTwoParts(faults, 1, n - 1);
    if Next(faults) == Works {
      StepsInTwoParts(faults, 1, n - 1);
      InTwoParts(faults, 1, StepsThatWork(Later(faults), n - 1) + 1);
    } else {
      FirstStepFails(faults, n);
    }
  }

  lemma StartOfTheDeletes(faults: seq<Fault>, start: nat)
    ensures FaultAt(faults, start) == Next(Drop(faults, start))
  {
    InTwoParts(faults, start, 0);
    DropIsLater(Drop(faults, start));
  }

  /** A failed first delete either did nothing or took the password away. */
  lemma TornOrUntouched(storage: CredentialStorage, before: Stores, ready: Stores)
    requires Equivalent(ready, before)
    ensures Equivalent(ready.Without(storage), before.Without(storage))
    ensures Equivalent(ready.Without(storage), before) <==> !before.Holds(storage)
  {
  }

  /** The password is deleted: remove a generated key too, or put everything back. */
  method FinishDelete(store: CredentialStore, rollback: Rollback, storage: CredentialStorage, generated: bool,
                      ghost before: Stores)
    returns (r: Outcome)
    requires rollback == DeleteRollback(storage, generated, before)
    requires store.stores.Without(storage) == store.stores
    requires match storage
             case SystemKeyring => store.stores.vault == before.vault
             case EncryptedVault => store.stores.system == before.system
    requires if generated then store.stores.legacy == None
      else store.stores.unlock == before.unlock && store.stores.legacy == before.legacy
    modifies store
    ensures r.Done? <==> AllWork(old(store.faults), DeleteSteps(generated) - 1)
    ensures r.Done? ==> DeletedAsRequested(storage, generated, before, store.stores)
    ensures r.Done? ==> Equivalent(RolledBack(store.stores, r.rollback), before)
    ensures r.Rejected? ==> Equivalent(store.stores, before)
    ensures var k := StepsThatWork(old(store.faults), DeleteSteps(generated) - 1);
      r.RestoreFailed? <==>
        k < DeleteSteps(generated) - 1
        && !(LegalRollback(rollback) && AllWork(Drop(old(store.faults), k + 1), RestoreSteps(rollback)))
  {
    hide RolledBack, DeleteRollback, LegalRollback, RestoreSteps;
    if generated {
      var ok := DeleteKey(store);
      DeleteUndone(storage, generated, before, store.stores);
      if !ok {
        var restored := store.Restore(rollback);
        return if restored then Rejected else RestoreFailed;
      }
    } else {
      DeleteUndone(storage, generated, before, store.stores);
    }
    return Done(rollback);
  }

  /** Remove the unlock key from both of its places. */
  method DeleteKey(store: CredentialStore) returns (ok: bool)
    modifies store
    ensures store.stores == old(store.stores).(unlock := store.stores.unlock, legacy := store.stores.legacy)
    ensures old(store.stores).legacy == None ==> store.stores.legacy == None
    ensures ok ==> store.stores.legacy == None && store.stores.unlock == None
    ensures ok <==> AllWork(old(store.faults), 2)
    ensures ok <==> StepsThatWork(old(store.faults), 2) == 2
    ensures !ok ==> store.faults == Drop(old(store.faults), StepsThatWork(old(store.faults), 2) + 1)
  {
    DropIsLater(store.faults);
    InTwoParts(store.faults, 1, 1);
    ok := store.DeleteVaultUnlockPassword();
  }

  lemma DeleteUndone(storage: CredentialStorage, generated: bool, before: Stores, after: Stores)
    requires after.Without(storage) == after
    requires match storage
             case SystemKeyring => after.vault == before.vault
             case EncryptedVault => after.system == before.system
    requires if generated then after.legacy == None else after.unlock == before.unlock && after.legacy == before.legacy
    ensures Equivalent(RolledBack(after, DeleteRollback(storage, generated, before)), before)
  {
    var own := (storage, BackupOf(before, storage));
    RestoredOneOrTwo(after, own, own);
  }

  method TakeDeleteBackups(store: CredentialStore, storage: CredentialStorage, generated: bool)
    returns (r: Option<Rollback>)
    modifies store
    ensures Equivalent(store.stores, old(store.stores)) && (!generated ==> store.stores == old(store.stores))
    ensures r.Some? ==> r.value == DeleteRollback(storage, generated, old(store.stores))
    ensures r.Some? && generated ==> store.stores.legacy == None
    ensures r.Some? <==> DeleteStarts(generated, old(store.stores), old(store.faults))
    ensures r.Some? ==> store.faults == Drop(old(store.faults), DeleteBackupSteps(generated, old(store.stores)))
  {
    DropIsLater(store.faults);
    InTwoParts(store.faults, 1, DeleteBackupSteps(generated, store.stores) - 1);
    var backup := store.MakeBackup(storage);
    if backup.None? {
      return None;
    }
    if !generated {
      return Some(Rollback([(storage, backup.value)], None));
    }
    var key := store.LoadOrMigrateVaultUnlockPassword();
    r := if key.ReadError? then None else Some(Rollback([(storage, backup.value)], Some(key.value)));
  }

  /** The first delete of a removal can fail after taking effect, and is then not undone. */
  method TornDeleteIsNotUndone() returns (store: CredentialStore, r: Outcome)
    ensures r == Rejected && store.stores.system == None
  {
    store := new CredentialStore(1, Stores(Some([1]), None, None, None), [Works, FailsAfterEffect]);
    assert DeleteIsTorn(false, store.stores, store.faults);
    r := DeletePasswordInStore(store, SystemKeyring, false);
  }
}
