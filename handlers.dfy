/**
 * hooks/handlers.go: registration, login, password reset and the storage
 * wipe, guarded by credential checks and a failed-attempt counter kept in a
 * file of the session directory.
 */
module Hooks {
  import opened Wrappers
  import opened Errors
  import Text
  import Consts
  import Base64
  import SecureCrypto
  import Models
  import Json
  import Badger
  import UserDb
  import Zero
  import Utils

  /** `sanitizeCreds`: each credential with its surrounding white space removed. */
  function SanitizeCreds(u: string, p: string, m: string): (r: (string, string, string))
    ensures Trimmed(r.0) && Trimmed(r.1) && Trimmed(r.2)
    ensures |r.0| <= |u| && |r.1| <= |p| && |r.2| <= |m|
    ensures Trimmed(u) && Trimmed(p) && Trimmed(m) ==> r == (u, p, m)
  {
    (Text.TrimSpace(u), Text.TrimSpace(p), Text.TrimSpace(m))
  }

  /** No white space at either end. */
  predicate Trimmed(s: string) {
    s == [] || (!Text.IsSpace(s[0]) && !Text.IsSpace(s[|s| - 1]))
  }

  /** Sanitising is only trimming: doing it again changes nothing. */
  lemma SanitizeIdempotent(u: string, p: string, m: string)
    ensures SanitizeCreds(Text.TrimSpace(u), Text.TrimSpace(p), Text.TrimSpace(m)) == SanitizeCreds(u, p, m)
  {
    Text.TrimSpaceIdempotent(u);
    Text.TrimSpaceIdempotent(p);
    Text.TrimSpaceIdempotent(m);
  }

  /** `isValidCreds`: both names present, a password of 8 bytes or more, and a master key that is absent or of 8 bytes or more. */
  function IsValidCreds(u: string, p: string, m: string): (ok: bool)
    ensures !ok <==> u == [] || p == [] || |p| < 8 || (m != [] && |m| < 8)
  {
    if u == [] || p == [] then false
    else if |p| < 8 then false
    else if m != [] && |m| < 8 then false
    else true
  }

  /** Whatever passes the password policy also passes the shorter length test here. */
  lemma PolicySubsumesLengthCheck(u: string, p: string)
    requires u != [] && Utils.PasswordVerdict(p) == None
    ensures IsValidCreds(u, p, "")
  {
  }

  /**
   * `splitHashSalt`: the two sides of the `hash:salt` envelope, when the text
   * holds exactly one `:`.
   */
  function SplitHashSalt(combined: string): (r: Option<(string, string)>)
    ensures r.Some? <==> Text.Count(combined, ':') == 1
    ensures r.Some? ==> combined == r.value.0 + ":" + r.value.1
    ensures r.Some? ==> ':' !in r.value.0 && ':' !in r.value.1
  {
    var parts := Text.Split(combined, ':');
    if |parts| != 2 then None
    else
      Text.JoinSplit(combined, ':');
      assert Text.Join(parts, ':') == parts[0] + [':'] + Text.Join(parts[1..], ':');
      Some((parts[0], parts[1]))
  }

  /** Splitting an envelope built from two colon-free texts gives both back unchanged. */
  lemma SplitEnvelope(hash: string, salt: string)
    requires ':' !in hash && ':' !in salt
    ensures SplitHashSalt(hash + ":" + salt) == Some((hash, salt))
  {
    var parts := [hash, salt];
    assert Text.Join(parts, ':') == hash + ":" + salt by {
      assert parts[1..] == [salt];
    }
    Text.SplitJoin(parts, ':');
  }

  /**
   * The envelope registration and reset store: the hash of `password` under a
   * fresh salt, a colon, and the salt. It always verifies `password`.
   */
  function NewEnvelope(prims: SecureCrypto.Primitives, password: string, random: SecureCrypto.SaltBytes): (e: string)
    requires prims.Lawful()
    ensures PasswordMatches(prims, e, password)
  {
    var salt := SecureCrypto.GenerateSalt(Some(random)).value;
    SecureCrypto.HashWithFreshSaltSucceeds(prims, password, random);
    var hash := SecureCrypto.HashWithSalt(prims, password, salt).value;
    SplitEnvelope(hash, salt);
    hash + ":" + salt
  }

  /**
   * The check login, reset and wipe apply to a stored envelope: it splits,
   * and hashing `password` with its salt succeeds and gives its hash.
   */
  function PasswordMatches(prims: SecureCrypto.Primitives, envelope: string, password: string): (ok: bool)
    requires prims.Lawful()
    ensures Text.Count(envelope, ':') != 1 ==> !ok
  {
    var split := SplitHashSalt(envelope);
    split.Some? && SecureCrypto.HashWithSalt(prims, password, split.value.1) == Ok(split.value.0)
  }

  /** A matching envelope is a `hash:salt` whose salt hashes the password to that hash. */
  lemma MatchIsHashOfSalt(prims: SecureCrypto.Primitives, envelope: string, password: string)
    requires prims.Lawful() && PasswordMatches(prims, envelope, password)
    ensures exists hash, salt :: envelope == hash + ":" + salt && SecureCrypto.HashWithSalt(prims, password, salt) == Ok(hash)
  {
    var split := SplitHashSalt(envelope).value;
    assert envelope == split.0 + ":" + split.1;
  }

  /** The range of Go's `int` on a 64-bit platform. */
  predicate IsGoInt(x: int) {
    -0x8000_0000_0000_0000 <= x <= 0x7fff_ffff_ffff_ffff
  }

  /**
   * `readAttempts` over the attempts file: None is a missing file or one that
   * does not hold an integer literal. `json.Unmarshal` leaves the count at 0
   * when the file is missing, is not an integer or does not fit Go's `int`.
   */
  function ReadAttempts(file: Option<int>): (n: int)
    ensures IsGoInt(n)
    ensures file.Some? && IsGoInt(file.value) ==> n == file.value
    ensures file.None? || !IsGoInt(file.value) ==> n == 0
  {
    if file.Some? && IsGoInt(file.value) then file.value else 0
  }

  /** A count too wide for Go's `int` reads as 0, so the gate lets the attempt through. */
  lemma OverflowingCountProceeds(v: int)
    requires !IsGoInt(v)
    ensures HandleExcessiveAttempts(ReadAttempts(Some(v))) == Proceed
  {
  }

  /** The decision of `handleExcessiveAttempts`. */
  datatype Gate = Proceed | Refuse | Wipe

  /** `handleExcessiveAttempts`: exactly 5 refuses, 7 or more wipes, anything else proceeds. */
  function HandleExcessiveAttempts(attempts: int): (g: Gate)
    ensures g == Refuse <==> attempts == Consts.MaxMAttempts
    ensures g == Wipe <==> attempts >= Consts.MaxAttempts + 1
    ensures g == Proceed <==> attempts != 5 && attempts < 7
  {
    if attempts == Consts.MaxMAttempts then Refuse
    else if attempts >= Consts.MaxAttempts + 1 then Wipe
    else Proceed
  }

  /** The count after `k` more failed attempts, each made only when the gate lets it through. */
  function Replay(n: int, k: nat): int
    decreases k
  {
    if k == 0 || HandleExcessiveAttempts(n) != Proceed then n else Replay(n + 1, k - 1)
  }

  /**
   * From a count of at most 5, failures never lift it above 5, so the wipe
   * branch is never taken: 5 refuses before the count can reach 7.
   */
  lemma {:induction false} BoundedCountNeverWipes(n: int, k: nat)
    requires n <= Consts.MaxMAttempts
    ensures Replay(n, k) <= Consts.MaxMAttempts
    ensures HandleExcessiveAttempts(Replay(n, k)) != Wipe
    decreases k
  {
    if k > 0 && HandleExcessiveAttempts(n) == Proceed {
      BoundedCountNeverWipes(n + 1, k - 1);
    }
  }

  /** The outcome of a workflow, in place of what it prints. */
  datatype Outcome =
    | Rejected               // a validation failure; nothing is read or written
    | LockedOut              // "Too many failed attempts."
    | Exited(code: int)      // NukeFiles ended the process
    | Denied(reason: string) // failAttempt with this warning
    | Aborted(error: Error)  // an error is logged and the workflow returns
    | Registered
    | LoggedIn(user: Models.User)
    | PasswordReset

  /** Which step of the password check failed. */
  datatype Check = NoUser | BadEnvelope | Mismatch

  /** The record stored under `u`, when there is one and it decodes. */
  function StoredUser(codec: Json.Codec, disk: map<string, seq<byte>>, u: string): Option<Models.User> {
    if u in disk then codec.decodeUser(disk[u]) else None
  }

  /** The record stored under `u`, if it decodes, carries `u` as its username. */
  predicate NamesItsKey(codec: Json.Codec, disk: map<string, seq<byte>>, u: string) {
    StoredUser(codec, disk, u).Some? ==> StoredUser(codec, disk, u).value.username == u
  }

  /** `u` names a stored record whose envelope verifies `p`. */
  predicate Authenticates(prims: SecureCrypto.Primitives, codec: Json.Codec, disk: map<string, seq<byte>>, u: string, p: string)
    requires prims.Lawful()
  {
    u != [] && StoredUser(codec, disk, u).Some? && PasswordMatches(prims, StoredUser(codec, disk, u).value.password, p)
  }

  /** A record written by registration authenticates its password once read back. */
  lemma RegisteredUserAuthenticates(prims: SecureCrypto.Primitives, codec: Json.Codec, disk: map<string, seq<byte>>,
                                    user: Models.User, p: string)
    requires prims.Lawful() && codec.Lawful()
    requires user.username != [] && PasswordMatches(prims, user.password, p)
    ensures Authenticates(prims, codec, disk[user.username := codec.encodeUser(user)], user.username, p)
  {
    var disk' := disk[user.username := codec.encodeUser(user)];
    assert StoredUser(codec, disk', user.username) == Some(Models.Persisted(user));
  }

  /** The checks `UserRegistration` applies to the trimmed credentials. */
  predicate RegistrationInputOk(u: string, p: string, m: string) {
    IsValidCreds(u, p, m) && Utils.PasswordVerdict(p) == None
  }

  /** The checks `UserLogin` applies to the trimmed credentials. */
  predicate LoginInputOk(u: string, p: string) {
    IsValidCreds(u, p, "") && Utils.PasswordVerdict(p) == None
  }

  /** The checks `ResetPassword` applies to the trimmed credentials. */
  predicate ResetInputOk(u: string, oldPassword: string, newPassword: string) {
    IsValidCreds(u, oldPassword, "") && Utils.PasswordVerdict(oldPassword) == None && Utils.PasswordVerdict(newPassword) == None
  }
  /**
   * How a workflow ends when `handleExcessiveAttempts` stops it: a refusal
   * that touches no file, or `NukeFiles`, which sweeps the files and exits 1.
   */
  ghost predicate Stopped(n: int, o: Outcome, filesBefore: map<string, Zero.Node>, filesAfter: map<string, Zero.Node>,
                          authFile: string)
  {
    if HandleExcessiveAttempts(n) == Refuse then o == LockedOut && filesAfter == filesBefore
    else o == Exited(1) && Zero.Swept(filesBefore, filesAfter, authFile)
  }

  /**
   * What `UserRegistration` does to the keyspace once the credentials pass:
   * the two envelopes, then `NewStore` and `CreaterUser`.
   */
  ghost predicate RegisterEffect(prims: SecureCrypto.Primitives, codec: Json.Codec, before: map<string, seq<byte>>,
                                 u: string, p: string, m: string, now: Models.Time,
                                 random: Option<SecureCrypto.SaltBytes>, mrandom: Option<SecureCrypto.SaltBytes>,
                                 storeError: Option<Error>, o: Outcome, after: map<string, seq<byte>>)
    requires prims.Lawful()
  {
    if random.None? || mrandom.None? then o == Aborted(Entropy) && after == before
    else if storeError.Some? then o == Aborted(storeError.value) && after == before
    else if u in before then o == Aborted(Message("username in use")) && after == before
    else
      var user := Models.NewUser(u, NewEnvelope(prims, p, random.value), NewEnvelope(prims, m, mrandom.value), now);
      o == Registered && after == before[u := codec.encodeUser(user)]
  }

  /**
   * What `UserLogin` does past the lockout check, `n` being the count read:
   * success removes the attempts file, every failure writes `n + 1`.
   */
  ghost predicate LoginEffect(prims: SecureCrypto.Primitives, codec: Json.Codec, before: map<string, seq<byte>>,
                              u: string, p: string, n: int, storeError: Option<Error>,
                              o: Outcome, attemptsAfter: Option<int>)
    requires prims.Lawful()
  {
    if storeError.Some? then o == Denied("Failed to open database.") && attemptsAfter == Some(n + 1)
    else if Authenticates(prims, codec, before, u, p) then
      o == LoggedIn(StoredUser(codec, before, u).value) && attemptsAfter == None
    else o.Denied? && attemptsAfter == Some(n + 1)
  }

  /**
   * What `ResetPassword` does once the store has opened, from the keyspace
   * and attempts file `before` to those `after`; `n` is the count read.
   */
  ghost predicate ResetEffect(prims: SecureCrypto.Primitives, codec: Json.Codec,
                              before: map<string, seq<byte>>, attemptsBefore: Option<int>,
                              u: string, op: string, np: string, n: int, random: Option<SecureCrypto.SaltBytes>,
                              o: Outcome, attemptsAfter: Option<int>, after: map<string, seq<byte>>)
    requires prims.Lawful()
  {
    if !Authenticates(prims, codec, before, u, op) then
      o.Denied? && attemptsAfter == Some(n + 1) && after == before
    else if random.None? then
      o == Aborted(Entropy) && attemptsAfter == attemptsBefore && after == before
    else
      // UpdateUser writes under the username the stored record holds.
      var user := StoredUser(codec, before, u).value;
      var updated := user.(password := NewEnvelope(prims, np, random.value));
      if user.username == [] then
        o == Aborted(EmptyKey) && attemptsAfter == attemptsBefore && after == before
      else if user.username !in before then
        o == Aborted(Message("user does not exist")) && attemptsAfter == attemptsBefore && after == before
      else
        o == PasswordReset && attemptsAfter == None && after == before[user.username := codec.encodeUser(updated)]
  }

  /**
   * What `DropStorage` does past the lockout check: only a verified password
   * reaches `NukeFiles`, which ends the process before the attempts file is
   * removed.
   */
  ghost predicate DropEffect(prims: SecureCrypto.Primitives, codec: Json.Codec, before: map<string, seq<byte>>,
                             u: string, p: string, n: int, storeError: Option<Error>, authFile: string,
                             o: Outcome, attemptsBefore: Option<int>, attemptsAfter: Option<int>,
                             filesBefore: map<string, Zero.Node>, filesAfter: map<string, Zero.Node>)
    requires prims.Lawful()
  {
    if storeError.Some? then
      o == Aborted(storeError.value) && attemptsAfter == attemptsBefore && filesAfter == filesBefore
    else if !Authenticates(prims, codec, before, u, p) then
      o.Denied? && attemptsAfter == Some(n + 1) && filesAfter == filesBefore
    else
      o == Exited(1) && attemptsAfter == attemptsBefore && Zero.Swept(filesBefore, filesAfter, authFile)
  }

  /**
   * The state the workflows share between runs: the attempts file of the
   * session directory, the store's keyspace, and the files `NukeFiles` sees
   * under the bare names it uses.
   */
  class Engine {
    /** The attempts file: None when it is missing or does not hold an integer. */
    var attempts: Option<int>
    /** What the Badger store in the session directory holds between runs. */
    var disk: map<string, seq<byte>>
    const fs: Zero.FileSystem
    const prims: SecureCrypto.Primitives
    const codec: Json.Codec
    /** The value `AUTH_FILE_PATH` would have. */
    const authFile: string

    ghost predicate Valid() {
      prims.Lawful() && codec.Lawful()
    }

    constructor (attempts: Option<int>, disk: map<string, seq<byte>>, fs: Zero.FileSystem,
                 prims: SecureCrypto.Primitives, codec: Json.Codec, authFile: string)
      ensures this.attempts == attempts && this.disk == disk && this.fs == fs
      ensures this.prims == prims && this.codec == codec && this.authFile == authFile
    {
      this.attempts := attempts;
      this.disk := disk;
      this.fs := fs;
      this.prims := prims;
      this.codec := codec;
      this.authFile := authFile;
    }

    /** `failAttempt`: the warning, and one more failure than was read written back. */
    method FailAttempt(msg: string, count: int) returns (o: Outcome)
      modifies this
      ensures attempts == Some(count + 1) && disk == old(disk) && o == Denied(msg)
    {
      attempts := Some(count + 1);
      o := Denied(msg);
    }

    /**
     * `handleExcessiveAttempts` on the count read: a refusal, a wipe through
     * `NukeFiles`, or None to go on.
     */
    method Gatekeep(n: int, noise: string -> nat -> nat -> byte) returns (stop: Option<Outcome>)
      modifies fs
      ensures stop.None? <==> HandleExcessiveAttempts(n) == Proceed
      ensures stop.None? ==> fs.files == old(fs.files)
      ensures stop.Some? ==> Stopped(n, stop.value, old(fs.files), fs.files, authFile)
    {
      var gate := HandleExcessiveAttempts(n);
      if gate == Refuse {
        return Some(LockedOut);
      }
      if gate == Wipe {
        var code, _ := fs.NukeFiles(authFile, noise);
        return Some(Exited(code));
      }
      return None;
    }

    /**
     * The steps login, reset and wipe share past the lockout check: read the
     * record of `u` through a fresh handle on the store, split its envelope,
     * and compare the hash of `p` under the stored salt with the stored hash.
     */
    method CheckPassword(u: string, p: string) returns (r: Result<Models.User, Check>)
      requires Valid()
      ensures r.Ok? <==> Authenticates(prims, codec, disk, u, p)
      ensures r.Ok? ==> StoredUser(codec, disk, u) == Some(r.value)
      ensures r == Err(NoUser) <==> u == [] || StoredUser(codec, disk, u).None?
    {
      var db := new Badger.DB.Open(disk);
      var store := new UserDb.Store(db, codec);
      var user := store.GetUser(u);
      if user.Err? {
        return Err(NoUser);
      }
      var split := SplitHashSalt(user.value.password);
      if split.None? {
        return Err(BadEnvelope);
      }
      var (storedHash, salt) := split.value;
      var inputHash := SecureCrypto.HashWithSalt(prims, p, salt);
      if inputHash.Err? || inputHash.value != storedHash {
        return Err(Mismatch);
      }
      return Ok(user.value);
    }

    /**
     * A fresh salt from `random` and the hash of `password` under it, joined
     * into the `hash:salt` envelope.
     */
    method SaltAndHash(password: string, random: Option<SecureCrypto.SaltBytes>) returns (r: Result<string, Error>)
      requires Valid()
      ensures random.None? ==> r == Err(Entropy)
      ensures random.Some? ==> r == Ok(NewEnvelope(prims, password, random.value))
    {
      var salt := SecureCrypto.GenerateSalt(random);
      if salt.Err? {
        return Err(salt.error);
      }
      // A salt fresh from GenerateSalt always decodes, so hashing under it cannot fail.
      SecureCrypto.HashWithFreshSaltSucceeds(prims, password, random.value);
      var hash := SecureCrypto.HashWithSalt(prims, password, salt.value).value;
      return Ok(hash + ":" + salt.value);
    }

    /** `UserRegistration` once the trimmed credentials have passed validation. */
    method Register(u: string, p: string, m: string, now: Models.Time,
                    random: Option<SecureCrypto.SaltBytes>, mrandom: Option<SecureCrypto.SaltBytes>,
                    storeError: Option<Error>) returns (o: Outcome)
      requires Valid() && u != []
      modifies this
      ensures attempts == old(attempts)
      ensures RegisterEffect(prims, codec, old(disk), u, p, m, now, random, mrandom, storeError, o, disk)
      ensures o == Registered ==> Authenticates(prims, codec, disk, u, p)
    {
      var envelope := SaltAndHash(p, random);
      if envelope.Err? {
        return Aborted(envelope.error);
      }
      var masterEnvelope := SaltAndHash(m, mrandom);
      if masterEnvelope.Err? {
        return Aborted(masterEnvelope.error);
      }
      var newUser := Models.NewUser(u, envelope.value, masterEnvelope.value, now);
      if storeError.Some? {
        return Aborted(storeError.value);
      }
      var db := new Badger.DB.Open(disk);
      var store := new UserDb.Store(db, codec);
      var err := store.CreateUser(newUser);
      if err.Some? {
        return Aborted(err.value);
      }
      disk := db.data;
      RegisteredUserAuthenticates(prims, codec, old(disk), newUser, p);
      o := Registered;
    }

    /**
     * `UserRegistration`: `random` and `mrandom` are the two salts' random
     * bytes, `storeError` what `NewStore` fails with, if anything. The
     * attempts file is never touched.
     */
    method UserRegistration(username: string, password: string, masterkey: string, now: Models.Time,
                            random: Option<SecureCrypto.SaltBytes>, mrandom: Option<SecureCrypto.SaltBytes>,
                            storeError: Option<Error>) returns (o: Outcome)
      requires Valid()
      modifies this
      ensures attempts == old(attempts)
      ensures var u, p, m := Text.TrimSpace(username), Text.TrimSpace(password), Text.TrimSpace(masterkey);
              if !RegistrationInputOk(u, p, m) then o == Rejected && disk == old(disk)
              else RegisterEffect(prims, codec, old(disk), u, p, m, now, random, mrandom, storeError, o, disk)
      ensures o == Registered ==> Authenticates(prims, codec, disk, Text.TrimSpace(username), Text.TrimSpace(password))
    {
      var (u, p, m) := SanitizeCreds(username, password, masterkey);
      var policy := Utils.ValidatePassword(p);
      if !IsValidCreds(u, p, m) || policy.Some? {
        return Rejected;
      }
      o := Register(u, p, m, now, random, mrandom, storeError);
    }

    /** `UserLogin` once the trimmed credentials have passed validation. */
    method Login(u: string, p: string, storeError: Option<Error>, noise: string -> nat -> nat -> byte)
      returns (o: Outcome)
      requires Valid()
      modifies this, fs
      ensures disk == old(disk)
      ensures var n := ReadAttempts(old(attempts));
              if HandleExcessiveAttempts(n) != Proceed then
                attempts == old(attempts) && Stopped(n, o, old(fs.files), fs.files, authFile)
              else
                fs.files == old(fs.files) && LoginEffect(prims, codec, old(disk), u, p, n, storeError, o, attempts)
    {
      var n := ReadAttempts(attempts);
      var stop := Gatekeep(n, noise);
      if stop.Some? {
        return stop.value;
      }
      if storeError.Some? {
        o := FailAttempt("Failed to open database.", n);
        return;
      }
      var checked := CheckPassword(u, p);
      if checked.Err? {
        var msg := if checked.error == BadEnvelope then "Invalid password format." else "Invalid username or password.";
        o := FailAttempt(msg, n);
        return;
      }
      attempts := None;
      o := LoggedIn(checked.value);
    }

    /**
     * `UserLogin`. Validation failures touch nothing; past the lockout check
     * every failure, an unopenable store included, writes the count read plus
     * one, and success removes the attempts file.
     */
    method UserLogin(username: string, password: string, storeError: Option<Error>,
                     noise: string -> nat -> nat -> byte) returns (o: Outcome)
      requires Valid()
      modifies this, fs
      ensures disk == old(disk)
      ensures var u, p := Text.TrimSpace(username), Text.TrimSpace(password);
              var n := ReadAttempts(old(attempts));
              if !LoginInputOk(u, p) then o == Rejected && attempts == old(attempts) && fs.files == old(fs.files)
              else if HandleExcessiveAttempts(n) != Proceed then
                attempts == old(attempts) && Stopped(n, o, old(fs.files), fs.files, authFile)
              else
                fs.files == old(fs.files) && LoginEffect(prims, codec, old(disk), u, p, n, storeError, o, attempts)
      ensures ReadAttempts(old(attempts)) <= Consts.MaxMAttempts ==>
                ReadAttempts(attempts) <= Consts.MaxMAttempts && !o.Exited?
    {
      var (u, p, _) := SanitizeCreds(username, password, "");
      var policy := Utils.ValidatePassword(p);
      if !IsValidCreds(u, p, "") || policy.Some? {
        return Rejected;
      }
      o := Login(u, p, storeError, noise);
    }

    /**
     * `ResetPassword` past the lockout check, once the store has opened: the
     * old password is checked against the record of `u`, and on success the
     * record is rewritten with a fresh envelope for `np`.
     */
    method ResetOpened(u: string, op: string, np: string, n: int, random: Option<SecureCrypto.SaltBytes>)
      returns (o: Outcome)
      requires Valid()
      modifies this
      ensures ResetEffect(prims, codec, old(disk), old(attempts), u, op, np, n, random, o, attempts, disk)
      ensures o == PasswordReset && NamesItsKey(codec, old(disk), u) ==> Authenticates(prims, codec, disk, u, np)
    {
      var checked := CheckPassword(u, op);
      if checked.Err? {
        var msg := match checked.error
          case NoUser => "Invalid credentials."
          case BadEnvelope => "Invalid stored password."
          case Mismatch => "Old password incorrect.";
        o := FailAttempt(msg, n);
        return;
      }
      var envelope := SaltAndHash(np, random);
      if envelope.Err? {
        return Aborted(envelope.error);
      }
      var updated := checked.value.(password := envelope.value);
      var db := new Badger.DB.Open(disk);
      var store := new UserDb.Store(db, codec);
      var err := store.UpdateUser(updated);
      if err.Some? {
        return Aborted(err.value);
      }
      disk := db.data;
      if updated.username == u {
        RegisteredUserAuthenticates(prims, codec, old(disk), updated, np);
      }
      attempts := None;
      o := PasswordReset;
    }

    /** `ResetPassword` once the trimmed credentials have passed validation. */
    method Reset(u: string, op: string, np: string, storeError: Option<Error>,
                 random: Option<SecureCrypto.SaltBytes>, noise: string -> nat -> nat -> byte) returns (o: Outcome)
      requires Valid()
      modifies this, fs
      ensures var n := ReadAttempts(old(attempts));
              if HandleExcessiveAttempts(n) != Proceed then
                attempts == old(attempts) && disk == old(disk) && Stopped(n, o, old(fs.files), fs.files, authFile)
              else if storeError.Some? then
                o == Aborted(storeError.value) && attempts == old(attempts) && disk == old(disk) && fs.files == old(fs.files)
              else
                fs.files == old(fs.files) && ResetEffect(prims, codec, old(disk), old(attempts), u, op, np, n, random, o, attempts, disk)
      ensures o == PasswordReset && NamesItsKey(codec, old(disk), u) ==> Authenticates(prims, codec, disk, u, np)
    {
      var n := ReadAttempts(attempts);
      var stop := Gatekeep(n, noise);
      if stop.Some? {
        return stop.value;
      }
      if storeError.Some? {
        return Aborted(storeError.value);
      }
      o := ResetOpened(u, op, np, n, random);
    }

    /**
     * `ResetPassword`. An unopenable store, an exhausted random source or a
     * failed update end the workflow without counting; an unknown user, a
     * malformed envelope or a wrong old password count as a failure.
     */
    method ResetPassword(username: string, oldPassword: string, newPassword: string,
                         storeError: Option<Error>, random: Option<SecureCrypto.SaltBytes>,
                         noise: string -> nat -> nat -> byte) returns (o: Outcome)
      requires Valid()
      modifies this, fs
      ensures var u, op, np := Text.TrimSpace(username), Text.TrimSpace(oldPassword), Text.TrimSpace(newPassword);
              var n := ReadAttempts(old(attempts));
              if !ResetInputOk(u, op, np) then
                o == Rejected && attempts == old(attempts) && disk == old(disk) && fs.files == old(fs.files)
              else if HandleExcessiveAttempts(n) != Proceed then
                attempts == old(attempts) && disk == old(disk) && Stopped(n, o, old(fs.files), fs.files, authFile)
              else if storeError.Some? then
                o == Aborted(storeError.value) && attempts == old(attempts) && disk == old(disk) && fs.files == old(fs.files)
              else
                fs.files == old(fs.files) && ResetEffect(prims, codec, old(disk), old(attempts), u, op, np, n, random, o, attempts, disk)
      ensures o == PasswordReset && NamesItsKey(codec, old(disk), Text.TrimSpace(username)) ==>
                Authenticates(prims, codec, disk, Text.TrimSpace(username), Text.TrimSpace(newPassword))
      ensures ReadAttempts(old(attempts)) <= Consts.MaxMAttempts ==>
                ReadAttempts(attempts) <= Consts.MaxMAttempts && !o.Exited?
    {
      var (u, op, np) := SanitizeCreds(username, oldPassword, newPassword);
      var oldPolicy := Utils.ValidatePassword(op);
      var newPolicy := Utils.ValidatePassword(np);
      if !IsValidCreds(u, op, "") || oldPolicy.Some? || newPolicy.Some? {
        return Rejected;
      }
      o := Reset(u, op, np, storeError, random, noise);
    }

    /** `DropStorage` past the lockout check, `n` being the count read. */
    method DropAfterGate(u: string, p: string, n: int, storeError: Option<Error>,
                         noise: string -> nat -> nat -> byte) returns (o: Outcome)
      requires Valid()
      modifies this, fs
      ensures disk == old(disk)
      ensures DropEffect(prims, codec, old(disk), u, p, n, storeError, authFile, o, old(attempts), attempts,
                         old(fs.files), fs.files)
    {
      if storeError.Some? {
        return Aborted(storeError.value);
      }
      var checked := CheckPassword(u, p);
      if checked.Err? {
        var msg := match checked.error
          case NoUser => "Authentication failed."
          case BadEnvelope => "Stored password invalid."
          case Mismatch => "Invalid password.";
        o := FailAttempt(msg, n);
        return;
      }
      var code, _ := fs.NukeFiles(authFile, noise);
      o := Exited(code);
    }

    /**
     * `DropStorage`: only emptiness is checked before the lockout test; a
     * verified password runs `NukeFiles`, which ends the process, so the
     * attempts file is never removed and the store's keyspace is left as it
     * was.
     */
    method DropStorage(username: string, currentPassword: string, storeError: Option<Error>,
                       noise: string -> nat -> nat -> byte) returns (o: Outcome)
      requires Valid()
      modifies this, fs
      ensures disk == old(disk)
      ensures var u, p := Text.TrimSpace(username), Text.TrimSpace(currentPassword);
              var n := ReadAttempts(old(attempts));
              if u == [] || p == [] then o == Rejected && attempts == old(attempts) && fs.files == old(fs.files)
              else if HandleExcessiveAttempts(n) != Proceed then
                attempts == old(attempts) && Stopped(n, o, old(fs.files), fs.files, authFile)
              else
                DropEffect(prims, codec, old(disk), u, p, n, storeError, authFile, o, old(attempts), attempts,
                           old(fs.files), fs.files)
      ensures ReadAttempts(old(attempts)) <= Consts.MaxMAttempts ==>
                ReadAttempts(attempts) <= Consts.MaxMAttempts
                && (o.Exited? ==> Authenticates(prims, codec, old(disk), Text.TrimSpace(username), Text.TrimSpace(currentPassword)))
    {
      var u := Text.TrimSpace(username);
      var p := Text.TrimSpace(currentPassword);
      if u == [] || p == [] {
        return Rejected;
      }
      var n := ReadAttempts(attempts);
      var stop := Gatekeep(n, noise);
      if stop.Some? {
        return stop.value;
      }
      o := DropAfterGate(u, p, n, storeError, noise);
    }
  }
}
