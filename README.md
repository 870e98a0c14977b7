# rook: the authentication-and-vault engine in Dafny

rook is a local, single-device secrets vault written in Go. Its owner
registers with a password and a master key. Each is stored as a `hash:salt`
envelope: the base64 scrypt hash, a colon, then the base64 salt. The owner
logs in, can reset the password, and can wipe the vault. A counter of failed
attempts is kept in a file; it refuses further tries at one threshold and
shreds every sensitive file at another. Labelled secrets live in an embedded
Badger key-value store. The program also has an agreement prompt and a text
dashboard.

This project models that engine and proves what the code promises about it.
The model is split into modules that follow the Go packages:

- **`SecureCrypto`** (`securecrypto/crypto.go`) covers:
  - salt generation and salted hashing, over a concrete `Base64` codec for
    the standard alphabet with padding (RFC 4648, section 4);
  - the encrypt-then-MAC blob `salt ‖ nonce ‖ seal(plaintext) ‖ HMAC`.

  scrypt, AES-GCM and HMAC-SHA256 are fields of a `Primitives` value. Its
  `Lawful()` predicate states only the output lengths, and that opening undoes
  sealing.
- **`Hooks`** (`hooks/handlers.go`) holds the pure helpers:
  - credential trimming and validation;
  - the envelope split;
  - the attempt-counter gate.

  Its class `Engine` holds the state the workflows share between runs: the
  attempts file, the store's keyspace and the files the wipe sees. It runs
  registration, login, password reset and the storage wipe as methods.
- **`VaultStore`** (`store/store.go`) and **`UserDb`** (`store/db.go`) are the
  two incompatible `Store` variants, kept as separate classes:
  - `VaultStore` holds a single owner under `__user__`, with entries under
    `user:label`;
  - `UserDb` keys users by their bare username, with entries under
    `user::label`.

  Both work over `Badger.DB`, a class that holds the committed keyspace and a
  closed flag. Its iterator visits keys in the bytewise order of `KeyOrder`.
- **`Utils`** (`utils/helpers.go`) has the password policy, with its
  one-pass flag loop, and the random-string generator.
- **`Zero`** (`terms/zero.go`) is the best-effort secure erase over a map
  from names to file-system nodes.
- **`Models`** (`models/User.go`) is the owner record. `Json` is the
  encoder/decoder pair the stores use; its round trip drops the unexported
  `masterKey`.
- **`Policy`** (`terms/policy.go`) is the byte-by-byte line editor of the
  agreement prompt.
- **`Views`** (`views/views.go`) holds the dashboard's string helpers: the
  mask, ANSI stripping, centring, command-line splitting and the log window.

Randomness, the clock, whether `NewStore` opens and the device's write faults
are not computed. They are parameters of the operations that use them.

Where the program's own texts (its terms, its comments, its names) promise one
thing and its code does another, the model follows the code:

- **Lockout thresholds.** `MAX_M_ATTEMPTS = 05` and `MAX_ATTEMPTS = 06`, so a
  stored count of exactly 5 is refused. No workflow then writes the file
  again, so a count of 5 refuses every later attempt. The wipe fires only at
  7 or more, which no sequence of failures starting from a count of 5 or less
  can reach (`BoundedCountNeverWipes`). The terms text shown at the agreement
  prompt (`consts/consts.go:34`) instead promises "5 Failed Attempts –
  Auto-wipe triggered".
- **Key mismatch in `store/store.go`.** Entries are written under `user:`,
  while `CountForUser` and `Get` look under `user::`. `Get` of a label reads
  only what `AddToStore` wrote for that label with `:` in front
  (`GetReadsColonLabel`).
- **`CountForUser` in `store/db.go`** counts every key in the database.
- **The master key is never used.** It is not persisted (JSON skips the
  unexported field), so `IsMaster` on a stored record accepts only the empty
  hash.
- **`NukeFiles` uses bare names.** It shreds the four names relative to the
  working directory, not the session directory. `storook` is a directory, so
  it can never be shredded.
- **`Generate` cannot satisfy the password policy.** Its alphabet has no
  symbol.

## Model

| member | source | states |
|---|---|---|
| Base64.Encode | securecrypto/crypto.go:31 | the encoding of n bytes has 4·⌈n/3⌉ characters, each from the standard alphabet or `=` |
| Base64.DecodeEncode | securecrypto/crypto.go:31-35 | decoding the standard encoding of any bytes gives those bytes back |
| Base64.EncodedLength | securecrypto/crypto.go:31 | the encoded length is four characters per started group of three bytes (16 bytes give 24, 32 give 44) |
| Base64.EncodeHasNoColon | hooks/handlers.go:52-53 | no base64 text contains `:`, the separator of the `hash:salt` envelope |
| Text.TrimSpace | hooks/handlers.go:225-227 | `strings.TrimSpace`: the result starts and ends with non-space, is the input when that already holds, and is empty exactly when the input is all white space |
| Text.TrimSpaceIdempotent | hooks/handlers.go:225-227 | trimming twice trims nothing more |
| Text.TrimAround | views/views.go:40 | white space around a text with non-space ends is exactly what trimming removes |
| Text.Split | hooks/handlers.go:294 | `strings.Split` on one char gives one more part than there are separators, and no part contains it |
| Text.JoinSplit | hooks/handlers.go:294 | joining the parts of a split with the separator restores the text |
| Text.SplitJoin | hooks/handlers.go:294 | splitting separator-free parts joined by the separator gives the parts back |
| Text.Cut | views/views.go:45 | `SplitN(s, " ", 2)`: no second part exactly when there is no separator, else the text is head, separator, rest, with no separator in the head |
| Text.CutAtFirst | views/views.go:45 | the cut happens at the first separator |
| Text.ToLower | views/views.go:46 | lower-casing keeps the length and lower-cases each char |
| Text.ToLowerHasNoCapital | views/views.go:46 | lower-cased text holds no capital letter |
| KeyOrder.AscendingSorted | store/db.go:183 | the iteration order lists each key of the set exactly once, in strictly increasing bytewise order |
| KeyOrder.LeastExists | store/db.go:183 | every non-empty key set has a first key in iteration order |
| KeyOrder.BelowTotal | store/db.go:183 | any two distinct keys are ordered one way or the other |
| KeyOrder.BelowTransitive | store/db.go:183 | bytewise order is transitive |
| Badger.DB.Get | store/db.go:94 | `txn.Get`: ErrDBClosed on a closed database, ErrEmptyKey for the key "", ErrKeyNotFound for a missing key, else the stored value |
| Badger.DB.Set | store/db.go:117-119 | `txn.Set`: on an open database and a non-empty key the new keyspace is the old one with that key overwritten |
| Badger.DB.Delete | store/db.go:123-125 | `txn.Delete`: the key is gone afterwards and a missing key is not an error |
| Badger.DB.Scan | store/db.go:183 | an iterator from `Seek(prefix)` while `ValidForPrefix(prefix)` visits exactly the keys with that prefix, in ascending order |
| SecureCrypto.GenerateSalt | securecrypto/crypto.go:26-32 | a failed random source gives its error; otherwise 24 characters of standard base64, free of `:`, that decode to the 16 random bytes |
| SecureCrypto.HashWithSalt | securecrypto/crypto.go:34-45 | fails exactly when the salt is not valid base64; otherwise 44 characters, free of `:`, that decode to scrypt of the password bytes and the decoded salt |
| SecureCrypto.HashWithFreshSaltSucceeds | securecrypto/crypto.go:26-45 | hashing under a salt produced by `GenerateSalt` never fails |
| SecureCrypto.DeriveKey | securecrypto/crypto.go:57-59 | the derived key is 32 bytes, a valid AES-256 key |
| SecureCrypto.Encrypt | securecrypto/crypto.go:63-91 | a bad key length fails with the key-size error, a failed nonce read with its error; otherwise the blob is salt, the 12-byte nonce, the sealed plaintext and the 32-byte HMAC of everything before it |
| SecureCrypto.Decrypt | securecrypto/crypto.go:94-133 | blobs under 60 bytes are rejected first; then the MAC is checked before the key length, and the cipher is opened only when the MAC matches |
| SecureCrypto.DecryptEncrypt | securecrypto/crypto.go:63-133 | with a 16-byte salt and a valid key, decrypting an encryption gives the plaintext back |
| SecureCrypto.EncryptedMacVerifies | securecrypto/crypto.go:82-115 | whatever the salt length, the MAC of an encrypted blob checks out |
| Models.NewUser | models/User.go:17-26 | the record holds the username and both envelopes as given, and its two timestamps are equal |
| Models.NewUserIsMaster | models/User.go:17-34 | a fresh record passes `IsMaster` exactly for the master envelope it was built with |
| Models.Persisted | models/User.go:9-15 | what JSON keeps of a record: every exported field, and an empty `masterKey` |
| Models.IsMaster | models/User.go:32-34 | accepts a hash exactly when it equals the stored master envelope byte for byte |
| Models.IsMasterAfterReload | models/User.go:32-34 | once a record has been through the store, only the empty hash passes `IsMaster` |
| VaultStore.MakeKey | store/store.go:242-244 | an entry key is the username, `:`, then the label |
| VaultStore.EntryKeyIsNotUserKey | store/store.go:242-244 | no entry key equals `__user__`, so entry operations never touch the owner record |
| VaultStore.MakeKeyInjective | store/store.go:242-244 | two labels of one user share a key exactly when they are equal |
| VaultStore.CountPrefixMatchesOnlyColonLabels | store/store.go:207-224 | the `user::` prefix matches an entry key exactly when its label starts with `:` |
| VaultStore.GetReadsColonLabel | store/store.go:226-244 | the key `Get` reads for a label is the key `AddToStore` wrote for exactly one label: the same label with `:` in front |
| VaultStore.Store.Close | store/store.go:65-70 | the database is closed and its keyspace kept |
| VaultStore.Store.IsUser | store/store.go:73-88 | whether `__user__` exists; a missing key is not an error |
| VaultStore.Store.CreateUser | store/store.go:91-106 | with an owner present, "user already exists" and nothing written; otherwise the record is stored under `__user__` and nothing else changes |
| VaultStore.Store.GetUser | store/store.go:108-120 | the decoded owner record, or the lookup or decoding error |
| VaultStore.Store.UpdateUser | store/store.go:122-137 | without an owner, "user does not exist" and nothing written; otherwise only `__user__` is overwritten |
| VaultStore.Store.DeleteUser | store/store.go:139-143 | `__user__` is removed and nothing else changes |
| VaultStore.Store.AddToStore | store/store.go:146-155 | the entry is written under `user:label`, the last write winning, and nothing else changes |
| VaultStore.Store.GetByLabel | store/store.go:157-170 | the decoded entry under `user:label`, or the lookup or decoding error |
| VaultStore.Store.RemoveFromStore | store/store.go:172-177 | `user:label` is removed and nothing else changes; removing a missing entry succeeds |
| VaultStore.Store.DecodeEntries | store/store.go:186-201 | the loop fails exactly when some visited value does not decode; otherwise it maps each key's suffix to its decoded value |
| VaultStore.Store.GetAllForUser | store/store.go:179-205 | succeeds exactly when every value under `user:` decodes; then the labels are exactly those whose `user:label` key exists, each with its decoded entry |
| VaultStore.Store.CountForUser | store/store.go:207-224 | the number of keys that start with `user::` |
| VaultStore.Store.Get | store/store.go:226-240 | the raw bytes under `user::label`, or the lookup error |
| UserDb.EntryKey | store/db.go:133 | an entry key is the username, `::`, then the label |
| UserDb.UserExists | store/db.go:73-87 | true for a present key, false for a missing one, and any other error surfaces |
| UserDb.Store.Close | store/db.go:33-38 | the database is closed and its keyspace kept |
| UserDb.Store.CreateUser | store/db.go:59-71 | a taken username gives "username in use" and no write; otherwise the record is stored under the bare username; an existence-check error is ignored |
| UserDb.Store.GetUser | store/db.go:91-103 | the decoded record under the username, or the lookup or decoding error |
| UserDb.Store.UpdateUser | store/db.go:105-120 | an absent user gives "user does not exist"; otherwise only that user's key is overwritten |
| UserDb.Store.DeleteUser | store/db.go:122-126 | the username key is removed and nothing else changes |
| UserDb.Store.AddToStore | store/db.go:128-137 | the entry is written under `user::label` and nothing else changes |
| UserDb.Store.Get | store/db.go:139-153 | the raw bytes under `user::label`, or the lookup error |
| UserDb.Store.RemoveFromStore | store/db.go:155-160 | `user::label` is removed and nothing else changes |
| UserDb.Store.CountForUser | store/db.go:162-171 | the number of all keys in the database, whatever the username |
| UserDb.Store.DecodeValues | store/db.go:183-196 | the loop fails exactly when some visited value does not decode; otherwise the decoded values in visiting order |
| UserDb.Store.GetAllForUser | store/db.go:173-200 | succeeds exactly when every value under `user::` decodes; then the decoded entries in ascending key order |
| Utils.ValidatePassword | utils/helpers.go:45-73 | the flag loop returns the policy's verdict: length first, then the four classes (each rune counted in its first matching class), then the ambiguous characters |
| Utils.PasswordAccepted | utils/helpers.go:45-73 | a password passes exactly when it has 12 to 128 bytes, every class, and none of `O0l1I` |
| Utils.Generate | utils/helpers.go:78-93 | a failed draw gives the error; otherwise `length` characters (none for `length` ≤ 0), the i-th picked from the 42-character alphabet by the i-th draw |
| Utils.AlphabetIsAlphanumeric | utils/helpers.go:79 | no character of the generator's alphabet is punctuation or a symbol |
| Utils.GeneratedFailsPolicy | utils/helpers.go:50-79 | no text over the generator's alphabet passes the password policy |
| Zero.PassBytes | terms/zero.go:41-46 | each pass writes exactly as many bytes as the file holds |
| Zero.Overwritten | terms/zero.go:41-49 | overwriting never changes the file's length |
| Zero.FileSystem.ShredAndDelete | terms/zero.go:28-55 | a missing name, a directory or a read-only file fails with nothing written; a rejected write stops at that pass and leaves the file; otherwise every pass is written and the file removed |
| Zero.FileSystem.SweepOne | terms/zero.go:15-21 | a listed name is skipped when missing, else shredded with three passes; it survives exactly when that fails, and no other name changes |
| Zero.FileSystem.NukeFiles | terms/zero.go:11-26 | the four names are visited in order, failures are collected and the sweep goes on; exit status 1; names off the list are untouched |
| Zero.Targets | terms/zero.go:12 | the visited names are `.secret.rook`, the auth file, `storook` and `.attempts.rook`, in that order |
| Zero.StoreDirectoryResists | terms/zero.go:12-21 | the store directory is always among the names that fail to shred |
| Policy.Keystroke | terms/policy.go:61-97 | a failed read changes nothing, the line never grows beyond 50 runes, the prompt quits exactly on byte 0, and accepts only on CR or LF |
| Policy.CtrlSpaceQuits | terms/policy.go:67-70 | Ctrl+Space (byte 0) ends the prompt with exit status 0, whatever the line holds |
| Policy.DisplayAgreement | terms/policy.go:16-99 | an existing agreement returns at once; otherwise the read loop ends as the step function over the byte stream says |
| Policy.PromptBounded | terms/policy.go:92-96 | however many bytes arrive, the open line holds at most 50 runes |
| Policy.BackspaceRemovesLast | terms/policy.go:86-90 | backspace drops the last rune, and does nothing on an empty line |
| Policy.EnterDecides | terms/policy.go:72-84 | Enter accepts `I AGREE` in any letter case and otherwise clears the line |
| Policy.TypingAppends | terms/policy.go:92-96 | ordinary bytes are appended while there is room |
| Policy.AgreeSigns | terms/policy.go:72-81 | typing `I AGREE` in any case then Enter signs when the write succeeds, and exits 1 when it fails |
| Views.MaskPassword | views/views.go:197-202 | up to 4 bytes give `****`; longer secrets give their first two bytes, `****` and their last two bytes |
| Views.MaskHidesMiddle | views/views.go:197-202 | the mask depends only on the first and last two bytes |
| Views.RuneBytes | views/views.go:347 | a byte below 0x80 is kept as is; a higher one becomes two bytes; no ESC is produced from a non-ESC byte |
| Views.RemoveAnsiCodes | views/views.go:331-350 | the one-pass flag loop computes the stripping function |
| Views.StripRemovesEscapes | views/views.go:331-350 | no ESC survives the stripping |
| Views.StripShrinksAscii | views/views.go:331-350 | on ASCII text the result is ASCII and no longer than the input |
| Views.StripKeepsPlainAscii | views/views.go:331-350 | ASCII text without ESC passes through unchanged |
| Views.StripIdempotentOnAscii | views/views.go:331-350 | on ASCII text, stripping twice equals stripping once |
| Views.HighByteWidens | views/views.go:347 | a byte from 0x80 on comes out as two bytes |
| Views.StripSpaces | views/views.go:327-328 | leading spaces pass through the stripping |
| Views.CenterText | views/views.go:318-329 | text at least as wide as its room comes back unchanged; else it gets half the free room as left padding |
| Views.CenteredFits | views/views.go:318-329 | centred text never exceeds the width, and the right margin equals the left one or one more |
| Views.Dispatch | views/views.go:52-85 | `get` and `remove` carry their non-empty argument; an unknown command is reported as given |
| Views.ParseCommand | views/views.go:40-52 | a line is skipped exactly when it is blank |
| Views.CommandWord | views/views.go:45-46 | the command word holds no capital letter |
| Views.Argument | views/views.go:45-50 | the argument is empty or starts and ends with non-space |
| Views.ParsedEntryIsTrimmed | views/views.go:45-68 | `get` and `remove` only ever receive a non-empty label without surrounding white space |
| Views.ParsedCommandIsLowerCase | views/views.go:46-83 | an unknown command is reported in lower case |
| Views.ParseIgnoresOuterSpace | views/views.go:40 | white space around a command line does not change what it asks for |
| Views.ParseGet | views/views.go:45-62 | `get` in any letter case, then spaces, then a label, asks for that label |
| Views.ParseBareGet | views/views.go:57-61 | a bare `get`, in any case and with any surrounding white space, only prints its usage |
| Views.RecentLogs | views/views.go:352-367 | no lines show "no logs"; otherwise the last `min(count, lines)` lines in their order |
| Views.ViewLogs | views/views.go:269-289 | always shows lines, at most 50, and they are the tail of the file's lines in order |
| Views.ViewLogsWindow | views/views.go:269-289 | the log view always shows lines, at most the last 50, in file order |
| Hooks.SanitizeCreds | hooks/handlers.go:225-227 | each credential comes back with no white space at either end and no longer than given; credentials already trimmed come back unchanged |
| Hooks.SanitizeIdempotent | hooks/handlers.go:225-227 | sanitising only trims, so sanitising again changes nothing |
| Hooks.IsValidCreds | hooks/handlers.go:229-243 | false exactly when a name is empty, the password has under 8 bytes, or a master key is given with under 8 bytes |
| Hooks.PolicySubsumesLengthCheck | hooks/handlers.go:229-251 | a password that passes the policy always passes the 8-byte check |
| Hooks.SplitHashSalt | hooks/handlers.go:293-299 | succeeds exactly when the text has one `:`, and then returns the colon-free text on each side |
| Hooks.SplitEnvelope | hooks/handlers.go:293-299 | splitting `hash:salt` built from colon-free parts gives both parts back unchanged |
| Hooks.NewEnvelope | hooks/handlers.go:26-54 | the envelope built from a fresh salt always verifies its own password |
| Hooks.PasswordMatches | hooks/handlers.go:94-106 | a stored envelope without exactly one `:` never matches (the invalid-format branch) |
| Hooks.MatchIsHashOfSalt | hooks/handlers.go:94-106 | a match means the envelope is some `hash:salt` whose salt hashes the password to that hash |
| Hooks.ReadAttempts | hooks/handlers.go:262-268 | the count always fits Go's 64-bit `int`; a stored integer in that range is read as itself, and a missing file, a non-integer or an integer too wide for `int` reads as 0 |
| Hooks.OverflowingCountProceeds | hooks/handlers.go:262-268 | a stored count too wide for `int` reads as 0, so the gate lets the attempt through |
| Hooks.HandleExcessiveAttempts | hooks/handlers.go:281-291 | exactly 5 refuses, 7 or more wipes, every other count (6 included) proceeds |
| Hooks.BoundedCountNeverWipes | hooks/handlers.go:275-291 | from a count of at most 5, repeated failures never lift it above 5, so the wipe never fires |
| Hooks.RegisteredUserAuthenticates | hooks/handlers.go:50-66 | a record written by registration authenticates its password once read back |
| Hooks.Engine.FailAttempt | hooks/handlers.go:275-279 | the warning is reported and the attempts file holds the count read plus one |
| Hooks.Engine.Gatekeep | hooks/handlers.go:281-291 | the lockout gate goes on exactly when the count proceeds; a refusal touches no file; a wipe runs the sweep and exits 1 |
| Hooks.Engine.CheckPassword | hooks/handlers.go:90-106 | succeeds exactly when the user's stored envelope verifies the password, returning the stored record; "no user" exactly when the lookup fails |
| Hooks.Engine.SaltAndHash | hooks/handlers.go:26-54 | a failed random source gives its error; otherwise the envelope of the password under the fresh salt |
| Hooks.Engine.Register | hooks/handlers.go:26-69 | an entropy or store error aborts with nothing written; a taken username gives "username in use"; otherwise only the new record is added and it authenticates its password |
| Hooks.Engine.UserRegistration | hooks/handlers.go:20-70 | invalid credentials are rejected with nothing written; otherwise as `Register`; the attempts file is never touched |
| Hooks.Engine.Login | hooks/handlers.go:78-111 | past the gate, an unopenable store or a failed check writes the count plus one; success returns the stored record and removes the attempts file |
| Hooks.Engine.UserLogin | hooks/handlers.go:72-111 | validation failures touch nothing; then as `Login`; a stored count of at most 5 stays at most 5 and never reaches the wipe |
| Hooks.Engine.ResetOpened | hooks/handlers.go:132-173 | a failed check writes the count plus one; a random-source or update failure aborts without counting; success rewrites only the stored record with a new envelope, removes the attempts file and the new password then authenticates |
| Hooks.Engine.Reset | hooks/handlers.go:119-131 | the gate, then an unopenable store aborts without counting, then as `ResetOpened` |
| Hooks.Engine.ResetPassword | hooks/handlers.go:113-173 | validation of both passwords comes first and touches nothing; then as `Reset`; a stored count of at most 5 stays at most 5 and never reaches the wipe |
| Hooks.Engine.DropAfterGate | hooks/handlers.go:189-217 | a store error aborts; a failed check writes the count plus one; a verified password runs the sweep and exits 1, leaving the attempts file |
| Hooks.Engine.DropStorage | hooks/handlers.go:175-217 | only emptiness is checked first; then the gate and as `DropAfterGate`; from a count of at most 5 the sweep runs only for a verified password |

## Left out

- The cryptographic engines: scrypt, AES-GCM and HMAC-SHA256 are abstract functions of `Primitives`. `Lawful()` states only their output lengths and that opening undoes sealing. `cipher.NewGCM` never fails on a valid AES block, so it is not modelled.
- `crypto/rand`, `math/rand` and `time.Now`. They are parameters: an `Option` of the bytes drawn (None when the source fails), a noise stream for the shredding passes, and a clock reading.
- `VerifyPassword` (securecrypto/crypto.go:48-54): it passes a byte slice where `HashWithSalt` takes a string, so it does not compile and has no caller. The comparison it intends is `Hooks.PasswordMatches`.
- `FromUser` (models/User.go:28-30): a Dafny datatype value is already a copy, so the copy is the identity.
- `Save` (store/db.go:41-56): it refers to fields `Store` lacks and to packages not imported.
- `IsMaster` (models/User.go:32-34) is declared with no result type yet returns a value, and `bytes` is not imported there. It is modelled as its evident intent, a `bool` result of byte equality.
- `AddToStore`, `Get` and `RemoveFromStore` of `store/db.go` (lines 133, 141 and 156) call `fmt.Sprintf`, but that file does not import `fmt`. They are modelled as their evident intent, the key `user::label`.
- `VaultStore.Store.GetAllForUser` and `UserDb.Store.GetAllForUser`: Go returns the partly filled map together with the error (store/store.go:204, store/db.go:201). The model returns the error alone. The only caller discards the map when there is an error.
- `Badger.DB.Set`: Badger refuses keys that start with `!badger!` (its internal prefix) with `ErrInvalidKey`. The model accepts them, so a username or label with that prefix succeeds in the model where Badger would fail.
- `NewStore` and Badger itself: options, value logs and on-disk files are out. Opening succeeds or fails by a parameter (`storeError`). Each workflow opens a fresh handle on the keyspace `Engine.disk`. `db.Close` after a workflow does not change the keyspace.
- JSON encoding is an abstract codec with a round-trip law. A failing `json.Marshal` is not modelled, since it cannot fail on these records. Decoding failures are modelled.
- Text is modelled one char per byte. Non-ASCII handling is not modelled: `strings.TrimSpace` on Unicode spaces, `strings.ToLower` and `EqualFold` beyond ASCII, and `unicode.IsUpper` and friends on multibyte runes. Go's base64 decoder also skips `\r` and `\n`, which the model does not.
- `Utils.ValidatePassword`: only ASCII runes are classified. A rune at or above 128 counts for no class, whereas Go would classify some of them.
- `Hooks.ReadAttempts` takes the attempts file already parsed: None for a missing file or one that holds no integer literal (`3.0`, `1e3`, text). The JSON parsing itself is not modelled. An integer too wide for Go's 64-bit `int` is modelled, and reads as 0.
- `getAttemptsFilePath`, `GetSessionDir` and `FileExists`: the attempts file is the `Engine.attempts` field. A failing `os.WriteFile` or `os.Remove` is not modelled: writes and removals of the attempts file always succeed.
- `AUTH_FILE_PATH`, which `terms/zero.go` lists, is not defined in `consts/consts.go`. Its value is the parameter `authFile`.
- `hooks/handlers.go:63` calls `CreaterUser`, which no store defines. It is modelled as `CreateUser` of `store/db.go`, the variant whose `GetUser(username)` the same file calls at line 90.
- `hooks/handlers.go:208` destructures three results from the two-result `HashWithSalt` and passes the salt as bytes. It is modelled as the evident `HashWithSalt(currentPassword, salt)`.
- Hooks.Engine.Register: it computes both envelopes before building the record. Go generates the second salt before hashing the first password. The order cannot be observed, because hashing under a fresh salt never fails.
- Hooks.Engine.ResetPassword: the promise that the new password authenticates is stated only when the stored record carries its own key as username (`NamesItsKey`). `UpdateUser` writes under the decoded record's username, which a tampered store could make differ.
- `Emit` calls, `utils.Done`, `Warn` and `ErrorE`, and `UserLogout` (which only prints). What a workflow prints is its `Outcome` value, and events are out.
- The terminal and signal handling of `DisplayAgreement` (raw mode, restore, the signal goroutine, lines 28-55) and the printing of the terms. Only the byte loop and the early return are modelled.
- The dashboard's I/O: the `Start` read loop, `listData`, `addData`, `getByLabel`, `removeByLabel`, `wipeStore`, `clearLog`, `getCurUser` and the file read of `viewLogs`. The line splitting and the `switch` of `Start`, and the log window over the file's text, are modelled.
- `Policy.Prompt`: the unbounded read loop is modelled over a finite byte stream. `Waiting` is the state the stream leaves the prompt in when it runs out.
- `Zero.FileSystem.ShredAndDelete`: a failing `file.Sync` or `os.Remove` after the passes, and a failing `rand.Read` (which `math/rand` does not do), are not modelled.
- `Zero.FileSystem.NukeFiles`: `os.Exit(1)` is the returned exit code 1. Callers treat it as the end of the workflow (`Outcome.Exited`), so nothing after it runs.
- The event bus, logger, flag parsing, `main.go` and the files whose names start with `_`, which Go does not build.
