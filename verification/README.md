# vpnctl in Dafny

A model of the decision logic of `vpnctl`. `vpnctl` is a command-line wrapper around the
Cisco Secure Client `vpn` binary, and this model covers:

- both connect implementations, as effect traces:
  - the `cmd` one, which builds its answer script itself;
  - the `internal` one, which fills a template and is the one `main` runs;
- `pgrep` parsing and the three ways of killing client processes;
- the profile layout and the credential-file reader;
- the SQLite-backed profile, expiry and version tables, as keyed row sequences;
- the keyring credential record and the expiry-gated get-or-prompt decision;
- the keyring-then-encrypted-file credential store;
- the dotted-path configuration reader;
- the terminal menu's cursor machine;
- the release-selection rule.

The programs themselves run subprocesses, talk to the keyring, a database, the terminal and
GitHub. Here every outside observation is a parameter: the status output, the
last-profile lookup, `pgrep` output, kill failures, the setup, start and exit outcomes, stdout
lines, file contents, the account lookup, the clock, and the crypto oracles. Every action is an `Effect` in an
ordered trace, or an update of a map or table.

Modules:

- `Base`: Option and Result.
- `Strs`, `Strconv` and `Paths`: the parts of Go's `strings`, `strconv.Atoi` and `filepath.Join` that the code relies on.
- `Model`: the record types.
- `Process`, `Profiles` and `Session`: shared by both connects.
- `CmdConnect` and `InternalConnect`.
- `Tables` and `Middleware`.
- `Keyring`, `CredentialHandler` and `CredentialStore`.
- `Config`, `Screen` and `Release`.

## Model

| member | source | states |
|---|---|---|
| CmdConnect.ConnectWithRetries | cmd/vpnctl/vpnctl.go:250-420 | an unknown profile stops with no effect at all, and so does a known profile whose account lookup failed (the nil-dereference panic); the attempt stops as already connected exactly when the lookup succeeded, the status contains "Connected" and the last profile is the requested one, and then the only effect is the status probe |
| CmdConnect.Attempt | cmd/vpnctl/vpnctl.go:250-420 | for a known profile with a successful account lookup the status probe is the first effect; unknown profiles and the lookup panic stop before it |
| CmdConnect.Setup | cmd/vpnctl/vpnctl.go:267-290 | what precedes the spawn starts with the probe and ends with the two-second pause, holds only probe, disconnect, GUI-kill, force-kill and pause effects, and holds a disconnect exactly when the client looked connected |
| CmdConnect.Cleanup | cmd/vpnctl/vpnctl.go:199-230 | the force-kills end with the pause and are the same whatever the individual kills report |
| CmdConnect.LockReported | cmd/vpnctl/vpnctl.go:397-404 | true exactly when some stdout line contains "Connect capability is unavailable" |
| CmdConnect.BuildScript | cmd/vpnctl/vpnctl.go:304-311 | the stdin script is the prompt answers (username, password, Y flag, push only for dev) joined by newlines, each ended by one; see also ScriptLines |
| CmdConnect.ScriptLines | cmd/vpnctl/vpnctl.go:304-311 | read back line by line, the script gives username, password, Y flag and, for dev only, the push answer, in prompt order |
| CmdConnect.NotConnectedAbandons | cmd/vpnctl/vpnctl.go:273-283 | a client reporting "Not Connected" with the same last profile is taken as connected, so nothing beyond the probe happens |
| CmdConnect.DisconnectsOnlyToSwitch | cmd/vpnctl/vpnctl.go:273-286 | `vpn disconnect` runs exactly when the profile path was found, the client looks connected and the last profile (empty when the lookup failed) differs, and then right after the probe |
| CmdConnect.SpawnsOnce | cmd/vpnctl/vpnctl.go:397-411 | `vpn connect` starts at most once: the retry branch never runs |
| CmdConnect.SpawnsAfterCleanup | cmd/vpnctl/vpnctl.go:288-368 | every spawn comes after the kill pause |
| CmdConnect.SpawnCarriesProfile | cmd/vpnctl/vpnctl.go:304-342 | a spawn happens only for a known profile whose subprocess started, and it is the profile's target fed the built script |
| CmdConnect.KillFailuresIgnored | cmd/vpnctl/vpnctl.go:288-290 | failed force-kills change nothing in the attempt |
| CmdConnect.ExitStatusIgnored | cmd/vpnctl/vpnctl.go:390-392 | a failed exit of `vpn connect` changes nothing in the attempt |
| CmdConnect.CompletesExactly | cmd/vpnctl/vpnctl.go:365-419 | completion exactly for a known profile, with a successful account lookup, not already connected, whose subprocess started and printed at most 100 lines; recording the profile then launching the GUI come last, and neither happens otherwise |
| CmdConnect.LockOnlyWarns | cmd/vpnctl/vpnctl.go:397-404 | the agent-lock warning appears exactly when a completed attempt's output reported the lock |
| CmdConnect.LongOutputStalls | cmd/vpnctl/vpnctl.go:370-395 | as written, 101 stdout lines block the attempt before the profile is recorded |
| CmdConnect.ConnectDrained | cmd/vpnctl/vpnctl.go:370-395 | with the reader drained the attempt never stalls on output |
| CmdConnect.DrainedCompletes | cmd/vpnctl/vpnctl.go:370-419 | drained, every started subprocess leads to the profile being recorded and the GUI launched, and the attempt is the written one whenever the output fits |
| InternalConnect.Connect | internal/vpnctl/vpnctl.go:182-195 | an unknown profile ends the attempt with no effect; a known profile whose account lookup failed is the nil-dereference panic, with no effect; credentials that cannot be read or parsed end it with no effect and the reader's message |
| InternalConnect.Attempt | internal/vpnctl/vpnctl.go:182-309 | unknown profile, failed account lookup and unreadable credentials stop before any effect; already connected to the same profile stops after the probe alone |
| InternalConnect.DisconnectsOnlyToSwitch | internal/vpnctl/vpnctl.go:204-218 | disconnect exactly when the profile path was found, credentials were read and the client looks connected to another profile, right after the probe |
| InternalConnect.NeverForceKills | internal/vpnctl/vpnctl.go:197-251 | no force-kill and no pause ever happen |
| InternalConnect.CompletesExactly | internal/vpnctl/vpnctl.go:221-308 | completion exactly when the account lookup, every read and every setup step succeed and `vpn connect` exits cleanly; recording and GUI launch come last, and a failed exit stops short of both |
| InternalConnect.OutputIgnored | internal/vpnctl/vpnctl.go:281-301 | what `vpn connect` prints plays no part |
| InternalConnect.SpawnIsSubstitution | internal/vpnctl/vpnctl.go:221-251 | a spawn happens only with readable credentials and template, and feeds the profile's target the filled template |
| InternalConnect.ScriptIsCredentialFile | internal/vpnctl/vpnctl.go:185-232 | when both reads give the same brace-free text (the template is the credential file whenever $HOME is the account's home directory), that text is fed to `vpn connect` verbatim |
| InternalConnect.DevAlsoFillsY2 | internal/vpnctl/vpnctl.go:227-232 | dev differs from intra only by the last replacement, of `{{Y2}}` |
| InternalConnect.Substitute | internal/vpnctl/vpnctl.go:227-232 | text without a brace passes through unchanged; what the placeholders become is stated by SubstituteSlots, SubstituteAcross, SubstituteByLine and DevAlsoFillsY2 |
| InternalConnect.SubstituteAcross | internal/vpnctl/vpnctl.go:227-232 | no placeholder spans a line break: the two sides of a newline are filled separately |
| InternalConnect.SubstituteByLine | internal/vpnctl/vpnctl.go:227-232 | a multi-line template is filled line by line |
| InternalConnect.UsernameSlotFilled | internal/vpnctl/vpnctl.go:227 | `{{USERNAME}}` becomes the username |
| InternalConnect.PasswordSlotFilled | internal/vpnctl/vpnctl.go:228 | `{{PASSWORD}}` becomes the password |
| InternalConnect.YSlotFilled | internal/vpnctl/vpnctl.go:229 | `{{Y}}` becomes the Y flag |
| InternalConnect.Y2SlotFilled | internal/vpnctl/vpnctl.go:230-232 | `{{Y2}}` is not mistaken for `{{Y}}`: it becomes the second password for dev and stays literal otherwise |
| InternalConnect.SubstituteSlots | internal/vpnctl/vpnctl.go:227-232 | the four placeholders on four lines become the credential's fields, one per line |
| Process.GetPIDs | cmd/vpnctl/vpnctl.go:165-184 | a `pgrep` error is passed on; otherwise a PID list always results |
| Process.PidsOf | cmd/vpnctl/vpnctl.go:171-182 | no more PIDs than lines |
| Process.PidsOfAppend | cmd/vpnctl/vpnctl.go:171-182 | parsing distributes over the lines, so PIDs keep input order |
| Process.PidsOfMembers | cmd/vpnctl/vpnctl.go:173-182 | a PID is reported exactly when some non-empty line parses to it |
| Process.InterruptAll | internal/vpnctl/vpnctl.go:83-94 | one interrupt per PID, in order |
| Process.SignalNonDaemon | cmd/vpnctl/vpnctl.go:91-119 | only PIDs whose command line was read and lacks `vpnagentd` are interrupted, in order |
| Process.SignalNonDaemonComplete | cmd/vpnctl/vpnctl.go:91-119 | a PID is interrupted exactly when it is listed and passes the filter |
| Process.DisconnectWithKillPidCmd | cmd/vpnctl/vpnctl.go:76-122 | disconnect and GUI kill first; a `pgrep` failure stops there; then the listed PIDs that pass the filter are interrupted in `pgrep`'s order, and a PID is interrupted exactly when it is listed and passes the filter |
| Process.DisconnectWithKillPidInternal | internal/vpnctl/vpnctl.go:70-97 | disconnect and GUI kill first, then an interrupt for every listed PID, unfiltered |
| Process.DaemonSparedOnlyByCmd | cmd/vpnctl/vpnctl.go:99-105 | a `vpnagentd` process is interrupted by the internal disconnect and spared by the cmd one |
| Process.KillGui | cmd/vpnctl/vpnctl.go:135-158 | the GUI is `pkill`ed first, then exactly the listed PIDs are interrupted |
| Process.Failures | cmd/vpnctl/vpnctl.go:211-221 | no failure messages exactly when every kill succeeded; each failed PID's message is included |
| Process.ForceKills | cmd/vpnctl/vpnctl.go:211-221 | one `kill -9` per PID, in the order `pgrep` listed them |
| Process.KillCiscoProcesses | cmd/vpnctl/vpnctl.go:199-230 | a force-kill for every `pgrep` field, then the pause; an error exactly when some kill failed, naming each failure |
| Profiles.ProfilePath | cmd/vpnctl/vpnctl.go:427-437 | below a looked-up home, the path is empty exactly for a profile other than intra and dev |
| Profiles.LookupProfilePath | cmd/vpnctl/vpnctl.go:427-437 | the lookup error is discarded: a known profile with a failed account lookup is the nil-dereference panic, an unknown profile is "" whatever the lookup, and a successful lookup gives the path below its home |
| Profiles.ProfilePathUnderHome | cmd/vpnctl/vpnctl.go:427-437 | below a clean absolute home the path is `<home>/.vpnctl/.credential/.credential_<profile>` |
| Profiles.Target | cmd/vpnctl/vpnctl.go:334-340 | dev connects to `DEV-VPN-REMOTE`, intra to `INTRA`, and an unknown profile to nothing |
| Profiles.CredentialOfLines | cmd/vpnctl/vpnctl.go:473-480 | a credential exactly when intra has at least 3 lines or dev at least 4, otherwise the invalid-format error; intra's second password is empty |
| Profiles.CredentialOfLinesTrimmed | internal/vpnctl/vpnctl.go:379-383 | every field read is trimmed |
| Profiles.ReadCredentials | internal/vpnctl/vpnctl.go:359-386 | an unsupported profile and a read error are reported; otherwise a credential exactly when the trimmed file has enough lines |
| Profiles.CredentialOfFieldLines | internal/vpnctl/vpnctl.go:378-383 | lines that start with the fields give those fields back; extra lines are ignored |
| Profiles.ReadCredentialsOfFields | internal/vpnctl/vpnctl.go:359-386 | round trip: a file whose trimmed text is the fields, one per line, plus any further lines, reads back as exactly those fields |
| Session.LooksConnected | cmd/vpnctl/vpnctl.go:443-445 | connected exactly when "Connected" occurs somewhere in the status text |
| Session.LastProfile | cmd/vpnctl/vpnctl.go:274-278 | the looked-up profile, or "" when the lookup fails (its error is only logged) |
| Session.NotConnectedLooksConnected | cmd/vpnctl/vpnctl.go:443-445 | the substring test takes "Not Connected" as connected |
| Middleware.ExpandPath | internal/middleware/middleware.go:29-38 | paths not starting with "~" are unchanged; a failed home lookup is reported; otherwise the result is non-empty |
| Middleware.ExpandUnderHome | internal/middleware/middleware.go:29-38 | `~/a/b` under a clean absolute home is the home followed by `/a/b` |
| Middleware.SetLastConnectedProfile | internal/middleware/middleware.go:209-225 | upserts the profile's row with the current time; every other profile's row, and the other tables, are unchanged and keys stay unique |
| Middleware.GetLastConnectedProfile | internal/middleware/middleware.go:227-246 | an init failure is the db-init error; on an open database a profile exactly when the table is non-empty, and then one with the latest stamp; an empty table is the scan error |
| Middleware.LastConnectedAfterSet | internal/middleware/middleware.go:219-241 | a profile recorded later than every other is the one read back |
| Middleware.SetLastConnectedAgain | internal/middleware/middleware.go:219-223 | recording a profile again keeps one row for it, with the newer time |
| Middleware.SetExpiryToDB | internal/middleware/middleware.go:190-207 | succeeds on every open database; upserts the user's expiry, which then reads back; other users' expiries and the other tables are unchanged |
| Middleware.GetExpiryFromDB | internal/middleware/middleware.go:173-187 | an init failure is passed on; on an open database a value exactly when the user has a row, and then it is the expiry stored in that row; an absent user is the no-rows error |
| Middleware.SetLatestVersionToDB | internal/middleware/middleware.go:134-151 | succeeds on every open database; upserts the version with a fresh stamp; every other version's row, and the other tables, are unchanged |
| Middleware.GetLatestVersionFromDB | internal/middleware/middleware.go:153-170 | an init failure is the db-init error; on an open database a version exactly when the table is non-empty, and then one with the latest stamp; an empty table is the scan error |
| Middleware.LatestVersionAfterSet | internal/middleware/middleware.go:141-167 | a version written later than every other is the latest |
| Middleware.FirstNonEmpty | internal/middleware/middleware.go:353-362 | the first non-empty line and how many lines it took; none exactly when every line is empty |
| Middleware.Prompt | internal/middleware/middleware.go:305-372 | over the trimmed lines: prompting forever exactly when all are blank; otherwise the first non-blank line when the store opened the database, and the nil-handle panic when it did not |
| Middleware.GetUsernameFromEnv | internal/middleware/middleware.go:305-372 | a stored non-empty username is returned without reading input; otherwise the first non-empty trimmed line, never an empty name, provided storing it opened the database; a failed open there is a panic, and all-blank input prompts forever |
| Tables.Find | internal/middleware/middleware.go:180-186 | the row with the key exactly when one exists |
| Tables.Upsert | internal/middleware/middleware.go:219-223 | insert or overwrite by key: the key finds the new row, other keys find what they found before, keys stay unique |
| Tables.Latest | internal/middleware/middleware.go:235-241 | a row with the greatest stamp; none exactly for an empty table |
| Tables.LatestAfterUpsert | internal/middleware/middleware.go:219-241 | a row stamped later than every other becomes the latest |
| Tables.UpsertIdempotent | internal/middleware/middleware.go:219-223 | writing the same row twice is writing it once |
| Keyring.Get | internal/handler/credential.go:53-56 | the stored secret, the not-found error, or the outage |
| Keyring.Set | internal/handler/credential.go:45-47 | stores the secret so that it reads back, touching no other entry |
| Keyring.Delete | internal/handler/credential.go:159-166 | removes one existing entry; a missing one is the not-found error |
| CredentialHandler.Encode | internal/handler/credential.go:37-42 | the four fields on four lines: cut at the first three newlines the record gives the fields back when username, password and push hold no newline |
| CredentialHandler.Decode | internal/handler/credential.go:58-73 | a record exactly when the entry has at least three newlines, otherwise "invalid credential format"; the fields re-encode to the entry |
| CredentialHandler.DecodeEncode | internal/handler/credential.go:37-73 | decoding an encoded record gives back its four fields when username, password and push hold no newline |
| CredentialHandler.NewlineInUsernameShifts | internal/handler/credential.go:37-61 | a newline in the username shifts every later field |
| CredentialHandler.StoreCredential | internal/handler/credential.go:29-49 | an encryption failure and a keyring failure are reported with their prefixes; otherwise the encoded record with the encrypted password is stored under the service, and nothing else changes |
| CredentialHandler.GetCredential | internal/handler/credential.go:52-74 | a keyring error is passed on, otherwise the entry is decoded |
| CredentialHandler.GetAfterStore | internal/handler/credential.go:29-74 | after a store, the record reads back with the password still encrypted |
| CredentialHandler.RemoveCredential | internal/handler/credential.go:159-166 | succeeds exactly when the entry exists; the delete error is passed on unchanged |
| CredentialHandler.GetAfterRemove | internal/handler/credential.go:159-166 | after a removal the record is not found |
| CredentialHandler.ExpiryInstant | internal/handler/credential.go:81-82 | an unparsable expiry is the zero time |
| CredentialHandler.Cached | internal/handler/credential.go:80-88 | the cached path applies exactly when a non-empty expiry exists, now is before it, and the keyring entry splits into four parts |
| CredentialHandler.FromCache | internal/handler/credential.go:89-97 | a decrypt failure is an error; otherwise the stored username and decrypted password, with push and y forced; no writes |
| CredentialHandler.PromptWrites | internal/handler/credential.go:134-148 | the prompt path writes the four-line record and an expiry 180 days after now |
| CredentialHandler.GetOrPromptCredential | internal/handler/credential.go:76-156 | cached when Cached applies; otherwise an encryption failure is an error, and success returns the typed username with the encrypted password and schedules the two writes |
| CredentialHandler.GetOrPromptCredentialFixed | internal/handler/credential.go:76-156 | as above, but the prompt path returns the typed password |
| CredentialHandler.ApplyWrite | internal/handler/credential.go:135-148 | a keyring write leaves the database alone and an expiry write leaves the keyring alone |
| CredentialHandler.PromptThenCached | internal/handler/credential.go:76-156 | once the prompt path's writes have landed, a call before expiry takes the cached path and returns the typed password |
| CredentialHandler.FixedPromptAgreesWithCache | internal/handler/credential.go:150-155 | the corrected prompt path returns the same credential as the cached call that follows it |
| CredentialHandler.PromptedPasswordIsCiphertext | internal/handler/credential.go:128-153 | as written, the prompt path and the following cached call disagree on the password whenever encryption changes it |
| CredentialHandler.UnparsableExpiryPrompts | internal/handler/credential.go:81-83 | an unparsable expiry never takes the cached path |
| CredentialHandler.CachedResetsAnswers | internal/handler/credential.go:93-96 | the cached path ignores the stored push and Y answers |
| CredentialStore.FallbackPath | internal/credentialstore/credentialstore.go:18-21 | never empty; with no home directory it is the relative `.vpnctl/vpn_credentials.enc` |
| CredentialStore.FallbackUnderHome | internal/credentialstore/credentialstore.go:18-21 | under a clean absolute home it is `<home>/.vpnctl/vpn_credentials.enc` |
| CredentialStore.StoreCredential | internal/credentialstore/credentialstore.go:24-47 | a keyring success writes no file; otherwise a key that is not 32 bytes, a seal failure or a write failure is an error, and success writes the sealed password to the fallback file |
| CredentialStore.GetCredential | internal/credentialstore/credentialstore.go:50-75 | a keyring hit is returned; otherwise a missing file, a bad key length and an open failure give their errors, in that order |
| CredentialStore.KeyringHitIgnoresDisk | internal/credentialstore/credentialstore.go:52-55 | a keyring hit never depends on the disk |
| CredentialStore.KeyringRoundTrip | internal/credentialstore/credentialstore.go:24-55 | a password stored with the keyring reachable reads back |
| CredentialStore.FallbackIgnoresUsername | internal/credentialstore/credentialstore.go:18-72 | a password stored in the file reads back under any username while the keyring is down |
| CredentialStore.FallbackLastWriteWins | internal/credentialstore/credentialstore.go:44-72 | with the keyring down, a second user's store overwrites the first user's password |
| Config.Walk | config/config.go:88-103 | the empty path is the value itself; a missing key or a non-table stops the walk |
| Config.WalkAppend | config/config.go:92-101 | walking two path legs is walking the first, then the second from where it ended |
| Config.Get | config/config.go:88-103 | a dot-free key looks up the top-level entry, absent when the key is; longer paths are stated by GetNested and WalkAppend |
| Config.GetNested | config/config.go:88-103 | `key.rest` looks `rest` up inside the table under `key` |
| Config.GetString | config/config.go:105-112 | the value if it is a string, otherwise "" |
| Config.GetInt | config/config.go:114-127 | an integer as is, a string through Atoi, and -1 for a missing key or another kind |
| Config.GetIntOfWord | config/config.go:121-123 | a non-numeric string reads as 0, not -1 |
| Config.GetIntOfDecimal | config/config.go:121-123 | a decimal string reads as its value |
| Config.GetBool | config/config.go:129-136 | true exactly when the value is the boolean true |
| Config.SectionIsNoScalar | config/config.go:105-136 | a table reads as "", -1 and false |
| Screen.InitialModel | cmd/screen/screen.go:23-27 | cursor at 0 over five choices, nothing selected |
| Screen.Update | cmd/screen/screen.go:33-53 | quit keys, up and down, enter, and everything else act as the handler does; enter outside the list is a panic |
| Screen.UpdateKeepsRange | cmd/screen/screen.go:39-46 | every message keeps the cursor on a choice and never panics |
| Screen.RunKeepsRange | cmd/screen/screen.go:33-53 | any message sequence keeps the cursor on a choice |
| Screen.InitialRuns | cmd/screen/screen.go:23-53 | from the initial state the cursor stays within the five choices |
| Screen.SelectionIsAChoice | cmd/screen/screen.go:47-49 | whatever is selected is one of the choices, or nothing |
| Screen.EnterOutOfRangePanics | cmd/screen/screen.go:47-48 | without the range invariant, enter does index out of range |
| Release.FirstNonDraft | cmd/vpnctl/version.go:37-41 | the first non-draft release in list order; none exactly when all are drafts |
| Release.FetchLatest | cmd/vpnctl/version.go:13-44 | transport error, non-200 status and decode error are reported in that order; otherwise the first non-draft release, or "no valid release found" exactly when all are drafts |
| Release.StatusBeforeBody | cmd/vpnctl/version.go:27-34 | without status 200 the body plays no part |
| Release.PrereleaseIgnored | cmd/vpnctl/version.go:36-41 | the pre-release flags do not affect the choice |
| Release.PrereleaseFirstWins | cmd/vpnctl/version.go:36-41 | a pre-release listed before a stable release is chosen |
| Strconv.Atoi | config/config.go:121-123 | the result is a 64-bit integer; a syntax error gives 0 and a range error the clamped bound |
| Strconv.AtoiAcceptsDecimal | cmd/vpnctl/vpnctl.go:177-180 | an optional sign and digits whose value fits are accepted with that value |
| Strconv.AtoiAcceptsOnlyDecimal | cmd/vpnctl/vpnctl.go:177-180 | whatever is accepted is an optional sign followed by digits, with that value |
| Strs.SplitJoin | internal/vpnctl/vpnctl.go:378 | joining the pieces of a split with the separator gives back the text |
| Strs.JoinSplitRoundTrip | internal/handler/credential.go:37-61 | splitting separator-free fields joined by one character gives back the fields |
| Strs.SplitCount | internal/vpnctl/vpnctl.go:378-383 | a split gives one piece more than there are separators |
| Strs.SplitNCount | internal/handler/credential.go:58-61 | SplitN gives n pieces exactly when there are at least n-1 separators |
| Strs.SplitNTruncatesSplit | internal/handler/credential.go:58 | SplitN is Split with everything after the (n-1)th separator kept as one piece |
| Strs.SplitNJoin | internal/handler/credential.go:58 | joining SplitN's pieces gives back the text |
| Strs.ReplaceAllIsSplitJoin | internal/vpnctl/vpnctl.go:227-232 | replacing every occurrence is splitting on the pattern and joining with the replacement |
| Strs.ReplaceAllAcross | internal/vpnctl/vpnctl.go:227-232 | no occurrence straddles a character the pattern lacks |
| Strs.TrimSpaceIdempotent | internal/middleware/middleware.go:356 | trimming twice is trimming once |
| Strs.FieldsOfJoin | cmd/vpnctl/vpnctl.go:211 | Fields recovers space-separated words |
| Strs.ContainsIffOccurs | cmd/vpnctl/vpnctl.go:443-445 | the substring test holds exactly when the keyword occurs at some position |

## Left out

- Subprocess execution, pipes, the stderr reader, the status timeout and the sleeps. Their outcomes are inputs: status text, `Launch` and stdout lines. The two-second pause is the `Settle` effect.
- Goroutine timing. The cmd `SetLastConnectedProfile` goroutine is the `Persist` effect. The prompt path's keyring and expiry goroutines are `Write` values, which `ApplyWrites` lands in turn after the call returns.
- CmdConnect.ConnectWithRetries: the retry recursion is not unrolled, because its flag is only ever false; `SpawnsOnce` is the statement about it.
- CmdConnect.Attempt: a deadlocked program is the `OutputStalled` stop; Go's runtime abort on a global deadlock is not distinguished from a hang.
- InternalConnect.Attempt: the profile path lookup is tested as `Known(profile)` and the account lookup's outcome, which `LookupProfilePath`'s contract shows are the same as the lookup panicking or giving a non-empty path.
- AES-GCM, cryptopasta and the key material are function parameters. Round trips appear only as hypotheses.
- The keyring is a map with an all-or-nothing outage. Per-entry backend failures are not distinguished.
- The SQLite engine. Tables are row sequences in insertion order with a unique key. Every open runs `CREATE TABLE IF NOT EXISTS` for all three tables, so a `Db` always holds all three.
- Middleware.GetLastConnectedProfile: the RFC 3339 text ordering of `last_connected_at` is modelled by an integer instant. Ties between equal stamps pick a row with the greatest stamp, not a specific one.
- Middleware.SetLatestVersionToDB: `CURRENT_TIMESTAMP` is a parameter `now`, so second-granularity ties are not modelled.
- Middleware.SetLastConnectedProfile: a missing database is an `Err`, where the source would dereference a nil handle.
- The dead database helpers `SetCredentialToDB`, `GetCredentialFromDB`, `SetUsernameToDB` and `GetUsernameFromDB` are left out. They target tables that are never created. The username lookup is an input of `GetUsernameFromEnv`, and so is whether the store step opens the database. When it opens, the store's own error (the missing table) is only logged. When it does not, the store dereferences a nil handle.
- Middleware.GetUsernameFromEnv: input that never yields a non-empty line is `PromptsForever`, where the source keeps prompting forever.
- Middleware.GetUsernameFromEnv: each prompt builds a fresh `bufio.Reader` on stdin, so bytes one reader buffered past its first line are lost to the next. The model takes every read to deliver exactly one line, as a terminal does. With piped input such as "\nalice\n" the first reader can buffer both lines; the retry then meets end of input and recurses without end, where the model returns "alice".
- `time.Now`, `time.Parse` and the date formatter are the `Clock` parameter. Both `time.Now` calls on the prompt path read the same instant.
- Config.GetInt: the float64 branch is not modelled, because TOML floats are out of scope; floats fall into `Other` and read as -1.
- TOML loading, the logger, `main` dispatch, the health handler, service discovery, `Status`, `Info`, `ShowHelp`, `LaunchGUI` internals and `tui.View`. None of these holds decision logic beyond I/O.
- The HTTP request and JSON decoding in the release check are inputs, in the form of `Response`.
- `bufio.Scanner` token limits and `ReadString` without a trailing newline. Input lines are given whole.
- Paths.Clean: only the cases the code reaches are proved, namely plain names under a clean absolute home, and the relative fallback path.

## Findings

| source | as written | input that shows it | evidently intended | confidence | as-written member | corrected member |
|---|---|---|---|---|---|---|
| cmd/vpnctl/vpnctl.go:370-395 | stdout lines go to a channel of capacity 100 that is read only after `cmd.Wait()` and `<-done`; a reader holding a 101st line blocks, `done` is never closed, and the connect never records the profile or launches the GUI | a known profile, client not connected, and `vpn connect` printing 101 lines, provided the reader scans all 101 before `cmd.Wait` closes the pipe, which depends on scheduling | the lock scan sees every line and the attempt completes however long the output | not executed | CmdConnect.LongOutputStalls | CmdConnect.DrainedCompletes |
| internal/handler/credential.go:128-153 | the prompt path sets `password` to the ciphertext and returns it in the credential, while the cached path returns the decrypted password | a first call that prompts for password "pw", encrypted to any other text; the follow-up cached call returns "pw" | both paths return the plaintext password the user typed | not executed; the function has no caller in the repository | CredentialHandler.PromptedPasswordIsCiphertext | CredentialHandler.FixedPromptAgreesWithCache |
