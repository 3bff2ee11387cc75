# Verification of the payment plugin

A Dafny model of the parts of drogon-pay whose correctness rests on protocols, scanners and arithmetic,
with proofs about them. `dafny verify dfyconfig.toml` verifies the project.

Each component is modelled in its own form. What the repository does step by step is a class or a method
with loops, and each is tied to a specification function or to one step of a state machine; the lemmas
are about those functions and about every run of those machines.

| file | component |
|---|---|
| `Idempotency.dfy` | the reservation table shared by all clients: two-statement checks, updates, clears, purges |
| `SerialNumbers.dfy`, `JsonValues.dfy`, `WechatChannel.dfy` | the platform certificate cache, answer verification and the download throttle |
| `Migrations.dfy` | the chain guard and the migration executor, with crashes, resets and concurrent runners |
| `SqlStatements.dfy` | the quote-aware statement splitter |
| `PathExpressions.dfy`, `PathMeaning.dfy` | the evaluator of route path expressions, and what the expressions mean |
| `SpecReaders.dfy` | the line reader of the OpenAPI contract and the two readers built on it |
| `VersionReader.dfy`, `VersionDocument.dfy` | the accept-or-refuse reader of the contract's version |
| `Polling.dfy` | the front end's polling primitive |
| `Readiness.dfy` | the readiness probe with its deadline and hysteresis |
| `OnceOnly.dfy` | the exception barrier around every route |
| `Cents.dfy` | yuan to cents through two floating-point roundings |
| `Utf8.dfy` | the UTF-8 encoder and decoder over bounded buffers |
| `Options.dfy`, `Text.dfy` | shared helpers |

## What the proofs found

Properties that a reader might expect of the code, and where it meets them:

- Not every request calls back. jsoncpp throws when a member is read as text from a value without members, or when
  the member is an array or an object, and the reply handler reads `code` and `message` of an error body outside any
  try block. A bootstrap reply with status 500 and body `{"code":{}}`, signed by nobody, or a signed answer of that
  shape, ends the handler before the callback. A handler throws exactly then (`HandlersThrowExactly`), over all runs a
  request is lost exactly when such an answer was read for it (`AnswersSettle`, `LostRequestsFaulted`), and every
  other one that ended has called back once (`EachRequestCallsBackOnce`); `LostBootstrapsAreReachable` is such a run.
  The model lets the other requests go on; in the process, the event loop stops. A download's own callback is lost in
  the same way on a malformed node, after the nodes before it were filed (`DownloadsThrowExactly`).
- A reset drops and creates the schema in two statements. A process that dies between them leaves no schema, and
  every run without a reset fails until a reset is done (`HalfResetsAreReachable`, `HalfResetsPersist`).
- A schema reset breaks the ledger of a runner that is already past its first migration: the runner goes on
  recording its next migration in the new table although the earlier bodies are gone. `RunsKeepInvariant`
  holds for runs whose resets come only while no such runner exists (`SafeReset`);
  `UnsafeResetBreaksTheLedger` and `UnsafeResetsAreReachable` show the other case and that it arises.
- The download throttle takes a stamp of zero for "never": after an accepted stamp, the interval is kept exactly
  when that stamp is not zero (`ZeroStampsForget`); `ZeroStampsAreReachable` is a run with two stamps a
  nanosecond apart.
- `start` called while a tick is unsettled puts a second tick in flight, and a cancellation that nobody asked
  for strands the primitive; both with their exact condition (`StartsDuringATickDuplicate`,
  `UnprovokedCancellationsStrand`) and a run that comes there (`TicksInFlightAreReachable`).
- The two readers of the contract agree exactly when the last section of each path documents the HTTP methods
  that all its sections list (`ReadersAgreeExactly`). A path key written twice can make them differ
  (`RepeatedPathsDisagree`) or not (`RepeatedPathsMayAgree`), and so can a verb line without a colon
  (`MissingColonsDisagree`), which matters exactly when it is an HTTP method or one followed by a last character
  (`LinesReadAlike`).
- The path evaluator decides every conditional by the configured base path, whatever the condition compares. With
  x declared as "/x" and another base path, `x == "/x" ? "/a" : "/b"` resolves to "/b" (`ComparedNamesAreIgnored`),
  and so goes every name whose value is not the base path (`ComparedNamesMislead`). It is right throughout exactly
  when at every conditional reached the subject equals the literal just when the base path does, or both branches
  have one value, and every concatenation reached is absolute (`RightExactly`). The one conditional that the plugin
  registers compares the base path and is resolved to its value (`QrPathResolves`).
- It also refuses an absolute expression that uses a relative name (`RelativeNamesAreRefused`).
- Cents are exact below 2^51 and, with the roundings only bounded by 2^-53, not from there on
  (`ExactBelowTheLimit`).

## Assumptions

- One SQL statement is one atomic step, and a failed statement has no effect. A migration's body contains no
  transaction control of its own. The digest function is injective and never empty.
- Parsing a certificate, its chain and signature checks, decryption and JSON parsing are functions of their
  arguments; reading members of a parsed value follows jsoncpp's rules (CHANGELOG.md, lines 521 to 529). Without the
  public schema, creating a table fails: no other schema is on the search path. Reading a stored response back gives
  the response that was stored. A request's once-callback calls at most once.
- Text is a sequence of characters; `\w` and `\d` in regular expressions stand for their ASCII members, so
  the scanners that use them are modelled over ASCII names and digits. White space is Python's, in full. The
  statement splitter takes both character classes as parameters.
- A spelling of a path expression is a text with any white space, or none, around `+`, `==`, `?` and `:`, inside the
  parentheses of a cast and at both ends (`PathExpressions.Spells`).
- A document is the sequence of its lines; reading a file and splitting it are not part of this model.

## Model

| member | source | states |
|---|---|---|
| Idempotency.CallsWereBegun | libs/drogon-pay/src/services/IdempotencyService.cc:72-91 | in every run each call still carries the key, hash and expiry it was begun with |
| Idempotency.ClocksWereRead | libs/drogon-pay/src/services/IdempotencyService.cc:112-131 | the time a SELECT filters by was read after its call began, before the SELECT ran |
| Idempotency.DecidedStays | libs/drogon-pay/src/services/IdempotencyService.cc:86-87 | a call that has been answered keeps its verdict for the rest of the run |
| Idempotency.KeyNotEmpty | libs/drogon-pay/src/services/IdempotencyService.cc:78-84 | an empty key is answered at once: no call that touches the table has one |
| Idempotency.RefinesAtomicChecks | libs/drogon-pay/src/services/IdempotencyService.cc:97-248 | every interleaved run of two-statement checks is, event by event, a run of the machine whose checks are indivisible, over the same tables |
| Idempotency.VerdictsAreAtomic | libs/drogon-pay/src/services/IdempotencyService.cc:97-248 | each verdict other than Error equals the verdict of one atomic check at its deciding statement, inside the call; Error comes exactly from a failed statement or from a row absent or expired at the SELECT |
| Idempotency.AnswersAreDelivered | libs/drogon-pay/src/services/IdempotencyService.cc:97-248 | an event answers a call exactly when it puts the verdict on the call for the first time |
| Idempotency.ReservationsAreConserved | libs/drogon-pay/src/services/IdempotencyService.cc:97-108 | in every run and for every non-empty key, Started verdicts plus one if the row was there at first equal row deletions plus one if it is there at the end |
| Idempotency.RowsLeaveByClearOrPurge | libs/drogon-pay/src/services/IdempotencyService.cc:358-401 | a row disappears only by a clear that finds it unanswered under its own hash, or by a purge that finds it expired |
| Idempotency.RemovesExactly | libs/drogon-pay/src/services/IdempotencyService.cc:339-412 | an event removes a row exactly when it is a clear of a non-empty key under the hash of an unanswered row, or a purge after the expiry |
| Idempotency.RowsWereReserved | libs/drogon-pay/src/services/IdempotencyService.cc:97-108 | a row is there since the run began, or since a call begun with its key and hash reserved it, unanswered and with the expiry counted from the call's own clock |
| Idempotency.StartsAreSeparated | libs/drogon-pay/src/services/IdempotencyService.cc:97-108 | between two Started verdicts on one key lies such a clear or purge |
| Idempotency.SnapshotsWereStored | libs/drogon-pay/src/services/IdempotencyService.cc:281-325 | the snapshot of a row is the one the latest matching update since its insertion wrote |
| Idempotency.ReplaysAreLatestStored | libs/drogon-pay/src/services/IdempotencyService.cc:115-213 | a Replay returns the latest response stored with the same key and hash into the current row |
| Idempotency.AnsweredRowsStay | libs/drogon-pay/src/services/IdempotencyService.cc:358-401 | an answered row stays, with its hash, whatever updates, clears and purges interleave, until the database clock passes its expiry |
| Idempotency.AnsweredKeysReplay | libs/drogon-pay/src/services/IdempotencyService.cc:115-213 | until expiry passes on either clock, an answered key replays to its own hash, conflicts with every other, and starts for none |
| Idempotency.RowsKeepTheirExpiry | libs/drogon-pay/src/services/IdempotencyService.cc:281-325 | nothing but removal changes the expiry of a row |
| Idempotency.ExpiredKeysError | libs/drogon-pay/src/services/IdempotencyService.cc:116-131 | between expiry on the client clock and the purge, every check of the key is answered Error |
| Idempotency.RowsFollowUpdates | libs/drogon-pay/src/services/IdempotencyService.cc:281-325 | a row that stays keeps hash and expiry and holds the response last stored under its key and hash |
| Idempotency.CallsKeepTheirValues | libs/drogon-pay/src/services/IdempotencyService.cc:72-91 | a call keeps the key, hash and expiry it was begun with in every later state |
| Idempotency.ClocksAreKept | libs/drogon-pay/src/services/IdempotencyService.cc:112-131 | the SELECT filters by the clock read when it was built |
| Idempotency.SelectsFollowHistory | libs/drogon-pay/src/services/IdempotencyService.cc:110-213 | the verdict of a SELECT on a row follows from the events alone: the hashes both calls were begun with, the clock that was read, and what was stored since |
| Idempotency.ReservedKeysAnswer | libs/drogon-pay/src/services/IdempotencyService.cc:97-213 | while a reserved row is there and unexpired, a call begun with another hash conflicts, and one with the same hash is in progress as long as the last response stored is null or there is none, and otherwise replays that response |
| Idempotency.IdempotencyService.constructor | libs/drogon-pay/src/services/IdempotencyService.cc:16-24 | a fresh service over a given table has no call in flight |
| Idempotency.IdempotencyService.CheckDatabase | libs/drogon-pay/src/services/IdempotencyService.cc:72-91 | begins a call: the state machine's Begin step, the expiry computed from the client clock |
| Idempotency.IdempotencyService.OnReserve | libs/drogon-pay/src/services/IdempotencyService.cc:97-108 | the INSERT and the branch on its row count are the Reserve step |
| Idempotency.IdempotencyService.OnTaken | libs/drogon-pay/src/services/IdempotencyService.cc:110-131 | building the SELECT reads the clock: the Lookup step |
| Idempotency.IdempotencyService.OnSelect | libs/drogon-pay/src/services/IdempotencyService.cc:130-213 | the filtered SELECT and the verdict on its row are the Select step |
| Idempotency.IdempotencyService.OnFailure | libs/drogon-pay/src/services/IdempotencyService.cc:214-248 | a failed statement of a call answers it Error and leaves the table |
| Idempotency.IdempotencyService.UpdateResult | libs/drogon-pay/src/services/IdempotencyService.cc:254-325 | the conditional UPDATE is the Update step; reports whether a row matched |
| Idempotency.IdempotencyService.ClearReservation | libs/drogon-pay/src/services/IdempotencyService.cc:339-375 | the conditional DELETE is the Clear step |
| Idempotency.IdempotencyService.PurgeExpired | libs/drogon-pay/src/services/IdempotencyService.cc:392-412 | the batch DELETE on the database clock is the Purge step |
| SerialNumbers.NormalizeSerialHex | libs/drogon-pay/src/channels/WechatChannel.cc:22-36 | the two loops compute the canonical spelling: upper case without leading zeros, "0" for nothing |
| SerialNumbers.CanonicalIffSameNumber | libs/drogon-pay/src/channels/WechatChannel.cc:22-36 | two hexadecimal spellings have one canonical form exactly when they denote the same number |
| SerialNumbers.TrimKeepsValue | libs/drogon-pay/src/channels/WechatChannel.cc:22-36 | dropping leading zeros keeps the number and leaves none in front |
| WechatChannel.CachedCertsWereChecked | libs/drogon-pay/src/channels/WechatChannel.cc:888-939 | in every reachable state each cached certificate was found in validity, anchored and carrying its key as its own serial before it was filed |
| WechatChannel.ChecksExactly | libs/drogon-pay/src/channels/WechatChannel.cc:888-940 | the checks pass exactly for an anchored certificate in validity that carries the serial it is offered for, in any spelling |
| WechatChannel.FiledCertsAreFound | libs/drogon-pay/src/channels/WechatChannel.cc:780-792 | a filed certificate is found under exactly the serials of its canonical spelling |
| WechatChannel.ResolvesExactly | libs/drogon-pay/src/channels/WechatChannel.cc:1116-1176 | which certificate is trusted for a serial, or which reason is given: the cached one, else the static file if it carries the serial |
| WechatChannel.VerifiesExactly | libs/drogon-pay/src/channels/WechatChannel.cc:189-260 | a message verifies exactly under a readable certificate in validity whose key verifies a non-empty decoded signature; otherwise the first failing check is the reason |
| WechatChannel.InstallsWereChecked | libs/drogon-pay/src/channels/WechatChannel.cc:888-939 | the same of every certificate that is checked but not yet filed |
| WechatChannel.EntriesKeepTheirSerial | libs/drogon-pay/src/channels/WechatChannel.cc:922-938 | an entry never disappears and is only replaced by a certificate with the same serial |
| WechatChannel.SpellingsShareAnEntry | libs/drogon-pay/src/channels/WechatChannel.cc:780-792 | two hexadecimal header spellings find the same entry exactly when they denote one number |
| WechatChannel.ResolvedCertsCarryTheSerial | libs/drogon-pay/src/channels/WechatChannel.cc:1116-1176 | in every reachable state the certificate trusted for a serial carries that serial canonically |
| WechatChannel.FramingIsInjective | libs/drogon-pay/src/channels/WechatChannel.cc:1178-1221 | the signed text determines timestamp, nonce and body when neither header holds a newline |
| WechatChannel.AnswersWereReceived | libs/drogon-pay/src/channels/WechatChannel.cc:476-530 | an answer under verification was received for that request |
| WechatChannel.HeldCertsWereResolved | libs/drogon-pay/src/channels/WechatChannel.cc:1197-1251 | the certificate an answer is judged by was resolved for the serial the answer names |
| WechatChannel.RequestsWereSent | libs/drogon-pay/src/channels/WechatChannel.cc:437-475 | a request is in flight only after it was issued, with the verifier it was issued with |
| WechatChannel.EachRequestCallsBackOnce | libs/drogon-pay/src/channels/WechatChannel.cc:476-580 | over every run a finished request has called back once, and one that is not finished, a lost one included, not at all |
| WechatChannel.SettledStays | libs/drogon-pay/src/channels/WechatChannel.cc:476-580 | a request that has finished or was lost stays so |
| WechatChannel.ReadingFaults | libs/drogon-pay/src/channels/WechatChannel.cc:529-578 | reading an answer throws exactly when its status is an error, its body parses, and that has no members or an array or object for its code or message |
| WechatChannel.AnswersReportExactly | libs/drogon-pay/src/channels/WechatChannel.cc:519-578 | an answer that may be read is reported as success exactly for 204, or for 200 to 299 with a body that parses; as invalid JSON exactly for the rest of 200 to 299; and outside as an HTTP failure with its very status and the code and message of the body, or a fixed text without them; the body passed is the parsed one, an empty object for 204 |
| WechatChannel.AnswersSettle | libs/drogon-pay/src/channels/WechatChannel.cc:519-578 | over every run, an answer that is read settles its request for good: called back once if it does not fault, lost and never called back if it does |
| WechatChannel.ReadsReport | libs/drogon-pay/src/channels/WechatChannel.cc:519-578 | in every run an answer that is read without a fault calls its request back with that report |
| WechatChannel.DropsReport | libs/drogon-pay/src/channels/WechatChannel.cc:480-491 | a transport failure, and a client that is gone, call the request back with that failure and no body |
| WechatChannel.LostRequestsFaulted | libs/drogon-pay/src/channels/WechatChannel.cc:551-557 | only so is a request lost |
| WechatChannel.LostBootstrapsAreReachable | libs/drogon-pay/src/channels/WechatChannel.cc:551-557 | a run that loses a bootstrap request to an unsigned reply |
| WechatChannel.HandlersThrowExactly | libs/drogon-pay/src/channels/WechatChannel.cc:476-580 | handling a reply fails to call back exactly when the answer gets to be read and faults |
| JsonValues.ReadTextThrows | libs/drogon-pay/src/channels/WechatChannel.cc:555-556 | reading a member as text throws exactly on a value without members or a member that is an array or an object |
| JsonValues.ReadTextShows | libs/drogon-pay/src/channels/WechatChannel.cc:555-556 | where reading a member as text does not throw, it gives the text the member shows, and none for an absent or null one |
| WechatChannel.OnlyVerifiedAnswersAreRead | libs/drogon-pay/src/channels/WechatChannel.cc:437-580 | outside the bootstrap, whatever a caller learns of a status, body or error envelope comes from a received answer that verified under an in-validity certificate carrying its serial, either the static file or one checked and anchored, and is exactly that answer's report |
| WechatChannel.SentOneWay | libs/drogon-pay/src/channels/WechatChannel.cc:1223-1251 | no request is issued both with and without a verifier |
| WechatChannel.WholeSecondsReach | libs/drogon-pay/src/channels/WechatChannel.cc:680-682 | truncating the elapsed time to whole seconds loses nothing against a bound of at least one second |
| WechatChannel.AcceptsExactly | libs/drogon-pay/src/channels/WechatChannel.cc:674-696 | a download is accepted exactly when it signs and the last stamp is zero or the interval behind, in nanoseconds |
| WechatChannel.StampsFollow | libs/drogon-pay/src/channels/WechatChannel.cc:674-696 | for clock reads in any order, attempts that do not sign or come too soon leave the stamp, and every accepted stamp lies at least the interval behind its predecessor unless that one is zero |
| WechatChannel.DownloadsAreSpaced | libs/drogon-pay/src/channels/WechatChannel.cc:674-696 | without a zero stamp, all accepted stamps lie at least the interval apart |
| WechatChannel.ZeroStampsForget | libs/drogon-pay/src/channels/WechatChannel.cc:678-695 | in a run that has accepted a stamp, whatever is accepted next keeps the interval exactly when that stamp is not zero |
| WechatChannel.ZeroStampsAreReachable | libs/drogon-pay/src/channels/WechatChannel.cc:678-695 | a run whose two accepted stamps lie one nanosecond apart |
| WechatChannel.DownloadRateIsBounded | libs/drogon-pay/src/channels/WechatChannel.cc:653-696 | any window of W nanoseconds holds at most W / interval + 1 accepted downloads |
| WechatChannel.LastNodeWins | libs/drogon-pay/src/channels/WechatChannel.cc:742-767 | after a download each key holds what the last node filed under it, or what it held before |
| WechatChannel.NothingFiled | libs/drogon-pay/src/channels/WechatChannel.cc:768-773 | a download that files nothing leaves the cache as it was |
| WechatChannel.CountsTheFilings | libs/drogon-pay/src/channels/WechatChannel.cc:742-767 | the count is the number of nodes that filed a certificate |
| WechatChannel.HandlerIsASchedule | libs/drogon-pay/src/channels/WechatChannel.cc:476-580 | an uninterrupted reply handler is one schedule of the state machine, with one callback, or with none where it throws |
| WechatChannel.NodesThrowExactly | libs/drogon-pay/src/channels/WechatChannel.cc:743-751 | reading a node of a download answer throws exactly when it is malformed |
| WechatChannel.NodesFileExactly | libs/drogon-pay/src/channels/WechatChannel.cc:743-766 | a node files exactly what its ciphertext, nonce and associated data decrypt to, where that is an anchored certificate in validity under the node's serial number |
| WechatChannel.DownloadsThrowExactly | libs/drogon-pay/src/channels/WechatChannel.cc:736-776 | a download ends without its callback exactly when its answer has no members or lists a malformed node |
| WechatChannel.ConclusionsExactly | libs/drogon-pay/src/channels/WechatChannel.cc:736-776 | otherwise the callback tells exactly whether the answer holds an array of nodes, and whether any of them filed |
| WechatChannel.HandlersReport | libs/drogon-pay/src/channels/WechatChannel.cc:476-580 | what a handled reply tells its caller on every path: the transport failure, the reason an unverified answer is dropped, or the report of the answer |
| WechatChannel.WechatPayClient.constructor | libs/drogon-pay/src/channels/WechatChannel.cc:583-606 | a fresh client has an empty cache and a zero stamp |
| WechatChannel.WechatPayClient.SetPlatformCert | libs/drogon-pay/src/channels/WechatChannel.cc:888-939 | files the certificate under its canonical serial exactly when every check passes, and changes nothing else |
| WechatChannel.WechatPayClient.GetPlatformCert | libs/drogon-pay/src/channels/WechatChannel.cc:780-792 | the lookup by canonical serial |
| WechatChannel.WechatPayClient.ResolveTrustedPlatformCert | libs/drogon-pay/src/channels/WechatChannel.cc:1116-1176 | cache first, then the static file, with the source's refusals |
| WechatChannel.WechatPayClient.SpendDownloadWindow | libs/drogon-pay/src/channels/WechatChannel.cc:653-696 | issues a download exactly when it is signed and the last stamp is zero or lies the interval behind, and then stamps it; otherwise the stamp stays |
| WechatChannel.WechatPayClient.InstallDownloaded | libs/drogon-pay/src/channels/WechatChannel.cc:742-767 | the loop files what the nodes before the first malformed one file, in order, and reports how many, or throws at that one |
| WechatChannel.WechatPayClient.InstallNode | libs/drogon-pay/src/channels/WechatChannel.cc:745-766 | the loop's body: one node is filed, passed over, or throws |
| WechatChannel.WechatPayClient.OnDownloaded | libs/drogon-pay/src/channels/WechatChannel.cc:736-776 | what the download's callback is told, or that it is not called |
| WechatChannel.WechatPayClient.OnReply | libs/drogon-pay/src/channels/WechatChannel.cc:476-580 | the reply handler calls back once with the outcome the state machine gives, or throws where that has none |
| WechatChannel.WechatPayClient.CallBackWith | libs/drogon-pay/src/channels/WechatChannel.cc:521-578 | the same from the point where the answer may be read: it throws exactly on an answer that faults, and otherwise calls back once with its report |
| Migrations.CheckChain | scripts/check_migrations.py:202-226 | the guard reports exactly the repeated versions, the gaps between the least and the greatest, and a start other than 1 |
| Migrations.SilentGuardMeansContiguous | scripts/check_migrations.py:202-226 | the guard is silent exactly on versions 1 to n without repetition, reset helpers aside |
| Migrations.Discover | scripts/migrate_db.py:82-102 | refuses exactly a misnamed file or a number above zero that two files bear, and otherwise returns the migrations in order |
| Migrations.MigrationsAreTheFiles | scripts/migrate_db.py:82-102 | the chain holds exactly the numbered files, with their own bodies |
| Migrations.MigrationsAscend | scripts/migrate_db.py:82-102 | on a sorted directory the chain ascends |
| Migrations.DuplicatesAreBorne | scripts/migrate_db.py:98-101 | a version is repeated in the chain exactly when two files bear it |
| Migrations.VersionsAreBorne | scripts/check_migrations.py:202-226 | the guard judges exactly the numbers the files bear, repeated where two files bear one |
| Migrations.GuardedChainsAreInSequence | scripts/migrate_db.py:82-102 | on files the guard passes, the chain's k-th migration is number k |
| Migrations.PendingIsTheRest | scripts/migrate_db.py:219-256 | when the applied files show no problem, what is pending is the suffix of the chain after the schema's bodies |
| Migrations.ProblemsExactly | scripts/migrate_db.py:219-250 | a recorded version is a problem exactly when its file is gone, or its digest differs from a recorded one that is not blank |
| Migrations.ReadingIsOnTrack | scripts/migrate_db.py:466-490 | a runner that reads a consistent ledger starts where the schema ends, or stops |
| Migrations.AfterReadExactly | scripts/migrate_db.py:466-490 | a runner reads on exactly when the schema is a beginning of its own chain and, unless that is empty, its tables are there; it then has the rest of the chain to apply |
| Migrations.LoneRunsEnd | scripts/migrate_db.py:466-517 | a run without failures, alone with the database, comes to success exactly when it can finish, and then stands at the head |
| Migrations.ResetsMakeRoom | scripts/migrate_db.py:367 | after a completed reset it can finish |
| Migrations.CommitKeepsConsistency | scripts/migrate_db.py:259-268 | a commit by a runner on track appends the next body of its chain to schema and ledger |
| Migrations.StepKeepsInvariant | scripts/migrate_db.py:259-268 | every step but an unsafe reset keeps ledger, schema and all unfinished runners in agreement |
| Migrations.RunsKeepInvariant | scripts/migrate_db.py:419-517 | across all runs, crashes and concurrent runners of guarded revisions, with safe resets, the ledger is exactly 1 to j and the schema is bodies 1 to j |
| Migrations.BodiesRunOnceInOrder | scripts/migrate_db.py:259-268 | a body enters the schema only as the next of its chain, all earlier ones present in order; only a reset's drop removes any |
| Migrations.SuccessReachesTheHead | scripts/migrate_db.py:485-514 | the moment a runner succeeds, schema and ledger are exactly its revision's |
| Migrations.CrashesDoNotMatter | scripts/migrate_db.py:485-517 | two histories of one revision that came to a success stand at the same database |
| Migrations.UnsafeResetBreaksTheLedger | scripts/migrate_db.py:337-368 | a reset beside a runner past its first migration leads in four steps to a ledger that is not exactly 1 to j |
| Migrations.UnsafeResetsAreReachable | scripts/migrate_db.py:337-368 | that situation arises in a run |
| Migrations.HalfResetsAreReachable | scripts/migrate_db.py:367 | a run that dies between the two statements of a reset, and one without a reset that fails after it |
| Migrations.HalfResetsPersist | scripts/migrate_db.py:206-208 | until a reset creates the schema again, it stays missing and no run succeeds |
| Migrations.IsLoopback | scripts/migrate_db.py:327-334 | takes exactly the empty host, those that fold to "localhost", and loopback addresses |
| Migrations.Executor.ResetPublicSchema | scripts/migrate_db.py:327-368 | leaves the database and fails for every other host, and when the confirmation does not repeat the database's name; otherwise empties it, or, dying between its two statements, leaves no schema |
| Migrations.Executor.ReadApplied | scripts/migrate_db.py:206-216 | creates the ledger if it is absent and returns its rows; fails without a schema |
| Migrations.Executor.CheckAppliedFiles | scripts/migrate_db.py:219-250 | on a chain without repeated versions, reports exactly the applied versions whose file vanished, or changed from a recorded digest |
| Migrations.Executor.ApplyOne | scripts/migrate_db.py:259-268 | body and ledger row together, or neither |
| Migrations.Executor.ApplyPending | scripts/migrate_db.py:503-507 | wherever the loop stops, the database is consistent and has lost no body; when it ends, the schema is the whole chain |
| Migrations.Executor.Upgrade | scripts/migrate_db.py:466-517 | from the reading of the ledger on, a run loses no body and keeps the database consistent; code 0 means that the schema is at the head; without failures, it ends with code 0 exactly when the schema exists, holds a prefix of its chain, and its objects are there |
| Migrations.Executor.Run | scripts/migrate_db.py:447-517 | the same of a whole run on guarded files; a run without failures ends with code 0 exactly when no file is misnamed and its reset goes through, or, without a reset, no confirmation is given and that condition holds; a refused reset changes nothing |
| SqlStatements.SplitStatements | scripts/check_migrations.py:70-104 | the scanner's loop returns the trimmed non-empty stretches between top-level semicolons with their offsets |
| SqlStatements.StatementsAreTrimmed | scripts/check_migrations.py:96-104 | each statement is its stretch without the blanks at both ends, at the stretch's offset; exactly the blank stretches are left out |
| SqlStatements.StripsExactly | scripts/check_migrations.py:96 | stripping gives the one text that neither begins nor ends with a blank and lies between blanks |
| SqlStatements.Advance | scripts/check_migrations.py:84-100 | the branches on quote and dollar sign go on after the token, or one past the end after an unclosed quote |
| SqlStatements.TokensAreScanned | scripts/check_migrations.py:83-100 | the scanner's steps are exactly the tokens: quoted literals, dollar-quoted literals with their tags, single characters |
| SqlStatements.OneLexing | scripts/check_migrations.py:82-100 | every text has exactly one division into tokens and the scanner finds it |
| SqlStatements.CutsAreTopLevel | scripts/check_migrations.py:95-99 | the text is cut at every semicolon that is a token by itself and nowhere else |
| SqlStatements.NoCutInsideALiteral | scripts/check_migrations.py:82-100 | no cut lies inside a literal |
| SqlStatements.ScanEmitsPieces | scripts/check_migrations.py:70-104 | the scan emits the statements of the stretches it still has to find, behind those it has |
| SqlStatements.CutsLoseNothing | scripts/check_migrations.py:70-104 | for every text, the raw stretches rejoined at their semicolons are the text |
| SqlStatements.SplitInvertsJoin | scripts/check_migrations.py:70-104 | splitting a join of self-contained statements, between any blanks and with blank stretches among them, returns exactly the statements |
| SqlStatements.TokenInContext | scripts/check_migrations.py:83-100 | a token that closes inside a statement is the same token wherever the statement stands |
| PathExpressions.ScanTernary | scripts/check_openapi_routes.py:158-188 | the loop finds the conditional that the scan by prefix and rest finds |
| PathExpressions.SplitConcat | scripts/check_openapi_routes.py:230-244 | the loop returns the parts between plus signs outside literals |
| PathExpressions.ResolvePath | scripts/check_openapi_routes.py:191-227 | the evaluator with its accumulating loop computes the resolution of the expression |
| PathExpressions.TokenValue | scripts/check_openapi_routes.py:205-224 | the loop's body computes the value of one token, or its refusal |
| PathExpressions.TidyStays | scripts/check_openapi_routes.py:193 | text with single spaces between words is its own normal form |
| PathExpressions.WrittenTextsNormalize | scripts/check_openapi_routes.py:193 | whatever runs of white space stand for the spaces of such a text, and at its ends, it is the normal form |
| PathExpressions.LiteralsHide | scripts/check_openapi_routes.py:166-175 | the scan for a conditional passes over a literal whatever it holds, escapes included |
| PathExpressions.BracketsHide | scripts/check_openapi_routes.py:176-181 | and over what stands in round, square or curly brackets |
| PathExpressions.LiteralsExactly | scripts/check_openapi_routes.py:209 | a token is taken for a literal exactly when it is a quoted text without quotes in it |
| PathExpressions.CastsExactly | scripts/check_openapi_routes.py:214 | for a cast exactly when it is a literal in the parentheses of one, with any white space around it |
| PathExpressions.ConditionsExactly | scripts/check_openapi_routes.py:199-201 | a condition is taken exactly when it is a word, `==` and a literal, with any white space between them |
| Text.StripsExactly | scripts/check_openapi_routes.py:185-206 | stripping takes the white space at both ends and nothing else |
| PathExpressions.TernaryInConditional | scripts/check_openapi_routes.py:158-188 | a printed conditional, however it is spaced, splits into its printed condition and branches |
| PathExpressions.NoTernaryInTerms | scripts/check_openapi_routes.py:158-188 | a printed concatenation, however it is spaced, holds no conditional, the colons of a cast included |
| PathExpressions.ConditionMatches | scripts/check_openapi_routes.py:199-202 | a printed comparison of the base path or of a name is recognised with its literal, with or without spaces around `==` |
| PathExpressions.TermsConcat | scripts/check_openapi_routes.py:230-244 | a printed concatenation splits into its terms and the spaces beside them |
| PathExpressions.TokensAreRecognised | scripts/check_openapi_routes.py:206-223 | each printed term is recognised as its own kind, with or without spaces inside a cast |
| PathExpressions.TokenResolves | scripts/check_openapi_routes.py:206-223 | a printed term resolves to the value the evaluator's route gives it, or is refused when a name it uses is not absolute |
| PathExpressions.PrintSpells | scripts/check_openapi_routes.py:193 | an expression printed with or without a space at each operator and inside each cast is a spelling of it and its own normal form |
| PathExpressions.ResolveFollows | scripts/check_openapi_routes.py:191-227 | every spelling of an expression over acyclic names resolves to the concatenation that comparing the base path with each literal leads to, exactly when every value on the way is absolute, and is refused otherwise, within a computed number of nested calls |
| PathExpressions.UndeclaredNamesAreRefused | scripts/check_openapi_routes.py:220-224 | a concatenation that reaches a name declared nowhere is refused |
| PathExpressions.OtherConditionsAreRefused | scripts/check_openapi_routes.py:199-202 | a conditional whose condition is not such a comparison is refused |
| PathExpressions.BlankTextsAreRefused | scripts/check_openapi_routes.py:193-195 | a text of white space is refused |
| PathMeaning.RightExactly | scripts/check_openapi_routes.py:191-227 | the evaluator returns the value of an expression, and of every branch and name it resolves for it, exactly when at every conditional reached the guard agrees with the base path or the branches have one value, and every concatenation reached is absolute |
| PathMeaning.ConditionalRight | scripts/check_openapi_routes.py:197-204 | with a sound branch taken, a conditional resolves to its value exactly when its guard agrees with the base path or its branches have one value |
| PathMeaning.SoundResolves | scripts/check_openapi_routes.py:191-227 | an expression that meets this resolves to its value |
| PathMeaning.ResolveIsEval | scripts/check_openapi_routes.py:191-227 | where every guard reached agrees, the expression resolves to its value if every value on the way is absolute, and is refused otherwise |
| PathMeaning.BaseConditionsAgree | scripts/check_openapi_routes.py:197-204 | every guard agrees where only the base path is compared |
| PathMeaning.SpellingsResolve | scripts/check_openapi_routes.py:191-227 | so there every spelling of the expression resolves to its value or is refused |
| PathMeaning.QrPathResolves | libs/drogon-pay/src/PayPlugin.cc:364-365 | the conditional path of the QR route, in every spelling, resolves to its value for every base path and any declarations |
| PathMeaning.ComparedNamesMislead | scripts/check_openapi_routes.py:199-203 | compared with its own value, every declared name whose value is not the base path sends the evaluator into the wrong branch |
| PathMeaning.ComparedNamesAreIgnored | scripts/check_openapi_routes.py:199-203 | such declarations and expressions, for any two literals |
| PathMeaning.RelativeNamesAreRefused | scripts/check_openapi_routes.py:221-226 | a literal followed by a name of relative value is refused, absolute or not |
| SpecReaders.ReadSignificantLines | scripts/check_openapi_routes.py:55-76 | the line reader's loops yield the significant lines with their indents |
| SpecReaders.YieldsOutsideScalars | scripts/check_openapi_routes.py:55-76 | it yields exactly the content lines that lie in no block scalar of a line it yielded |
| SpecReaders.YieldsInOrder | scripts/check_openapi_routes.py:55-76 | it yields each line at most once, in order |
| SpecReaders.LinesReadExactly | scripts/check_openapi_routes.py:60-62 | a line is its indent in spaces, its content, and white space |
| SpecReaders.ScalarHeadersExactly | scripts/check_openapi_routes.py:68 | a block scalar opens at exactly the six endings |
| SpecReaders.KeysExactly | scripts/check_openapi_routes.py:95 | a key is the line without its last character and the white space around the rest |
| SpecReaders.ReadSpecPaths | scripts/check_openapi_routes.py:79-107 | the loop returns the paths and verbs, or the source's refusals |
| SpecReaders.RefusedExactly | scripts/check_openapi_routes.py:79-107 | a text is refused exactly for `paths` without its colon, for a key under `paths:` that is no path or has no colon, or when no key stands under it |
| SpecReaders.ReadOperationBlocks | scripts/check_openapi_routes.py:110-140 | the loop returns the operations as they stand in the text, in order, with their bodies |
| SpecReaders.BlocksAreOperations | scripts/check_openapi_routes.py:110-140 | from any point of its scan the reader ends up with the operations as they stand in the text: each verb line below a path, with the lines below it |
| SpecReaders.ReadersAgreeExactly | scripts/check_openapi_routes.py:79-140 | on every text the parity check accepts, the two readers see the same pairs of path and HTTP method exactly when the last section of each path documents just what all its sections list |
| SpecReaders.LastSectionDocuments | scripts/check_openapi_routes.py:79-107 | from any point of its scan, the parity check ends up with what the last section of a path documents |
| SpecReaders.SomeSectionLists | scripts/check_openapi_routes.py:110-140 | from any point of its scan, the other reader ends up with what some section of a path lists |
| SpecReaders.LinesReadAlike | scripts/check_openapi_routes.py:101-136 | the two readers take a verb line for the same HTTP method, or both for none, exactly when it ends with a colon, or is neither a method nor one after its last character is dropped |
| SpecReaders.ReadersAgree | scripts/check_openapi_routes.py:79-140 | so they agree when path keys are distinct and no verb line misleads |
| SpecReaders.RepeatedPathsDisagree | scripts/check_openapi_routes.py:92-99 | a text with a repeated path key on which they differ |
| SpecReaders.RepeatedPathsMayAgree | scripts/check_openapi_routes.py:92-99 | a text with a repeated path key on which they agree |
| SpecReaders.MissingColonsDisagree | scripts/check_openapi_routes.py:101-104 | a text with distinct path keys and a verb line without a colon on which they differ |
| VersionReader.ScalarLanguage | scripts/check_version_sync.py:98-160 | the scalar reader returns v exactly for X.Y.Z (Semantic Versioning 2.0.0, item 2) written plain, single-quoted or double-quoted, padded by spaces, with an optional trailing comment |
| VersionReader.SemVersExactly | scripts/check_version_sync.py:42 | X.Y.Z are three numbers without leading zeros between dots |
| VersionReader.TrailersExactly | scripts/check_version_sync.py:71-77 | what may follow a header or a marker is spaces, or spaces and a comment behind them |
| VersionDocument.FindContent | scripts/check_version_sync.py:170-181 | the first content line from a position on, or -1 |
| VersionDocument.ScanBlock | scripts/check_version_sync.py:259-287 | the block scan returns its version scalars, or refuses one that runs on |
| VersionDocument.ScanMarkers | scripts/check_version_sync.py:218-241 | the marker scan refuses exactly a misspelt or a separating marker |
| VersionDocument.FindHeaders | scripts/check_version_sync.py:243-257 | the positions of the headers, with the block after the first |
| VersionDocument.ReadInfoVersion | scripts/check_version_sync.py:184-297 | the reader as a whole computes the outcome of the document |
| VersionDocument.AcceptedExactly | scripts/check_version_sync.py:184-297 | accepted with v exactly when no marker (section 9.1.2 of YAML 1.2.2) is misspelt or separating, there is one info header, and its block has one version line, complete on that line, that writes v |
| VersionDocument.NoiseChangesNothing | scripts/check_version_sync.py:170-297 | inserting a blank line, or a comment indented by two spaces or more, never changes the outcome, wherever it goes |
| VersionDocument.OutcomeIsTidy | scripts/check_version_sync.py:184-297 | the outcome depends only on the other lines |
| VersionDocument.MarkersAreOneDocument | scripts/check_version_sync.py:218-241 | the marker scan passes exactly the texts that are one document |
| VersionDocument.MarkersExactly | scripts/check_version_sync.py:77 | the marker pattern takes exactly three dashes or dots with such a trailer |
| VersionDocument.HeadersExactly | scripts/check_version_sync.py:71 | the header pattern takes exactly `info`, spaces, a colon and such a trailer |
| VersionDocument.VersionLinesExactly | scripts/check_version_sync.py:64 | a version line is its prefix and the scalar |
| VersionDocument.ContentExactly | scripts/check_version_sync.py:178-180 | content is what starts, after white space, with anything but a number sign |
| VersionDocument.BlockEndsExactly | scripts/check_version_sync.py:261 | a block ends at a line that is not blank and not indented by two spaces |
| VersionDocument.SiblingsExactly | scripts/check_version_sync.py:81 | the key pattern takes exactly two spaces, a key, a colon, and a space or the end |
| VersionDocument.ValuesEndExactly | scripts/check_version_sync.py:266-285 | a line ends the value above it exactly when it is indented by spaces alone, fewer than two, or two before a key |
| Polling.StepKeepsValid | examples/pay-admin/src/composables/usePolling.js:36-111 | every well-used step keeps: polling exactly one of timer armed, tick in flight, paused while hidden; attempts within their bound |
| Polling.RunsStayValid | examples/pay-admin/src/composables/usePolling.js:36-111 | no lost or duplicate wake-up in any well-used run |
| Polling.SettlesExactly | examples/pay-admin/src/composables/usePolling.js:47-73 | a settled tick ends the polling exactly when a callback stopped it or its task is done, and otherwise arms the timer, or pauses while hidden, exactly unless it was canceled |
| Polling.HiddenPagesRest | examples/pay-admin/src/composables/usePolling.js:64-86 | in every run no timer is armed on a page known to be hidden |
| Polling.AttemptsCount | examples/pay-admin/src/composables/usePolling.js:38-45 | in every run the attempts are the calls of its task since the last start, never more than allowed, and exhaustion is reported exactly when a wake-up found them used up |
| Polling.StartsAtOnce | examples/pay-admin/src/composables/usePolling.js:90-99 | a start calls its task at once if an attempt is allowed, resets the interval, and aborts what was in flight |
| Polling.StartsDuringATickDuplicate | examples/pay-admin/src/composables/usePolling.js:90-99 | a start keeps that exactly when no tick is unsettled, or no attempt is allowed |
| Polling.UnprovokedCancellationsStrand | examples/pay-admin/src/composables/usePolling.js:46-59 | a cancellation, reported by the polled call or raised by a callback, keeps that exactly when the signal had been aborted |
| Polling.TicksInFlightAreReachable | examples/pay-admin/src/composables/usePolling.js:36-62 | a well-used run comes to a state where neither a start nor such a cancellation keeps it |
| Polling.IntervalsBackOff | examples/pay-admin/src/composables/usePolling.js:60-61 | after k reschedulings since the last start the interval is min(initial * 1.5^k, max) |
| Polling.Poller.Tick | examples/pay-admin/src/composables/usePolling.js:36-47 | a tick up to its await is one step of the machine |
| Polling.Poller.Settle | examples/pay-admin/src/composables/usePolling.js:47-62 | a tick from its await on is one step |
| Polling.Poller.Schedule | examples/pay-admin/src/composables/usePolling.js:64-73 | arms the timer, or marks the pause while hidden |
| Polling.Poller.OnVisibilityChange | examples/pay-admin/src/composables/usePolling.js:75-86 | pauses an armed timer, resumes a pause |
| Polling.Poller.Start | examples/pay-admin/src/composables/usePolling.js:90-99 | stops, resets the counters and ticks at once |
| Polling.Poller.Stop | examples/pay-admin/src/composables/usePolling.js:101-111 | disarms the timer and aborts the tick in flight |
| Readiness.DeadlineSeesSuccess | examples/pay-server/controllers/HealthCheckController.cc:54-121 | under every interleaving, a deadline finds its probe good exactly when the database and the configured Redis have answered without error |
| Readiness.ProbesTrack | examples/pay-server/controllers/HealthCheckController.cc:57-110 | the pending count is the number of answers still out and the failure list is empty exactly while nothing failed |
| Readiness.ReportsName | examples/pay-server/controllers/HealthCheckController.cc:63-158 | a report that is not ready names exactly the dependencies that failed, and a timeout exactly when one that was asked has not answered |
| Readiness.CountsTrailing | examples/pay-server/controllers/HealthCheckController.cc:124-136 | the counter is the number of failures since the last success, and the state is ready exactly when one of the last three probes succeeded |
| Readiness.ReadyIsOneOfLastThree | examples/pay-server/controllers/HealthCheckController.cc:114-158 | at every deadline of every run the caller is told ready exactly when one of the last three completed probes, this one included, succeeded |
| Readiness.FlapsAreDamped | examples/pay-server/controllers/HealthCheckController.h:24-29 | a failed probe is reported not ready exactly when the two before it, if any, failed as well |
| Readiness.HealthCheckController.constructor | examples/pay-server/controllers/HealthCheckController.h:24-29 | starts not ready, with no failure counted |
| Readiness.HealthCheckController.Readyz | examples/pay-server/controllers/HealthCheckController.cc:54-110 | sets up a probe; a missing database client fails it at once |
| Readiness.HealthCheckController.OnAnswer | examples/pay-server/controllers/HealthCheckController.cc:73-110 | the four answer callbacks |
| Readiness.HealthCheckController.OnDeadline | examples/pay-server/controllers/HealthCheckController.cc:112-158 | times out what is pending, updates counter and state, reports |
| OnceOnly.FirstOfferWins | libs/drogon-pay/src/PayPlugin.cc:61-67 | in every interleaving the first answer offered to the flag is the only one claimed |
| OnceOnly.ClientHearsOnce | libs/drogon-pay/src/PayPlugin.cc:53-106 | the client callback runs at most once |
| OnceOnly.ThrowersAreAnsweredOnce | libs/drogon-pay/src/PayPlugin.cc:77-103 | when a handler threw and its barrier is done, exactly one answer is claimed, also when another thread answers between load and exchange |
| OnceOnly.FaultsAreUnanswered | libs/drogon-pay/src/PayPlugin.cc:68-100 | the 500 is claimed exactly when nothing had been offered at the barrier's exchange, and then the handler threw |
| OnceOnly.LoadsDecide | libs/drogon-pay/src/PayPlugin.cc:87-103 | after a throw the fault answer follows exactly if nothing has been offered by the barrier's load |
| OnceOnly.ReturnersAreNotFaulted | libs/drogon-pay/src/PayPlugin.cc:77-86 | a handler that returns is never answered by the barrier |
| OnceOnly.Request.CompareExchange | libs/drogon-pay/src/PayPlugin.cc:61-67 | claims the answer exactly when the flag was clear |
| OnceOnly.Request.Complete | libs/drogon-pay/src/PayPlugin.cc:79-85 | an answer by the handler or a completion is one exchange, and wins exactly when the flag was clear |
| OnceOnly.Request.CatchBlock | libs/drogon-pay/src/PayPlugin.cc:87-103 | goes to the fault path exactly when the flag reads clear |
| OnceOnly.Request.FaultPath | libs/drogon-pay/src/PayPlugin.cc:68-76 | offers the 500 through the same exchange |
| OnceOnly.Request.Deliver | libs/drogon-pay/src/PayPlugin.cc:63-66 | passes the claimed answer on |
| Cents.TwoRoundings | libs/drogon-pay/src/channels/AlipayChannel.cc:698-699 | two roundings move the amount by at most 2u + u^2 of it |
| Cents.CentsAreExact | libs/drogon-pay/src/channels/AlipayChannel.cc:693-705 | below 2^51 cents in magnitude the rounded product is the integer number of cents |
| Cents.ExactBelowTheLimit | libs/drogon-pay/src/channels/AlipayChannel.cc:693-705 | over all roundings of relative error at most 2^-53 (section 4.3.1 of IEEE 754-2019), exactly there |
| Cents.BeyondTheLimit | libs/drogon-pay/src/channels/AlipayChannel.cc:693-705 | from 2^51 on some roundings give another number |
| Cents.AmountsAreExact | libs/drogon-pay/src/channels/AlipayChannel.cc:693-705 | if reading an amount and multiplying by 100.0 each round once, every notification amount in yuan with at most two decimals below 2^51 cents becomes exactly its cents |
| Cents.DenotesOne | libs/drogon-pay/src/channels/AlipayChannel.cc:693 | such an amount denotes one number of cents, and no negative one |
| Cents.UnreadAmounts | libs/drogon-pay/src/channels/AlipayChannel.cc:693-705 | exactly an empty amount leaves the event's as it was, and one that cannot be read makes it zero |
| Utf8.DoOut | libs/drogon-pay/src/models/orm_compat.h:69-90 | within bounds, writes the encoding of the units it consumed and nothing else, and stops only at the end or with three bytes or fewer left |
| Utf8.DoIn | libs/drogon-pay/src/models/orm_compat.h:31-66 | within bounds, decodes until the end, a full buffer or bytes it does not read |
| Utf8.BytesAreUtf8 | libs/drogon-pay/src/models/orm_compat.h:69-90 | the bytes of a unit are the layouts of section 3 of RFC 3629, holding its bits in order |
| Utf8.UnitsExactly | libs/drogon-pay/src/models/orm_compat.h:36-66 | the decoder reads exactly what begins with one of these layouts and stops at anything else |
| Utf8.RoundTrip | libs/drogon-pay/src/models/orm_compat.h:31-90 | decoding an encoding (section 3 of RFC 3629) gives back the units there is room for and uses exactly their bytes |
| Utf8.ThereAndBack | libs/drogon-pay/src/models/orm_compat.h:31-90 | the bytes the encoder wrote into its buffer decode to exactly the units it consumed |
| Utf8.EncodingIsInjective | libs/drogon-pay/src/models/orm_compat.h:69-90 | different unit sequences have different bytes |
| Utf8.BytesAreAUnit | libs/drogon-pay/src/models/orm_compat.h:36-57 | the bytes of a unit read back as that unit whatever stands around them |

## Left out

- `PaymentService`, `RefundService`, `CallbackService`, `ReconciliationService`: their bodies are not part of this model.
- The Redis write-through of `updateResult`: it is never read back, so it cannot affect a verdict.
- `updateResult` inside a caller's transaction: its effect is the same UPDATE, at the transaction's commit.
- `checkAndSet` and `checkAndSetStatus`: they only map the verdict of `checkDatabase`.
- The recursion limit of the path evaluator: a parameter, since Python's own limit is not a constant of the source; a cyclic declaration runs into it.
- PathExpressions.ResolveFollows: literals that contain an escape, or white space other than single spaces, which the
  evaluator collapses inside literals too, are not modelled.
- Error wording, logging and the truncation of failure texts: an error is modelled by which check refused.
- WeChat notifications: their decryption, and the parsing after a verified signature, are not modelled; their signature check is the answers' with other headers.
- Trust anchors: whether a chain check passed is a parameter of each certificate check.
- `--baseline`, `--status` and `--dry-run` of the executor; `check_applied_objects` is one boolean per run.
- Three-digit version strings are numbers; the name pattern that reads them from file names is not modelled.
- Utf8.DoOut: units of 0x10000 and above, which a 32-bit element type could hold, are not modelled; the source writes no fourth byte.
- Readiness.CountsTrailing: the failure counter is unbounded, where the source's has 32 bits.
- Cents.CentsAreExact: other texts than digits with at most two decimals, and the exponent range of doubles.
- The first test of the barrier's `authed` wrapper: a denied request is answered through the same shared callback.
- Polling.IntervalsBackOff: real numbers stand for doubles, so it is exact only where no product rounds; in runs where
  `start` is called while a tick is unsettled, an overwritten timer still fires in the browser and is gone in the model.
- Stored snapshots: `updateResult` writes an object with a `response` member; text whose root is an array or a scalar,
  on which reading that member throws, is not modelled, nor is debug logging that reads members of a response.
- Generated ORM models, HTTP handlers, metrics, configuration and the other scripts: plumbing or single-branch facts.
