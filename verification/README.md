# Verified models of the toolkit's protocols and codecs

This project models the parts of the web toolkit whose behaviour is more than plumbing, and proves what
they are for: over every interleaving, every run of calls and every input, not call by call.

* **The cache** (`Cache.dfy`, `CacheProtocol.dfy`, `CacheSafety.dfy`, `CacheTiming.dfy`, `CacheStaleness.dfy`,
  `CacheEffects.dfy`, `CacheLimits.dfy`). `CacheData.Cache` does the critical sections of `cache/cache.go` in place.
  `CacheProtocol` interleaves them: any number of goroutines, a readers-writer lock, a clock that never goes
  backwards, a bag of detached purges and sweeps that drop the lock between their phases. While deadlines fit an
  int64 every run refines a TTL map that never evicts; fetches are coalesced, sweeps are complete and precise,
  cached secrets have a bounded age.
* **Keys and secrets on the filesystem** (`Strings.dfy`, `Decimal.dfy`, `Paths.dfy`, `PathIds.dfy`,
  `IdRoots.dfy`, `FileTree.dfy`, `KeyManager.dfy`, `KeyPaths.dfy`, `KeyIds.dfy`, `KeyRotation.dfy`, `KeyAnswers.dfy`, `KeyOrder.dfy`,
  `KeysInside.dfy`, `KeyParents.dfy`, `KeyKinds.dfy`, `KeyContainment.dfy`, `SecretFiles.dfy`).
  Lexical paths are walks over elements; the managers work on a map from such paths to contents.
* **Codecs** (`Bytes.dfy`, `Der.dfy`, `Base64.dfy`, `Csrf.dfy`): P1363 signatures to DER, the SEC 1 point
  layout, base64 in four variants, and the masked CSRF token over the life of a session.
* **Sessions and response writers** (`SessionValues.dfy`, `SplitCookies.dfy`, `SplitLimits.dfy`, `RequestSessions.dfy`,
  `ResponseWriters.dfy`, `IdleTimeout.dfy`): values split over cookies and rejoined, the save that comes
  before the first byte, the idle timer.
* **Shutdown** (`Shutdown.dfy`): the two goroutines of `ServeHTTP` with their channels.
* **The Content-Security-Policy header** (`Csp.dfy`): nonce substitution, and the tidying without a nonce.

`dafny verify dfyconfig.toml` checks everything.

## Where the code does not do what one would expect of it

Each of these has an exact condition, and an input that breaks it: in a lemma of its own, or in the proof of the
condition.

* *Deadlines near the end of int64.* A deadline that does not fit an int64 is already over when it is stamped.
  So lookups answer as a TTL map with true deadlines, sweeps are complete, and stored values keep fetches away,
  exactly while `now + ttl` stays below 2^63 nanoseconds (`CacheLimits.AgreesExactly`,
  `CacheLimits.SweepsCompleteExactly`, `CacheLimits.CoalescesExactly`). That removal in the background is
  invisible, and that answers have a bounded age, needs no such condition.
* *Age of cached secrets.* A cached answer is at most `ttl` older than the *stamping* of its deadline. Counted
  from the *return* of the wrapped call, the longest delay between the two is added, and nothing less will do
  (`CacheLimits.OldestAgeExactly`).
* *Versions under odd parents.* `CreateKeyVersion` looks for the metadata under the cleaned parent but writes under
  the parent as it stands. The two directories are one exactly for straight parents: those that do not start with a
  slash, or go up no further than down, and all of them if the root is empty or the top (`KeyParents.StraightExactly`).
  Every id that `createKey` hands out is one (`KeyParents.IdIsStraight`). For other parents three things go wrong:
  * the version may get the kind of another key, unless the parent is no key at all
    (`KeyParents.KindIsBesideExactly`, with the witness `KeyKinds.VersionOfOtherKind`);
  * it may be written outside the root, exactly when `SafeJoin` would refuse the parent
    (`KeyContainment.VersionInsideExactly`); calls without such parents never touch a file out there
    (`KeyContainment.RunStaysInside`);
  * its id then leads nowhere (`KeyIds.VersionIdReturnsExactly`, with the witness `KeyPaths.VersionIdAstray`).
* *Roots.* The prefix that is trimmed from a path to make an id is the root as it was given, not as it is cleaned.
  `IdRoots.IdFits` says for every root which paths give ids that lead back: for keys (`KeyIds.KeyIdReturnsExactly`),
  for versions (`KeyIds.VersionIdReturnsExactly`) and for secrets (`SecretFiles.ReferenceReturnsExactly`). A root that
  is empty, or cleaned and not ".", fits always; one that only goes down and was not given cleaned has ids that do
  not lead back (`KeyIds.KeyIdsReturnExactly`).
* *Keys inside keys.* A key made inside a key's directory is an entry of it, and once its name is greater than
  that of the newest version Encrypt fails for the outer key (`KeyOrder.EncryptsWithNewestExactly`), as for any name
  that starts with a letter (`KeysInside.KeyInsideStops`, with the witness `KeysInside.RefusedWhileLive`).
* *Split cookies.* Saving and loading restores every value exactly when the cookie names are pairwise distinct and
  differ from the main one (`SplitLimits.RestoresAllExactly`), and restarts the idle timer exactly when the
  last activity is not a split key, or its cookie is the main one (`SplitLimits.RestartsTimerExactly`).
* *Placeholders.* Without a nonce the header may still show a placeholder, or a nonce source without a nonce: exactly
  when the text that is left after the two replacements does (`Csp.WithoutNonce`, with the witnesses
  `Csp.PlaceholderCloses` and `Csp.EmptySourceStays`). No placeholder is left of a policy in which braces stand only
  in placeholders (`Csp.NeatLeavesNone`).
* *Comments.* `mark` is documented as deleting entries that expired "on or before t"; the code deletes those
  strictly before, and an entry whose deadline is `t` still hits at `t`. The model follows the code.

## Model

| member | source | states |
|---|---|---|
| CacheData.MarkInterval | cache/cache.go:65-73 | the sweep interval is positive; it is half the ttl, or a second for a ttl of at most one nanosecond |
| CacheData.DeadlineWraps | cache/cache.go:195-198 | a deadline is the true sum exactly while the sum fits an int64, and otherwise it is already over |
| CacheData.Cache.Lookup | cache/cache.go:230-243 | a hit exactly for an entry whose deadline is not over; a purge for that very deadline is left behind exactly when an expired entry was met |
| CacheData.Cache.WriteThruLocked | cache/cache.go:179-199 | primaryLookup runs exactly on a miss; its error is returned and nothing is stored; its value is stored under the later clock read |
| CacheData.Cache.Set | cache/cache.go:215-225 | the entry and its deadline, stamped at the clock read inside |
| CacheData.Cache.CollectExpired | cache/cache.go:101-113 | the map iteration, in any order, collects every expired key once and no other |
| CacheData.Cache.DeleteExpired | cache/cache.go:115-124 | of the collected keys exactly those still expired go, whatever happened to the map in between |
| CacheData.Cache.PurgeExpired | cache/cache.go:138-146 | the entry is there afterwards exactly when it was there with another deadline than the one the purge was scheduled for; every other entry is as before |
| CacheSafety.LockStep | cache/cache.go:101-243 | the lock discipline: many readers or one writer, and the lock always says who is inside |
| CacheSafety.RunKeeps | cache/cache.go:101-243 | every run keeps the lock discipline, carries no time from the future, schedules only purges for deadlines that are over, and the map is all that was stored since the last Clear less entries that are over |
| CacheSafety.RemovalIsInvisible | cache/cache.go:101-146 | in every interleaving, at any clock, each lookup answers what a map that removes nothing answers under the deadlines that were stamped |
| CacheSafety.KeptIsIdeal | cache/cache.go:213-225 | while now + ttl fits an int64 the stamped deadlines are the true ones |
| CacheSafety.LookupsAnswerAsIdeal | cache/cache.go:202-243 | while now + ttl fits an int64 each lookup of every interleaving answers exactly what a TTL map with true deadlines that never evicts answers at that instant |
| CacheLimits.AgreesExactly | cache/cache.go:202-243 | all lookups of all runs answer as that ideal map exactly while now + ttl is below 2^63 |
| CacheLimits.MissAtOnce | cache/cache.go:202-225 | the run that breaks it: a Set, and a Lookup at the same instant that misses |
| CacheSafety.OnePrimaryInFlight | cache/cache.go:162-200 | at most one primaryLookup is in flight, and while it is nobody else is inside the cache |
| CacheTiming.Coalesced | cache/cache.go:166-200 | once a value is stored for a name, by a fetch or by Set, no primaryLookup for that name starts until the clock is past its deadline or Clear has run, whatever Sets, sweeps and purges come between |
| CacheTiming.CoalescedFetch | cache/cache.go:166-200 | after a primaryLookup succeeded none for that name starts before its value is stored and the clock is past the deadline of that value, or Clear has run |
| CacheTiming.RunCovers | cache/cache.go:186-225 | the deadline of a name never goes down between Clears |
| CacheTiming.RunBounded | cache/cache.go:186-199 | no deadline is past now + ttl, nor past that of a value about to be stored |
| CacheTiming.MarkCompleteAndPrecise | cache/cache.go:101-124 | when a sweep for t finishes no entry expired before t is left, whatever ran between its phases, and its deleting step kept every entry with a deadline of t or later |
| CacheEffects.ReturnedTookEffect | cache/cache.go:101-243 | in every interleaving an operation that has returned has taken effect under the arguments it was called with: a lookup answered what was in the map, WriteThruLookup answered, stored or failed with primaryLookup, Set stored its value, Clear emptied the map, a sweep is done |
| CacheEffects.PrimaryShown | cache/cache.go:179-189 | nobody calls primaryLookup but after a miss under the write lock, and every call is seen |
| CacheEffects.ReturnShown | cache/cache.go:186-189 | when it returns its value goes on its way and is seen, and its error ends the operation |
| CacheEffects.NeverStuck | cache/cache.go:101-243 | no reachable state is deadlocked: as long as an operation is under way or a purge is to come, some goroutine can go on |
| CacheEffects.CallsEnd | cache/cache.go:101-243 | every operation returns after at most seven actions of its own, and no other goroutine sets it back |
| CacheEffects.LookupLeavesPurge | cache/cache.go:230-236 | a lookup that meets an expired entry leaves a purge for that very deadline behind |
| CacheEffects.PurgeRuns | cache/cache.go:138-146 | when it runs, no entry with that deadline is left under the name, and nothing else has changed |
| CacheEffects.ExpiredIsPurged | cache/cache.go:138-243 | so at every point of a run after a lookup met an expired entry the purge is still to come or the entry was gone since, whatever runs in between |
| CacheStaleness.BoundedStaleness | secrets/cacher.go:42-48 | a cached answer was returned by the wrapped manager for the same name, and the deadline it was stored under was stamped at most ttl before the answer |
| CacheLimits.SweepsCompleteExactly | cache/cache.go:101-124 | all sweeps of all runs are complete exactly while now + ttl is below 2^63 |
| CacheLimits.IncompleteSweep | cache/cache.go:101-124 | the run that breaks it: two Sets around the first phase |
| CacheLimits.CoalescesExactly | cache/cache.go:166-225 | stored values keep fetches away until their deadlines, in all runs, exactly while now + ttl is below 2^63 |
| CacheLimits.EarlyRefetch | cache/cache.go:166-225 | the run that breaks it: a Set whose deadline wraps uncovers a name that was fetched |
| CacheLimits.OldestAgeExactly | secrets/cacher.go:42-48 | over all runs with any number of fetches, cached answers are at most a bound older than the wrapped call's return exactly when the bound is at least the ttl plus the longest delay from a return to its stamp, or no two clock readings are further apart |
| CacheLimits.AgeBounded | secrets/cacher.go:42-48 | each cached answer is what some earlier call for that name returned, at most delay + ttl before |
| CacheLimits.AgeWithinTtlExactly | secrets/cacher.go:44-48 | they are within the ttl itself exactly when deadlines are stamped at the instant of the return, or the ttl is the longest of all |
| CacheLimits.OldestAnswer | cache/cache.go:186-199 | the answer that is oldest: a hit at the last instant of a deadline stamped late |
| Paths.CleanIdempotent | internal/util/path.go:27-28 | cleaning keeps where a path leads, is idempotent and never yields the empty string |
| Paths.JoinLeads | internal/util/path.go:27-28 | a join leads from the root along the elements of the name, and is shown canonically |
| Paths.SafeJoinExactly | internal/util/path.go:27-44 | SafeJoin accepts exactly when the joined path is lexically at or below the root, and then yields the cleaned root followed by elements none of which is ".." |
| PathIds.CleanShrinks | internal/util/path.go:28 | cleaning never makes a path longer |
| PathIds.IdLeads | keys/filesystem.go:292-314 | for a root that is empty, or cleaned and not ".", what is left of a path when the root is trimmed leads back to it |
| IdRoots.IdLeadsExactly | keys/filesystem.go:78-82 | for every root, what is left of a path below it when the root is trimmed leads back to the path exactly when the root fits: as a prefix it must be empty, cleaned and not ".", that with a slash at its end, or the path; otherwise it must go up as far as it goes down |
| IdRoots.ReferenceLeadsExactly | secrets/filesystem.go:86-91 | and the same for what is left when a leading slash is trimmed as well |
| KeyPaths.ResolveChild | keys/filesystem.go:80-82 | a version name below a key is resolved to a file in the very directory that the key is resolved to, so Encrypt and Decrypt build one path |
| KeyPaths.VersionPathLeads | keys/filesystem.go:349 | where a new version is written: the file named after the clock, in the root joined with the parent |
| KeyPaths.KeyIdRoundTrips | keys/filesystem.go:285-325 | the id of a key resolves to the directory that was made |
| KeyPaths.IdMeansOneDirectory | keys/filesystem.go:289-363 | versions under an id are made in the directory that Encrypt, Decrypt and SigningKeyVersions look in |
| KeyPaths.KeyHasKind | keys/filesystem.go:289-325 | a key that was made or found has the kind that was asked for, as every later call reads it |
| KeyIds.VersionIdReturnsExactly | keys/filesystem.go:329-367 | for every root, the id of a version resolves to the file that was written exactly when SafeJoin accepts the parent as it stands and the root fits the path |
| KeyPaths.VersionIdAstray | keys/filesystem.go:329-367 | a version, its parent "/..", whose id does not |
| KeyIds.KeyIdReturnsExactly | keys/filesystem.go:289-325 | for every root, exactly which key ids resolve back: where the root is a prefix of the path, it must be empty, cleaned and not ".", that with a slash at its end, or the path; where it is not, it must go up as far as it goes down |
| KeyIds.KeyIdsReturnExactly | keys/filesystem.go:289-325 | so under a root that only goes down, all key ids resolve back exactly when the root was given cleaned |
| KeyIds.DotIdsReturnExactly | keys/filesystem.go:289-325 | and under the root "." a key id resolves back exactly when its directory does not start with a dot |
| KeyManager.Filesystem.CreateKeyOf | keys/filesystem.go:289-325 | answer and tree after it: the directory, and the metadata unless there is some; another kind is an error |
| KeyManager.Filesystem.CreateKeyVersion | keys/filesystem.go:329-367 | answer and tree after it: one file of the kind that the metadata says |
| KeyManager.Filesystem.DestroyKeyVersion | keys/filesystem.go:371-383 | answer and tree after it; a missing file is no error |
| KeyManager.Filesystem.FindLatest | keys/filesystem.go:124-135 | the loop finds the greatest name that is not "metadata", or that there is none |
| KeyManager.Filesystem.Encrypt | keys/filesystem.go:110-164 | succeeds exactly when the greatest name is a readable encryption key, and then yields that name, ':', nonce and sealed text |
| KeyManager.SortSorts | keys/filesystem.go:268-271 | sorting yields the same versions in descending order of their names |
| KeyManager.Filesystem.WalkVersions | keys/filesystem.go:232-263 | the walk lists every file below the key but the metadata once, and fails exactly when one of them is outside the root or no signing key |
| KeyManager.Filesystem.SigningKeyVersions | keys/filesystem.go:210-274 | when it succeeds, and that the list is complete, without repetition and in descending order |
| KeyRotation.CallKeeps | keys/filesystem.go:289-383 | a call keeps the names of files well formed; a version stays as it is or is destroyed, and is never written again |
| KeyRotation.SplitFirst | keys/filesystem.go:172-177 | only the first ':' cuts, whatever nonce and body hold |
| KeyRotation.SplitOnly | keys/filesystem.go:172-177 | a ciphertext is cut into version and rest exactly when it is the two around a ':' and the version holds none |
| KeyRotation.DecryptsExactly | keys/filesystem.go:167-207 | a plaintext comes back exactly when the ciphertext names a version whose file is there, holds a key, and under that key and the additional data the rest, of 12 bytes or more, is authentic for it; otherwise an error |
| KeyRotation.DecryptErrors | keys/filesystem.go:167-207 | which error: for a missing ':', a version that is refused, one that is not there |
| KeyRotation.OpensAsCipherDoes | keys/filesystem.go:167-207 | what was sealed is opened under other additional data, or with another key in the file, exactly as far as the cipher itself opens it |
| KeyRotation.OpensFromFile | keys/filesystem.go:167-207 | what was sealed is opened under its additional data when the sealing version's file is there, and is not found when it is gone |
| KeyRotation.OpenedUnlessDestroyed | keys/filesystem.go:108-207 | over any run with an increasing clock a ciphertext is opened to its plaintext exactly until a call destroys the version that sealed it, and never again after |
| KeyAnswers.KeyMadeExactly | keys/filesystem.go:289-325 | exactly when createKey succeeds, told by the files and directories that are there, its id, the tree after it, and which error it gives otherwise |
| KeyAnswers.KeyMadeAgain | keys/filesystem.go:304-314 | a key that is there is found again under the same id and nothing changes; with another kind it is refused and nothing changes |
| KeyAnswers.VersionMadeExactly | keys/filesystem.go:329-367 | exactly when a version is made, its id, that its file holds the generated material as a key of the metadata's kind, that nothing else changes, and which error otherwise |
| KeyAnswers.DestroyedExactly | keys/filesystem.go:371-383 | exactly when destroying succeeds, a missing file included, and that then nothing is left there and nothing else changes |
| KeyAnswers.ListableExactly | keys/filesystem.go:210-263 | versions are listed exactly for the metadata of a signing key whose directory is there and below which, at any depth, every file but metadata is a signing key inside the root |
| KeyAnswers.WalkedExactly | keys/filesystem.go:233-240 | the walk takes every file below the directory, however deep, but metadata |
| Decimal.NamesOrderAsClock | keys/filesystem.go:349 | clock readings from 10^18 up to 2^63 have names of 19 digits, which compare as strings as the readings do |
| Decimal.OrderTurnsBefore | keys/filesystem.go:132 | one nanosecond before 10^18 the order of the names turns round |
| Decimal.FormatReads | keys/filesystem.go:349 | the digits of a name stand for the clock reading, without a zero in front |
| KeyOrder.LatestIsNewest | keys/filesystem.go:124-135 | a live version has the greatest name exactly when nothing else in the directory has a greater one, and then it is the one made last |
| KeyOrder.LiveRun | keys/filesystem.go:329-383 | the versions in a directory after any run are those made there and not destroyed since |
| KeyOrder.EncryptsWithNewestExactly | keys/filesystem.go:110-164 | after any run Encrypt uses, of the versions made and not destroyed since, the one made last; it is refused exactly when there is none, when that is no encryption key, or when another entry of the directory has a greater name |
| KeyOrder.NewestIsGreatest | keys/filesystem.go:124-135 | no entry has, unless a key was made inside the key's directory |
| KeyOrder.NameOrder | keys/filesystem.go:255-271 | the names that SigningKeyVersions shows, with the root trimmed, compare as the clock readings do |
| KeyOrder.ListedNewestFirst | keys/filesystem.go:209-274 | after any run SigningKeyVersions lists every version made in the key's directory and not destroyed since, once, the newest first |
| KeyOrder.OnlyLiveWalked | keys/filesystem.go:233-263 | and nothing else, unless a key was made inside the key's directory |
| KeysInside.KeyInsideStops | keys/filesystem.go:108-164 | a key whose name starts with a letter, made inside a key's directory, stops Encrypt for the outer key, whatever versions are live |
| KeysInside.RefusedWhileLive | keys/filesystem.go:108-164 | the run that does: a key, a version of it, a key inside it; the version is live and Encrypt is refused |
| KeyContainment.VersionInsideExactly | keys/filesystem.go:329-367 | a version is written at or below the root exactly when SafeJoin accepts the parent as it stands |
| KeyContainment.RunStaysInside | keys/filesystem.go:78-82 | no run of calls whose version parents SafeJoin accepts changes a file outside the root, nor a directory that is neither inside nor above it |
| KeyParents.VersionHasKind | keys/filesystem.go:329-367 | a version has the kind of the metadata in the directory that its parent names as a key id |
| KeyParents.StraightExactly | keys/filesystem.go:329-363 | that is the directory the version is written in exactly for the straight parents: relative ones, and those that go up no further than down, or all if the root is empty or the top |
| KeyParents.KindIsBesideExactly | keys/filesystem.go:329-367 | over all trees, clocks and keys a version has the kind of the metadata beside it exactly when its parent is straight or no key that SafeJoin accepts |
| KeyParents.IdIsStraight | keys/filesystem.go:289-325 | every id that createKey hands out is a straight parent, for every root |
| KeyParents.StraightIdReturnsExactly | keys/filesystem.go:329-367 | under a straight parent the version is inside the root and its id resolves to its file exactly when the root fits |
| KeyKinds.KeyStartsOfKind | keys/filesystem.go:289-325 | a key that was made, in a directory without versions, has its metadata and only versions of its kind |
| KeyKinds.RunKeepsKind | keys/filesystem.go:289-383 | over any run this stays so, while the metadata is not destroyed and versions are made under it |
| KeyKinds.RunEncryptsExactly | keys/filesystem.go:108-164 | so after any such run Encrypt succeeds exactly while some version is live |
| KeyKinds.RunLists | keys/filesystem.go:209-274 | and SigningKeyVersions succeeds |
| KeyKinds.VersionOfOtherKind | keys/filesystem.go:329-367 | an absolute parent that goes up and comes back makes an encryption key a version of a signing key |
| SecretFiles.Filesystem.GetSecretValue | secrets/filesystem.go:58-71 | the contents of the file that SafeJoin leads to, or which error |
| SecretFiles.Filesystem.CreateSecretVersion | secrets/filesystem.go:74-92 | answer and tree after it; directories stay when the write fails |
| SecretFiles.Filesystem.DestroySecretVersion | secrets/filesystem.go:95-108 | answer and tree after it; a missing file is no error |
| SecretFiles.Created | secrets/filesystem.go:74-92 | a version is written below the root, one file named after the clock |
| SecretFiles.GotExactly | secrets/filesystem.go:58-71 | exactly when a value is found, and which error otherwise |
| SecretFiles.CreatedExactly | secrets/filesystem.go:74-92 | exactly when a version is created, the tree after it, and what is left when it fails |
| SecretFiles.DestroyedExactly | secrets/filesystem.go:95-108 | exactly when destroying succeeds, a missing file included, and the tree after it |
| SecretFiles.ReferenceReturnsExactly | secrets/filesystem.go:74-92 | for every root, the reference of a version leads back to the file that was written exactly when the root fits the path |
| SecretFiles.KeptUntilDestroyed | secrets/filesystem.go:57-108 | a reference that leads back yields its data after any later calls until one destroys the version, and is never found again after; destroying by that reference is such a call |
| Bytes.MinimalRoundTrip | keys/azure/azure.go:370-375 | the shortest big-endian form has the value and no leading zero |
| Der.ConvertPreservesSignature | keys/azure/azure.go:364-377 | conversion succeeds exactly for non-empty input of even length, and a strict DER reader gets the values of the two halves back |
| Der.ElementRoundTrip | keys/azure/azure.go:376 | a strict reader of tag and shortest length gets every element back, whatever follows it |
| Der.ConvertSmall | keys/azure/azure.go:364-377 | the octets of the smallest signatures |
| Der.ConvertP256Length | keys/azure/azure.go:364-377 | 64 bytes become 8 to 72 |
| Der.ConvertP256LengthTight | keys/azure/azure.go:364-377 | both ends of that range are reached |
| Der.UncompressedPoint | keys/azure/azure.go:350-360 | longer coordinates are refused; each padded coordinate keeps its value in its own 32-byte window after the byte 4 |
| Base64.DecodeInvertsEncodings | internal/util/base64.go:25-30 | Base64Decode inverts all four encodings of every byte string |
| Base64.RawDecodeInvertsEncode | middleware/csrf.go:159 | the raw URL decoder inverts the raw URL encoder |
| Base64.DecodesExactly | internal/util/base64.go:25-30 | Base64Decode takes exactly the texts over both alphabets and line breaks, before any number of '=', whose length is not one more than a multiple of four; and how many bytes they make |
| Base64.RawDecodesExactly | middleware/csrf.go:159 | the same for the raw URL decoder, without '=' |
| Base64.Vectors | internal/util/base64.go:25-30 | test vectors of RFC 4648 |
| Csrf.XorInto | middleware/csrf.go:202-208 | the loop fills the buffer with the exclusive or of the two |
| Csrf.XorByteBits | middleware/csrf.go:202-208 | a bit is set exactly where the two bytes differ |
| Csrf.UnmaskUndoesMask | middleware/csrf.go:180-199 | a mask shows the pad first, and is undone whatever the pad |
| Csrf.HandleCSRF | middleware/csrf.go:71-135 | session, response and template helpers after a passage, with the outcomes of both random reads: GET, HEAD, OPTIONS and TRACE go on, every other verb exactly with a token string, of the header, the form or the multipart form, that proves the stored token |
| Csrf.PageShows | middleware/csrf.go:107-114 | the five helpers of a page: the mask, as it is and in two tags, and the names it travels under |
| Csrf.PassageLeavesToken | middleware/csrf.go:83-99 | a passage leaves a 64-byte token, the stored or the new one, unless no random bytes were to be had for a missing one, and touches nothing else |
| Csrf.TokenNeverChanges | middleware/csrf.go:83-99 | once 64 bytes long the token stays the same over any history |
| Csrf.ShownMaskAccepted | middleware/csrf.go:102-134 | every masked token shown since is accepted with any later request, by header, form or multipart form |
| Csrf.AcceptedExactly | middleware/csrf.go:117-176 | a request whose verb is not GET, HEAD, OPTIONS or TRACE goes through exactly when it carries two halves whose exclusive or is the stored 64-byte token; with one of these verbs it goes through whatever it carries |
| Csrf.TokenErrors | middleware/csrf.go:138-171 | a request without a token string, and one whose string is no even number of bytes, are told apart |
| SessionValues.ReadToken | session/session.go:78-89 | the token, and that one of the wrong type is cleared |
| SessionValues.StoreToken | session/session.go:64-69 | the token is stored unless it is empty |
| SessionValues.StoreLastActivity | session/session.go:93-98 | the stamp is the second since the epoch |
| SessionValues.ReadLastActivity | session/session.go:107-118 | the stamp, and that one of the wrong type or of 0 is cleared |
| ResponseWriters.StatusRecorder.WriteHeader | middleware/log_requests.go:64-69 | the recorder keeps knowing the status that the inner writer sent |
| ResponseWriters.StatusRecorder.Write | middleware/log_requests.go:71-78 | and the number of bytes that it took |
| ResponseWriters.BeforeFirstByteWriter.WriteHeader | middleware/sessions.go:211-225 | the save comes first; the handler's status follows it, or 500 if it failed |
| ResponseWriters.BeforeFirstByteWriter.Write | middleware/sessions.go:227-233 | the save comes first; the bytes follow it unless it failed |
| ResponseWriters.ServeRequest | middleware/sessions.go:119-163 | what the server sees of a request; the logged status and byte count are what was sent |
| ResponseWriters.SavedOnceAndFirst | middleware/sessions.go:119-163 | the save body runs exactly once and before any status or byte; if it worked the rest is as without the middleware, if it failed the only status is 500 and no byte of the handler goes out |
| ResponseWriters.DirectBehind | middleware/sessions.go:211-233 | a save in front changes nothing about what the handler's calls send |
| ResponseWriters.DirectIs | middleware/sessions.go:211-233 | one status goes out, in front, that of the first call or 200, and then the bytes of every write |
| RequestSessions.Registry.Get | middleware/sessions.go:97-103 | the store hands out one object per cookie name |
| RequestSessions.Registry.Join | middleware/sessions.go:64-77 | the value of a companion is put back into the main session |
| RequestSessions.Registry.Split | middleware/sessions.go:81-87 | a value moves from the main session to its companion, also when both are one object |
| RequestSessions.Registry.SaveSplitsLoop | middleware/sessions.go:135-140 | the loop takes each key once, in any order |
| RequestSessions.Registry.SaveAll | middleware/sessions.go:129-144 | the cookies after the save body |
| RequestSessions.TwoRequests | middleware/sessions.go:89-166 | two requests in a row, on the heap: with separate cookies the second finds what the first left |
| SplitCookies.CookieNames | middleware/sessions.go:57-59 | the names of the companion cookies |
| SplitCookies.SharedCookieExactly | middleware/sessions.go:57-59 | two keys share a cookie exactly when one is a string that reads as the other is printed |
| SplitCookies.RestoredIsSaved | middleware/sessions.go:61-147 | saving then loading restores every value but the last activity, for any order of the map iteration; a key the handler deleted does not come back |
| SplitCookies.OneCookieEach | middleware/sessions.go:81-87 | each value sits in exactly one cookie |
| SplitLimits.RestoresAllExactly | middleware/sessions.go:57-147 | splitting loses nothing exactly when all cookie names are separate |
| SplitLimits.StampRestored | middleware/sessions.go:61-147 | the next request finds the second of the save, whatever cookies are shared, if the last activity is not split or its cookie is the main one |
| SplitLimits.RestartsTimerExactly | middleware/sessions.go:57-147 | and only then: otherwise the last activity that the handler left outlives the stamp |
| IdleTimeout.CheckSessionIdle | middleware/sessions.go:174-189 | a request is stopped exactly when its session holds a stamp, a second other than zero, that is older than the ttl, by a difference that saturates at the ends of int64 |
| IdleTimeout.TimerIsLastSave | middleware/sessions.go:89-147 | over any run of requests, through splitting, saving, joining and loading, the stamp found is the second of the last save that reached the browser |
| IdleTimeout.StoppedExactly | middleware/sessions.go:174-189 | a request is stopped exactly when the true gap exceeds the ttl less the fraction of a second that the stamp dropped, and the ttl is not the longest of all |
| IdleTimeout.StoppedAndPassed | session/session.go:93-118 | a gap over any ttl but the longest stops, one of at most the ttl less a second never does |
| IdleTimeout.UnstampedPasses | middleware/sessions.go:174-189 | a request whose session holds no such stamp is never stopped |
| IdleTimeout.FirstRequestPasses | middleware/sessions.go:174-189 | over any run of requests none is stopped before a save has reached a browser that had no stamp |
| Shutdown.RunKeeps | server/server.go:86-125 | what every run has sent and received is read off its state |
| Shutdown.OneValueSentAndReceived | server/server.go:91-123 | exactly one value is sent and received exactly once, and ServeHTTP does not return before its helper is gone |
| Shutdown.ShutdownBeforeReturn | server/server.go:94-107 | if the helper took the cancel branch ServeHTTP does not return before Shutdown has |
| Shutdown.ShutdownOnlyAfterCancel | server/server.go:94-107 | Shutdown returns only after the helper took the cancel branch, which it takes only after a cancel; the other branch it takes only after Serve returned and serveDone was closed |
| Shutdown.ServeDoneSendsNil | server/server.go:94-100 | a helper that saw serveDone calls no Shutdown and sends nil |
| Shutdown.NeverCancelled | server/server.go:86-125 | a ServeHTTP whose context is never cancelled returns nil, or what Serve failed with and nothing else |
| Shutdown.CancelIsHeard | server/server.go:94-107 | once cancelled, as long as the server serves, the helper can take the cancel branch, or is in Shutdown, or Shutdown has returned |
| Shutdown.ReturnsNilExactly | server/server.go:111-124 | nil is returned exactly when Serve ended with nil or ErrServerClosed and the value received is nil; otherwise the errors of both are returned |
| Shutdown.NeverStuck | server/server.go:86-125 | no reachable state is deadlocked; once Serve has returned some goroutine can move |
| Shutdown.EveryRunEnds | server/server.go:86-125 | a measure that every action uses up |
| Strings.ReplaceIsJoin | middleware/csp.go:59-64 | replacing keeps the text between the occurrences, in order |
| Csp.SubstitutedPolicy | middleware/csp.go:63-65 | with a nonce the header is the policy's own text around it, in order, without any placeholder |
| Csp.NonceReadsBack | middleware/nonce.go:41-47 | the nonce has 24 characters, of which the 16 random bytes are read back |
| Csp.TidyIsTidy | middleware/csp.go:61-62 | tidying leaves no doubled or edge spaces and no space before a semicolon, and is idempotent |
| Csp.TidyIsGlued | middleware/csp.go:61-62 | tidying keeps every word apart from the next by one blank, and puts a word that starts with a semicolon onto the one before |
| Csp.TidyKeepsText | middleware/csp.go:61-62 | tidying changes nothing but white space, and leaves none but single blanks |
| Csp.TidyHas | middleware/csp.go:61-62 | tidying neither makes nor breaks a placeholder |
| Csp.SourceDropped | middleware/csp.go:57-60 | a nonce source that stands in text without quotes and braces is dropped whole |
| Csp.PlaceholderCloses | middleware/csp.go:57-62 | a policy with one placeholder spread around another, of which the header without a nonce still shows one |
| Csp.EmptySourceStays | middleware/csp.go:57-62 | a nonce source with two placeholders, of which the header without a nonce keeps 'nonce-' |
| Csp.NeatLeavesNone | middleware/csp.go:57-62 | if braces stand only in placeholders, the header without a nonce shows none |
| Csp.WithoutNonce | middleware/csp.go:57-62 | without a nonce the header is the words that are left, tidied, and shows a placeholder, or a nonce source without a nonce, exactly when the text that is left does |
| Csp.HeaderValue | middleware/csp.go:44-70 | the header for every policy, with a nonce and without: the text between the placeholders around the nonce, or the words that are left |

## Left out

- CacheProtocol: every critical section is one step at the instant of its clock read, and giving the lock up is part of that step; the preference of a waiting writer over new readers is not modelled, so more interleavings are covered than the runtime allows.
- A primaryLookup that panics, `Stop`, and the ticker itself: a sweep may begin at any time, for any t that has passed.
- Shutdown: that Shutdown keeps its five seconds is left to net/http; the model only lets it return.
- FileTree: no symbolic links, permissions, partial writes or other processes; a relative path that goes up and comes back is another path than the one it aliases.
- Paths.Rel: of a target "." the result has no trailing "/."; only the first element of a result is looked at.
- KeyManager.Aead: AES-GCM is a pair of functions of which opening undoes sealing; x509 and JSON are constructors; a metadata file that is empty or unreadable counts as none or as one of another kind.
- KeyManager.Filesystem.Encrypt: which error is returned for which failure is not in its contract.
- `NewSigner`, and the creation times of signing key versions.
- Der.ConvertPreservesSignature: input is shorter than 2^63 bytes, as every Go slice is.
- Der.UncompressedPoint: the curve check that follows the byte layout is not part of this model.
- ResponseWriters.ServeRequest: handler panics, flushing and hijacking through `Unwrap`, and informational status codes; the error page of a failed save is taken in whole.
- SplitCookies.RestoredIsSaved: errors of the cookie store are not modelled; a store whose `Get` fails hands out an empty session.
- Csrf.HandleCSRF: constant-time comparison and the quality of random bytes.
- IdleTimeout.StoppedExactly: clocks are not negative.
- Cloud key and secret providers, rendering, logging, forms, flash messages, context accessors and the example application: remote calls or easy members.
