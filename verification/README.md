# ibctl: verified model of schedulers, one-time codes, callback tokens and configuration overlay

A Dafny model of the parts of ibctl and its dashboard where a mistake would only show over a whole
run: a second 2FA prompt on a Sunday, a token accepted twice, a wrong one-time code, a save that is
skipped. Each module states what the code guarantees for every input or every run, and proves it.

`dafny verify dfyconfig.toml` checks everything.

## Modules

| file | models |
|---|---|
| `ColdRestart.dfy`, `ColdRestartRuns.dfy` | the weekly cold-restart scheduler as a machine of interruptible steps and as the loop itself; what holds over whole runs |
| `MarkerFiles.dfy`, `ColdRestartDisk.dfy` | the two marker files written through temporary files and renames, with readers and crashes; the scheduler running on top of them |
| `Bits.dfy`, `Base32.dfy`, `Sha1.dfy`, `Sha1Example.dfy`, `Totp.dfy` | base32, SHA-1, HMAC and TOTP against RFC 4648, FIPS 180-4, RFC 2104, RFC 4226 and RFC 6238, with the one-block example of FIPS 180 |
| `UsedTokens.dfy`, `RateLimiter.dfy`, `CallbackTokens.dfy`, `Reconnect.dfy` | the used-token cache, the sliding-window limiter, signed tokens and the command line that carries them, and the callback endpoint built from them |
| `SaveSettings.dfy` | the schedule parser and the daily timer |
| `TimeSync.dfy`, `Revocation.dfy` | the median of NTP offsets, the debounce tracker |
| `EnvOverlay.dfy`, `ConfigTables.dfy` | the environment overlay on nested values, and the same on tables changed in place |
| `Text.dfy`, `Calendar.dfy`, `Sorting.dfy` | strings and numerals, civil days and minutes, sorting |

## How the model reads the code

- A clock, a disk read, a write outcome, a crash, a channel, a network reply are inputs: an event, a
  field of a tick or of a request. Runs are arbitrary sequences of them.
- Methods that change state in the source are methods of classes here. Each is proved equal to a
  function of the old state, without assumptions about the clock; the run-level lemmas then say under
  which clocks the promises hold.
- A day is a (year, day-of-year) pair and its weekday is computed, so samples of one day cannot
  disagree about it.
- The fired marker is read and written whole in `ColdRestart`. `ColdRestartDisk` composes the
  scheduler with the files of `MarkerFiles`, where a write is a create, pieces, a close and a rename,
  and proves that every composed run is a run of the scheduler with whole reads and writes.
- SHA-1 works on bit vectors; the 64-bit length field keeps the low 64 bits of the bit length, as the
  code's integer does, and is the exact length for every input of fewer than 2^61 bytes. The base32
  accumulator works on numbers with shift, or and mask defined bit by bit. Token times and
  rate-limiter times are reals.
- Whitespace and case are those of the language at hand: Rust's `trim`, Python's `strip`, `int` and
  `lower` differ in the information separators and the Kelvin sign.
- Tables of a configuration are objects in `ConfigTables`. A ghost tree says which objects they are;
  `MirrorUnique` proves that the objects determine it.

## Where the code differs from its documentation or its intent

- The cold-restart marker is called the single-fire invariant. `UnreadableMarkerFiresTwice` and
  `BackwardClockFiresTwice` give runs with two Fires on one day. `AtMostOnceExactly` says over all
  runs when that happens; `SingleFireExactly` says that with days that do not go back it happens
  exactly when an iteration on a fired day cannot read the marker and nothing else stops it;
  `RefireExactly` adds, for a clock that goes back, the other way: the last marker written was
  another day's. When only the first read failed, the second sees the day as recorded, and a fresh
  authentication then no longer turns the Fire into a skip.
- The limiter documents eviction of the client with the oldest last hit. The newcomer's bucket is
  still empty when the oldest is looked for, so it is the newcomer that is removed, and the lookup on
  the next line fails. `ExactDecision` proves that this happens exactly for a client without an
  accepted request when the table is full, `LockedOutForever` that it then happens at every later
  request of that client, and `SecondClientLockedOut` gives a run where it does.
- `contains` tests the expiry a second time after sweeping. With a clock that never goes back the test
  never succeeds (`QueryOnlySweeps`). `FindsStaleExactly` says for any clock when it does, and
  `BackwardClockFindsStale` gives a run; the entry then stays in the deque without being in the
  dictionary.
- The cache bounds its size before it adds, so it can hold one entry more than its cap until the next
  call. `OverCapExactly` says exactly when, `TwoInACacheForOne` gives a run, and `SizeBound` proves
  that it is never more than one, whatever the clock does.
- An unreadable marker is meant to fail towards firing. `ExactlyOneSignalPerDueDay` proves that a due
  day is never missed for it, and counts the signals it adds: one for each later due tick of the day
  that cannot read the marker.
- `_looks_like_nack` is documented to refuse everything that is not an OK. `NackMeaning` proves what it
  refuses: replies of which stripping leaves nothing, or "error" or "nack" in any case at the start.
- The boundary guard speaks of the final two seconds of a time step; the code waits from second 27 on.
- `mint_token` documents a positive lifetime but does not check it: `MintedValidates` proves that with
  any other lifetime it returns a token that is malformed at every instant.
- A token is documented as single-use. Single use is of its text: the signature covers the numbers,
  not their numerals, so the same fields written otherwise are another text for the used-token cache.
  `SameFieldsAcceptedExactly` says exactly when such a text is accepted after the first, and
  `TwoSpellingsAccepted` gives a run with two acceptances for every token.

## Model

| member | source | states |
|---|---|---|
| `Calendar.OrdinalMonotone` | ibctl/src/cold_restart.rs:385-390 | the order of (year, day-of-year) pairs is the order of days, and different valid days have different day numbers |
| `Calendar.WeekdaysFollow` | ibctl/src/cold_restart.rs:199-199 | from every valid day to the next, over year ends too, the weekday moves on by one and the day number by one |
| `Calendar.KnownWeekdays` | ibctl/src/cold_restart.rs:199-199 | three dates with known weekdays and the leap years around them, which fix every other weekday |
| `Calendar.DayKeyInjective` | ibctl/src/cold_restart.rs:431-433 | the text "{year}-{day}" written to the marker names one day only, for every year, negative ones included |
| `Calendar.ReadableKey` | ibctl/src/cold_restart.rs:431-433 | the key of 7 January 2024 is "2024-7" |
| `ColdRestartRuns.DecisionMeaning` | ibctl/src/cold_restart.rs:193-327 | the decision in minutes of the day: due and unrecorded days fire, unless an authentication of that day between 01:00 and the target turns it into a skip |
| `ColdRestart.Scheduler.Iterate` | ibctl/src/cold_restart.rs:599-715 | one iteration of the loop, with every branch and early return, is one tick of the step machine |
| `ColdRestart.Scheduler.Loop` | ibctl/src/cold_restart.rs:586-717 | any stretch of the endless loop is a run of ticks, and a closed channel ends it |
| `ColdRestart.MarkerRoundTrip` | ibctl/src/cold_restart.rs:385-432 | what a completed write leaves on disk is read back as that day, and as no other |
| `ColdRestart.SpacedMarkerReads` | ibctl/src/cold_restart.rs:385-390 | whitespace around the key does not matter, and an absent or unreadable marker names no day |
| `ColdRestart.TicksAreRuns` | ibctl/src/cold_restart.rs:600-715 | whole iterations are runs of the interruptible steps, so run-level results hold of the loop |
| `ColdRestartRuns.StepKeepsTracked` | ibctl/src/cold_restart.rs:586-717 | every step, crash, failed read or failed write included, keeps: no fired day lies after the day last sampled, only that day is in flight, and once fired it is on disk |
| `ColdRestartRuns.StepKeepsSafe` | ibctl/src/cold_restart.rs:586-717 | every step also keeps that no day has fired twice or is on its way to, if a sample that would fire a day again can read the marker |
| `ColdRestartRuns.AtMostOneFirePerDay` | ibctl/src/cold_restart.rs:586-717 | over every run with any failed writes, crashes, restarts and equivalent markers, no day gets two Fires; only days must not go back, and only reads at samples that would fire a day again must succeed |
| `ColdRestartRuns.UnreadableMarkerFiresTwice` | ibctl/src/cold_restart.rs:385-390 | a failed marker read is enough for a second Fire on one day |
| `ColdRestartRuns.BackwardClockFiresTwice` | ibctl/src/cold_restart.rs:385-390 | a clock that goes back over another fired day is enough as well |
| `ColdRestartRuns.RefireExactly` | ibctl/src/cold_restart.rs:600-712 | any clock, any reachable state between ticks: a fired day fires again exactly when its first read fails or the last marker written was for another day, and everything else lets it |
| `ColdRestartRuns.BlindRefireExactly` | ibctl/src/cold_restart.rs:600-712 | days that do not go back: a fired day fires again exactly when its first read fails and everything else lets it |
| `ColdRestartRuns.AtMostOnceExactly` | ibctl/src/cold_restart.rs:586-717 | over every sequence of iterations with crashes anywhere in them: no day fires twice if and only if no completed iteration finds its day fired, the marker not saying so, and everything else in its favour |
| `ColdRestartRuns.SingleFireExactly` | ibctl/src/cold_restart.rs:586-717 | days that do not go back: no day fires twice if and only if no completed iteration of a fired day fails to read the marker with everything else in its favour |
| `ColdRestartRuns.NoneTwiceExactly` | ibctl/src/cold_restart.rs:586-717 | over the interruptible steps, days that do not go back: no day fires twice if and only if no send completes an iteration that began on a fired day without reading the marker |
| `ColdRestartRuns.TickOutcome` | ibctl/src/cold_restart.rs:607-712 | for every tick, whatever fails: when nothing happens, when Skipped is sent although the write failed, and that Fire follows a successful write only |
| `ColdRestartRuns.SignalsExactly` | ibctl/src/cold_restart.rs:193-252 | any clock, any failed reads, no failed write: a day gets one signal for each of its due ticks that cannot read the marker or comes when it names another day, wherever the warning window ends |
| `ColdRestartRuns.ExactlyOneSignalPerDueDay` | ibctl/src/cold_restart.rs:385-390 | days that do not go back, any failed reads: a day not recorded from the start gets none if it is never due, otherwise one plus one for each later due tick that cannot read the marker; exactly one if and only if it is due and all those ticks read it |
| `ColdRestartRuns.RecordedDayStaysSilent` | ibctl/src/cold_restart.rs:204-209 | a day recorded from the start gets one signal for each of its due ticks that cannot read the marker, so none if and only if all of them read it |
| `ColdRestartRuns.BootInstantForgotten` | ibctl/src/cold_restart.rs:211-222 | two processes with one target and different boot instants agree on everything on days that are neither boot day |
| `MarkerFiles.MarkerPathsDistinct` | ibctl/src/main.rs:195-196 | for all settings directories, the two markers and their temporary names are four different names |
| `MarkerFiles.MarkerNames` | ibctl/src/main.rs:195-196 | the names of the marker files in a settings directory, written with or without its slash |
| `MarkerFiles.OnlyOwnRenameChangesMarker` | ibctl/src/state_machine/markers.rs:49-66 | a marker changes only when its own writer renames a complete file, and then holds exactly those bytes |
| `MarkerFiles.StepStaysConsistent` | ibctl/src/cold_restart.rs:458-475 | every step of both writers, the readers, failures and crashes keeps names unaliased, partial files out of sight and open readers' files frozen |
| `MarkerFiles.VersionsAreWholeWrites` | ibctl/src/state_machine/markers.rs:38-66 | everything a marker ever held after its initial content is the whole argument of one call of its own writer |
| `MarkerFiles.NoTornReads` | ibctl/src/state_machine/markers.rs:32-34 | in every interleaving a finished read returns the version that was current when it opened the marker |
| `ColdRestartDisk.StepSimulates` | ibctl/src/cold_restart.rs:431-475 | each step of scheduler, writers and readers together is one step of the scheduler alone, with the text on disk as its marker |
| `ColdRestartDisk.RunSimulates` | ibctl/src/cold_restart.rs:431-475 | and so is every run, with crashes in the middle of a marker write |
| `ColdRestartDisk.AtMostOneFireThroughFiles` | ibctl/src/cold_restart.rs:586-717 | no day gets two Fires over every composed run, for all settings directories, whatever is cut off, fails or interleaves |
| `ColdRestartDisk.SingleFireThroughFilesExactly` | ibctl/src/cold_restart.rs:385-475 | over every composed run, days that do not go back: no day fires twice if and only if no send completes an iteration that began on a fired day with a read that did not come to its end |
| `Base32.DecodeBase32` | ibctl/src/totp.rs:131-178 | the loop returns the reference decoding: the whole bytes of the bit string, or the first error in reading order |
| `Base32.Decoded` | ibctl/src/totp.rs:131-178 | an accepted secret of n characters gives floor(5n/8) bytes, and never none |
| `Base32.AcceptedCharacters` | ibctl/src/totp.rs:151-160 | letters of either case and the digits 2 to 7, worth 0 to 31 in that order, and nothing else |
| `Base32.IgnoredAnywhere` | ibctl/src/totp.rs:131-178 | exactly blanks and hyphens are ignored, wherever they stand |
| `Base32.EmptyExactly` | ibctl/src/totp.rs:131-178 | a secret is called empty exactly when it is well formed with fewer than two characters of data |
| `Bits.WholeBytesBits` | ibctl/src/totp.rs:162-170 | the bytes put out carry the bit string's own bits, in order, up to its last whole byte |
| `Base32.ForeignCharacterRejects` | ibctl/src/totp.rs:151-160 | the first character outside the alphabet decides the error, whatever follows |
| `Base32.DataAfterPaddingRejects` | ibctl/src/totp.rs:145-149 | a character after padding is refused, whatever follows |
| `Base32.DecodeInvertsEncode` | ibctl/src/totp.rs:131-178 | decoding undoes the RFC 4648 encoding of every non-empty byte string under any case, spacing, hyphens and amount of padding |
| `Base32.RoundTrip` | ibctl/src/totp.rs:131-178 | in particular of the padded encoding as the RFC writes it |
| `Sha1.Pad` | ibctl/src/totp.rs:216-222 | the growing message becomes the padded message |
| `Fips.PaddedBits` | ibctl/src/totp.rs:216-222 | bit for bit this is section 5.1.1 of FIPS 180-4: a one bit, the least number of zero bits that fits, the length in 64 bits |
| `Fips.PaddedLength` | ibctl/src/totp.rs:224-224 | a padded message is a whole number of 64-byte blocks |
| `Fips.UnpadPadded` | ibctl/src/totp.rs:216-222 | every message whose bit length fits the field is recovered from its padded form |
| `Sha1.Schedule` | ibctl/src/totp.rs:225-232 | the array holds the 80 words of section 6.1.2 |
| `Sha1.Select` | ibctl/src/totp.rs:241-246 | the or-forms of choice and majority equal the xor-forms of section 4.1.1, with the constant of the round |
| `Fips.RoundConstants` | ibctl/src/totp.rs:241-246 | the constants are the square roots of 2, 3, 5 and 10 in 30 binary places, rounded down, for twenty rounds each |
| `Sha1.Round` | ibctl/src/totp.rs:241-257 | the five assignments of a round are one step of the standard |
| `Sha1.CompressChunk` | ibctl/src/totp.rs:224-265 | one chunk through 80 rounds and the additions is the compression of section 6.1.2 |
| `Sha1.Sha1` | ibctl/src/totp.rs:209-274 | the digest is the SHA-1 of the standard |
| `Fips.InitialValue` | ibctl/src/totp.rs:209-216 | the initial value counts its nibbles up, down, and takes every other one |
| `Fips.FeedForward` | ibctl/src/totp.rs:259-264 | whatever value a block starts from is added to what its rounds give |
| `Fips.BlocksChain` | ibctl/src/totp.rs:224-265 | each block starts from what the blocks before it gave |
| `Sha1Example.AbcDigest` | ibctl/src/totp.rs:209-274 | the digest of "abc" is a9993e36 4706816a ba3e2571 7850c26c 9cd0d89d |
| `Totp.HmacSha1` | ibctl/src/totp.rs:180-207 | the pads xor-ed in place give the HMAC of section 2 of RFC 2104, for short and long keys |
| `Totp.HmacOfPads` | ibctl/src/totp.rs:180-207 | any two pads that are right byte by byte give the keyed hash, for keys shorter, as long as and longer than a block |
| `Totp.XorPads` | ibctl/src/totp.rs:190-196 | both pads are the key block xor-ed with their constants |
| `Totp.TruncateDigest` | ibctl/src/totp.rs:117-121 | the masked shifts are the last 31 bits of the four bytes at the offset, which never leaves the digest |
| `Totp.TruncateMeaning` | ibctl/src/totp.rs:117-121 | in numbers: the four bytes from the offset, which is the last byte modulo 16, as one number modulo 2^31 |
| `Totp.Hotp` | ibctl/src/totp.rs:114-128 | the code has exactly d decimal digits and denotes the 31-bit number modulo 10^d |
| `Totp.HotpOfMessage` | ibctl/src/totp.rs:114-128 | the hashed message is the counter in eight bytes, most significant first |
| `Totp.GenerateTotpAt` | ibctl/src/totp.rs:96-129 | refusals in their order, otherwise the code for the time step's counter |
| `Totp.OneCodePerStep` | ibctl/src/totp.rs:96-129 | all instants of a time step have the code of the step's number, counted from 0 |
| `Totp.Refusals` | ibctl/src/totp.rs:96-113 | zero step, digits other than 6 to 8, and undecodable secrets are refused, each exactly when those before it are not |
| `Totp.ShorterCodeIsSuffix` | ibctl/src/totp.rs:122-128 | a shorter code is the end of a longer one for the same key and counter |
| `Totp.SafeWaitIsLeast` | ibctl/src/totp.rs:78-86 | the wait is the least one after which the position in the step is from 2 to 26 |
| `UsedTokens.UsedTokenCache.Sweep` | dashboard/app/api/reconnect.py:100-112 | the two loops are the two droppings of the reference |
| `UsedTokens.UsedTokenCache.Has` | dashboard/app/api/reconnect.py:114-123 | answer and new state of a query |
| `UsedTokens.UsedTokenCache.Add` | dashboard/app/api/reconnect.py:125-131 | new state of an addition |
| `UsedTokens.QueryOnlySweeps` | dashboard/app/api/reconnect.py:120-122 | with a clock that never goes back the second expiry test never succeeds |
| `UsedTokens.FindsStaleExactly` | dashboard/app/api/reconnect.py:114-123 | any clock: the query for an entry of a well-formed cache finds it stale exactly when it has expired, is among the last max, and an older entry has not expired |
| `UsedTokens.BackwardClockFindsStale` | dashboard/app/api/reconnect.py:120-122 | a run in which the clock goes back, the test succeeds, and deque and dictionary part |
| `UsedTokens.ContainsIsExact` | dashboard/app/api/reconnect.py:89-131 | over every sequence of calls, found means: among the last max effective additions and inside its lifetime, and conversely |
| `UsedTokens.DequeAgreesWithDictionary` | dashboard/app/api/reconnect.py:95-98 | on a clock that never goes back: no duplicates, the same elements, expiries in order, at most max + 1 entries |
| `UsedTokens.SizeBound` | dashboard/app/api/reconnect.py:107-131 | whatever the clock does, at most max + 1 entries |
| `UsedTokens.OverCapExactly` | dashboard/app/api/reconnect.py:107-131 | the cap is exceeded exactly right after adding a digest that is not remembered when the last max additions are all alive |
| `UsedTokens.TwoInACacheForOne` | dashboard/app/api/reconnect.py:125-131 | a run that exceeds the cap |
| `RateLimiter.Limiter.EvictIfNeeded` | dashboard/app/services/callback_common.py:237-246 | the first client with the least last hit is removed when the table is over its cap |
| `RateLimiter.OldestIsFirstLeast` | dashboard/app/services/callback_common.py:237-246 | the evicted client is the first with the least last hit: earlier ones have greater ones, later ones no smaller |
| `RateLimiter.Limiter.Check` | dashboard/app/services/callback_common.py:248-277 | outcome and new table of a check, eviction and failed lookup included |
| `RateLimiter.Admission` | dashboard/app/services/callback_common.py:257-261 | in every reachable table eviction removes the newcomer itself |
| `RateLimiter.ExactDecision` | dashboard/app/services/callback_common.py:248-277 | over every run: when the lookup fails, when a request is refused because its closed window is full, and that it is allowed otherwise |
| `RateLimiter.FullTableIsFinal` | dashboard/app/services/callback_common.py:237-261 | once as many clients as the table holds have been accepted, no other client ever is |
| `RateLimiter.LockedOutForever` | dashboard/app/services/callback_common.py:248-261 | a client that met the failed lookup meets it at every later request, whoever calls in between |
| `RateLimiter.SecondClientLockedOut` | dashboard/app/services/callback_common.py:248-261 | a run in which the failed lookup occurs |
| `RateLimiter.WindowNeverOverfull` | dashboard/app/services/callback_common.py:198-204 | no closed window of the configured length holds more than max acceptances of one client |
| `RateLimiter.BucketIsWindow` | dashboard/app/services/callback_common.py:261-277 | right after its check a bucket is the accepted times of the window |
| `CallbackTokens.MintedSplits` | dashboard/app/services/hitl_tokens.py:110-114 | a minted token is six dot-free segments and splits back into them |
| `CallbackTokens.MintExactly` | dashboard/app/services/hitl_tokens.py:65-114 | the text that is signed, character for character, and what minting refuses, in order |
| `CallbackTokens.MintedValidates` | dashboard/app/services/hitl_tokens.py:65-194 | for every lifetime a minted token yields its mode and expiry; with a positive one it is valid before expiry, expired from then on and refused for another intent; with any other it is always malformed |
| `CallbackTokens.AcceptedMeans` | dashboard/app/services/hitl_tokens.py:137-182 | a text is accepted exactly when its fields, written canonically, carry the signature, with the expected intent and a future expiry |
| `CallbackTokens.VerdictExactly` | dashboard/app/services/hitl_tokens.py:137-182 | the verdict on every text, in the order of the checks; a wrong signature is called that whatever the intent and expiry |
| `CallbackTokens.RespelledValidates` | dashboard/app/services/hitl_tokens.py:137-182 | zeros before the issue instant give another text with the same verdict and mode, under the same signature |
| `CallbackTokens.ResumeTokenOf` | ibctl/src/command_server.rs:56-96 | after the keyword in any case, every argument is returned trimmed, or nothing when that is empty |
| `CallbackTokens.NoOtherTokens` | ibctl/src/command_server.rs:56-96 | no other command carries a token, and none without an argument |
| `CallbackTokens.MintedSurvivesWire` | dashboard/app/api/reconnect.py:333-340 | a minted token sent as a line is recovered character for character |
| `Reconnect.Handler.Handle` | dashboard/app/api/reconnect.py:186-406 | response and new state of a request, with the checks in the source's order |
| `Reconnect.ResponseExactly` | dashboard/app/api/reconnect.py:186-406 | the response to every request of a run: the first failing check names it, with limits and replay told by the history |
| `Reconnect.NackMeaning` | dashboard/app/api/reconnect.py:409-429 | the refused replies, in characters |
| `Reconnect.RefusedCommandKeepsToken` | dashboard/app/api/reconnect.py:382-396 | a refused command leaves the cache as the query left it and the token unused |
| `Reconnect.CacheFollowsRun` | dashboard/app/api/reconnect.py:311-400 | over every run the cache's effective additions are the acceptances, in order |
| `Reconnect.ReplayIsExact` | dashboard/app/api/reconnect.py:311-322 | a POST that passes the other checks is refused as a replay exactly when its token is remembered |
| `Reconnect.AcceptedExactly` | dashboard/app/api/reconnect.py:282-406 | the complete condition for acceptance over a run: limits, key, mode, token, POST, unused, instance, acknowledgement |
| `Reconnect.AcceptedOnce` | dashboard/app/api/reconnect.py:311-400 | after an acceptance a later request with the same text is stopped by an earlier check, expiry among them, or as a replay |
| `Reconnect.MintedTokenSingleUse` | dashboard/app/api/reconnect.py:76-86 | with the configured cache, a token minted for at most 12 hours is accepted at most once if no 12 hours see more than 4096 acceptances |
| `Reconnect.FirstUseAccepted` | dashboard/app/api/reconnect.py:282-406 | after any history, a live minted token not accepted before, within the limits and by POST to a known and willing instance, is accepted |
| `Reconnect.SameFieldsAcceptedExactly` | dashboard/app/api/reconnect.py:282-406 | once a text was accepted, any text carrying the same signed fields is accepted exactly when the request is serviceable and of that mode, the fields are alive and its own digest is not remembered; the first text itself is remembered while they are alive |
| `Reconnect.TwoSpellingsAccepted` | dashboard/app/api/reconnect.py:311-400 | with the configured limits, every minted token and its respelling with zeros before the issue instant give a run with two acceptances |
| `SaveSettings.ParseSchedule` | ibctl/src/save_settings.rs:23-51 | the schedule is strictly increasing, on the clock face, and exactly the times the entries denote |
| `SaveSettings.WrittenScheduleReads` | ibctl/src/save_settings.rs:23-51 | any times in 24-hour or 12-hour form, in any numerals and case, among other words, separated by commas, semicolons and whitespace, give exactly those times in order |
| `SaveSettings.ExampleSchedule` | ibctl/src/save_settings.rs:22-22 | "8:00 AM, 5:30 PM" gives 08:00 and 17:30 |
| `SaveSettings.ParseTimeExactly` | ibctl/src/save_settings.rs:57-95 | an entry denotes a time exactly when it is two numerals around one colon, on the clock face, with at most AM or PM after them |
| `SaveSettings.ResolveHourMeaning` | ibctl/src/save_settings.rs:72-92 | which hours a 12-hour or 24-hour reading denotes, and which it refuses |
| `SaveSettings.ParseClock` | ibctl/src/save_settings.rs:57-95 | every time is read back from its 24-hour form |
| `SaveSettings.ParseClock12` | ibctl/src/save_settings.rs:57-95 | and from its 12-hour form, noon and midnight included |
| `SaveSettings.ScheduleUnique` | ibctl/src/save_settings.rs:41-50 | a schedule is determined by its set of times |
| `SaveSettings.DisplayRoundTrip` | ibctl/src/save_settings.rs:108-112 | reading the printed form of any schedule gives it back |
| `SaveSettings.ReadableDisplay` | ibctl/src/save_settings.rs:108-112 | the logged form of 08:00 and 17:30 |
| `SaveSettings.TimerLoop` | ibctl/src/save_settings.rs:115-146 | the loop sends what the timer specification sends, cut off at the first send the receiver no longer takes, and ends there |
| `SaveSettings.FireKeyInjective` | ibctl/src/save_settings.rs:16-20 | keys of different minutes differ |
| `SaveSettings.ReadableFireKey` | ibctl/src/save_settings.rs:16-20 | the key of 7 January 2024, 9:05 |
| `SaveSettings.ExactlyOnePerSampledMinute` | ibctl/src/save_settings.rs:118-134 | a minute sends one save if it is scheduled and sampled, otherwise none |
| `SaveSettings.EveryScheduledMinuteFiresOnce` | ibctl/src/save_settings.rs:115-146 | with samples at most a minute apart, every scheduled minute between first and last sample sends exactly one save |
| `TimeSync.VerifyServers` | ibctl/src/time_sync.rs:179-194 | no result without accepted offsets, otherwise their upper median and their number |
| `TimeSync.AcceptedExactly` | ibctl/src/time_sync.rs:179-194 | every answer of at most two minutes is kept as often as it was given, and no other |
| `TimeSync.MedianRank` | ibctl/src/time_sync.rs:179-194 | more than half of the values are not above the median, at least half not below it |
| `TimeSync.StoredOffsetIsSound` | ibctl/src/time_sync.rs:179-194 | the offset is an answer within two minutes and lies in every interval that holds a majority of the accepted answers |
| `Revocation.TagsAreKinds` | ibctl/src/state_machine/revocation.rs:138-187 | sources share a timer exactly when they differ in payload only, and then share the debounce |
| `Revocation.DebounceTimes` | ibctl/src/state_machine/revocation.rs:138-187 | which sources count at once and how long the others wait |
| `Revocation.RevocationTracker.Observe` | ibctl/src/state_machine/revocation.rs:212-234 | result and new map of an observation |
| `Revocation.ClearRestarts` | ibctl/src/state_machine/revocation.rs:236-246 | whatever comes before and after a clear, a cleared tag is answered as if nothing had happened before it, and any other tag as if it had not happened |
| `Revocation.ObserveIsExact` | ibctl/src/state_machine/revocation.rs:204-246 | over every history, a source matures exactly when an observation of its tag since the last clear is old enough |
| `Revocation.OtherTagsPlayNoPart` | ibctl/src/state_machine/revocation.rs:44-49 | events of other tags never change a tag's entry |
| `EnvOverlay.GetNested` | dashboard/app/preflight/env_overlay.py:59-67 | the walk returns the value at the path, or none |
| `EnvOverlay.GetSet` | dashboard/app/preflight/env_overlay.py:48-67 | what was set is read back |
| `EnvOverlay.SetGet` | dashboard/app/preflight/env_overlay.py:48-67 | setting what is there changes nothing |
| `EnvOverlay.SetSet` | dashboard/app/preflight/env_overlay.py:48-56 | the later set at a path wins |
| `EnvOverlay.GetSetOther` | dashboard/app/preflight/env_overlay.py:48-67 | a path unrelated by prefix reads as before |
| `EnvOverlay.SetsCommute` | dashboard/app/preflight/env_overlay.py:48-56 | sets at unrelated paths commute |
| `EnvOverlay.CoercedNumber` | dashboard/app/preflight/env_overlay.py:157-169 | every integer is read from its numeral, and negative ones are ignored |
| `EnvOverlay.CoercedList` | dashboard/app/preflight/env_overlay.py:170-171 | a list is read back from its comma-joined text, without the space around each item |
| `EnvOverlay.CoercedText` | dashboard/app/preflight/env_overlay.py:149-173 | nothing set and the empty text change nothing; texts without a kind are taken as they are |
| `EnvOverlay.TrueWords` | dashboard/app/preflight/env_overlay.py:43-45 | the texts that read as true, in characters |
| `EnvOverlay.FileWins` | dashboard/app/preflight/env_overlay.py:18-35 | a readable file named by VAR_FILE wins over the variable, which otherwise counts as it is |
| `EnvOverlay.DottedPath` | dashboard/app/preflight/env_overlay.py:48-56 | a dotted path is its keys joined by dots |
| `EnvOverlay.OverlayAppend` | dashboard/app/preflight/env_overlay.py:149-173 | a later row is applied to what the rows before it gave |
| `EnvOverlay.OverlayReads` | dashboard/app/preflight/env_overlay.py:143-173 | each mapped path reads its coerced variable, or its original value when unset or invalid |
| `EnvOverlay.OverlayFrame` | dashboard/app/preflight/env_overlay.py:143-173 | every path unrelated to the overridden ones reads as before |
| `EnvOverlay.OrderIndependent` | dashboard/app/preflight/env_overlay.py:149-149 | for prefix-free paths the result does not depend on the order of the map |
| `ConfigTables.SetNested` | dashboard/app/preflight/env_overlay.py:48-56 | the cursor loop on tables changed in place, making the missing ones, sets the value as on nested values, and no table becomes shared |
| `ConfigTables.MirrorUnique` | dashboard/app/preflight/env_overlay.py:48-56 | the tables determine the tree they hold, and so the configuration it stands for |
| `ConfigTables.PutMirrors` | dashboard/app/preflight/env_overlay.py:48-56 | one assignment to one table changes the configuration at that path only, because no table is shared |
| `EnvOverlay.EmptyTableFirst` | dashboard/app/preflight/env_overlay.py:53-54 | making an empty table on the way does not change what the final assignment gives |
| `ConfigTables.ApplyEnvOverrides` | dashboard/app/preflight/env_overlay.py:149-173 | the loop over the rows, each branch setting in place, is the overlay of the rows in order |

## Left out

- The main state machine, the recovery coordinator, dialog handlers, the Java agent client, web pages, OAuth, SSE and ZMQ publishing: not part of this model.
- Sockets, subprocesses and the floating-point NTP sample: a sample is an optional integer offset here.
- `parse_retry_seconds`, `is_twofa_failure`, `parse_cold_restart_time`, the revocation `next_state` table and the other arms of `parse_command`: they would only add easy members.
- Time zones and daylight-saving rules: a sample is a civil day and time; a local clock that shifts is a clock that may go back.
- Overlapping callback requests: an await lies between the cache check and the insertion, so the single-use results are for requests that do not overlap.
- Power loss before the page cache is flushed: a crash in `MarkerFiles` ends processes, not the disk.
- The HMAC-SHA-256 signature, the base64 test and the SHA-256 digest of tokens: parameters; only the shape of an encoded signature is assumed.
- Reconnect.MintedTokenSingleUse: is about one exact token text, as `SameFieldsAcceptedExactly` says it must be.
- ConfigTables.SetNested: is about configurations that share no table between two places, as a parsed file gives them, and about values that are no tables, as the overlay sets them.
- Text.PyInt: reads ASCII numerals with sign, grouping and surrounding whitespace, not other Unicode digits, and without the interpreter's limit on the number of digits.
- CallbackTokens.ResumeToken: recognises the keyword in ASCII letters; characters that only Unicode upper-casing maps to ASCII are not modelled.
