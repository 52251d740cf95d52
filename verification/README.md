# Verification of the M5Stack PC remote

A Dafny 4.11 model of the logic behind the remote and its Windows bridge, with proofs about whole
runs of it. `dafny verify dfyconfig.toml` checks everything.

| file | what it models |
|---|---|
| `Calendar.dfy` | day numbers and civil dates |
| `CalendarScreen.dfy` | clock band, month grid, redraw keys and the time-dependent part of the panel |
| `Panel.dfy` | the panel loop: touch, backlight, confirm screen, operation lock and redrawing |
| `ReplayGuard.dfy`, `ReplayThreads.dfy` | the bridge's nonce store, for one thread and for many |
| `ReplayLimits.dfy` | where at-most-once acceptance ends, for every size of the store |
| `Debounce.dfy`, `PcNotices.dfy` | stable notification, and its composition with wake and sleep watches |
| `UpdateCursor.dfy` | the getUpdates cursor against a server with lost responses |
| `Callbacks.dfy`, `TelegramClient.dfy` | button data, confirmations, setting input and the default-deny lock |
| `TelegramControls.dfy` | what each button and each command does, on the texts themselves |
| `TelegramSession.dfy` | the client driven by the cursor protocol over a whole session |
| `WireStrings.dfy`, `OtaDownload.dfy` | signed strings, the verified manifest, the streaming download |
| `Versions.dfy` | version strings, their order, and the notice about a newer one |
| `Text.dfy`, `Wrappers.dfy` | separated fields, decimal numerals, trimming; options and results |

Objects that the source updates in place are classes (`NonceStore`, `StatusLoop`, `Cursor`,
`OtaSlot`, `StreamingSha256`, `Client`, `PanelLoop`, `TimeDisplay`). Their methods are proved
against functions of the old state or of the history; the lemmas are about those functions and
about runs of them. Values that the source passes around are datatypes.

Four guarantees do not hold without a condition. Each has its exact condition, and inputs that
show the failure:

- A nonce is accepted again exactly if a request evicts, at a time at which its stored timestamp
  has expired, between two of its insertions (`AcceptsTwiceExactlyWhen`, and
  `AcceptsTwiceConcurrentlyExactlyWhen` for threads). While the clock does not go back this cannot
  happen to a nonce signed with one timestamp, and it can to any nonce signed with two
  (`SignerIsSafeExactlyWhen`). `insert_once` overwrites the stored timestamp even when it reports a
  replay, so that even one and the same request can be accepted twice (`OverwriteReopensRequest`).
- A clock that steps back, or clock readings that reach the store out of order, reopen any nonce
  (`SteppedBackClockReopensNonce`, `StaleClockReadingReopensNonce`). These runs exist at every
  capacity and stride, the shipped ones included. The size bound needs no such assumption.
- A wake that another thread begins while the status loop ends the previous watch is lost
  (`RacingWakeSurvivesExactlyWhen` says exactly when).
- The main screen reads the clock twice, key first. While its key is unchanged the band is fresh
  exactly if those two readings fell into one minute (`BandIsFreshExactlyWhen`), as they do unless
  the clock steps back (`MinuteKeyBetween`, `SteppedBackClockLeavesStaleBand`).

Signed request strings are unambiguous as soon as the method and either the path or the nonce are
one line. Request and manifest strings are disjoint without any condition.

## Model

| member | source | states |
|---|---|---|
| Calendar.CivilFollowsTheCalendar | firmware/src/ui.rs:364-375 | day 0 is 1970-01-01 and, for every integer, the next day number is the Gregorian next date under the leap-year and month-length rules |
| Calendar.CivilIsValidAndInvertible | firmware/src/ui.rs:364-375 | every integer yields a date that exists, and that date determines the integer |
| Calendar.CivilOfDays | firmware/src/ui.rs:364-375 | every existing date is reached, so the conversion is a bijection |
| Calendar.CalendarIsUnique | firmware/src/ui.rs:364-438 | nothing else starts at 1970-01-01 and steps by the calendar's next date, forwards and backwards |
| Calendar.NextDateIsNextDay | firmware/src/ui.rs:424-438 | the successor built from month lengths and leap years is exactly one day later |
| Calendar.YearOfEraIsExact | firmware/src/ui.rs:366-370 | the division formula finds the year and day of year for each of the 146 097 days of an era |
| Calendar.WeekdayIsDayOfWeek | firmware/src/ui.rs:355-355 | the day number shifted by four, modulo 7, is the weekday of the shown date by the rule of RFC 3339, Appendix B |
| Calendar.SameDateYearsLater | firmware/src/ui.rs:342-375 | a day of the year falls on the same weekday again after 1827 days at the earliest |
| CalendarScreen.MinuteKeyIsExact | firmware/src/main.rs:999-1005 | equal minute keys mean identical clock strings, synced or not |
| CalendarScreen.UsualTimesAreRepresentable | firmware/src/main.rs:999-1005 | up to the year 9999 nothing overflows; the key is the local minute, or the least 64-bit integer before synchronisation |
| CalendarScreen.BandText | firmware/src/ui.rs:342-360 | the band reads HH:MM and MM/DD WWW of the shifted instant, digit by digit, with the weekday of the shown date; dashes before 1 700 000 000 |
| CalendarScreen.MinuteKeyBetween | firmware/src/main.rs:1009-1017 | strings read after the key are still right when a later reading has the same key |
| CalendarScreen.ClockShows | firmware/src/ui.rs:342-360 | the band names minute of day, month, day and weekday, and determines all four |
| CalendarScreen.BandIsExact | firmware/src/main.rs:999-1005 | less than 1827 days apart, synced or not, two instants show the same band if and only if their minute keys are equal |
| CalendarScreen.BandRepeats | firmware/src/ui.rs:342-360 | at 1827 days the band of another minute does come back, so the bound is tight |
| CalendarScreen.BandIsFreshExactlyWhen | firmware/src/main.rs:917-923 | while the key is unchanged, the band drawn after it is fresh if and only if both readings fell into the same minute |
| CalendarScreen.SteppedBackClockLeavesStaleBand | firmware/src/main.rs:1009-1017 | with a clock that steps back between the readings an equal key hides a stale band |
| CalendarScreen.DayOfSameMonth | firmware/src/ui.rs:465-465 | going back day - 1 days reaches the first of the same month, and days of one month are consecutive |
| CalendarScreen.PlaceOfDay | firmware/src/ui.rs:467-473 | the running index never leaves 6 x 7; its column is the true weekday, its row counts the Sundays so far |
| CalendarScreen.FillWeeks | firmware/src/ui.rs:467-473 | after the loop a cell holds day n exactly if n is its offset from the first weekday, and is empty otherwise |
| CalendarScreen.FilledGridShowsMonth | firmware/src/ui.rs:465-473 | the filled grid shows every day of the month in its place and nothing else |
| CalendarScreen.BuildView | firmware/src/ui.rs:454-480 | the view of any instant is the unsynced placeholder or the month's title, grid and today |
| CalendarScreen.TitleText | firmware/src/ui.rs:454-480 | the title reads YYYY-MM of the local day, and dashes before synchronisation |
| CalendarScreen.GridIsDetermined | firmware/src/ui.rs:441-450 | a month has only one grid with these properties |
| CalendarScreen.TodayIsShown | firmware/src/ui.rs:454-480 | today occupies exactly one cell, in the column of today's weekday |
| CalendarScreen.DayKeyIsExact | firmware/src/main.rs:1022-1035 | the day key is unchanged if and only if the calendar view is unchanged, and between synced instants if and only if the local day is |
| CalendarScreen.TimeDisplay.RefreshMain | firmware/src/main.rs:1009-1017 | after drawing, the main screen equals a fresh render at the last reading |
| CalendarScreen.TimeDisplay.RefreshCalendar | firmware/src/main.rs:1022-1035 | after drawing, the calendar equals a fresh render at its only reading |
| CalendarScreen.TimeDisplay.RefreshCurrentScreen | firmware/src/main.rs:1040-1053 | redraws the shown screen, which then equals a fresh render, and leaves a confirm screen alone |
| CalendarScreen.TimeDisplay.EndOfIteration | firmware/src/main.rs:917-939 | a lit calendar equals a fresh render at the latest reading; a lit main screen does so exactly if its band is in step with its key, in particular when the clock did not go back; a dark one draws nothing |
| ReplayGuard.NonceStore.EvictExpired | m5stack-pc-bridge/src/auth.rs:67-76 | keeps exactly the unexpired entries, which are those that EvictionKeepsWindow describes |
| ReplayGuard.EvictionKeepsWindow | m5stack-pc-bridge/src/auth.rs:67-76 | unexpired means timestamp - skew <= now <= timestamp + skew, and the same instant if the skew is negative |
| ReplayGuard.NonceStore.InsertOnce | m5stack-pc-bridge/src/auth.rs:43-65 | the new store and verdict for every store, nonce, timestamp and time |
| ReplayGuard.NonceStore.VerifyRequest | m5stack-pc-bridge/src/auth.rs:80-118 | checks skew, then signature, then replay, with the verdicts that VerdictIs describes |
| ReplayGuard.VerdictIs | m5stack-pc-bridge/src/auth.rs:96-117 | in plain integers: outside the window a skew error, inside it unsigned a signature error, and only a signed request inside it is a replay or accepted, or touches the store |
| ReplayGuard.WellFormedNonces | m5stack-pc-bridge/src/auth.rs:56-60 | a nonce is up to 64 ASCII letters, digits, hyphens, dots and underscores |
| ReplayGuard.EvictsEveryHundred | m5stack-pc-bridge/src/auth.rs:53-55 | the shipped store evicts at every multiple of 100 and from 10 000 entries on |
| ReplayGuard.AcceptedExactlyWhen | m5stack-pc-bridge/src/auth.rs:43-65 | a nonce is new exactly if it is well formed, fewer than the capacity are unexpired, and it is not stored, or stored, expired and evicted by this call |
| ReplayGuard.UnexpiredEntriesSurvive | m5stack-pc-bridge/src/auth.rs:67-76 | no call drops or alters another unexpired entry |
| ReplayGuard.AcceptedNonceIsGuarded | m5stack-pc-bridge/src/auth.rs:43-118 | over any run an accepted nonce is stored with its timestamp or too old to pass the skew check |
| ReplayGuard.NoNonceAcceptedTwice | m5stack-pc-bridge/src/auth.rs:80-118 | over any run with a nondecreasing clock, a nonce signed with one timestamp is not accepted twice, whatever happens to other nonces |
| ReplayGuard.AcceptedAgainExactlyWhen | m5stack-pc-bridge/src/auth.rs:43-76 | over any run at all, a nonce is accepted again if and only if, since its last insertion, a request took the evicting branch when its timestamp had expired |
| ReplayGuard.AcceptsTwiceExactlyWhen | m5stack-pc-bridge/src/auth.rs:43-118 | a run accepts some nonce twice if and only if some request forgets one between two of its insertions |
| ReplayGuard.StoreIsBounded | m5stack-pc-bridge/src/auth.rs:53-64 | in any sequential run the store never exceeds its capacity |
| ReplayLimits.SignerIsSafeExactlyWhen | m5stack-pc-bridge/src/auth.rs:43-118 | at every capacity, stride and skew, a well-formed nonce is accepted at most once in every run with a nondecreasing clock if and only if it is signed with one timestamp |
| ReplayLimits.TwoTimestampsReopenNonce | m5stack-pc-bridge/src/auth.rs:53-64 | at every capacity and stride, a nonce signed with two timestamps is accepted twice in a run whose other nonces have one |
| ReplayLimits.OverwriteReopensRequest | m5stack-pc-bridge/src/auth.rs:64-64 | at every capacity from two and every stride, a refused request with an older timestamp lets the very same request in twice |
| ReplayLimits.SteppedBackClockReopensNonce | m5stack-pc-bridge/src/auth.rs:67-99 | at every capacity and stride, a clock that steps back once lets any request in twice |
| ReplayThreads.StoreStaysBounded | m5stack-pc-bridge/src/auth.rs:53-64 | for every interleaving of T threads, store size plus threads about to insert stays within capacity - 1 + T |
| ReplayThreads.RunIsExplained | m5stack-pc-bridge/src/auth.rs:43-65 | every interleaving equals the sequence of its evictions and insertions |
| ReplayThreads.NoNonceAcceptedTwiceConcurrently | m5stack-pc-bridge/src/auth.rs:43-118 | under every interleaving whose store accesses are in clock order, no nonce is accepted twice |
| ReplayThreads.AcceptedAgainExactlyWhenExpelled | m5stack-pc-bridge/src/auth.rs:43-76 | in any history of store accesses, a later insertion of a nonce is accepted if and only if an eviction in between found its timestamp expired |
| ReplayThreads.AcceptsTwiceConcurrentlyExactlyWhen | m5stack-pc-bridge/src/auth.rs:43-118 | under every interleaving, in whatever order clocks were read, a nonce is accepted twice if and only if an eviction expels it between two of its insertions |
| ReplayThreads.StaleClockReadingReopensNonce | m5stack-pc-bridge/src/auth.rs:53-64 | at every capacity and stride, and for every well-formed nonce, two threads out of clock order accept it twice |
| Debounce.RefinesHistory | shared/notify-stable/src/lib.rs:51-88 | for every n the streak counter notifies exactly when the last n observations all differ from the last baseline |
| Debounce.ReportsAlternate | shared/notify-stable/src/lib.rs:67-88 | successive notices have opposite values |
| Debounce.ReportsAreRare | shared/notify-stable/src/lib.rs:67-88 | n times the number of notices is below the number of polls |
| Debounce.StableNotifyObeysHistory | shared/notify-stable/src/lib.rs:38-89 | PC notification without wake or suppression is that rule with n = 2 |
| Debounce.PowerNotifyObeysHistory | shared/battery/src/lib.rs:123-162 | power notification is that rule with n = 5 |
| PcNotices.StatusLoop.BeginWakeWatch | firmware/src/telegram.rs:130-135 | a sent wake starts or restarts the watch if the PC is off and ends it otherwise |
| PcNotices.StatusLoop.BeginSleepWatch | firmware/src/telegram.rs:154-157 | an accepted sleep arms the suppression afresh |
| PcNotices.StatusLoop.PollSleepWatch | firmware/src/telegram.rs:165-170 | one atomic step of the sleep watch |
| PcNotices.StatusLoop.StatusPoll | firmware/src/main.rs:532-594 | one poll moves all three automata and reports their notices, also when a wake begins in mid-poll |
| PcNotices.OutcomeIsConsistent | firmware/src/main.rs:559-586 | a wake success and a suppressed off never coincide |
| PcNotices.NotifiedIsLastTurn | firmware/src/main.rs:559-587 | the notified state is the last thing the user was told or that was silently recorded |
| PcNotices.NoticeIsEarned | firmware/src/main.rs:532-594 | each started notice follows a stopped notice, a suppressed off or an initial off with no report of on in between, and symmetrically |
| PcNotices.NoticeFollowsTwoAgreeingPolls | shared/notify-stable/src/lib.rs:67-88 | each stable notice repeats the observation of the poll just before it |
| PcNotices.NoticeExactlyWhen | firmware/src/main.rs:582-594 | a stable notice is given if and only if two successive polls, neither suppressed nor a wake success, both see the opposite of what was told or recorded last |
| PcNotices.SleepSilencesStopped | shared/wake-check/src/lib.rs:103-145 | after an accepted sleep, if the PC is first seen off within six polls, no stopped notice comes before the next report of on |
| PcNotices.SuppressionEnds | shared/wake-check/src/lib.rs:115-145 | after six online polls with no new sleep, two further offline polls report stopped |
| PcNotices.SuppressedExactlyWhen | shared/wake-check/src/lib.rs:103-145 | an off is suppressed if and only if it belongs to the first offline stretch after an accepted sleep, begun before six online polls |
| PcNotices.WakeNoticeAnswersOneWake | shared/wake-check/src/lib.rs:36-59 | each wake notice answers one begun wake, with no other wake notice since: succeeded if the PC is seen on, timed out only after the limit |
| PcNotices.WakeIsAnsweredOnce | shared/wake-check/src/lib.rs:36-59 | conversely a watched wake that no later one replaces is answered at the first poll that sees the PC on or finds the limit reached, and at no other |
| PcNotices.SentWakeIsAnsweredOnce | firmware/src/telegram.rs:130-135 | a wake sent while the PC is off is answered by the first poll that sees it on or three minutes gone, one sent while it is on never |
| PcNotices.RacingWakeSurvivesExactlyWhen | firmware/src/main.rs:543-555 | a wake begun between the read and the clear survives exactly if the poll did not end the watch it had read |
| UpdateCursor.NextOffsetIsLeast | shared/telegram-cursor/src/lib.rs:40-46 | the offset becomes the least one not below the old one and beyond every received id |
| UpdateCursor.Cursor.Advance | shared/telegram-cursor/src/lib.rs:36-52 | moves the offset over all ids, dispatches exactly if synced before, and syncs on an empty response |
| UpdateCursor.SessionDispatchesExactly | firmware/src/telegram.rs:1814-1854 | against a server with increasing ids and lost responses, the dispatched updates are exactly those past the start-up backlog and below the offset, once each and in order |
| UpdateCursor.OffsetNeverDecreases | shared/telegram-cursor/src/lib.rs:36-46 | in every session the offset never decreases |
| UpdateCursor.BacklogEndsAtFirstEmpty | shared/telegram-cursor/src/lib.rs:47-52 | dispatching starts at the first empty response received, and the backlog is all that had arrived by then |
| Callbacks.ParseInvertsBuild | firmware/src/telegram.rs:1571-1600 | data is accepted as a callback exactly if it is what is built for it and its nonce is nonempty and colon-free |
| Callbacks.GenerateNonce | firmware/src/telegram.rs:993-1001 | six characters picked from the alphabet by the random numbers |
| Callbacks.NonceAlphabet | firmware/src/telegram.rs:993-1001 | the alphabet is the digits and capital letters without 0, 1, I and O |
| Callbacks.GeneratedNoncesRoundTrip | firmware/src/telegram.rs:993-1001 | every generated nonce survives the trip through a button |
| TelegramClient.RunIsLawful | firmware/src/telegram.rs:1602-1812 | in every run each event is allowed by the history before it |
| TelegramClient.EffectWasConfirmed | firmware/src/telegram.rs:1179-1252 | every power action, setting write and flash has an earlier issue of the same operation and payload, attempted by the allowed user in time, with nothing issued, attempted or locked in between; the update behind it is the confirm button or the typed confirmation of that operation with that nonce |
| TelegramClient.EffectHasConfirmingUpdate | firmware/src/telegram.rs:1296-1378 | from any history, an effect comes only from a confirm button or a typed confirmation of it, right after its attempt |
| TelegramClient.LawfulEffectHasIssue | firmware/src/telegram.rs:1244-1252 | the same for any lawful history |
| TelegramClient.EffectsUseDistinctIssues | firmware/src/telegram.rs:1244-1252 | no issue serves two effects |
| TelegramClient.NothingAfterRestart | firmware/src/telegram.rs:1472-1516 | a successful flash is the last event of a client, since the device restarts |
| TelegramClient.HaltedExactlyWhen | firmware/src/telegram.rs:1508-1514 | exactly a successful flash ends the client |
| TelegramClient.LiveExactlyWhen | firmware/src/telegram.rs:1179-1252 | what can be confirmed is the last issue with no attempt or lock after it, for the configured time |
| TelegramClient.LiveInputExactlyWhen | firmware/src/telegram.rs:1086-1104 | what is waited for is the last opened input not yet taken or locked away, for the configured time |
| TelegramClient.LockedExactlyWhen | firmware/src/telegram.rs:1136-1142 | the last lock or unlock decides |
| TelegramClient.AuthorizedExactlyWhen | shared/config-validation/src/lib.rs:140-148 | the allowed user is the one whose decimal id is configured, whitespace around it aside |
| TelegramControls.StrangersChangeNothing | firmware/src/telegram.rs:1602-1616 | an update from anyone else changes nothing |
| TelegramControls.CancelButton | firmware/src/telegram.rs:1700-1730 | for every operation and nonce the cancel button executes nothing; unlocked it only uses the confirmation up |
| TelegramControls.ConfirmButton | firmware/src/telegram.rs:1700-1769 | the confirm button carries out the live confirmation if nonce, operation and time fit, and otherwise only uses it up; what each operation does is spelled out |
| TelegramControls.StatusButtons | firmware/src/telegram.rs:1650-1683 | refresh does nothing, wake wakes, reboot and shutdown ask for confirmation |
| TelegramControls.SettingButtons | firmware/src/telegram.rs:1643-1649 | each setting's button waits for its value |
| TelegramControls.LockButtons | firmware/src/telegram.rs:1628-1698 | unlocking works while locked, locking only while unlocked |
| TelegramControls.LockCommands | firmware/src/telegram.rs:1542-1551 | /lock and /unlock always work |
| TelegramControls.WakeCommand | firmware/src/telegram.rs:1552-1552 | /wake wakes without confirmation |
| TelegramControls.PowerCommands | firmware/src/telegram.rs:1553-1555 | /reboot, /shutdown and /sleep ask for confirmation of that action |
| TelegramControls.UpdateCommand | firmware/src/telegram.rs:1323-1361 | /update asks for confirmation of the manifest's version unless it is the running one |
| TelegramControls.SettingCommands | firmware/src/telegram.rs:1561-1563 | a setting command takes a valid value to confirmation, and waits for one otherwise |
| TelegramControls.ConfirmCommands | firmware/src/telegram.rs:1556-1564 | each typed confirmation does what the confirm button of its operation does |
| TelegramControls.OtherCommands | firmware/src/telegram.rs:1565-1566 | any other command does nothing |
| TelegramControls.PlainText | firmware/src/telegram.rs:1790-1803 | a text that is no command is the awaited value, if one is awaited and it is not too late |
| TelegramClient.LockedMeansNothingPending | firmware/src/telegram.rs:1136-1142 | locked implies no pending confirmation and no pending input |
| TelegramClient.LockDeniesEverythingElse | firmware/src/telegram.rs:1525-1534 | while locked only /lock, /unlock and the unlock button of the allowed user have any effect |
| TelegramClient.ConfirmButtonExecutes | firmware/src/telegram.rs:1700-1769 | the confirm button of the live confirmation, in time and unlocked, executes it; a flash only at the confirmed version |
| TelegramClient.TypedPowerActionRuns | firmware/src/telegram.rs:1553-1558 | a typed request answered in time by the matching typed confirmation with its nonce runs that action and no other |
| TelegramClient.CommandIsRead | firmware/src/telegram.rs:1805-1811 | the command is the text up to the first space without a bot name, the arguments are the trimmed rest |
| Text.TrimIsExact | shared/config-validation/src/lib.rs:140-148 | trimming removes the whitespace at both ends and nothing else |
| TelegramClient.Client.StartSettingInput | firmware/src/telegram.rs:1086-1098 | opens an input with a deadline |
| TelegramClient.Client.TakePendingInput | firmware/src/telegram.rs:1101-1104 | takes the input, expired or not, and yields it only in time |
| TelegramClient.Client.HandleSettingInput | firmware/src/telegram.rs:1108-1123 | a valid value asks for confirmation, an invalid one reopens the input |
| TelegramClient.Client.HandleSetCommand | firmware/src/telegram.rs:1126-1132 | without arguments the command opens an input |
| TelegramClient.Client.SetOperationLock | firmware/src/telegram.rs:1136-1142 | locking discards confirmation and input |
| TelegramClient.Client.RequestConfirmation | firmware/src/telegram.rs:1179-1240 | replaces whatever was pending by a new confirmation with nonce and deadline |
| TelegramClient.Client.ConsumePending | firmware/src/telegram.rs:1244-1252 | always empties the slot; yields the operation only for the right nonce in time |
| TelegramClient.Client.ExecuteConfirmed | firmware/src/telegram.rs:1390-1416 | attempts the confirmed effect and records whether it worked; a flash only if the fetched manifest has the confirmed version, and a successful one ends the client |
| TelegramClient.Client.HandleConfirmation | firmware/src/telegram.rs:1296-1378 | an attempt of the wrong kind is used up without effect |
| TelegramClient.Client.HandleUpdateCommand | firmware/src/telegram.rs:1323-1361 | offers a verified manifest unless it is the running version |
| TelegramClient.Client.DispatchCommand | firmware/src/telegram.rs:1525-1568 | adds exactly the events that the history allows for the command |
| TelegramClient.Client.HandleCallbackQuery | firmware/src/telegram.rs:1602-1769 | adds exactly the events that the history allows for the button, none for other senders |
| TelegramClient.Client.HandleMessage | firmware/src/telegram.rs:1771-1812 | adds exactly the events that the history allows for the text, none for other senders |
| TelegramClient.Client.ProcessUpdates | firmware/src/telegram.rs:1814-1854 | handles a batch in order once synced, and only moves the cursor before |
| TelegramClient.BatchesCompose | firmware/src/telegram.rs:1814-1854 | the client's history is that of all dispatched updates in order |
| TelegramSession.RunSession | firmware/src/telegram.rs:1814-1854 | over every session, responses lost or not, the client's history is that of exactly the dispatched updates, and its cursor is the session's |
| TelegramSession.SessionEffectWasConfirmed | firmware/src/telegram.rs:1179-1252 | across lost responses every effect has its issue, and its confirming update, among the updates past the backlog and below the offset |
| WireStrings.CanonicalStringIsInjective | shared/pc-remote-signing/src/lib.rs:23-38 | the request string determines upper-cased method, path, timestamp, nonce and body hash if method and nonce hold no newline |
| WireStrings.CanonicalStringIsInjectiveForAnyNonce | shared/pc-remote-signing/src/lib.rs:23-38 | so it does if method and path hold no newline, whatever the nonce holds |
| WireStrings.NewlinesCollide | shared/pc-remote-signing/src/lib.rs:30-37 | newlines in both path and nonce let two requests share a string |
| WireStrings.SignedRequestLines | shared/pc-remote-signing/src/lib.rs:23-38 | the signed text is METHOD, path, timestamp, nonce and body hash, a line each |
| WireStrings.ManifestStringIsInjective | shared/pc-remote-signing/src/lib.rs:88-95 | the manifest string determines its fields for a one-line version and a hex hash |
| WireStrings.SigningDomainsAreDisjoint | shared/pc-remote-signing/src/lib.rs:77-95 | no request string equals any manifest string |
| WireStrings.VerifiedExactlyWhen | shared/pc-remote-signing/src/lib.rs:113-130 | a manifest is accepted if and only if its fields are plausible and its signature has the digits, up to letter case, of the MAC of tag, version, size, hash and date |
| WireStrings.FieldErrors | shared/pc-remote-signing/src/lib.rs:421-438 | which field is refused by name: empty version, zero size, a hash that is not 64 hex digits, empty date, empty signature |
| OtaDownload.FetchVerifiedManifest | firmware/src/ota.rs:169-209 | a body delivered within 4096 bytes is refused as unparsable, for a field, or for a signature that is not the MAC of its text, and accepted otherwise; an unsynced clock, a failed connection, another status and a broken or long body have their errors |
| OtaDownload.ReadLoop | firmware/src/ota.rs:246-282 | for every sender, also one that never stops: what is written, where it stops, with which error, and exactly which reports are made |
| OtaDownload.ReportsKeepUp | firmware/src/ota.rs:269-280 | the reports rise by five points each and the last one always lags by less than five |
| OtaDownload.DownloadAndFlash | firmware/src/ota.rs:217-304 | never writes beyond the announced size, and nothing unless the request is answered with 200; activates the slot exactly if the body is the manifest's image, and names what differs otherwise; reports those of the loop and one more |
| OtaDownload.ReportsAreFew | firmware/src/ota.rs:269-280 | at most 20 reports in the loop |
| OtaDownload.ReportsLengthenBar | shared/pc-remote-signing/src/lib.rs:266-277 | each report in the loop shows a longer bar |
| OtaDownload.PercentBounds | shared/pc-remote-signing/src/lib.rs:249-257 | at most 100 percent, and 100 when everything has arrived |
| OtaDownload.PercentIsRoundedDown | shared/pc-remote-signing/src/lib.rs:249-277 | the percentage is the floor, and the bar shows one cell for every five points begun |
| Versions.SplitVersion | shared/pc-remote-signing/src/lib.rs:356-372 | the slot-filling loop computes the parser that the next two members characterise |
| Versions.ParseReadsWhatIsSpelled | shared/pc-remote-signing/src/lib.rs:353-372 | accepted are exactly three dotted 64-bit numerals with an optional suffix, and they are read as spelled |
| Versions.ParseInvertsPrinting | shared/pc-remote-signing/src/lib.rs:356-372 | parsing inverts printing of any 64-bit triple and suffix |
| Versions.MajorDecidesFirst | shared/pc-remote-signing/src/lib.rs:383-393 | newer means a greater major, then minor, then patch number of the offered version, older the reverse, same an equal suffix too |
| Versions.ComparisonIsAntisymmetric | shared/pc-remote-signing/src/lib.rs:383-393 | swapping the arguments swaps newer and older and nothing else |
| Versions.ComparisonIsTransitive | shared/pc-remote-signing/src/lib.rs:383-393 | newer is transitive, and the suffix changes no newer verdict |
| Versions.NotifiesAtNewMaxima | shared/pc-remote-signing/src/firmware_notice.rs:9-27 | over any offers a notice comes exactly at those above the current version and every earlier offer |
| Panel.PanelLoop.Iterate | firmware/src/main.rs:663-953 | one iteration moves screen, touch memory and backlight and yields its outcome; on every path, early exits included, a screen that is lit afterwards is as fresh as its keys allow |
| Panel.PanelLoop.HandlePress | firmware/src/main.rs:720-896 | a press does what the coordinate tables say and redraws what it opens; a rejected one leaves a freshly drawn main screen |
| Panel.ExecutionTakesTwoPresses | firmware/src/main.rs:720-900 | each reboot or shutdown follows an unlocked press on its button while online, a touch-free sample, and an unlocked OK, with the confirm screen up in between |
| Panel.ExecutionsHaveDistinctOpenings | firmware/src/main.rs:839-895 | no opening press serves two executions |
| Panel.DarkPressIsInert | firmware/src/main.rs:671-718 | a press that wakes the backlight triggers nothing |
| Panel.ConfirmScreenPress | firmware/src/main.rs:839-895 | by coordinates: CANCEL returns to the main screen locked or not, OK executes unless locked, the rest does nothing |
| Panel.PowerButtonPress | firmware/src/main.rs:727-807 | by coordinates: WAKE sends, REBOOT and SHUTDOWN ask while the PC is on, all are rejected while locked |
| Panel.ScreenSwitchPress | firmware/src/main.rs:808-836 | by coordinates: the clock band opens the calendar and BACK leaves it |
| Panel.IdleTurnsOff | firmware/src/main.rs:671-692 | without a new press only the backlight can change, after a minute |
| Panel.CancelEndsRequest | firmware/src/main.rs:840-844 | in every run an execution after CANCEL has its own opening press after it |
| Panel.TwoPressesExecute | firmware/src/main.rs:720-896 | press, lift and OK do execute, unless locked or idle for a minute |
| Panel.ShutdownOverlapsOk | firmware/src/ui.rs:123-159 | the SHUTDOWN and OK buttons overlap, so edges and lifts matter |

## Left out

- Machine integers: calendar, clock and cursor arithmetic is on unbounded integers; for the day numbers of any i64 time nothing overflows, and `Representable` states the one i64 bound that matters.
- HMAC and SHA-256 internals, JSON and TOML parsing, IPv4 and port validation: arbitrary functions.
- HTTP, TLS, Wi-Fi, NVS, I2C, SNTP, flash and drawing: inputs, or effects recorded in order.
- TelegramClient.Client.Perform: whether an operation works is an input; the replies to the chat are not modelled.
- TelegramSession.RunSession: covers one run of the device; after a restart a new client starts a new session.
- ReplayGuard.NoNonceAcceptedTwice: assumes one timestamp per nonce; the signer builds nonces from a random number and uptime (firmware/src/bridge_client.rs:93-97), which makes this likely and not certain.
- ReplayLimits.SignerIsSafeExactlyWhen: for a capacity that fits a 64-bit word; beyond that there may be too few nonces to fill the store.
- The status loop's gate on Wi-Fi and its timer: polls come in any number and order.
- Sleep and wake instructions in `PcNotices` come from anywhere; they are not tied to the effects in `TelegramClient`.
- Unauthorized-access alerts, daily reports, firmware check schedule, battery percentages, backlight brightness, online-state transitions: easy members alone.
- Windows service, suspend call, routing, audit log, build and provisioning scripts, message wording.
