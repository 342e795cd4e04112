# Alerting platform core, modelled in Dafny

This project models the core of a small alerting platform. Administrators
create alerts with a severity, an audience and an activity window. A reminder
pass decides which users are due another notification. Users can mark alerts
read or snooze them for the rest of the calendar day. A dashboard summary counts
alerts, deliveries, reads, snoozes and severities.

The original keeps all of this in one mutable in-memory store. Here the store
is an immutable `Store` value (`DataStore`), and every mutating operation
returns the new store beside its result. Whatever the original reads from its
environment is a parameter of the model:

- the clock (`new Date()`) becomes the instant `now`;
- `uuid()` becomes an identifier `id` or `newId`;
- a channel delivery reads both, so it takes an `InAppChannel.Stamp`.

Instants are integers: milliseconds since the epoch.

Modules, following the source layout:

- `Models`: the records, the activity window `IsAlertActiveNow` and the
  calendar-day test `IsSameDay`.
- `Calendar`: proleptic Gregorian day numbers, with a proved conversion between
  a day number and a (year, month, day) date and back. `IsSameDay` compares
  date components as the source does, in UTC.
- `DataStore`: the five collections and the first-match lookup of alerts.
- `AlertService`: create, update, archive, list, and audience resolution.
- `PreferenceService`: find-or-create preference records, the read state, the
  snooze, and "snoozed for today".
- `InAppChannel` and `DeliveryService`: the channel strategy, the registry and
  per-channel dispatch.
- `ReminderService`: last delivery, the cadence test, and the reminder pass `Run`.
- `Tallies` and `AnalyticsService`: the insertion-ordered counters and `GetSummary`.
- `Seqs` and `Wrappers`: order-preserving filtering, `Option` and `Result`.
- `Scenario`: one alert for one user through creation, passes, an in-app
  delivery and a snooze. Nothing in the source dispatches the pairs a pass
  reports, so the delivery step stands for an outside caller that does
  (`Scenario.UndispatchedPairRepeats` shows the pass without it).

Behaviours of the code worth noting:

- Archiving is not terminal. An update may carry `isArchived: false` (the
  update schema allows it), and `Object.assign` applies it
  (`AlertService.UpdateCanUnarchive`).
- Dispatch to several channels is not independent per channel. `map` stops at
  the first channel with no strategy and throws. Deliveries already made stay
  in the store.
- The reminder pass returns the due (alert, user) pairs and does not dispatch
  them. It never consults the read state (`ReminderService.RunIgnoresReadState`).
  It does not remove duplicates: an alert identifier stored twice, or a user
  listed twice by the resolver, yields the pair twice
  (`Scenario.DuplicateAlertRemindedTwice`, `Scenario.DuplicateUserRemindedTwice`).
- A pass 24 hours after an alert was created is not always on a later
  calendar day than a snooze made in between. Take an alert created at
  2023-11-14 22:13:20 UTC and snoozed 121 minutes later, just after midnight.
  The pass 24 hours after creation falls on the snooze's day, so it stays silent
  (`Scenario.SnoozeStillActiveOneDayAfterCreation`). A pass on any later
  calendar day reminds again (`Scenario.SnoozeLapses`).

## Model

| member | source | states |
|---|---|---|
| DataStore.FindAlert | src/services/AlertService.ts:30 | the index of the first alert with the identifier; `None` exactly when no stored alert carries it |
| DataStore.FindStoredAlert | src/services/AlertService.ts:30 | with unique identifiers, looking up a stored alert's identifier finds that alert's index |
| DataStore.FindAlertAfterReplace | src/services/AlertService.ts:30-33 | replacing the found alert in place by one with the same identifier keeps it the alert found |
| Models.ActiveWindow | src/domain/models.ts:56-61 | active exactly when unarchived, started (`startAt <= now` or no start) and not expired (`now < expiresAt` or no expiry) |
| Models.ActiveWindowBoundaries | src/domain/models.ts:57-60 | archived or not-yet-started alerts are inactive; an unarchived alert expiring later is active at its own start instant; one whose expiry has come is inactive; an open-ended unarchived alert is always active |
| Models.IsSameDayIffSameDayNumber | src/domain/models.ts:63-69 | equal year, month and day of month holds exactly when the two instants have the same UTC day number |
| Models.IsSameDayEquivalence | src/domain/models.ts:63-69 | the same-day test is reflexive, symmetric and transitive |
| Models.NotSameDayAfterOneDay | src/domain/models.ts:63-69 | instants at least 24 hours apart are never on the same day |
| Calendar.CivilFromDays | src/domain/models.ts:65-67 | the date of a day number has a month in 1..12 and a day within that month's length, and converting it back gives the day number |
| Calendar.CivilFromEraDay | src/domain/models.ts:65-67 | the date of the n-th day of a 400-year cycle is a valid date whose day number is that day of the cycle |
| Calendar.DateOfInjective | src/domain/models.ts:63-69 | two instants have the same (year, month, day) exactly when they have the same day number |
| Calendar.SameDayRange | src/services/PreferenceService.ts:40 | an instant lies between the first and the last millisecond of another's day exactly when both have the same day number |
| InAppChannel.Deliver | src/channels/InAppChannel.ts:28-39 | appends exactly one `in_app` delivery for the alert and user, stamped with the given identifier and instant, and changes nothing else |
| DeliveryService.NewRegistry | src/services/DeliveryService.ts:8-12 | the constructed registry holds only `in_app`, and each strategy is registered under its own channel |
| DeliveryService.FirstUnregistered | src/services/DeliveryService.ts:15-17 | the first channel with no strategy; `None` exactly when every channel is registered |
| DeliveryService.DeliverChannels | src/services/DeliveryService.ts:14-20 | on success, one delivery per channel in order, each the one the channel's strategy makes, appended to the store; on failure, the first unregistered channel is reported and the deliveries before it remain |
| DeliveryService.DeliverToUser | src/services/DeliveryService.ts:14-20 | succeeds exactly when every channel is registered; then one delivery per channel with the alert, the user, the stamp and (for a consistent registry) the channel; otherwise the error names an unregistered channel of the alert and fewer deliveries than channels were added |
| DeliveryService.DefaultRegistryOnlyInApp | src/services/DeliveryService.ts:8-19 | with the constructed registry, dispatch succeeds exactly when every channel is `in_app`, and an `email` or `sms` channel makes it fail |
| AlertService.Create | src/services/AlertService.ts:8-27 | the new alert carries the input fields and is appended; defaults are frequency 120, start now, reminders on, `in_app` only, unarchived, created and updated now |
| AlertService.CreateIsActiveAndWellFormed | src/services/AlertService.ts:16-21 | with validated input and a fresh identifier the store stays well formed, and an alert without start or past expiry is active when created |
| AlertService.Merge | src/services/AlertService.ts:32-33 | every field given in the update replaces the stored one, every absent field is kept, and `updatedAt` becomes now |
| AlertService.Update | src/services/AlertService.ts:29-35 | `None` and an unchanged store exactly when no alert has the identifier; otherwise only the first such alert is replaced by its merge |
| AlertService.UpdatePreservesWellFormed | src/validation/alert-validation.ts:26-28 | a validated update keeps unique identifiers, non-empty titles, messages and audiences, and positive frequencies |
| AlertService.Archive | src/services/AlertService.ts:37-43 | `false` and an unchanged store exactly when no alert has the identifier; otherwise only the first such alert becomes archived and stamped now |
| AlertService.ArchiveIdempotent | src/services/AlertService.ts:37-43 | archiving a second time at the same instant yields the same store and result |
| AlertService.ArchivedIsInactive | src/services/AlertService.ts:40 | the archived alert is inactive at every instant |
| AlertService.ArchiveCoversIdentifier | src/services/AlertService.ts:38-40 | with unique identifiers, every alert carrying the archived identifier is archived afterwards |
| AlertService.UpdateCanUnarchive | src/services/AlertService.ts:32 | an update with `isArchived: false` after archiving finds the alert and leaves it unarchived |
| AlertService.List | src/services/AlertService.ts:45-64 | the listed alerts are the stored alerts passing the filters, in store order, each as many times as it is stored, and no others |
| AlertService.ListWithoutParams | src/services/AlertService.ts:62 | without parameters every stored alert is listed, in order |
| AlertService.MatchesConjoin | src/services/AlertService.ts:52-61 | an alert passes the combined filters exactly when it passes the severity, status and audience filters each alone |
| AlertService.ListFiltersConjoin | src/services/AlertService.ts:52-61 | an alert is listed under combined filters exactly when each single-filter listing lists it |
| AlertService.ListActiveIsActiveNow | src/services/AlertService.ts:54-58 | status `active` lists exactly the stored alerts the activity window accepts |
| AlertService.ListExpiredAndActiveDisjoint | src/services/AlertService.ts:54-61 | status `expired` lists the alerts whose expiry is strictly before now; no alert is listed as both, and one expiring exactly now is neither |
| AlertService.ResolveAudienceUsers | src/services/AlertService.ts:66-77 | organization gives all users in order; teams gives the users whose non-empty team id is listed; users gives the users whose id is listed; under teams and users each selected user appears as many times as it is stored; always a subsequence of the users |
| PreferenceService.FindPreference | src/services/PreferenceService.ts:8 | the index of the first record of the pair; `None` exactly when the pair has no record |
| PreferenceService.FindPreferenceAfterAppend | src/services/PreferenceService.ts:8-18 | appending a record changes the lookup only for a pair that had no record, and then only when the record is for it |
| PreferenceService.GetOrCreate | src/services/PreferenceService.ts:7-21 | an existing record is returned with the store unchanged; otherwise an unread, never-snoozed record is appended; either way the lookup then finds the returned index |
| PreferenceService.GetOrCreateNoDuplicates | src/services/PreferenceService.ts:7-21 | afterwards the pair has one record if it had none and as many as before otherwise; every other pair's count is unchanged |
| PreferenceService.GetOrCreatePreservesUnique | src/services/PreferenceService.ts:7-21 | find-or-create keeps at most one record per pair |
| PreferenceService.Replace | src/services/PreferenceService.ts:25-26 | an in-place change of one record keeps every other record, the uniqueness of pairs and every lookup |
| PreferenceService.SetReadState | src/services/PreferenceService.ts:23-28 | the pair's record gets the new read state and `updatedAt`, keeping its identifier and snooze, or is created with that state; it is then the record found |
| PreferenceService.SnoozeForToday | src/services/PreferenceService.ts:30-35 | the pair's record gets last snooze and `updatedAt` now, keeping its identifier and read state, or is created snoozed; it is then the record found |
| PreferenceService.MutatorsPreserveUnique | src/services/PreferenceService.ts:23-35 | setting the read state and snoozing both keep at most one record per pair |
| PreferenceService.DayjsIsSameDayAgrees | src/services/PreferenceService.ts:40 | the dayjs day-granularity comparison agrees with the date-component comparison of the domain model |
| PreferenceService.SnoozedExactlyThatDay | src/services/PreferenceService.ts:37-41 | after a snooze at `s`, the pair reads as snoozed at `now` exactly when `now` is on the calendar day of `s` |
| PreferenceService.GetOrCreateKeepsSnooze | src/services/PreferenceService.ts:7-21 | creating a missing record changes no pair's snooze state |
| PreferenceService.SetReadStateKeepsSnooze | src/services/PreferenceService.ts:23-28 | setting a read state changes no pair's snooze state |
| PreferenceService.SnoozeKeepsOtherPairs | src/services/PreferenceService.ts:30-35 | snoozing one pair leaves every other pair's snooze state as it was |
| ReminderService.LastDeliveryAt | src/scheduler/ReminderService.ts:46-51 | `None` exactly when the pair has no delivery; otherwise the instant of one of its deliveries and no earlier than any of them |
| ReminderService.LatestUnique | src/scheduler/ReminderService.ts:47-50 | the latest instant is determined by the pair's delivery records alone |
| ReminderService.LastDeliverySameRecords | src/scheduler/ReminderService.ts:47-48 | two delivery lists with the same records for the pair give the same last delivery |
| ReminderService.LastDeliveryOrderIndependent | src/scheduler/ReminderService.ts:47-49 | reordering the delivery records does not change the last delivery |
| ReminderService.LastDeliveryAfterAppend | src/scheduler/ReminderService.ts:46-51 | after a delivery is appended its pair's last delivery exists and is no earlier than it; every other pair's is unchanged |
| ReminderService.WholeMinutesBetween | src/scheduler/ReminderService.ts:62 | the whole minutes elapsed, truncated toward zero: bracketed by the elapsed milliseconds on both signs |
| ReminderService.CadenceThreshold | src/scheduler/ReminderService.ts:59-63 | with a positive frequency F, a previously delivered pair is due exactly when F minutes in milliseconds have elapsed |
| ReminderService.CadenceBoundary | src/scheduler/ReminderService.ts:62-63 | one millisecond before F minutes the pair is not due; at exactly F minutes it is |
| ReminderService.NeverDeliveredIsDue | src/scheduler/ReminderService.ts:59-61 | a stored alert never delivered to the user is due at any instant |
| ReminderService.RecipientDecisions | src/scheduler/ReminderService.ts:33-41 | the recipient loop emits one pair for each recipient that is due and not snoozed, in recipient order and with the recipient's multiplicity, and nothing else |
| ReminderService.AlertDecisions | src/scheduler/ReminderService.ts:28-41 | one alert yields pairs only when reminders are on and it is active, and then exactly its firing recipients |
| ReminderService.RunOver | src/scheduler/ReminderService.ts:28-43 | the alert loop emits, in order, a pair exactly when some alert of the list emits it |
| ReminderService.Run | src/scheduler/ReminderService.ts:26-44 | the emitted pairs follow alert order then recipient order, and each names a stored alert |
| ReminderService.RunOverFlattens | src/scheduler/ReminderService.ts:28-43 | the alert loop is the concatenation, in store order, of each alert's own pairs |
| ReminderService.RunOverAppend | src/scheduler/ReminderService.ts:28-43 | the pass over two runs of alerts is the pass over the first followed by the pass over the second, so repeated alerts repeat their pairs |
| ReminderService.RunMembership | src/scheduler/ReminderService.ts:26-44 | a pair is emitted exactly when some stored eligible alert with its identifier has a recipient with its user identifier that is due and not snoozed |
| ReminderService.RunFiresNeverDelivered | src/scheduler/ReminderService.ts:33-40 | an eligible alert's recipient that was never delivered to and is not snoozed is emitted |
| ReminderService.RunSkipsSnoozed | src/scheduler/ReminderService.ts:37 | a pair snoozed today is never emitted |
| ReminderService.RunRespectsCadence | src/scheduler/ReminderService.ts:34-36 | with well-formed alerts, an emitted pair with a previous delivery is at least its frequency past it |
| ReminderService.ArchivedAlertNeverReminded | src/scheduler/ReminderService.ts:28-30 | after archiving an alert with a unique identifier, no later pass emits a pair for it |
| ReminderService.DeliveryDefersReminder | src/scheduler/ReminderService.ts:34-36 | after an in-app delivery at `t`, the pair is not emitted again before `t` plus the frequency |
| ReminderService.RecipientDecisionsCongruence | src/scheduler/ReminderService.ts:33-41 | the recipient loop depends only on the alerts, deliveries and snooze states |
| ReminderService.RunOverCongruence | src/scheduler/ReminderService.ts:28-43 | the alert loop depends only on the alerts, users, deliveries and snooze states |
| ReminderService.RunIgnoresReadState | src/scheduler/ReminderService.ts:33-40 | marking any pair read or unread leaves every pass unchanged |
| ReminderService.SnoozeLapsesOnOtherDays | src/scheduler/ReminderService.ts:37 | on a calendar day other than the snooze's, the pass equals the pass without the snooze |
| ReminderService.SnoozeSuppressesSameDay | src/scheduler/ReminderService.ts:37 | on the snooze's own calendar day the snoozed pair is not emitted |
| Tallies.Get | src/services/AnalyticsService.ts:13 | an absent key reads as 0; in a tally with positive counts a key reads non-zero exactly when it has an entry |
| Tallies.Bump | src/services/AnalyticsService.ts:13 | the bumped key's count grows by one, every other key's is unchanged, a new key is appended at the end, and an existing key leaves the key order unchanged |
| Tallies.BumpKeys | src/services/AnalyticsService.ts:13 | bumping adds the key to the key set and nothing else |
| Tallies.BumpSum | src/services/AnalyticsService.ts:13 | bumping adds exactly one to the total |
| Tallies.BumpValid | src/services/AnalyticsService.ts:13 | bumping keeps keys distinct and counts positive |
| Tallies.TabulatesStep | src/services/AnalyticsService.ts:12-14 | one more element keeps the tally equal to the per-key counts, the key set, the first-seen key order and the total of the elements seen |
| AnalyticsService.CountDeliveries | src/services/AnalyticsService.ts:12-14 | the tally holds, per alert identifier in first-seen order, the number of deliveries, and its counts add up to the number of deliveries |
| AnalyticsService.DeliveryKeysInFirstSeenOrder | src/services/AnalyticsService.ts:12-14 | when alert "a" is delivered before alert "b", a tally of the deliveries lists "a" before "b" |
| AnalyticsService.CountPreferences | src/services/AnalyticsService.ts:15-22 | per alert identifier in first-seen order, the number of read records and the number of records with any snooze |
| AnalyticsService.CountSeverities | src/services/AnalyticsService.ts:24-30 | per severity in first-seen order, the number of alerts, adding up to the number of alerts |
| AnalyticsService.GetSummary | src/services/AnalyticsService.ts:4-40 | the two totals are the collection sizes, and each breakdown tabulates its collection exactly, deliveries and severities adding up to the totals |
| Scenario.CreatedFacts | src/services/AlertService.ts:8-27 | the created alert is the only one, well formed, eligible at creation, 120-minute cadence, and its one user is a recipient |
| Scenario.DeliveredFacts | src/channels/InAppChannel.ts:28-39 | after the in-app delivery at `t0` the pair's last delivery is `t0`, and the alert stays eligible later |
| Scenario.CadenceScenario | src/scheduler/ReminderService.ts:33-40 | reminded at creation; after an outside caller delivers in-app at creation, not reminded one hour later, reminded 121 minutes later, and silenced by a snooze at that instant |
| Scenario.UndispatchedPairRepeats | src/scheduler/ReminderService.ts:33-43 | with no outside dispatch, the pass one hour after creation reports the same pair again, since the pass records nothing |
| Scenario.DuplicateUserRemindedTwice | src/scheduler/ReminderService.ts:33-40 | an organization-wide alert whose user list holds the recipient twice yields the pair exactly twice in one pass |
| Scenario.DuplicateAlertRemindedTwice | src/scheduler/ReminderService.ts:28-43 | the same alert stored twice yields the pair exactly twice in one pass |
| Scenario.DueAfter | src/scheduler/ReminderService.ts:59-63 | every pass at least 120 minutes after the delivery reminds the user |
| Scenario.SnoozeForgotten | src/services/PreferenceService.ts:37-41 | on another calendar day the pass after the snooze equals the pass before it |
| Scenario.SnoozeLapses | src/services/PreferenceService.ts:37-41 | a pass on a later calendar day than the snooze, and at least 121 minutes after creation, reminds the user again |
| Scenario.SnoozeStillActiveOneDayAfterCreation | src/services/PreferenceService.ts:40 | for a creation at 2023-11-14 22:13:20 UTC, the pass 24 hours later is still on the snooze's day and stays silent |

## Left out

- Time zones: calendar days are UTC days. The source reads `getFullYear`, `getMonth` and `getDate` (and dayjs) in the host's local zone. Offsets and daylight-saving shifts are not modelled.
- `getMonth` counts months from 0; the model's `CivilDate.month` counts from 1. Only equality of months matters, so the shift is immaterial.
- Clock reads: each operation reads the clock once, as `now`. Where the source calls `new Date()` twice (`snoozeForToday` for `lastSnoozedAt` and `updatedAt`), both get the same instant.
- `uuid()`: identifiers are parameters. The model does not assume they are fresh. Properties that need uniqueness state it as a precondition (`UniqueAlertIds`, `UniquePreferences`).
- DeliveryService.DeliverToUser: the stamps (identifier and instant) for the deliveries are a parameter with at least one per channel. The source draws them from `uuid()` and the clock.
- `scheduleAlert`, `cancelAlert` and `rescheduleAlert` (src/scheduler/ReminderService.ts:14-24) are no-ops in the source and are not modelled.
- The `return []` for an unknown audience type (src/services/AlertService.ts:76) cannot be reached: `AudienceScope` has exactly three constructors.
- `UpdateAlertInput`: a property present with the value `undefined` is modelled only for `startAt` and `expiresAt`, where it clears the field. For the other fields it is treated as absent. A JSON body cannot carry `undefined`. Validation rejects `null` for every field other than `startAt` and `expiresAt`, whose preprocessing turns `null` or `''` into a present `undefined`. A direct caller passing `undefined` for another field is not modelled.
- Request validation (zod schemas), controllers, HTTP routing, seed data and the `ReminderScheduler` interface are outside the core. Validation appears only as the predicates `ValidCreateInput` and `ValidUpdateInput` used as lemma hypotheses.
- Email and SMS strategies do not exist in the source. `ChannelStrategy` has only the in-app strategy, and the other channels stay unregistered.
- AnalyticsService.GetSummary: the summary's per-key objects are modelled as insertion-ordered association lists (`Tally`). JavaScript's own-property order for integer-like keys is not modelled.
- ReminderService.Run: the pass returns its decisions and does not call `deliverToUser`, as in the source. Dispatch is modelled separately (`DeliveryService`).
