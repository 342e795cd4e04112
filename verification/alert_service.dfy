/**
 * The alert lifecycle: create with defaults, partial update, archive, filtered
 * listing, and the expansion of an audience scope into recipient users.
 */
module AlertService {
  import opened Wrappers
  import opened Models
  import opened DataStore
  import Seqs

  /** The reminder cadence given to an alert created without one. */
  const DefaultReminderFrequencyMinutes: int := 120

  /** The fields of a new alert; absent optional fields take their defaults. */
  datatype CreateAlertInput = CreateAlertInput(
    title: string,
    message: string,
    severity: Severity,
    audience: AudienceScope,
    reminderFrequencyMinutes: Option<int>,
    startAt: Option<Time>,
    expiresAt: Option<Time>,
    remindersEnabled: Option<bool>)

  /**
   * The fields an update may overwrite; `None` means the property is absent.
   * For the two nullable instants, `Some(None)` is a property present with the
   * value `undefined`, which the merge copies and which then reads as "unset".
   */
  datatype UpdateAlertInput = UpdateAlertInput(
    title: Option<string>,
    message: Option<string>,
    severity: Option<Severity>,
    audience: Option<AudienceScope>,
    reminderFrequencyMinutes: Option<int>,
    startAt: Option<Option<Time>>,
    expiresAt: Option<Option<Time>>,
    remindersEnabled: Option<bool>,
    isArchived: Option<bool>)

  /** The filter of `list`: status `active` or `expired`. */
  datatype AlertStatus = StatusActive | StatusExpired

  /** The optional filters of `list`; all `None` is a call without parameters. */
  datatype ListParams = ListParams(
    severity: Option<Severity>,
    status: Option<AlertStatus>,
    audienceType: Option<AudienceType>)

  // ---------------------------------------------------------------------------
  // Validation applied to request bodies before they reach the service.

  /** Scoped audiences name at least one team or user. */
  predicate ValidAudience(audience: AudienceScope)
  {
    match audience
    case Organization => true
    case Teams(teamIds) => |teamIds| > 0
    case Users(userIds) => |userIds| > 0
  }

  predicate ValidCreateInput(input: CreateAlertInput)
  {
    && |input.title| > 0
    && |input.message| > 0
    && ValidAudience(input.audience)
    && (input.reminderFrequencyMinutes.Some? ==> input.reminderFrequencyMinutes.value > 0)
  }

  predicate ValidUpdateInput(input: UpdateAlertInput)
  {
    && (input.title.Some? ==> |input.title.value| > 0)
    && (input.message.Some? ==> |input.message.value| > 0)
    && (input.audience.Some? ==> ValidAudience(input.audience.value))
    && (input.reminderFrequencyMinutes.Some? ==> input.reminderFrequencyMinutes.value > 0)
  }

  /** What every stored alert satisfies when all writes went through validation. */
  predicate WellFormedAlert(a: Alert)
  {
    && |a.title| > 0
    && |a.message| > 0
    && ValidAudience(a.audience)
    && a.reminderFrequencyMinutes > 0
  }

  predicate WellFormedAlerts(st: Store)
  {
    && UniqueAlertIds(st.alerts)
    && forall i :: 0 <= i < |st.alerts| ==> WellFormedAlert(st.alerts[i])
  }

  // ---------------------------------------------------------------------------
  // create

  /** A new alert with identifier `id`, created at `now`, appended to the store. */
  function Create(st: Store, input: CreateAlertInput, id: Id, now: Time): (r: (Store, Alert))
    ensures r.0 == st.(alerts := st.alerts + [r.1])
    ensures r.1.id == id && r.1.createdAt == now && r.1.updatedAt == now
    ensures r.1.title == input.title && r.1.message == input.message
    ensures r.1.severity == input.severity && r.1.audience == input.audience
    ensures r.1.deliveryChannels == [InApp]
    ensures !r.1.isArchived
    ensures input.reminderFrequencyMinutes.None? ==> r.1.reminderFrequencyMinutes == 120
    ensures input.reminderFrequencyMinutes.Some?
      ==> r.1.reminderFrequencyMinutes == input.reminderFrequencyMinutes.value
    ensures input.startAt.None? ==> r.1.startAt == Some(now)
    ensures input.startAt.Some? ==> r.1.startAt == input.startAt
    ensures r.1.expiresAt == input.expiresAt
    ensures input.remindersEnabled.None? ==> r.1.remindersEnabled
    ensures input.remindersEnabled.Some? ==> r.1.remindersEnabled == input.remindersEnabled.value
  {
    var alert := Alert(
      id := id,
      title := input.title,
      message := input.message,
      severity := input.severity,
      deliveryChannels := [InApp],
      reminderFrequencyMinutes := input.reminderFrequencyMinutes.GetOr(DefaultReminderFrequencyMinutes),
      startAt := Some(input.startAt.GetOr(now)),
      expiresAt := input.expiresAt,
      remindersEnabled := input.remindersEnabled.GetOr(true),
      audience := input.audience,
      isArchived := false,
      createdAt := now,
      updatedAt := now);
    (st.(alerts := st.alerts + [alert]), alert)
  }

  /**
   * An alert created without a start instant is active at its creation instant
   * unless its expiry is already due, and it joins the store as a well-formed alert.
   */
  lemma CreateIsActiveAndWellFormed(st: Store, input: CreateAlertInput, id: Id, now: Time)
    requires ValidCreateInput(input)
    requires WellFormedAlerts(st)
    requires forall i :: 0 <= i < |st.alerts| ==> st.alerts[i].id != id
    ensures WellFormedAlerts(Create(st, input, id, now).0)
    ensures input.startAt.None? && (input.expiresAt.None? || now < input.expiresAt.value)
      ==> IsAlertActiveNow(Create(st, input, id, now).1, now)
  {
    var (st', alert) := Create(st, input, id, now);
    assert forall i :: 0 <= i < |st.alerts| ==> st'.alerts[i] == st.alerts[i];
  }

  // ---------------------------------------------------------------------------
  // update

  /** `Object.assign(alert, input)` followed by the `updatedAt` stamp. */
  function Merge(alert: Alert, input: UpdateAlertInput, now: Time): (r: Alert)
    ensures r.id == alert.id && r.deliveryChannels == alert.deliveryChannels
    ensures r.createdAt == alert.createdAt && r.updatedAt == now
    ensures input.title.None? ==> r.title == alert.title
    ensures input.title.Some? ==> r.title == input.title.value
    ensures input.message.None? ==> r.message == alert.message
    ensures input.message.Some? ==> r.message == input.message.value
    ensures input.severity.None? ==> r.severity == alert.severity
    ensures input.severity.Some? ==> r.severity == input.severity.value
    ensures input.audience.None? ==> r.audience == alert.audience
    ensures input.audience.Some? ==> r.audience == input.audience.value
    ensures input.reminderFrequencyMinutes.None?
      ==> r.reminderFrequencyMinutes == alert.reminderFrequencyMinutes
    ensures input.reminderFrequencyMinutes.Some?
      ==> r.reminderFrequencyMinutes == input.reminderFrequencyMinutes.value
    ensures input.startAt.None? ==> r.startAt == alert.startAt
    ensures input.startAt.Some? ==> r.startAt == input.startAt.value
    ensures input.expiresAt.None? ==> r.expiresAt == alert.expiresAt
    ensures input.expiresAt.Some? ==> r.expiresAt == input.expiresAt.value
    ensures input.remindersEnabled.None? ==> r.remindersEnabled == alert.remindersEnabled
    ensures input.remindersEnabled.Some? ==> r.remindersEnabled == input.remindersEnabled.value
    ensures input.isArchived.None? ==> r.isArchived == alert.isArchived
    ensures input.isArchived.Some? ==> r.isArchived == input.isArchived.value
  {
    alert.(
      title := input.title.GetOr(alert.title),
      message := input.message.GetOr(alert.message),
      severity := input.severity.GetOr(alert.severity),
      audience := input.audience.GetOr(alert.audience),
      reminderFrequencyMinutes := input.reminderFrequencyMinutes.GetOr(alert.reminderFrequencyMinutes),
      startAt := input.startAt.GetOr(alert.startAt),
      expiresAt := input.expiresAt.GetOr(alert.expiresAt),
      remindersEnabled := input.remindersEnabled.GetOr(alert.remindersEnabled),
      isArchived := input.isArchived.GetOr(alert.isArchived),
      updatedAt := now)
  }

  /** Merges `input` into the first alert with identifier `id`; `None` when there is none. */
  function Update(st: Store, id: Id, input: UpdateAlertInput, now: Time): (r: (Store, Option<Alert>))
    ensures r.1.None? <==> forall j :: 0 <= j < |st.alerts| ==> st.alerts[j].id != id
    ensures r.1.None? ==> r.0 == st
    ensures r.1.Some? ==> exists i :: (
      && 0 <= i < |st.alerts|
      && st.alerts[i].id == id
      && (forall j :: 0 <= j < i ==> st.alerts[j].id != id)
      && r.1.value == Merge(st.alerts[i], input, now)
      && r.0 == st.(alerts := st.alerts[i := r.1.value]))
  {
    match FindAlert(st.alerts, id)
    case None => (st, None)
    case Some(i) =>
      var alert := Merge(st.alerts[i], input, now);
      (st.(alerts := st.alerts[i := alert]), Some(alert))
  }

  /** A validated update keeps the stored alerts well formed. */
  lemma UpdatePreservesWellFormed(st: Store, id: Id, input: UpdateAlertInput, now: Time)
    requires WellFormedAlerts(st) && ValidUpdateInput(input)
    ensures WellFormedAlerts(Update(st, id, input, now).0)
  {
    var (st', r) := Update(st, id, input, now);
    if r.Some? {
      var i := FindAlert(st.alerts, id).value;
      assert forall j :: 0 <= j < |st.alerts| ==> st'.alerts[j].id == st.alerts[j].id;
      assert WellFormedAlert(st'.alerts[i]);
    }
  }

  // ---------------------------------------------------------------------------
  // archive

  /** Marks the first alert with identifier `id` archived; `false` when there is none. */
  function Archive(st: Store, id: Id, now: Time): (r: (Store, bool))
    ensures !r.1 <==> forall j :: 0 <= j < |st.alerts| ==> st.alerts[j].id != id
    ensures !r.1 ==> r.0 == st
    ensures r.1 ==> exists i :: (
      && 0 <= i < |st.alerts|
      && st.alerts[i].id == id
      && (forall j :: 0 <= j < i ==> st.alerts[j].id != id)
      && r.0 == st.(alerts := st.alerts[i := st.alerts[i].(isArchived := true, updatedAt := now)]))
  {
    match FindAlert(st.alerts, id)
    case None => (st, false)
    case Some(i) =>
      (st.(alerts := st.alerts[i := st.alerts[i].(isArchived := true, updatedAt := now)]), true)
  }

  /** Archiving twice at the same instant is archiving once. */
  lemma ArchiveIdempotent(st: Store, id: Id, now: Time)
    ensures Archive(Archive(st, id, now).0, id, now) == Archive(st, id, now)
  {
    var found := FindAlert(st.alerts, id);
    if found.Some? {
      var i := found.value;
      var a := st.alerts[i].(isArchived := true, updatedAt := now);
      var once := st.(alerts := st.alerts[i := a]);
      assert Archive(st, id, now) == (once, true);
      FindAlertAfterReplace(st.alerts, id, i, a);
      assert once.alerts[i].(isArchived := true, updatedAt := now) == a;
      assert once.alerts[i := a] == once.alerts;
      assert Archive(once, id, now) == (once, true);
    }
  }

  /** An archived alert is inactive at every instant. */
  lemma ArchivedIsInactive(st: Store, id: Id, now: Time, t: Time)
    requires Archive(st, id, now).1
    ensures var i := FindAlert(st.alerts, id).value;
      !IsAlertActiveNow(Archive(st, id, now).0.alerts[i], t)
  {
  }

  /** With unique identifiers, after archiving no unarchived alert carries the identifier. */
  lemma ArchiveCoversIdentifier(st: Store, id: Id, now: Time, a: Alert)
    requires UniqueAlertIds(st.alerts)
    requires a in Archive(st, id, now).0.alerts
    ensures a.id == id ==> a.isArchived
  {
    var alerts := Archive(st, id, now).0.alerts;
    var j :| 0 <= j < |alerts| && alerts[j] == a;
    var found := FindAlert(st.alerts, id);
    if found.Some? {
      FindStoredAlert(st.alerts, j);
    }
  }

  /**
   * Archiving is not one-way: an update that supplies `isArchived: false`
   * makes the alert unarchived again.
   */
  lemma UpdateCanUnarchive(st: Store, id: Id, input: UpdateAlertInput, now: Time, later: Time)
    requires Archive(st, id, now).1
    requires input.isArchived == Some(false)
    ensures var r := Update(Archive(st, id, now).0, id, input, later);
      r.1.Some? && !r.1.value.isArchived
  {
    var i := FindAlert(st.alerts, id).value;
    FindAlertAfterReplace(st.alerts, id, i, st.alerts[i].(isArchived := true, updatedAt := now));
  }

  // ---------------------------------------------------------------------------
  // list

  /** The per-alert test of `list`, guard by guard. */
  predicate MatchesListParams(a: Alert, params: ListParams, now: Time)
  {
    if params.severity.Some? && a.severity != params.severity.value then false
    else if params.audienceType.Some? && a.audience.Type() != params.audienceType.value then false
    else if params.status == Some(StatusActive) then
      && !a.isArchived
      && (a.startAt.None? || a.startAt.value <= now)
      && (a.expiresAt.None? || a.expiresAt.value > now)
    else if params.status == Some(StatusExpired) then
      a.expiresAt.Some? && a.expiresAt.value < now
    else true
  }

  /** The stored alerts that pass every given filter, in store order. */
  function List(st: Store, params: ListParams, now: Time): (r: seq<Alert>)
    ensures Seqs.IsSubsequence(r, st.alerts)
    ensures forall a :: a in r <==> a in st.alerts && MatchesListParams(a, params, now)
    ensures forall a :: multiset(r)[a] == if MatchesListParams(a, params, now) then multiset(st.alerts)[a] else 0
  {
    Seqs.Filter(st.alerts, (a: Alert) => MatchesListParams(a, params, now))
  }

  /** Without parameters every alert is listed. */
  lemma ListWithoutParams(st: Store, now: Time)
    ensures List(st, ListParams(None, None, None), now) == st.alerts
  {
    Seqs.FilterKeepsAll(st.alerts, (a: Alert) => MatchesListParams(a, ListParams(None, None, None), now));
  }

  /** The filters are ANDed: an alert passes all of them iff it passes each one alone. */
  lemma ListFiltersConjoin(st: Store, params: ListParams, now: Time, a: Alert)
    ensures a in List(st, params, now) <==>
      && a in List(st, ListParams(params.severity, None, None), now)
      && a in List(st, ListParams(None, params.status, None), now)
      && a in List(st, ListParams(None, None, params.audienceType), now)
  {
    MatchesConjoin(a, params, now);
  }

  lemma MatchesConjoin(a: Alert, params: ListParams, now: Time)
    ensures MatchesListParams(a, params, now) <==>
      && MatchesListParams(a, ListParams(params.severity, None, None), now)
      && MatchesListParams(a, ListParams(None, params.status, None), now)
      && MatchesListParams(a, ListParams(None, None, params.audienceType), now)
  {
  }

  /** Status `active` selects exactly the alerts `IsAlertActiveNow` accepts. */
  lemma ListActiveIsActiveNow(st: Store, now: Time, a: Alert)
    ensures a in List(st, ListParams(None, Some(StatusActive), None), now)
      <==> a in st.alerts && IsAlertActiveNow(a, now)
  {
    ActiveWindow(a, now);
  }

  /**
   * Status `expired` selects the alerts whose expiry lies strictly before now;
   * no alert is both active and expired, and one expiring exactly now is neither.
   */
  lemma ListExpiredAndActiveDisjoint(st: Store, now: Time, a: Alert)
    ensures a in List(st, ListParams(None, Some(StatusExpired), None), now)
      <==> a in st.alerts && a.expiresAt.Some? && a.expiresAt.value < now
    ensures !(a in List(st, ListParams(None, Some(StatusActive), None), now)
              && a in List(st, ListParams(None, Some(StatusExpired), None), now))
    ensures a.expiresAt == Some(now) ==>
      && a !in List(st, ListParams(None, Some(StatusActive), None), now)
      && a !in List(st, ListParams(None, Some(StatusExpired), None), now)
  {
  }

  // ---------------------------------------------------------------------------
  // resolveAudienceUsers

  /** `u.teamId ? set.has(u.teamId) : false` — an empty team id is falsy and never matches. */
  predicate InTeams(u: User, teamIds: seq<Id>)
  {
    match u.teamId
    case Some(t) => t != "" && t in teamIds
    case None => false
  }

  /** The users an audience scope addresses, in store order. */
  function ResolveAudienceUsers(st: Store, audience: AudienceScope): (r: seq<User>)
    ensures Seqs.IsSubsequence(r, st.users)
    ensures audience.Organization? ==> r == st.users
    ensures audience.Teams? ==> forall u :: u in r <==>
      u in st.users && u.teamId.Some? && u.teamId.value != "" && u.teamId.value in audience.teamIds
    ensures audience.Users? ==> forall u :: u in r <==> u in st.users && u.id in audience.userIds
    ensures audience.Teams? ==> forall u ::
      multiset(r)[u] == if InTeams(u, audience.teamIds) then multiset(st.users)[u] else 0
    ensures audience.Users? ==> forall u ::
      multiset(r)[u] == if u.id in audience.userIds then multiset(st.users)[u] else 0
    ensures !audience.Organization? ==> forall u :: u in r && u.teamId.None? ==>
      audience.Users? && u.id in audience.userIds
  {
    match audience
    case Organization => Seqs.SubsequenceReflexive(st.users); st.users
    case Teams(teamIds) => Seqs.Filter(st.users, (u: User) => InTeams(u, teamIds))
    case Users(userIds) => Seqs.Filter(st.users, (u: User) => u.id in userIds)
  }
}
