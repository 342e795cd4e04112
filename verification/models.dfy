/**
 * The domain records of the alerting platform and the two time predicates
 * defined beside them: the activity window of an alert and the calendar-day
 * comparison.
 */
module Models {
  import opened Wrappers
  import Calendar

  /** Identifiers are opaque strings (UUIDs in practice). */
  type Id = string

  /** An instant: milliseconds since the epoch, as `Date.getTime()` reports it. */
  type Time = int

  datatype Severity = Info | Warning | Critical

  datatype DeliveryChannel = InApp | Email | Sms

  datatype Team = Team(id: Id, name: string)

  /** A user belongs to at most one team. */
  datatype User = User(id: Id, name: string, teamId: Option<Id>)

  /** The `type` tag of an audience scope. */
  datatype AudienceType = OrganizationAudience | TeamsAudience | UsersAudience

  /** Who an alert is addressed to. */
  datatype AudienceScope =
    | Organization
    | Teams(teamIds: seq<Id>)
    | Users(userIds: seq<Id>)
  {
    function Type(): AudienceType
    {
      match this
      case Organization => OrganizationAudience
      case Teams(_) => TeamsAudience
      case Users(_) => UsersAudience
    }
  }

  /**
   * A broadcast notice. `startAt == None` means "active immediately",
   * `expiresAt == None` means "never expires".
   */
  datatype Alert = Alert(
    id: Id,
    title: string,
    message: string,
    severity: Severity,
    deliveryChannels: seq<DeliveryChannel>,
    reminderFrequencyMinutes: int,
    startAt: Option<Time>,
    expiresAt: Option<Time>,
    remindersEnabled: bool,
    audience: AudienceScope,
    isArchived: bool,
    createdAt: Time,
    updatedAt: Time)

  /** One notification sent to one user over one channel. */
  datatype NotificationDelivery = NotificationDelivery(
    id: Id,
    alertId: Id,
    userId: Id,
    channel: DeliveryChannel,
    deliveredAt: Time)

  datatype ReadState = Unread | Read

  /** A user's read flag and last snooze instant for one alert. */
  datatype UserAlertPreference = UserAlertPreference(
    id: Id,
    alertId: Id,
    userId: Id,
    readState: ReadState,
    lastSnoozedAt: Option<Time>,
    updatedAt: Time)

  /** The three early-return guards: archived, not started yet, already expired. */
  predicate IsAlertActiveNow(alert: Alert, now: Time)
  {
    if alert.isArchived then false
    else if alert.startAt.Some? && alert.startAt.value > now then false
    else if alert.expiresAt.Some? && alert.expiresAt.value <= now then false
    else true
  }

  /** An alert is active exactly inside its half-open window [startAt, expiresAt) and while unarchived. */
  lemma ActiveWindow(alert: Alert, now: Time)
    ensures IsAlertActiveNow(alert, now) <==>
      && !alert.isArchived
      && (alert.startAt.None? || alert.startAt.value <= now)
      && (alert.expiresAt.None? || now < alert.expiresAt.value)
  {
  }

  /** The boundary instants of the activity window. */
  lemma ActiveWindowBoundaries(alert: Alert, now: Time)
    ensures alert.isArchived ==> !IsAlertActiveNow(alert, now)
    ensures alert.startAt.Some? && now < alert.startAt.value ==> !IsAlertActiveNow(alert, now)
    ensures alert.startAt.Some? && !alert.isArchived
      && (alert.expiresAt.None? || alert.startAt.value < alert.expiresAt.value)
      ==> IsAlertActiveNow(alert, alert.startAt.value)
    ensures alert.expiresAt.Some? && alert.expiresAt.value <= now ==> !IsAlertActiveNow(alert, now)
    ensures !alert.isArchived && alert.startAt.None? && alert.expiresAt.None?
      ==> IsAlertActiveNow(alert, now)
  {
  }

  /** Same full year, month and day of month. */
  predicate IsSameDay(a: Time, b: Time)
  {
    var da := Calendar.DateOf(a);
    var db := Calendar.DateOf(b);
    da.year == db.year && da.month == db.month && da.day == db.day
  }

  /** Comparing the date components is comparing day numbers. */
  lemma IsSameDayIffSameDayNumber(a: Time, b: Time)
    ensures IsSameDay(a, b) <==> Calendar.DayOf(a) == Calendar.DayOf(b)
  {
    Calendar.DateOfInjective(a, b);
  }

  /** `IsSameDay` is an equivalence relation. */
  lemma IsSameDayEquivalence(a: Time, b: Time, c: Time)
    ensures IsSameDay(a, a)
    ensures IsSameDay(a, b) ==> IsSameDay(b, a)
    ensures IsSameDay(a, b) && IsSameDay(b, c) ==> IsSameDay(a, c)
  {
  }

  /** Instants a whole day or more apart are never on the same day. */
  lemma NotSameDayAfterOneDay(a: Time, b: Time)
    requires b >= a + Calendar.MsPerDay
    ensures !IsSameDay(a, b)
  {
    IsSameDayIffSameDayNumber(a, b);
  }
}
