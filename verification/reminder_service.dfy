/**
 * The reminder pass: for every active, reminder-enabled alert and every
 * resolved recipient, decide whether a new notification is due now.
 *
 * The pass only computes decisions; it records no delivery, so it is a
 * function of the store and the evaluation instant.
 */
module ReminderService {
  import opened Wrappers
  import opened Models
  import opened DataStore
  import Seqs
  import AlertService
  import PreferenceService
  import InAppChannel

  /** Milliseconds in one minute. */
  const MsPerMinute: int := 60_000

  /** One (alert, user) pair the pass reports as due. */
  datatype ReminderDecision = ReminderDecision(alertId: Id, userId: Id)

  // ---------------------------------------------------------------------------
  // getLastDeliveryAt

  predicate IsDeliveryFor(d: NotificationDelivery, alertId: Id, userId: Id)
  {
    d.alertId == alertId && d.userId == userId
  }

  /**
   * `r` is the latest instant among the deliveries of the pair: `None` when
   * there is none, otherwise the instant of one of them and no earlier than
   * any of them.
   */
  predicate IsLatest(r: Option<Time>, deliveries: seq<NotificationDelivery>, alertId: Id, userId: Id)
  {
    && (r.None? <==> forall d :: d in deliveries ==> !IsDeliveryFor(d, alertId, userId))
    && (r.Some? ==> exists d :: d in deliveries && IsDeliveryFor(d, alertId, userId) && d.deliveredAt == r.value)
    && (r.Some? ==> forall d :: d in deliveries && IsDeliveryFor(d, alertId, userId) ==> d.deliveredAt <= r.value)
  }

  /** Two sequences holding the same records of the pair have the same latest instant. */
  lemma LatestUnique(r1: Option<Time>, ds1: seq<NotificationDelivery>, r2: Option<Time>, ds2: seq<NotificationDelivery>, alertId: Id, userId: Id)
    requires IsLatest(r1, ds1, alertId, userId) && IsLatest(r2, ds2, alertId, userId)
    requires forall x :: x in ds1 && IsDeliveryFor(x, alertId, userId) <==> x in ds2 && IsDeliveryFor(x, alertId, userId)
    ensures r1 == r2
  {
    if r1.Some? && r2.Some? {
      var d1 :| d1 in ds1 && IsDeliveryFor(d1, alertId, userId) && d1.deliveredAt == r1.value;
      var d2 :| d2 in ds2 && IsDeliveryFor(d2, alertId, userId) && d2.deliveredAt == r2.value;
      assert d1 in ds2 && d2 in ds1;
    }
  }

  /**
   * The latest `deliveredAt` among the deliveries of the pair, or `None` when
   * there is none (the first element after sorting newest-first).
   */
  function LastDeliveryAt(deliveries: seq<NotificationDelivery>, alertId: Id, userId: Id): (r: Option<Time>)
    ensures IsLatest(r, deliveries, alertId, userId)
  {
    if deliveries == [] then None
    else
      var d := deliveries[0];
      var rest := LastDeliveryAt(deliveries[1..], alertId, userId);
      assert deliveries == [d] + deliveries[1..];
      if !IsDeliveryFor(d, alertId, userId) then rest
      else match rest
        case None => Some(d.deliveredAt)
        case Some(t) => Some(if d.deliveredAt > t then d.deliveredAt else t)
  }

  /** The last delivery depends only on which records of the pair are present. */
  lemma LastDeliverySameRecords(ds1: seq<NotificationDelivery>, ds2: seq<NotificationDelivery>, alertId: Id, userId: Id)
    requires forall x :: x in ds1 && IsDeliveryFor(x, alertId, userId) <==> x in ds2 && IsDeliveryFor(x, alertId, userId)
    ensures LastDeliveryAt(ds1, alertId, userId) == LastDeliveryAt(ds2, alertId, userId)
  {
    LatestUnique(LastDeliveryAt(ds1, alertId, userId), ds1, LastDeliveryAt(ds2, alertId, userId), ds2, alertId, userId);
  }

  /** The last delivery does not depend on the order of the delivery records. */
  lemma LastDeliveryOrderIndependent(ds1: seq<NotificationDelivery>, ds2: seq<NotificationDelivery>, alertId: Id, userId: Id)
    requires multiset(ds1) == multiset(ds2)
    ensures LastDeliveryAt(ds1, alertId, userId) == LastDeliveryAt(ds2, alertId, userId)
  {
    forall x ensures x in ds1 <==> x in ds2 {
      assert x in ds1 <==> x in multiset(ds1);
      assert x in ds2 <==> x in multiset(ds2);
    }
    LastDeliverySameRecords(ds1, ds2, alertId, userId);
  }

  /** Appending one delivery makes its instant a lower bound of the pair's last delivery. */
  lemma LastDeliveryAfterAppend(ds: seq<NotificationDelivery>, d: NotificationDelivery)
    ensures var r := LastDeliveryAt(ds + [d], d.alertId, d.userId);
      r.Some? && r.value >= d.deliveredAt
    ensures forall a, u :: !IsDeliveryFor(d, a, u) ==> LastDeliveryAt(ds + [d], a, u) == LastDeliveryAt(ds, a, u)
  {
    assert d in ds + [d];
    forall a, u | !IsDeliveryFor(d, a, u)
      ensures LastDeliveryAt(ds + [d], a, u) == LastDeliveryAt(ds, a, u)
    {
      forall x ensures x in ds + [d] <==> x in ds || x == d {
      }
      LastDeliverySameRecords(ds + [d], ds, a, u);
    }
  }

  // ---------------------------------------------------------------------------
  // shouldDeliverAlertToUser

  /** dayjs `now.diff(last, 'minute')`: elapsed whole minutes, truncated toward zero. */
  function WholeMinutesBetween(now: Time, last: Time): (r: int)
    ensures now >= last ==> 0 <= r && r * 60_000 <= now - last < (r + 1) * 60_000
    ensures now < last ==> r <= 0 && (r - 1) * 60_000 < now - last <= r * 60_000
  {
    var d := now - last;
    if d >= 0 then d / MsPerMinute else -((-d) / MsPerMinute)
  }

  /**
   * A pair is due when the alert exists and either it was never delivered or
   * at least `reminderFrequencyMinutes` whole minutes have passed.
   */
  predicate ShouldDeliverAlertToUser(st: Store, alertId: Id, userId: Id, now: Time, lastDeliveryAt: Option<Time>)
  {
    match FindAlert(st.alerts, alertId)
    case None => false
    case Some(i) =>
      match lastDeliveryAt
      case None => true
      case Some(last) => WholeMinutesBetween(now, last) >= st.alerts[i].reminderFrequencyMinutes
  }

  /** Cadence: with a positive frequency F, due exactly when F minutes (in milliseconds) have elapsed. */
  lemma CadenceThreshold(st: Store, alertId: Id, userId: Id, now: Time, last: Time)
    requires FindAlert(st.alerts, alertId).Some?
    requires st.alerts[FindAlert(st.alerts, alertId).value].reminderFrequencyMinutes > 0
    ensures var f := st.alerts[FindAlert(st.alerts, alertId).value].reminderFrequencyMinutes;
      ShouldDeliverAlertToUser(st, alertId, userId, now, Some(last)) <==> now - last >= f * MsPerMinute
  {
  }

  /** The cadence boundary: not due one millisecond before F minutes, due at exactly F minutes. */
  lemma CadenceBoundary(st: Store, alertId: Id, userId: Id, last: Time)
    requires FindAlert(st.alerts, alertId).Some?
    requires st.alerts[FindAlert(st.alerts, alertId).value].reminderFrequencyMinutes > 0
    ensures var f := st.alerts[FindAlert(st.alerts, alertId).value].reminderFrequencyMinutes;
      && !ShouldDeliverAlertToUser(st, alertId, userId, last + f * MsPerMinute - 1, Some(last))
      && ShouldDeliverAlertToUser(st, alertId, userId, last + f * MsPerMinute, Some(last))
  {
    var f := st.alerts[FindAlert(st.alerts, alertId).value].reminderFrequencyMinutes;
    CadenceThreshold(st, alertId, userId, last + f * MsPerMinute - 1, last);
    CadenceThreshold(st, alertId, userId, last + f * MsPerMinute, last);
  }

  /** A stored alert never delivered to the user is due, whatever the instant and the frequency. */
  lemma NeverDeliveredIsDue(st: Store, i: nat, userId: Id, now: Time)
    requires i < |st.alerts|
    ensures ShouldDeliverAlertToUser(st, st.alerts[i].id, userId, now, None)
  {
    assert FindAlert(st.alerts, st.alerts[i].id).Some?;
  }

  // ---------------------------------------------------------------------------
  // run

  /** The per-recipient test of the pass: due, and not snoozed today. */
  predicate Fires(st: Store, alert: Alert, user: User, now: Time)
  {
    && ShouldDeliverAlertToUser(st, alert.id, user.id, now, LastDeliveryAt(st.deliveries, alert.id, user.id))
    && !PreferenceService.IsSnoozedForToday(st, alert.id, user.id, now)
  }

  /** The alert takes part in the pass at `now`. */
  predicate IsEligible(alert: Alert, now: Time)
  {
    alert.remindersEnabled && IsAlertActiveNow(alert, now)
  }

  /** Every (alert, recipient) pair in alert-then-recipient order. */
  function PairsOf(alert: Alert, recipients: seq<User>): (r: seq<ReminderDecision>)
    ensures |r| == |recipients|
  {
    if recipients == [] then []
    else [ReminderDecision(alert.id, recipients[0].id)] + PairsOf(alert, recipients[1..])
  }

  /** All pairs the pass could emit, alert by alert, recipients in resolver order. */
  function Candidates(st: Store, alerts: seq<Alert>): seq<ReminderDecision>
  {
    if alerts == [] then []
    else (PairsOf(alerts[0], AlertService.ResolveAudienceUsers(st, alerts[0].audience))
          + Candidates(st, alerts[1..]))
  }

  /**
   * The recipient loop for one alert: one pair per firing recipient, in
   * resolver order, so a recipient listed twice yields its pair twice.
   */
  function RecipientDecisions(st: Store, alert: Alert, recipients: seq<User>, now: Time): (r: seq<ReminderDecision>)
    ensures r == PairsOf(alert, Seqs.Filter(recipients, (u: User) => Fires(st, alert, u, now)))
    ensures Seqs.IsSubsequence(r, PairsOf(alert, recipients))
    ensures forall p :: p in r <==>
      exists u :: u in recipients && Fires(st, alert, u, now) && p == ReminderDecision(alert.id, u.id)
  {
    if recipients == [] then []
    else
      var u := recipients[0];
      var rest := RecipientDecisions(st, alert, recipients[1..], now);
      assert recipients == [u] + recipients[1..];
      if Fires(st, alert, u, now) then
        var f := Seqs.Filter(recipients[1..], (u: User) => Fires(st, alert, u, now));
        assert ([u] + f)[1..] == f;
        [ReminderDecision(alert.id, u.id)] + rest
      else
        Seqs.SubsequencePrepend(rest, [ReminderDecision(alert.id, u.id)], PairsOf(alert, recipients[1..]));
        rest
  }

  /** The pass restricted to one alert. */
  function AlertDecisions(st: Store, alert: Alert, now: Time): (r: seq<ReminderDecision>)
    ensures Seqs.IsSubsequence(r, PairsOf(alert, AlertService.ResolveAudienceUsers(st, alert.audience)))
    ensures forall p :: p in r ==> p.alertId == alert.id && IsEligible(alert, now)
    ensures forall p :: p in r <==>
      && IsEligible(alert, now)
      && exists u :: u in AlertService.ResolveAudienceUsers(st, alert.audience)
           && Fires(st, alert, u, now) && p == ReminderDecision(alert.id, u.id)
  {
    if !alert.remindersEnabled || !IsAlertActiveNow(alert, now) then []
    else RecipientDecisions(st, alert, AlertService.ResolveAudienceUsers(st, alert.audience), now)
  }

  /** The alert loop over `alerts`, a suffix of the stored alerts. */
  function RunOver(st: Store, alerts: seq<Alert>, now: Time): (r: seq<ReminderDecision>)
    ensures Seqs.IsSubsequence(r, Candidates(st, alerts))
    ensures forall p :: p in r <==> exists a :: a in alerts && p in AlertDecisions(st, a, now)
  {
    if alerts == [] then []
    else (
      var head := AlertDecisions(st, alerts[0], now);
      var rest := RunOver(st, alerts[1..], now);
      assert alerts == [alerts[0]] + alerts[1..];
      Seqs.SubsequenceConcat(head, PairsOf(alerts[0], AlertService.ResolveAudienceUsers(st, alerts[0].audience)),
                             rest, Candidates(st, alerts[1..]));
      head + rest)
  }

  /** The alert loop concatenates the pairs of each alert, in store order. */
  lemma {:induction false} RunOverFlattens(st: Store, alerts: seq<Alert>, now: Time)
    ensures RunOver(st, alerts, now) == Seqs.FlatMap(alerts, (a: Alert) => AlertDecisions(st, a, now))
    decreases |alerts|
  {
    if alerts != [] {
      RunOverFlattens(st, alerts[1..], now);
    }
  }

  /**
   * The pass over two runs of alerts is the pass over the first followed by
   * the pass over the second, so an alert stored twice contributes its pairs twice.
   */
  lemma RunOverAppend(st: Store, xs: seq<Alert>, ys: seq<Alert>, now: Time)
    ensures RunOver(st, xs + ys, now) == RunOver(st, xs, now) + RunOver(st, ys, now)
  {
    RunOverFlattens(st, xs + ys, now);
    RunOverFlattens(st, xs, now);
    RunOverFlattens(st, ys, now);
    Seqs.FlatMapAppend(xs, ys, (a: Alert) => AlertDecisions(st, a, now));
  }

  /**
   * `run(now)`: the pairs due at `now`, in store order of the alerts and
   * resolver order of the recipients.
   */
  function Run(st: Store, now: Time): (r: seq<ReminderDecision>)
    ensures Seqs.IsSubsequence(r, Candidates(st, st.alerts))
    ensures forall p :: p in r ==> exists i :: 0 <= i < |st.alerts| && st.alerts[i].id == p.alertId
  {
    RunOver(st, st.alerts, now)
  }

  /**
   * A pair is emitted exactly when some stored alert with its identifier is
   * eligible now and some recipient of that alert with its user identifier fires.
   */
  lemma RunMembership(st: Store, now: Time, p: ReminderDecision)
    ensures p in Run(st, now) <==>
      exists a, u :: a in st.alerts && IsEligible(a, now)
        && u in AlertService.ResolveAudienceUsers(st, a.audience)
        && Fires(st, a, u, now) && p == ReminderDecision(a.id, u.id)
  {
  }

  /** A recipient never delivered to is emitted unless snoozed today, whatever `now` and the frequency. */
  lemma RunFiresNeverDelivered(st: Store, now: Time, i: nat, u: User)
    requires i < |st.alerts| && IsEligible(st.alerts[i], now)
    requires u in AlertService.ResolveAudienceUsers(st, st.alerts[i].audience)
    requires LastDeliveryAt(st.deliveries, st.alerts[i].id, u.id).None?
    requires !PreferenceService.IsSnoozedForToday(st, st.alerts[i].id, u.id, now)
    ensures ReminderDecision(st.alerts[i].id, u.id) in Run(st, now)
  {
    var a := st.alerts[i];
    NeverDeliveredIsDue(st, i, u.id, now);
    assert Fires(st, a, u, now);
    assert ReminderDecision(a.id, u.id) in AlertDecisions(st, a, now);
    assert a in st.alerts;
  }

  /** A pair snoozed today is never emitted, even when due. */
  lemma RunSkipsSnoozed(st: Store, now: Time, alertId: Id, userId: Id)
    requires PreferenceService.IsSnoozedForToday(st, alertId, userId, now)
    ensures ReminderDecision(alertId, userId) !in Run(st, now)
  {
    RunMembership(st, now, ReminderDecision(alertId, userId));
  }

  /**
   * With well-formed alerts, an emitted pair that has a previous delivery at
   * `last` is at least the alert's frequency in minutes past it.
   */
  lemma RunRespectsCadence(st: Store, now: Time, p: ReminderDecision, i: nat, last: Time)
    requires AlertService.WellFormedAlerts(st)
    requires i < |st.alerts| && st.alerts[i].id == p.alertId
    requires LastDeliveryAt(st.deliveries, p.alertId, p.userId) == Some(last)
    ensures p in Run(st, now) ==> now - last >= st.alerts[i].reminderFrequencyMinutes * MsPerMinute
  {
    RunMembership(st, now, p);
    FindStoredAlert(st.alerts, i);
    CadenceThreshold(st, p.alertId, p.userId, now, last);
  }

  /** Once archived, an alert with a unique identifier yields no pair in any later pass. */
  lemma ArchivedAlertNeverReminded(st: Store, id: Id, archivedAt: Time, now: Time, p: ReminderDecision)
    requires UniqueAlertIds(st.alerts)
    requires p in Run(AlertService.Archive(st, id, archivedAt).0, now)
    ensures p.alertId != id
  {
    var st' := AlertService.Archive(st, id, archivedAt).0;
    var a :| a in st'.alerts && p in AlertDecisions(st', a, now);
    AlertService.ArchiveCoversIdentifier(st, id, archivedAt, a);
  }

  /**
   * After an in-app delivery at instant `t`, a well-formed alert with a unique
   * identifier is not reminded to that user again before `t` plus its frequency.
   */
  lemma DeliveryDefersReminder(st: Store, i: nat, userId: Id, stamp: InAppChannel.Stamp, now: Time)
    requires AlertService.WellFormedAlerts(st)
    requires i < |st.alerts|
    requires now < stamp.at + st.alerts[i].reminderFrequencyMinutes * MsPerMinute
    ensures ReminderDecision(st.alerts[i].id, userId)
      !in Run(InAppChannel.Deliver(st, st.alerts[i], userId, stamp).0, now)
  {
    var (st', d) := InAppChannel.Deliver(st, st.alerts[i], userId, stamp);
    var p := ReminderDecision(st.alerts[i].id, userId);
    LastDeliveryAfterAppend(st.deliveries, d);
    var last := LastDeliveryAt(st'.deliveries, p.alertId, p.userId).value;
    RunRespectsCadence(st', now, p, i, last);
  }

  // ---------------------------------------------------------------------------
  // What the pass reads: alerts, users, deliveries and snooze state.

  lemma {:induction false} RecipientDecisionsCongruence(st1: Store, st2: Store, alert: Alert, recipients: seq<User>, now: Time)
    requires st1.alerts == st2.alerts && st1.deliveries == st2.deliveries
    requires forall a, u :: PreferenceService.IsSnoozedForToday(st1, a, u, now)
                          == PreferenceService.IsSnoozedForToday(st2, a, u, now)
    ensures RecipientDecisions(st1, alert, recipients, now) == RecipientDecisions(st2, alert, recipients, now)
    decreases |recipients|
  {
    if recipients != [] {
      RecipientDecisionsCongruence(st1, st2, alert, recipients[1..], now);
    }
  }

  lemma {:induction false} RunOverCongruence(st1: Store, st2: Store, alerts: seq<Alert>, now: Time)
    requires st1.alerts == st2.alerts && st1.users == st2.users && st1.deliveries == st2.deliveries
    requires forall a, u :: PreferenceService.IsSnoozedForToday(st1, a, u, now)
                          == PreferenceService.IsSnoozedForToday(st2, a, u, now)
    ensures RunOver(st1, alerts, now) == RunOver(st2, alerts, now)
    decreases |alerts|
  {
    if alerts != [] {
      RunOverCongruence(st1, st2, alerts[1..], now);
      RecipientDecisionsCongruence(st1, st2, alerts[0],
        AlertService.ResolveAudienceUsers(st1, alerts[0].audience), now);
    }
  }

  /** Marking an alert read or unread does not change any pass: the read state is never consulted. */
  lemma RunIgnoresReadState(st: Store, alertId: Id, userId: Id, state: ReadState, newId: Id, at: Time, now: Time)
    ensures Run(PreferenceService.SetReadState(st, alertId, userId, state, newId, at).0, now) == Run(st, now)
  {
    var st' := PreferenceService.SetReadState(st, alertId, userId, state, newId, at).0;
    forall a, u
      ensures PreferenceService.IsSnoozedForToday(st', a, u, now) == PreferenceService.IsSnoozedForToday(st, a, u, now)
    {
      PreferenceService.SetReadStateKeepsSnooze(st, alertId, userId, state, newId, at, a, u, now);
    }
    RunOverCongruence(st', st, st.alerts, now);
  }

  /**
   * A snooze suppresses its pair on the snooze's calendar day only: on any
   * other day the pass is the one without the snooze, so due-ness is judged
   * against the original delivery history.
   */
  lemma SnoozeLapsesOnOtherDays(st: Store, alertId: Id, userId: Id, newId: Id, s: Time, now: Time)
    requires !IsSameDay(s, now)
    requires !PreferenceService.IsSnoozedForToday(st, alertId, userId, now)
    ensures Run(PreferenceService.SnoozeForToday(st, alertId, userId, newId, s).0, now) == Run(st, now)
  {
    var st' := PreferenceService.SnoozeForToday(st, alertId, userId, newId, s).0;
    forall a, u
      ensures PreferenceService.IsSnoozedForToday(st', a, u, now) == PreferenceService.IsSnoozedForToday(st, a, u, now)
    {
      if a == alertId && u == userId {
        PreferenceService.SnoozedExactlyThatDay(st, alertId, userId, newId, s, now);
      } else {
        PreferenceService.SnoozeKeepsOtherPairs(st, alertId, userId, newId, s, a, u, now);
      }
    }
    RunOverCongruence(st', st, st.alerts, now);
  }

  /** On the snooze's own calendar day the snoozed pair is not emitted. */
  lemma SnoozeSuppressesSameDay(st: Store, alertId: Id, userId: Id, newId: Id, s: Time, now: Time)
    requires IsSameDay(s, now)
    ensures ReminderDecision(alertId, userId)
      !in Run(PreferenceService.SnoozeForToday(st, alertId, userId, newId, s).0, now)
  {
    PreferenceService.SnoozedExactlyThatDay(st, alertId, userId, newId, s, now);
    RunSkipsSnoozed(PreferenceService.SnoozeForToday(st, alertId, userId, newId, s).0, now, alertId, userId);
  }
}
