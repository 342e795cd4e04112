/** Read-only counting aggregations over the store, for the dashboard summary. */
module AnalyticsService {
  import opened Models
  import opened DataStore
  import opened Tallies

  /**
   * The summary. Each per-key counter is an insertion-ordered tally, the
   * shape `Object.fromEntries` gives a `Map` and the severity accumulator
   * object has.
   */
  datatype Summary = Summary(
    totalAlerts: nat,
    totalDeliveries: nat,
    deliveryByAlert: Tally<Id>,
    readByAlert: Tally<Id>,
    snoozedByAlert: Tally<Id>,
    severityBreakdown: Tally<Severity>)

  predicate AnyDelivery(d: NotificationDelivery) { true }
  function DeliveryAlert(d: NotificationDelivery): Id { d.alertId }
  predicate IsRead(p: UserAlertPreference) { p.readState == Read }
  /** A `Date` object is always truthy, so any recorded snooze counts. */
  predicate IsSnoozed(p: UserAlertPreference) { p.lastSnoozedAt.Some? }
  function PreferenceAlert(p: UserAlertPreference): Id { p.alertId }
  predicate AnyAlert(a: Alert) { true }
  function AlertSeverity(a: Alert): Severity { a.severity }

  /** The delivery loop: deliveries per alert identifier. */
  method CountDeliveries(ds: seq<NotificationDelivery>) returns (t: Tally<Id>)
    ensures Tabulates(t, ds, AnyDelivery, DeliveryAlert)
    ensures Sum(t) == |ds|
  {
    t := [];
    TabulatesEmpty(ds, AnyDelivery, DeliveryAlert);
    var i := 0;
    while i < |ds|
      invariant 0 <= i <= |ds|
      invariant Tabulates(t, ds[..i], AnyDelivery, DeliveryAlert)
    {
      TabulatesStep(t, ds, i, AnyDelivery, DeliveryAlert);
      t := Bump(t, ds[i].alertId);
      i := i + 1;
    }
    assert ds[..i] == ds;
    CountWhereAll(ds, AnyDelivery);
  }

  /** The preference loop: read and snoozed preferences per alert identifier, in one pass. */
  method CountPreferences(ps: seq<UserAlertPreference>) returns (read: Tally<Id>, snoozed: Tally<Id>)
    ensures Tabulates(read, ps, IsRead, PreferenceAlert)
    ensures Tabulates(snoozed, ps, IsSnoozed, PreferenceAlert)
  {
    read, snoozed := [], [];
    TabulatesEmpty(ps, IsRead, PreferenceAlert);
    TabulatesEmpty(ps, IsSnoozed, PreferenceAlert);
    var j := 0;
    while j < |ps|
      invariant 0 <= j <= |ps|
      invariant Tabulates(read, ps[..j], IsRead, PreferenceAlert)
      invariant Tabulates(snoozed, ps[..j], IsSnoozed, PreferenceAlert)
    {
      var p := ps[j];
      TabulatesStep(read, ps, j, IsRead, PreferenceAlert);
      TabulatesStep(snoozed, ps, j, IsSnoozed, PreferenceAlert);
      if p.readState == Read {
        read := Bump(read, p.alertId);
      }
      if p.lastSnoozedAt.Some? {
        snoozed := Bump(snoozed, p.alertId);
      }
      j := j + 1;
    }
    assert ps[..j] == ps;
  }

  /** The severity reduction: alerts per severity. */
  method CountSeverities(alerts: seq<Alert>) returns (t: Tally<Severity>)
    ensures Tabulates(t, alerts, AnyAlert, AlertSeverity)
    ensures Sum(t) == |alerts|
  {
    t := [];
    TabulatesEmpty(alerts, AnyAlert, AlertSeverity);
    var k := 0;
    while k < |alerts|
      invariant 0 <= k <= |alerts|
      invariant Tabulates(t, alerts[..k], AnyAlert, AlertSeverity)
    {
      TabulatesStep(t, alerts, k, AnyAlert, AlertSeverity);
      t := Bump(t, alerts[k].severity);
      k := k + 1;
    }
    assert alerts[..k] == alerts;
    CountWhereAll(alerts, AnyAlert);
  }

  /**
   * `getSummary`. The store is a value here, so the summary cannot change it.
   */
  method GetSummary(st: Store) returns (s: Summary)
    ensures s.totalAlerts == |st.alerts| && s.totalDeliveries == |st.deliveries|
    ensures Tabulates(s.deliveryByAlert, st.deliveries, AnyDelivery, DeliveryAlert)
    ensures Sum(s.deliveryByAlert) == s.totalDeliveries
    ensures Tabulates(s.readByAlert, st.userAlertPrefs, IsRead, PreferenceAlert)
    ensures Tabulates(s.snoozedByAlert, st.userAlertPrefs, IsSnoozed, PreferenceAlert)
    ensures Tabulates(s.severityBreakdown, st.alerts, AnyAlert, AlertSeverity)
    ensures Sum(s.severityBreakdown) == s.totalAlerts
  {
    var deliveryByAlert := CountDeliveries(st.deliveries);
    var readByAlert, snoozedByAlert := CountPreferences(st.userAlertPrefs);
    var severityBreakdown := CountSeverities(st.alerts);
    s := Summary(|st.alerts|, |st.deliveries|, deliveryByAlert, readByAlert, snoozedByAlert, severityBreakdown);
  }

  /**
   * Key order follows the deliveries: when alert "a" is delivered before
   * alert "b", the per-alert counts list "a" first.
   */
  lemma DeliveryKeysInFirstSeenOrder(t: Tally<Id>, da: NotificationDelivery, db: NotificationDelivery)
    requires da.alertId == "a" && db.alertId == "b"
    requires Tabulates(t, [da, db], AnyDelivery, DeliveryAlert)
    ensures KeySeq(t) == ["a", "b"]
  {
    var ds := [da, db];
    assert ds[..1] == [da] && [da][..0] == [];
    assert FirstSeen([da], AnyDelivery, DeliveryAlert) == ["a"];
    assert "b" !in ["a"];
    assert FirstSeen(ds, AnyDelivery, DeliveryAlert) == ["a", "b"];
  }
}
