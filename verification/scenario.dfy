/**
 * An end-to-end scenario of the reminder cadence: one alert for one user, created
 * at `t0` with a 120-minute cadence, delivered once, then snoozed.
 */
module Scenario {
  import opened Wrappers
  import opened Models
  import opened DataStore
  import AlertService
  import PreferenceService
  import InAppChannel
  import opened ReminderService
  import Calendar
  import Seqs

  function Recipient(): User
  {
    User("u1", "Ada", None)
  }

  function Initial(): Store
  {
    EmptyStore().(users := [Recipient()])
  }

  function Input(): AlertService.CreateAlertInput
  {
    AlertService.CreateAlertInput(
      "Database degraded", "Writes are delayed", Critical, Users(["u1"]),
      Some(120), None, None, None)
  }

  /** The store after creating the alert at `t0`. */
  function Created(t0: Time): Store
  {
    AlertService.Create(Initial(), Input(), "a1", t0).0
  }

  /**
   * The store after the pairs of the pass at `t0` were dispatched in-app at
   * `t0`. The pass itself only reports pairs; this step stands for a caller
   * outside the reminder service that dispatches them.
   */
  function Delivered(t0: Time): Store
  {
    var st := Created(t0);
    InAppChannel.Deliver(st, st.alerts[0], "u1", InAppChannel.Stamp("d1", t0)).0
  }

  /** The store after the user snoozed the alert at `t0 + 121` minutes. */
  function Snoozed(t0: Time): Store
  {
    PreferenceService.SnoozeForToday(Delivered(t0), "a1", "u1", "p1", t0 + 121 * MsPerMinute).0
  }

  lemma CreatedFacts(t0: Time)
    ensures Created(t0).alerts == [AlertService.Create(Initial(), Input(), "a1", t0).1]
    ensures AlertService.WellFormedAlerts(Created(t0))
    ensures IsEligible(Created(t0).alerts[0], t0)
    ensures Created(t0).alerts[0].id == "a1"
    ensures Created(t0).alerts[0].reminderFrequencyMinutes == 120
    ensures Recipient() in AlertService.ResolveAudienceUsers(Created(t0), Created(t0).alerts[0].audience)
  {
    AlertService.CreateIsActiveAndWellFormed(Initial(), Input(), "a1", t0);
    assert "u1" in ["u1"];
  }

  /** The only delivery of the pair is the one at `t0`, and the alert is still eligible later. */
  lemma DeliveredFacts(t0: Time, now: Time)
    requires now >= t0
    ensures LastDeliveryAt(Delivered(t0).deliveries, "a1", "u1") == Some(t0)
    ensures Delivered(t0).alerts == Created(t0).alerts && Delivered(t0).users == Created(t0).users
    ensures IsEligible(Delivered(t0).alerts[0], now)
  {
    CreatedFacts(t0);
  }

  /** Nobody has snoozed anything before the snooze step. */
  lemma NothingSnoozedYet(t0: Time, now: Time)
    ensures !PreferenceService.IsSnoozedForToday(Delivered(t0), "a1", "u1", now)
  {
  }

  /**
   * The cadence scenario: the first pass reminds the user, a pass one hour
   * after the delivery does not, a pass 121 minutes after it does, and a
   * snooze at that instant suppresses that pass.
   */
  lemma CadenceScenario(t0: Time)
    ensures ReminderDecision("a1", "u1") in Run(Created(t0), t0)
    ensures ReminderDecision("a1", "u1") !in Run(Delivered(t0), t0 + 60 * MsPerMinute)
    ensures ReminderDecision("a1", "u1") in Run(Delivered(t0), t0 + 121 * MsPerMinute)
    ensures ReminderDecision("a1", "u1") !in Run(Snoozed(t0), t0 + 121 * MsPerMinute)
  {
    var st := Created(t0);
    CreatedFacts(t0);
    RunFiresNeverDelivered(st, t0, 0, Recipient());
    DeliveryDefersReminder(st, 0, "u1", InAppChannel.Stamp("d1", t0), t0 + 60 * MsPerMinute);
    DueAfter(t0, t0 + 121 * MsPerMinute);
    Models.IsSameDayEquivalence(t0 + 121 * MsPerMinute, t0 + 121 * MsPerMinute, t0 + 121 * MsPerMinute);
    SnoozedSameDaySilent(t0, t0 + 121 * MsPerMinute);
  }

  /** Any pass at least 120 minutes after the delivery reminds the user again. */
  lemma DueAfter(t0: Time, now: Time)
    requires now >= t0 + 120 * MsPerMinute
    ensures ReminderDecision("a1", "u1") in Run(Delivered(t0), now)
  {
    var st := Delivered(t0);
    DeliveredFacts(t0, now);
    CreatedFacts(t0);
    CadenceThreshold(st, "a1", "u1", now, t0);
    assert Fires(st, st.alerts[0], Recipient(), now);
    RunMembership(st, now, ReminderDecision("a1", "u1"));
  }

  /** On a later calendar day than the snooze, the pass reminds the user again. */
  lemma SnoozeLapses(t0: Time, now: Time)
    requires now >= t0 + 121 * MsPerMinute
    requires !IsSameDay(t0 + 121 * MsPerMinute, now)
    ensures ReminderDecision("a1", "u1") in Run(Snoozed(t0), now)
  {
    SnoozeForgotten(t0, now);
    DueAfter(t0, now);
  }

  lemma SnoozeForgotten(t0: Time, now: Time)
    requires now >= t0
    requires !IsSameDay(t0 + 121 * MsPerMinute, now)
    ensures Run(Snoozed(t0), now) == Run(Delivered(t0), now)
  {
    NothingSnoozedYet(t0, now);
    SnoozeLapsesOnOtherDays(Delivered(t0), "a1", "u1", "p1", t0 + 121 * MsPerMinute, now);
  }

  /**
   * "A day later" is not always another calendar day: created at
   * 2023-11-14 22:13:20 UTC, the snooze (00:14:20) and the pass 24 hours after
   * creation (22:13:20) fall on the same day, so that pass stays silent.
   */
  lemma SnoozeStillActiveOneDayAfterCreation(t0: Time)
    requires t0 == 1_700_000_000_000
    ensures ReminderDecision("a1", "u1") !in Run(Snoozed(t0), t0 + 24 * 60 * MsPerMinute)
  {
    SnoozeAndNextPassShareDay(t0);
    SameDayNumberSilent(t0, t0 + 24 * 60 * MsPerMinute);
  }

  /**
   * For this `t0`, the snooze at 121 minutes (1_700_007_260_000) and the
   * instant 24 hours after `t0` (1_700_086_400_000) both lie in UTC day 19676.
   */
  lemma SnoozeAndNextPassShareDay(t0: Time)
    requires t0 == 1_700_000_000_000
    ensures Calendar.DayOf(t0 + 121 * MsPerMinute) == Calendar.DayOf(t0 + 24 * 60 * MsPerMinute)
  {
    var s, later := t0 + 121 * MsPerMinute, t0 + 24 * 60 * MsPerMinute;
    assert s == 1_700_007_260_000 && later == 1_700_086_400_000;
    assert 19676 * Calendar.MsPerDay <= s < later < 19677 * Calendar.MsPerDay;
  }

  /** A pass in the snooze's UTC day stays silent. */
  lemma SameDayNumberSilent(t0: Time, now: Time)
    requires Calendar.DayOf(t0 + 121 * MsPerMinute) == Calendar.DayOf(now)
    ensures ReminderDecision("a1", "u1") !in Run(Snoozed(t0), now)
  {
    Models.IsSameDayIffSameDayNumber(t0 + 121 * MsPerMinute, now);
    SnoozedSameDaySilent(t0, now);
  }

  /** Any pass on the snooze's calendar day stays silent. */
  lemma SnoozedSameDaySilent(t0: Time, now: Time)
    requires IsSameDay(t0 + 121 * MsPerMinute, now)
    ensures ReminderDecision("a1", "u1") !in Run(Snoozed(t0), now)
  {
    SnoozeSuppressesSameDay(Delivered(t0), "a1", "u1", "p1", t0 + 121 * MsPerMinute, now);
  }

  /**
   * Without an outside dispatcher nothing is recorded after the first pass,
   * so the pass one hour later reports the same pair again.
   */
  lemma UndispatchedPairRepeats(t0: Time)
    ensures ReminderDecision("a1", "u1") in Run(Created(t0), t0 + 60 * MsPerMinute)
  {
    CreatedFacts(t0);
    DeliveredFacts(t0, t0 + 60 * MsPerMinute);
    RunFiresNeverDelivered(Created(t0), t0 + 60 * MsPerMinute, 0, Recipient());
  }

  /** The same alert for the whole organization, whose user list holds the recipient twice. */
  function ListedTwice(t0: Time): Store
  {
    var input := Input().(audience := Organization);
    AlertService.Create(EmptyStore().(users := [Recipient(), Recipient()]), input, "a1", t0).0
  }

  /** A user listed twice by the resolver yields the pair twice in one pass. */
  lemma DuplicateUserRemindedTwice(t0: Time)
    ensures Run(ListedTwice(t0), t0) == [ReminderDecision("a1", "u1"), ReminderDecision("a1", "u1")]
  {
    var st := ListedTwice(t0);
    var a := st.alerts[0];
    var input := Input().(audience := Organization);
    AlertService.CreateIsActiveAndWellFormed(EmptyStore().(users := [Recipient(), Recipient()]), input, "a1", t0);
    NeverDeliveredIsDue(st, 0, "u1", t0);
    assert Fires(st, a, Recipient(), t0);
    Seqs.FilterKeepsAll(st.users, (u: User) => Fires(st, a, u, t0));
    assert st.alerts == [a] && st.alerts[1..] == [];
  }

  /** The created alert stored twice under the same identifier. */
  function StoredTwice(t0: Time): Store
  {
    Created(t0).(alerts := Created(t0).alerts + Created(t0).alerts)
  }

  /** In a store holding only the recipient and no history, the created alert yields its pair once. */
  lemma CreatedAlertDecisions(st: Store, i: nat, t0: Time)
    requires st.users == [Recipient()] && st.deliveries == [] && st.userAlertPrefs == []
    requires i < |st.alerts| && st.alerts[i] == Created(t0).alerts[0]
    ensures AlertDecisions(st, st.alerts[i], t0) == [ReminderDecision("a1", "u1")]
  {
    var a := st.alerts[i];
    CreatedFacts(t0);
    NeverDeliveredIsDue(st, i, "u1", t0);
    assert Fires(st, a, Recipient(), t0);
    Seqs.FilterKeepsAll(st.users, (u: User) => u.id in ["u1"]);
    Seqs.FilterKeepsAll(st.users, (u: User) => Fires(st, a, u, t0));
  }

  /** A store holding the same alert twice runs its alert loop twice. */
  lemma RunOverTwice(st: Store, a: Alert, now: Time)
    requires st.alerts == [a, a]
    ensures Run(st, now) == AlertDecisions(st, a, now) + AlertDecisions(st, a, now)
  {
    RunOverFlattens(st, st.alerts, now);
    assert [a, a][1..] == [a] && [a][1..] == [];
  }

  /** An alert identifier stored twice yields the pair twice in one pass. */
  lemma DuplicateAlertRemindedTwice(t0: Time)
    ensures Run(StoredTwice(t0), t0) == [ReminderDecision("a1", "u1"), ReminderDecision("a1", "u1")]
  {
    var st := StoredTwice(t0);
    CreatedFacts(t0);
    var a := Created(t0).alerts[0];
    assert st.alerts == [a, a];
    CreatedAlertDecisions(st, 0, t0);
    RunOverTwice(st, a, t0);
  }
}
