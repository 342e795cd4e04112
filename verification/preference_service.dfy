/**
 * Per-(alert, user) preference records: lazily created read flag and last
 * snooze instant, and the "snoozed for today" test the reminder pass uses.
 */
module PreferenceService {
  import opened Wrappers
  import opened Models
  import opened DataStore
  import Calendar

  /** The record belongs to the pair (`alertId`, `userId`). */
  predicate IsFor(p: UserAlertPreference, alertId: Id, userId: Id)
  {
    p.alertId == alertId && p.userId == userId
  }

  /** At most one record per (alertId, userId) pair. */
  predicate UniquePreferences(prefs: seq<UserAlertPreference>)
  {
    forall i, j :: 0 <= i < j < |prefs| ==>
      !(prefs[i].alertId == prefs[j].alertId && prefs[i].userId == prefs[j].userId)
  }

  /** The number of records for one pair. */
  function CountFor(prefs: seq<UserAlertPreference>, alertId: Id, userId: Id): nat
  {
    if prefs == [] then 0
    else (CountFor(prefs[..|prefs| - 1], alertId, userId)
          + if IsFor(prefs[|prefs| - 1], alertId, userId) then 1 else 0)
  }

  /** The index of the first record for the pair (`userAlertPrefs.find(...)`). */
  function FindPreference(prefs: seq<UserAlertPreference>, alertId: Id, userId: Id): (r: Option<nat>)
    ensures r.Some? ==> r.value < |prefs| && IsFor(prefs[r.value], alertId, userId)
    ensures r.Some? ==> forall j :: 0 <= j < r.value ==> !IsFor(prefs[j], alertId, userId)
    ensures r.None? <==> forall j :: 0 <= j < |prefs| ==> !IsFor(prefs[j], alertId, userId)
  {
    if prefs == [] then None
    else if IsFor(prefs[0], alertId, userId) then Some(0)
    else match FindPreference(prefs[1..], alertId, userId)
      case Some(i) => Some(i + 1)
      case None => None
  }

  /** Appending a record changes the lookup only for a pair that had no record. */
  lemma {:induction false} FindPreferenceAfterAppend(prefs: seq<UserAlertPreference>, p: UserAlertPreference, a: Id, u: Id)
    ensures FindPreference(prefs, a, u).Some? ==> FindPreference(prefs + [p], a, u) == FindPreference(prefs, a, u)
    ensures FindPreference(prefs, a, u).None? ==>
      FindPreference(prefs + [p], a, u) == if IsFor(p, a, u) then Some(|prefs|) else None
  {
    assert forall j :: 0 <= j < |prefs| ==> (prefs + [p])[j] == prefs[j];
    assert (prefs + [p])[|prefs|] == p;
  }

  /** A fresh record: unread, never snoozed. */
  function NewPreference(id: Id, alertId: Id, userId: Id, now: Time): UserAlertPreference
  {
    UserAlertPreference(id, alertId, userId, Unread, None, now)
  }

  /**
   * The record for the pair, creating it (with identifier `newId`, stamped
   * `now`) when none exists. Returns the store and the record's index.
   */
  function GetOrCreate(st: Store, alertId: Id, userId: Id, newId: Id, now: Time): (r: (Store, nat))
    ensures r.0 == st.(userAlertPrefs := r.0.userAlertPrefs)
    ensures FindPreference(r.0.userAlertPrefs, alertId, userId) == Some(r.1)
    ensures FindPreference(st.userAlertPrefs, alertId, userId).Some? ==>
      r.0 == st && r.1 == FindPreference(st.userAlertPrefs, alertId, userId).value
    ensures FindPreference(st.userAlertPrefs, alertId, userId).None? ==>
      && r.0.userAlertPrefs == st.userAlertPrefs + [NewPreference(newId, alertId, userId, now)]
      && r.1 == |st.userAlertPrefs|
  {
    match FindPreference(st.userAlertPrefs, alertId, userId)
    case Some(i) => (st, i)
    case None =>
      var prefs := st.userAlertPrefs + [NewPreference(newId, alertId, userId, now)];
      FindPreferenceAfterAppend(st.userAlertPrefs, NewPreference(newId, alertId, userId, now), alertId, userId);
      (st.(userAlertPrefs := prefs), |st.userAlertPrefs|)
  }

  lemma {:induction false} CountForAppend(prefs: seq<UserAlertPreference>, p: UserAlertPreference, alertId: Id, userId: Id)
    ensures CountFor(prefs + [p], alertId, userId)
      == CountFor(prefs, alertId, userId) + (if IsFor(p, alertId, userId) then 1 else 0)
  {
    assert (prefs + [p])[..|prefs|] == prefs;
  }

  /** A pair with no record has count 0; a count of 0 means no record. */
  lemma {:induction false} CountForZero(prefs: seq<UserAlertPreference>, alertId: Id, userId: Id)
    ensures CountFor(prefs, alertId, userId) == 0
      <==> forall j :: 0 <= j < |prefs| ==> !IsFor(prefs[j], alertId, userId)
  {
    if prefs != [] {
      var init := prefs[..|prefs| - 1];
      CountForZero(init, alertId, userId);
      assert forall j :: 0 <= j < |init| ==> init[j] == prefs[j];
    }
  }

  /**
   * Find-or-create never adds a duplicate: afterwards the pair has exactly one
   * record if it had none, and as many as before otherwise; every other pair's
   * count is unchanged.
   */
  lemma GetOrCreateNoDuplicates(st: Store, alertId: Id, userId: Id, newId: Id, now: Time, a: Id, u: Id)
    ensures var prefs' := GetOrCreate(st, alertId, userId, newId, now).0.userAlertPrefs;
      var before := CountFor(st.userAlertPrefs, a, u);
      CountFor(prefs', a, u) ==
        if a == alertId && u == userId && before == 0 then 1 else before
  {
    var prefs := st.userAlertPrefs;
    CountForZero(prefs, alertId, userId);
    if FindPreference(prefs, alertId, userId).None? {
      CountForAppend(prefs, NewPreference(newId, alertId, userId, now), a, u);
      if a == alertId && u == userId {
        CountForZero(prefs, a, u);
      }
    }
  }

  /** Find-or-create keeps the one-record-per-pair invariant. */
  lemma GetOrCreatePreservesUnique(st: Store, alertId: Id, userId: Id, newId: Id, now: Time)
    requires UniquePreferences(st.userAlertPrefs)
    ensures UniquePreferences(GetOrCreate(st, alertId, userId, newId, now).0.userAlertPrefs)
  {
  }

  /** Replaces the record at index `i`, which keeps its pair, by `p`. */
  function Replace(st: Store, i: nat, p: UserAlertPreference): (r: Store)
    requires i < |st.userAlertPrefs|
    requires p.alertId == st.userAlertPrefs[i].alertId && p.userId == st.userAlertPrefs[i].userId
    ensures r == st.(userAlertPrefs := r.userAlertPrefs)
    ensures |r.userAlertPrefs| == |st.userAlertPrefs| && r.userAlertPrefs[i] == p
    ensures forall j :: 0 <= j < |st.userAlertPrefs| && j != i ==> r.userAlertPrefs[j] == st.userAlertPrefs[j]
    ensures UniquePreferences(st.userAlertPrefs) ==> UniquePreferences(r.userAlertPrefs)
    ensures forall a, u :: FindPreference(r.userAlertPrefs, a, u) == FindPreference(st.userAlertPrefs, a, u)
  {
    var r := st.(userAlertPrefs := st.userAlertPrefs[i := p]);
    assert forall a, u :: FindPreference(r.userAlertPrefs, a, u) == FindPreference(st.userAlertPrefs, a, u) by {
      forall a, u ensures FindPreference(r.userAlertPrefs, a, u) == FindPreference(st.userAlertPrefs, a, u) {
        FindPreferenceAfterReplace(st.userAlertPrefs, i, p, a, u);
      }
    }
    r
  }

  lemma {:induction false} FindPreferenceAfterReplace(prefs: seq<UserAlertPreference>, i: nat, p: UserAlertPreference, a: Id, u: Id)
    requires i < |prefs| && p.alertId == prefs[i].alertId && p.userId == prefs[i].userId
    ensures FindPreference(prefs[i := p], a, u) == FindPreference(prefs, a, u)
  {
    assert forall j :: 0 <= j < |prefs| ==> (IsFor(prefs[i := p][j], a, u) <==> IsFor(prefs[j], a, u));
  }

  /**
   * Sets the read state of the pair's record (created if missing) and stamps
   * `updatedAt`. Returns the store and the record as it now stands.
   */
  function SetReadState(st: Store, alertId: Id, userId: Id, state: ReadState, newId: Id, now: Time)
    : (r: (Store, UserAlertPreference))
    ensures r.0 == st.(userAlertPrefs := r.0.userAlertPrefs)
    ensures IsFor(r.1, alertId, userId) && r.1.readState == state && r.1.updatedAt == now
    ensures match FindPreference(st.userAlertPrefs, alertId, userId)
      case Some(i) =>
        && r.1.id == st.userAlertPrefs[i].id
        && r.1.lastSnoozedAt == st.userAlertPrefs[i].lastSnoozedAt
        && r.0.userAlertPrefs == st.userAlertPrefs[i := r.1]
      case None =>
        && r.1 == NewPreference(newId, alertId, userId, now).(readState := state)
        && r.0.userAlertPrefs == st.userAlertPrefs + [r.1]
    ensures FindPreference(r.0.userAlertPrefs, alertId, userId).Some?
    ensures r.1 == r.0.userAlertPrefs[FindPreference(r.0.userAlertPrefs, alertId, userId).value]
  {
    var (st1, i) := GetOrCreate(st, alertId, userId, newId, now);
    var pref := st1.userAlertPrefs[i].(readState := state, updatedAt := now);
    (Replace(st1, i, pref), pref)
  }

  /**
   * Records a snooze of the pair at `now` (creating the record if missing) and
   * stamps `updatedAt`. Returns the store and the record as it now stands.
   */
  function SnoozeForToday(st: Store, alertId: Id, userId: Id, newId: Id, now: Time)
    : (r: (Store, UserAlertPreference))
    ensures r.0 == st.(userAlertPrefs := r.0.userAlertPrefs)
    ensures IsFor(r.1, alertId, userId) && r.1.lastSnoozedAt == Some(now) && r.1.updatedAt == now
    ensures match FindPreference(st.userAlertPrefs, alertId, userId)
      case Some(i) =>
        && r.1.id == st.userAlertPrefs[i].id
        && r.1.readState == st.userAlertPrefs[i].readState
        && r.0.userAlertPrefs == st.userAlertPrefs[i := r.1]
      case None =>
        && r.1 == NewPreference(newId, alertId, userId, now).(lastSnoozedAt := Some(now))
        && r.0.userAlertPrefs == st.userAlertPrefs + [r.1]
    ensures FindPreference(r.0.userAlertPrefs, alertId, userId).Some?
    ensures r.1 == r.0.userAlertPrefs[FindPreference(r.0.userAlertPrefs, alertId, userId).value]
  {
    var (st1, i) := GetOrCreate(st, alertId, userId, newId, now);
    var pref := st1.userAlertPrefs[i].(lastSnoozedAt := Some(now), updatedAt := now);
    (Replace(st1, i, pref), pref)
  }

  /** Both mutators keep at most one record per pair. */
  lemma MutatorsPreserveUnique(st: Store, alertId: Id, userId: Id, state: ReadState, newId: Id, now: Time)
    requires UniquePreferences(st.userAlertPrefs)
    ensures UniquePreferences(SetReadState(st, alertId, userId, state, newId, now).0.userAlertPrefs)
    ensures UniquePreferences(SnoozeForToday(st, alertId, userId, newId, now).0.userAlertPrefs)
  {
    GetOrCreatePreservesUnique(st, alertId, userId, newId, now);
  }

  /** dayjs `a.isSame(b, 'day')`: `b` lies between the start and the end of `a`'s day. */
  predicate DayjsIsSameDay(a: Time, b: Time)
  {
    Calendar.StartOfDay(a) <= b <= Calendar.StartOfDay(a) + Calendar.MsPerDay - 1
  }

  /** The dayjs comparison agrees with the date-component comparison of the domain model. */
  lemma DayjsIsSameDayAgrees(a: Time, b: Time)
    ensures DayjsIsSameDay(a, b) <==> IsSameDay(a, b)
  {
    Calendar.SameDayRange(a, b);
    IsSameDayIffSameDayNumber(a, b);
  }

  /** The pair has a record whose last snooze falls on the calendar day of `now`. */
  predicate IsSnoozedForToday(st: Store, alertId: Id, userId: Id, now: Time)
  {
    match FindPreference(st.userAlertPrefs, alertId, userId)
    case None => false
    case Some(i) =>
      match st.userAlertPrefs[i].lastSnoozedAt
      case None => false
      case Some(s) => DayjsIsSameDay(s, now)
  }

  /** After a snooze at `s`, the pair reads as snoozed exactly on the calendar day of `s`. */
  lemma SnoozedExactlyThatDay(st: Store, alertId: Id, userId: Id, newId: Id, s: Time, now: Time)
    ensures IsSnoozedForToday(SnoozeForToday(st, alertId, userId, newId, s).0, alertId, userId, now)
      <==> IsSameDay(s, now)
  {
    DayjsIsSameDayAgrees(s, now);
  }

  /**
   * Creating a missing record does not snooze anything: a pair with no record
   * and a pair with a fresh record both read as not snoozed.
   */
  lemma GetOrCreateKeepsSnooze(st: Store, alertId: Id, userId: Id, newId: Id, now: Time, a: Id, u: Id, t: Time)
    ensures IsSnoozedForToday(GetOrCreate(st, alertId, userId, newId, now).0, a, u, t)
      == IsSnoozedForToday(st, a, u, t)
  {
    FindPreferenceAfterAppend(st.userAlertPrefs, NewPreference(newId, alertId, userId, now), a, u);
  }

  /** Setting the read state does not change whether any pair is snoozed. */
  lemma SetReadStateKeepsSnooze(st: Store, alertId: Id, userId: Id, state: ReadState, newId: Id, now: Time,
                                a: Id, u: Id, t: Time)
    ensures IsSnoozedForToday(SetReadState(st, alertId, userId, state, newId, now).0, a, u, t)
      == IsSnoozedForToday(st, a, u, t)
  {
    var prefs := st.userAlertPrefs;
    var prefs' := SetReadState(st, alertId, userId, state, newId, now).0.userAlertPrefs;
    match FindPreference(prefs, alertId, userId)
    case Some(i) =>
      FindPreferenceAfterReplace(prefs, i, prefs'[i], a, u);
    case None =>
      FindPreferenceAfterAppend(prefs, prefs'[|prefs|], a, u);
  }

  /** A snooze of one pair leaves every other pair's snooze state as it was. */
  lemma SnoozeKeepsOtherPairs(st: Store, alertId: Id, userId: Id, newId: Id, now: Time,
                              a: Id, u: Id, t: Time)
    requires a != alertId || u != userId
    ensures IsSnoozedForToday(SnoozeForToday(st, alertId, userId, newId, now).0, a, u, t)
      == IsSnoozedForToday(st, a, u, t)
  {
    var prefs := st.userAlertPrefs;
    var prefs' := SnoozeForToday(st, alertId, userId, newId, now).0.userAlertPrefs;
    match FindPreference(prefs, alertId, userId)
    case Some(i) =>
      FindPreferenceAfterReplace(prefs, i, prefs'[i], a, u);
    case None =>
      FindPreferenceAfterAppend(prefs, prefs'[|prefs|], a, u);
  }
}
