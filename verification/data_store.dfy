/** The in-memory store: five collections, passed in and returned explicitly. */
module DataStore {
  import opened Wrappers
  import opened Models

  datatype Store = Store(
    teams: seq<Team>,
    users: seq<User>,
    alerts: seq<Alert>,
    deliveries: seq<NotificationDelivery>,
    userAlertPrefs: seq<UserAlertPreference>)

  /** The store as the process starts, before any seeding. */
  function EmptyStore(): Store
  {
    Store([], [], [], [], [])
  }

  /** No two alerts share an identifier. */
  predicate UniqueAlertIds(alerts: seq<Alert>)
  {
    forall i, j :: 0 <= i < j < |alerts| ==> alerts[i].id != alerts[j].id
  }

  /** The index of the first alert with identifier `id` (`alerts.find(a => a.id === id)`). */
  function FindAlert(alerts: seq<Alert>, id: Id): (r: Option<nat>)
    ensures r.Some? ==> r.value < |alerts| && alerts[r.value].id == id
    ensures r.Some? ==> forall j :: 0 <= j < r.value ==> alerts[j].id != id
    ensures r.None? <==> forall j :: 0 <= j < |alerts| ==> alerts[j].id != id
  {
    if alerts == [] then None
    else if alerts[0].id == id then Some(0)
    else match FindAlert(alerts[1..], id)
      case Some(i) => Some(i + 1)
      case None => None
  }

  /** Looking up the identifier of a stored alert finds that alert, when identifiers are unique. */
  lemma FindStoredAlert(alerts: seq<Alert>, i: nat)
    requires i < |alerts| && UniqueAlertIds(alerts)
    ensures FindAlert(alerts, alerts[i].id) == Some(i)
  {
  }

  /** Replacing the found alert by one with the same identifier keeps it the one found. */
  lemma FindAlertAfterReplace(alerts: seq<Alert>, id: Id, i: nat, a: Alert)
    requires FindAlert(alerts, id) == Some(i) && a.id == id
    ensures FindAlert(alerts[i := a], id) == Some(i)
  {
    assert alerts[i := a][i].id == id;
  }
}
