/** The in-app delivery channel: it records a delivery in the store. */
module InAppChannel {
  import opened Models
  import opened DataStore

  /** The values a delivery reads from its environment: a fresh `uuid()` and the clock. */
  datatype Stamp = Stamp(id: Id, at: Time)

  /** The channel identifier this strategy registers under. */
  const Channel: DeliveryChannel := InApp

  /**
   * Appends one in-app delivery of `alert` to `userId`, identified and timed
   * by `stamp`, and returns it.
   */
  function Deliver(st: Store, alert: Alert, userId: Id, stamp: Stamp): (r: (Store, NotificationDelivery))
    ensures r.0 == st.(deliveries := st.deliveries + [r.1])
    ensures r.1.alertId == alert.id && r.1.userId == userId
    ensures r.1.channel == InApp
    ensures r.1.id == stamp.id && r.1.deliveredAt == stamp.at
  {
    var delivery := NotificationDelivery(
      id := stamp.id,
      alertId := alert.id,
      userId := userId,
      channel := Channel,
      deliveredAt := stamp.at);
    (st.(deliveries := st.deliveries + [delivery]), delivery)
  }
}
