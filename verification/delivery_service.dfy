/**
 * Dispatch of one alert to one user over each of the alert's channels,
 * through a registry from channel identifiers to channel strategies.
 */
module DeliveryService {
  import opened Wrappers
  import opened Models
  import opened DataStore
  import InAppChannel

  /** The channel strategies that exist; a registry maps identifiers to them. */
  datatype ChannelStrategy = InAppStrategy {

    /** The identifier the strategy stamps on the deliveries it makes. */
    function Channel(): DeliveryChannel
    {
      match this
      case InAppStrategy => InAppChannel.Channel
    }

    function Deliver(st: Store, alert: Alert, userId: Id, stamp: InAppChannel.Stamp): (r: (Store, NotificationDelivery))
      ensures r.0 == st.(deliveries := st.deliveries + [r.1])
      ensures r.1 == NotificationDelivery(stamp.id, alert.id, userId, Channel(), stamp.at)
    {
      match this
      case InAppStrategy => InAppChannel.Deliver(st, alert, userId, stamp)
    }
  }

  type Registry = map<DeliveryChannel, ChannelStrategy>

  /** The error `deliverToUser` throws for a channel with no registered strategy. */
  datatype DeliveryError = UnregisteredChannel(channel: DeliveryChannel)

  /** Every strategy is registered under its own identifier. */
  predicate ConsistentRegistry(reg: Registry)
  {
    forall c :: c in reg ==> reg[c].Channel() == c
  }

  /** The registry the service builds on construction. */
  function NewRegistry(): (reg: Registry)
    ensures reg.Keys == {InApp}
    ensures ConsistentRegistry(reg)
  {
    map[InAppChannel.Channel := InAppStrategy]
  }

  /** The index of the first channel with no registered strategy. */
  function FirstUnregistered(reg: Registry, channels: seq<DeliveryChannel>): (r: Option<nat>)
    ensures r.Some? ==> r.value < |channels| && channels[r.value] !in reg
    ensures r.Some? ==> forall k :: 0 <= k < r.value ==> channels[k] in reg
    ensures r.None? <==> forall k :: 0 <= k < |channels| ==> channels[k] in reg
  {
    if channels == [] then None
    else if channels[0] !in reg then Some(0)
    else match FirstUnregistered(reg, channels[1..])
      case Some(k) => Some(k + 1)
      case None => None
  }

  /** The delivery the strategy for channel `k` makes with stamp `k`. */
  function Expected(reg: Registry, alert: Alert, userId: Id, channels: seq<DeliveryChannel>,
                    stamps: seq<InAppChannel.Stamp>, k: nat): NotificationDelivery
    requires k < |channels| && k < |stamps| && channels[k] in reg
  {
    NotificationDelivery(stamps[k].id, alert.id, userId, reg[channels[k]].Channel(), stamps[k].at)
  }

  /**
   * Runs the strategies for `channels` in order. The first unregistered
   * channel aborts the rest; deliveries already made stay in the store.
   */
  function DeliverChannels(reg: Registry, st: Store, alert: Alert, userId: Id,
                           channels: seq<DeliveryChannel>, stamps: seq<InAppChannel.Stamp>)
    : (r: (Store, Result<seq<NotificationDelivery>, DeliveryError>))
    requires |stamps| >= |channels|
    ensures r.0 == st.(deliveries := r.0.deliveries)
    ensures r.1.Success? <==> FirstUnregistered(reg, channels).None?
    ensures r.1.Success? ==>
      && |r.1.value| == |channels|
      && r.0.deliveries == st.deliveries + r.1.value
      && forall k :: 0 <= k < |channels| ==> r.1.value[k] == Expected(reg, alert, userId, channels, stamps, k)
    ensures r.1.Failure? ==>
      var j := FirstUnregistered(reg, channels).value;
      && r.1.error == UnregisteredChannel(channels[j])
      && |r.0.deliveries| == |st.deliveries| + j
      && r.0.deliveries[..|st.deliveries|] == st.deliveries
      && forall k :: 0 <= k < j ==>
           r.0.deliveries[|st.deliveries| + k] == Expected(reg, alert, userId, channels, stamps, k)
    decreases |channels|
  {
    if channels == [] then (st, Success([]))
    else if channels[0] !in reg then (st, Failure(UnregisteredChannel(channels[0])))
    else
      var (st1, d) := reg[channels[0]].Deliver(st, alert, userId, stamps[0]);
      var (st2, rest) := DeliverChannels(reg, st1, alert, userId, channels[1..], stamps[1..]);
      assert forall k :: 1 <= k < |channels| && channels[k] in reg ==>
        Expected(reg, alert, userId, channels, stamps, k)
        == Expected(reg, alert, userId, channels[1..], stamps[1..], k - 1);
      if rest.Failure? then (st2, Failure(rest.error))
      else (st2, Success([d] + rest.value))
  }

  /**
   * `deliverToUser`: one delivery per channel of the alert, in channel order,
   * each stamped by the matching element of `stamps`.
   */
  function DeliverToUser(reg: Registry, st: Store, alert: Alert, userId: Id, stamps: seq<InAppChannel.Stamp>)
    : (r: (Store, Result<seq<NotificationDelivery>, DeliveryError>))
    requires |stamps| >= |alert.deliveryChannels|
    ensures r.0 == st.(deliveries := r.0.deliveries)
    ensures r.1.Success? <==> forall c :: c in alert.deliveryChannels ==> c in reg
    ensures r.1.Success? ==>
      && |r.1.value| == |alert.deliveryChannels|
      && r.0.deliveries == st.deliveries + r.1.value
      && forall k :: 0 <= k < |r.1.value| ==>
           && r.1.value[k].alertId == alert.id
           && r.1.value[k].userId == userId
           && r.1.value[k].deliveredAt == stamps[k].at
           && (ConsistentRegistry(reg) ==> r.1.value[k].channel == alert.deliveryChannels[k])
    ensures r.1.Failure? ==>
      && r.1.error.channel in alert.deliveryChannels
      && r.1.error.channel !in reg
      && |st.deliveries| <= |r.0.deliveries| < |st.deliveries| + |alert.deliveryChannels|
      && r.0.deliveries[..|st.deliveries|] == st.deliveries
  {
    DeliverChannels(reg, st, alert, userId, alert.deliveryChannels, stamps)
  }

  /**
   * With the registry built on construction, dispatch succeeds exactly when
   * every channel of the alert is `in_app`; an `email` or `sms` channel fails it.
   */
  lemma DefaultRegistryOnlyInApp(st: Store, alert: Alert, userId: Id, stamps: seq<InAppChannel.Stamp>)
    requires |stamps| >= |alert.deliveryChannels|
    ensures DeliverToUser(NewRegistry(), st, alert, userId, stamps).1.Success?
      <==> forall k :: 0 <= k < |alert.deliveryChannels| ==> alert.deliveryChannels[k] == InApp
    ensures Email in alert.deliveryChannels || Sms in alert.deliveryChannels
      ==> DeliverToUser(NewRegistry(), st, alert, userId, stamps).1.Failure?
  {
  }
}
