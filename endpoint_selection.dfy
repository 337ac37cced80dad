/**
 * How the screen picks the (service, characteristic) pair it talks to: the
 * last service discovered and, independently, the last entry of the flat
 * characteristic list, whichever service that entry belongs to.
 */
module EndpointSelection {
  import opened Ble

  /** The pair a read or write is addressed to. */
  datatype Endpoint = Endpoint(service: Service, characteristic: Characteristic)

  /**
   * JavaScript array indexing: an index outside the array yields `undefined`
   * (here `None`), in particular `arr[arr.length - 1]` on an empty array.
   */
  function ElementAt<T>(s: seq<T>, i: int): (r: Option<T>)
    ensures r.Some? <==> 0 <= i < |s|
    ensures r.Some? ==> r.value == s[i]
  {
    if 0 <= i < |s| then Some(s[i]) else None
  }

  /** The last element of an optional list; `None` if it is absent or empty. */
  function LastOf<T>(list: Option<seq<T>>): (r: Option<T>)
    ensures r.Some? <==> list.Some? && |list.value| > 0
    ensures r.Some? ==> r.value == list.value[|list.value| - 1]
  {
    match list
    case None => None
    case Some(s) => ElementAt(s, |s| - 1)
  }

  /** The service a transfer targets: the last one discovered. */
  function TargetService(info: PeripheralInfo): (r: Option<Service>)
    ensures r.Some? <==> info.services.Some? && |info.services.value| > 0
    ensures r.Some? ==> r.value == info.services.value[|info.services.value| - 1]
  {
    LastOf(info.services)
  }

  /** The characteristic a transfer targets: the last one of the flat list. */
  function TargetCharacteristic(info: PeripheralInfo): (r: Option<Characteristic>)
    ensures r.Some? <==> info.characteristics.Some? && |info.characteristics.value| > 0
    ensures r.Some? ==> r.value == info.characteristics.value[|info.characteristics.value| - 1]
  {
    LastOf(info.characteristics)
  }

  /** True when both lists are present and non-empty, so that a transfer can happen. */
  predicate HasEndpoint(info: PeripheralInfo) {
    && info.services.Some? && |info.services.value| > 0
    && info.characteristics.Some? && |info.characteristics.value| > 0
  }

  /**
   * The endpoint of a transfer, or `None` when either target is missing.
   * The two halves are chosen independently of each other.
   */
  function Select(info: PeripheralInfo): (r: Option<Endpoint>)
    ensures r.Some? <==> HasEndpoint(info)
    ensures r.Some? ==> r.value.service == info.services.value[|info.services.value| - 1]
    ensures r.Some? ==> r.value.characteristic == info.characteristics.value[|info.characteristics.value| - 1]
  {
    match (TargetService(info), TargetCharacteristic(info))
    case (Some(svc), Some(ch)) => Some(Endpoint(svc, ch))
    case _ => None
  }

  /**
   * The selected service depends only on the service list and the selected
   * characteristic only on the characteristic list.
   */
  lemma SelectionIsComponentwise(a: PeripheralInfo, b: PeripheralInfo)
    requires HasEndpoint(a) && HasEndpoint(b)
    ensures a.services == b.services ==> Select(a).value.service == Select(b).value.service
    ensures a.characteristics == b.characteristics ==>
              Select(a).value.characteristic == Select(b).value.characteristic
  {
  }

  /**
   * Services [S1, S2], S1 owning [C1] and S2 owning [C2, C3], flattened to
   * [C1, C2, C3]: the endpoint is (S2, C3).
   */
  lemma TwoServiceScenario()
    ensures Select(PeripheralInfo(
              Some([Service("S1"), Service("S2")]),
              Some([Characteristic("S1", "C1"), Characteristic("S2", "C2"), Characteristic("S2", "C3")])))
            == Some(Endpoint(Service("S2"), Characteristic("S2", "C3")))
  {
  }

  /**
   * The characteristic is not required to belong to the chosen service:
   * here the last characteristic is owned by S1 and is still paired with S2.
   */
  lemma OwnershipIgnored()
    ensures Select(PeripheralInfo(
              Some([Service("S1"), Service("S2")]),
              Some([Characteristic("S2", "C2"), Characteristic("S1", "C1")])))
            == Some(Endpoint(Service("S2"), Characteristic("S1", "C1")))
  {
  }

  /** An empty list is present but yields no target, exactly like an absent one. */
  lemma EmptyListsSelectNothing(info: PeripheralInfo)
    requires info.services == Some([]) || info.characteristics == Some([])
             || info.services.None? || info.characteristics.None?
    ensures Select(info).None?
  {
  }
}
