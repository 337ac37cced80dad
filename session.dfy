/**
 * The device screen's state and what each of its operations does to it, as
 * functions of the old state and of the adapter's outcomes. The screen holds
 * `connected` and the last decoded `text`; `actions` records, in order, every
 * adapter request issued and every settle wait taken.
 *
 * Every adapter failure ends the operation where it happens: in `connect` the
 * error is caught and dropped, in `read` and `pong` the returned promise
 * rejects and nobody awaits it. Either way no further step is taken and no
 * state is set.
 */
module Session {
  import opened Ble
  import opened EndpointSelection
  import Codec

  /** The wait, in milliseconds, between connecting and discovering services. */
  const SettleMs: nat := 2000

  datatype Screen = Screen(connected: bool, text: Option<string>, actions: seq<Action>)

  /** The screen when it is first shown. */
  const Initial: Screen := Screen(false, None, [])

  /** `r` is `s` with `more` issued after everything `s` had already issued. */
  predicate Appends(s: Screen, r: Screen, more: seq<Action>) {
    r.actions == s.actions + more
  }

  /** The endpoint a transfer uses, from the topology one discovery returned. */
  function Target(discovery: Outcome<PeripheralInfo>): (r: Option<Endpoint>)
    ensures r.Some? <==> discovery.Ok? && HasEndpoint(discovery.value)
    ensures r.Some? ==> r == Select(discovery.value)
  {
    if discovery.Ok? then Select(discovery.value) else None
  }

  /**
   * `connect`: adapter connect; on success a settle wait, `connected := true`,
   * service retrieval and, if that succeeded, an RSSI read whose value is
   * dropped. A null peripheral does nothing.
   */
  function Connect(s: Screen, p: Option<Peripheral>, link: Outcome<()>,
                   discovery: Outcome<PeripheralInfo>, rssi: Outcome<int>): (r: Screen)
    ensures r.text == s.text
    ensures r.connected == (s.connected || (p.Some? && link.Ok?))
    ensures p.None? ==> r == s
    ensures p.Some? && link.Fail? ==> Appends(s, r, [AdapterConnect(p.value.id)])
    ensures p.Some? && link.Ok? && discovery.Fail? ==>
              Appends(s, r, [AdapterConnect(p.value.id), Settle(SettleMs), RetrieveServices(p.value.id)])
    ensures p.Some? && link.Ok? && discovery.Ok? ==>
              Appends(s, r, [AdapterConnect(p.value.id), Settle(SettleMs), RetrieveServices(p.value.id),
                             ReadRssi(p.value.id)])
  {
    if p.None? then s
    else
      var id := p.value.id;
      var attempted := s.(actions := s.actions + [AdapterConnect(id)]);
      if link.Fail? then attempted
      else
        var settled := attempted.(actions := attempted.actions + [Settle(SettleMs)]);
        var flagged := settled.(connected := true);
        var discovering := flagged.(actions := flagged.actions + [RetrieveServices(id)]);
        if discovery.Fail? then discovering
        else discovering.(actions := discovering.actions + [ReadRssi(id)])
  }

  /**
   * `read`: retrieve the services, select the endpoint, read it and show the
   * UTF-8 decoding (`utf8`) of the bytes read.
   */
  function Read(s: Screen, p: Peripheral, discovery: Outcome<PeripheralInfo>,
                value: Outcome<seq<byte>>, utf8: seq<byte> -> string): (r: Screen)
    ensures r.connected == s.connected
    ensures Target(discovery).None? ==> r.text == s.text && Appends(s, r, [RetrieveServices(p.id)])
    ensures Target(discovery).Some? ==>
              var e := Target(discovery).value;
              Appends(s, r, [RetrieveServices(p.id),
                             ReadCharacteristic(p.id, e.service.uuid, e.characteristic.characteristic)])
    ensures r.text != s.text ==> Target(discovery).Some? && value.Ok? && r.text == Some(utf8(value.value))
    ensures Target(discovery).Some? && value.Ok? ==> r.text == Some(utf8(value.value))
  {
    var fetched := s.(actions := s.actions + [RetrieveServices(p.id)]);
    match Target(discovery)
    case None => fetched
    case Some(e) =>
      var requested := fetched.(actions := fetched.actions +
                                  [ReadCharacteristic(p.id, e.service.uuid, e.characteristic.characteristic)]);
      match value
      case Fail => requested
      case Ok(bytes) => requested.(text := Some(utf8(bytes)))
  }

  /**
   * `pong`: retrieve the services, select the endpoint and write the bytes of
   * "Ping" to it. The write is not awaited, so its outcome never matters.
   */
  function Pong(s: Screen, p: Peripheral, discovery: Outcome<PeripheralInfo>): (r: Screen)
    ensures r.connected == s.connected && r.text == s.text
    ensures Target(discovery).None? ==> Appends(s, r, [RetrieveServices(p.id)])
    ensures Target(discovery).Some? ==>
              var e := Target(discovery).value;
              Appends(s, r, [RetrieveServices(p.id),
                             WriteCharacteristic(p.id, e.service.uuid, e.characteristic.characteristic,
                                                 [0x50, 0x69, 0x6e, 0x67])])
  {
    var fetched := s.(actions := s.actions + [RetrieveServices(p.id)]);
    match Target(discovery)
    case None => fetched
    case Some(e) =>
      fetched.(actions := fetched.actions +
                 [WriteCharacteristic(p.id, e.service.uuid, e.characteristic.characteristic, Codec.PingPayload())])
  }

  /** The Connect button: runs `connect` when there is a peripheral. */
  function HandleConnect(s: Screen, p: Option<Peripheral>, link: Outcome<()>,
                         discovery: Outcome<PeripheralInfo>, rssi: Outcome<int>): (r: Screen)
    ensures p.None? ==> r == s
    ensures r.text == s.text
    ensures r.connected == (s.connected || (p.Some? && link.Ok?))
    ensures r == Connect(s, p, link, discovery, rssi)
  {
    if p.Some? then Connect(s, p, link, discovery, rssi) else s
  }

  /** The Read button: runs `read` only while connected and with a peripheral. */
  function HandleRead(s: Screen, p: Option<Peripheral>, discovery: Outcome<PeripheralInfo>,
                      value: Outcome<seq<byte>>, utf8: seq<byte> -> string): (r: Screen)
    ensures !(s.connected && p.Some?) ==> r == s
    ensures r.connected == s.connected
    ensures r.text != s.text ==>
              s.connected && p.Some? && Target(discovery).Some? && value.Ok? && r.text == Some(utf8(value.value))
    ensures s.connected && p.Some? && Target(discovery).Some? && value.Ok? ==> r.text == Some(utf8(value.value))
    ensures s.connected && p.Some? ==> r == Read(s, p.value, discovery, value, utf8)
  {
    if s.connected && p.Some? then Read(s, p.value, discovery, value, utf8) else s
  }

  /** The Ping button: runs `pong` only while connected and with a peripheral. */
  function HandlePing(s: Screen, p: Option<Peripheral>, discovery: Outcome<PeripheralInfo>): (r: Screen)
    ensures !(s.connected && p.Some?) ==> r == s
    ensures r.connected == s.connected && r.text == s.text
    ensures s.connected && p.Some? ==> r == Pong(s, p.value, discovery)
  {
    if s.connected && p.Some? then Pong(s, p.value, discovery) else s
  }

  /** One button press, carrying the outcomes of the adapter calls it makes. */
  datatype Press =
    | ConnectPress(link: Outcome<()>, discovery: Outcome<PeripheralInfo>, rssi: Outcome<int>)
    | ReadPress(discovery: Outcome<PeripheralInfo>, value: Outcome<seq<byte>>)
    | PingPress(discovery: Outcome<PeripheralInfo>)

  function Step(s: Screen, p: Option<Peripheral>, utf8: seq<byte> -> string, e: Press): Screen {
    match e
    case ConnectPress(link, discovery, rssi) => HandleConnect(s, p, link, discovery, rssi)
    case ReadPress(discovery, value) => HandleRead(s, p, discovery, value, utf8)
    case PingPress(discovery) => HandlePing(s, p, discovery)
  }

  /** The screen after a series of presses, each completing before the next. */
  function Run(s: Screen, p: Option<Peripheral>, utf8: seq<byte> -> string, es: seq<Press>): Screen
    decreases |es|
  {
    if es == [] then s else Run(Step(s, p, utf8, es[0]), p, utf8, es[1..])
  }
}
