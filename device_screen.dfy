/**
 * The device screen as an object: the `connected` flag and the displayed
 * `text` it keeps as component state, the adapter requests it has issued, and
 * the operations and button handlers that update them step by step. Each
 * method is proved to leave the object in the state the matching function of
 * module `Session` describes, so the properties proved there hold of it.
 */
module DeviceScreen {
  import opened Ble
  import opened EndpointSelection
  import Codec
  import Session

  class Device {
    /** The peripheral passed in by navigation; it may be null. */
    const peripheral: Option<Peripheral>
    var connected: bool
    var text: Option<string>
    /** Every adapter request issued and every settle wait taken, in order. */
    var actions: seq<Action>

    /** The object's state as a value. */
    function Screen(): Session.Screen
      reads this
    {
      Session.Screen(connected, text, actions)
    }

    /** A fresh screen: not connected, no text, nothing issued. */
    constructor (peripheral: Option<Peripheral>)
      ensures this.peripheral == peripheral
      ensures Screen() == Session.Initial
    {
      this.peripheral := peripheral;
      connected := false;
      text := None;
      actions := [];
    }

    /** `connect`; each adapter call's outcome is a parameter. */
    method Connect(p: Option<Peripheral>, link: Outcome<()>,
                   discovery: Outcome<PeripheralInfo>, rssi: Outcome<int>)
      modifies this
      ensures Screen() == Session.Connect(old(Screen()), p, link, discovery, rssi)
      ensures connected == (old(connected) || (p.Some? && link.Ok?))
      ensures text == old(text)
    {
      if p.Some? {
        var id := p.value.id;
        actions := actions + [AdapterConnect(id)];
        if link.Fail? {
          return;
        }
        actions := actions + [Settle(Session.SettleMs)];
        connected := true;
        actions := actions + [RetrieveServices(id)];
        if discovery.Fail? {
          return;
        }
        actions := actions + [ReadRssi(id)];
      }
    }

    /** `read`: the decoding of the bytes read replaces the text. */
    method Read(p: Peripheral, discovery: Outcome<PeripheralInfo>,
                value: Outcome<seq<byte>>, utf8: seq<byte> -> string)
      modifies this
      ensures Screen() == Session.Read(old(Screen()), p, discovery, value, utf8)
      ensures connected == old(connected)
      ensures text == if Session.Target(discovery).Some? && value.Ok? then Some(utf8(value.value)) else old(text)
    {
      actions := actions + [RetrieveServices(p.id)];
      if discovery.Fail? {
        return;
      }
      var targetService := TargetService(discovery.value);
      var targetChar := TargetCharacteristic(discovery.value);
      if targetService.Some? && targetChar.Some? {
        actions := actions + [ReadCharacteristic(p.id, targetService.value.uuid, targetChar.value.characteristic)];
        if value.Fail? {
          return;
        }
        text := Some(utf8(value.value));
      }
    }

    /** `pong`: one write of the bytes of "Ping"; the write is not awaited. */
    method Pong(p: Peripheral, discovery: Outcome<PeripheralInfo>)
      modifies this
      ensures Screen() == Session.Pong(old(Screen()), p, discovery)
      ensures connected == old(connected) && text == old(text)
    {
      actions := actions + [RetrieveServices(p.id)];
      if discovery.Fail? {
        return;
      }
      var targetService := TargetService(discovery.value);
      var targetChar := TargetCharacteristic(discovery.value);
      if targetService.Some? && targetChar.Some? {
        actions := actions + [WriteCharacteristic(p.id, targetService.value.uuid, targetChar.value.characteristic,
                                                  Codec.PingPayload())];
      }
    }

    /** The Connect button. */
    method HandleConnect(link: Outcome<()>, discovery: Outcome<PeripheralInfo>, rssi: Outcome<int>)
      modifies this
      ensures Screen() == Session.HandleConnect(old(Screen()), peripheral, link, discovery, rssi)
      ensures peripheral.None? ==> Screen() == old(Screen())
    {
      if peripheral.Some? {
        Connect(peripheral, link, discovery, rssi);
      }
    }

    /** The Read button; it does nothing unless connected and given a peripheral. */
    method HandleRead(discovery: Outcome<PeripheralInfo>, value: Outcome<seq<byte>>, utf8: seq<byte> -> string)
      modifies this
      ensures Screen() == Session.HandleRead(old(Screen()), peripheral, discovery, value, utf8)
      ensures !(old(connected) && peripheral.Some?) ==> Screen() == old(Screen())
    {
      if connected && peripheral.Some? {
        Read(peripheral.value, discovery, value, utf8);
      }
    }

    /** The Ping button; it does nothing unless connected and given a peripheral. */
    method HandlePing(discovery: Outcome<PeripheralInfo>)
      modifies this
      ensures Screen() == Session.HandlePing(old(Screen()), peripheral, discovery)
      ensures !(old(connected) && peripheral.Some?) ==> Screen() == old(Screen())
    {
      if connected && peripheral.Some? {
        Pong(peripheral.value, discovery);
      }
    }
  }
}
