/**
 * The boundary between the device screen and the BLE adapter library
 * (react-native-ble-manager). The adapter itself is native code; the model
 * sees it only through the values it hands back (as `Outcome`s supplied by
 * the caller) and through the requests the screen issues (an `Action` trace).
 */
module Ble {

  /** An octet as the adapter delivers and accepts them. */
  newtype byte = x: int | 0 <= x < 0x100

  datatype Option<+T> = None | Some(value: T)

  /** What one awaited adapter call produced: a value, or a rejected promise. */
  datatype Outcome<+T> = Ok(value: T) | Fail

  /** The peripheral handed to the screen by navigation: an id and a display name. */
  datatype Peripheral = Peripheral(id: string, name: string)

  /** One discovered service. */
  datatype Service = Service(uuid: string)

  /**
   * One entry of the adapter's flat characteristic list: the uuid of the
   * characteristic and the uuid of the service that owns it.
   */
  datatype Characteristic = Characteristic(service: string, characteristic: string)

  /**
   * What `retrieveServices` resolves to. Either list may be absent
   * (`undefined` in the adapter's result); the characteristic list is flat,
   * in discovery order, across all services.
   */
  datatype PeripheralInfo = PeripheralInfo(
    services: Option<seq<Service>>,
    characteristics: Option<seq<Characteristic>>)

  /**
   * One step the screen takes against the outside world, in the order taken.
   * `Settle` is the fixed wait between connecting and discovery; the rest are
   * adapter requests.
   */
  datatype Action =
    | AdapterConnect(id: string)
    | Settle(ms: nat)
    | RetrieveServices(id: string)
    | ReadRssi(id: string)
    | ReadCharacteristic(id: string, service: string, characteristic: string)
    | WriteCharacteristic(id: string, service: string, characteristic: string, data: seq<byte>)

  /** A data transfer against a characteristic: a read or a write. */
  predicate IsTransfer(a: Action) {
    a.ReadCharacteristic? || a.WriteCharacteristic?
  }
}
