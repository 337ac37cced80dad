# BLE device screen: a Dafny model

This project models the device screen of a React Native sample app built over
react-native-ble-manager (`Device.tsx`). The screen connects to one BLE
peripheral. It then reads from, or writes "Ping" to, the endpoint it selects
from the peripheral's discovered services.

The model has five modules:

- `Ble` holds the adapter boundary. It has the peripheral handle, the
  discovered `PeripheralInfo` (optional service list and optional flat
  characteristic list), and an `Outcome` for what one awaited adapter call
  returned. It also has the `Action` trace of requests the screen issues. The
  2000 ms sleep appears in that trace as one `Settle` step.
- `EndpointSelection` is the selection rule. The target is the last service and,
  independently, the last entry of the flat characteristic list. JavaScript's
  `arr[arr.length - 1]` is `undefined` on an empty array, so an empty list counts
  as missing.
- `Codec` gives the UTF-8 bytes of an ASCII string, and the payload of a ping.
- `Session` has the screen's state (`connected`, `text`, the trace). It gives
  `connect`, `read`, `pong` and the three button handlers as functions of the
  old state and the adapter outcomes, plus `Run` over a series of presses.
  `SessionProperties` proves what any series of presses can do.
- `DeviceScreen.Device` is a class with the same state as fields. Its methods
  run the source's steps one at a time and are proved to end in the state the
  `Session` functions describe.

What the screen does not do:

- It has no disconnect, no error state and no guard against late adapter results.
- Nothing rejects a repeated connect: every press of Connect runs the whole
  sequence again.
- `connected` is never reset. A failed discovery still leaves it set, because
  the flag is set before discovery runs.
- A failed RSSI read changes nothing.

## Model

| member | source | states |
|---|---|---|
| `EndpointSelection.ElementAt` | Device.tsx:62-63 | Indexing yields a value exactly when the index is in range, and that value is the element at the index (an out-of-range index is `undefined`) |
| `EndpointSelection.LastOf` | Device.tsx:61-71 | An optional list yields its last element exactly when it is present and non-empty |
| `EndpointSelection.TargetService` | Device.tsx:61-65 | A target service exists exactly when the service list is present and non-empty, and it is the last service |
| `EndpointSelection.TargetCharacteristic` | Device.tsx:67-71 | A target characteristic exists exactly when the flat characteristic list is present and non-empty, and it is its last entry |
| `EndpointSelection.Select` | Device.tsx:61-73 | An endpoint exists exactly when both lists are present and non-empty; it pairs the last service with the last characteristic |
| `EndpointSelection.SelectionIsComponentwise` | Device.tsx:61-71 | The chosen service depends only on the service list, and the chosen characteristic only on the characteristic list |
| `EndpointSelection.TwoServiceScenario` | Device.tsx:61-73 | Services [S1, S2] with flat characteristics [C1, C2, C3] select (S2, C3) |
| `EndpointSelection.OwnershipIgnored` | Device.tsx:67-73 | A last characteristic owned by another service is still paired with the last service |
| `EndpointSelection.EmptyListsSelectNothing` | Device.tsx:61-73 | An absent or empty service or characteristic list selects no endpoint |
| `Codec.AsciiBytes` | Device.tsx:109 | The encoding of an ASCII string has one byte per character, equal to its code point |
| `Codec.PingPayload` | Device.tsx:109 | The payload of a ping is the bytes 0x50 0x69 0x6e 0x67 |
| `Session.Target` | Device.tsx:59-73 | A transfer target exists exactly when discovery succeeded and its topology has an endpoint, and it is the endpoint `Select` picks from that topology (last service, last flat characteristic) |
| `Session.Connect` | Device.tsx:19-52 | A null peripheral changes nothing. Otherwise `connected` ends true exactly when the adapter connect succeeded (or it was already true), and `text` is unchanged. The requests are: connect; then, only after a successful connect, the 2000 ms settle, service retrieval and, only after a successful retrieval, one RSSI read |
| `Session.Read` | Device.tsx:54-86 | Service retrieval is always issued. Exactly one read of (last service uuid, last characteristic uuid) follows, and only when an endpoint exists. `text` becomes the decoding of the returned bytes when that read succeeds and is unchanged otherwise; `connected` never changes |
| `Session.Pong` | Device.tsx:88-112 | Service retrieval is always issued. Exactly one write of the bytes of "Ping" to the selected endpoint follows, and only when an endpoint exists. `connected` and `text` never change |
| `Session.HandleConnect` | Device.tsx:119-123 | Without a peripheral nothing happens. A press has exactly the effect of `connect`, requests included (the two null checks coincide). `connected` ends true exactly when the adapter connect succeeded or it already was, and `text` is unchanged |
| `Session.HandleRead` | Device.tsx:125-130 | Unless connected with a peripheral nothing happens; when the guard holds, a press has exactly the effect of `read`, requests included. `connected` never changes. `text` becomes the decoding of the bytes when the guard holds, an endpoint exists and the read succeeds, and changes in no other case |
| `Session.HandlePing` | Device.tsx:132-137 | Unless connected with a peripheral nothing happens; when the guard holds, a press has exactly the effect of `pong`, so the Ping write is issued to the selected endpoint. `connected` and `text` never change |
| `SessionProperties.RssiIgnored` | Device.tsx:39-43 | The RSSI outcome, value or failure, never affects the resulting state |
| `SessionProperties.RunConnectedMonotone` | Device.tsx:114-137 | Once `connected` is true, no series of presses makes it false |
| `SessionProperties.RunConnectedIff` | Device.tsx:19-52 | After any presses, `connected` holds exactly when it held before or some Connect press, with a peripheral, had its adapter connect succeed |
| `SessionProperties.ConnectedFromStartIff` | Device.tsx:115-123 | From the initial screen, `connected` holds exactly when some Connect press, with a peripheral, had its adapter connect succeed |
| `SessionProperties.RunSnoc` | Device.tsx:114-137 | Running a series of presses and then one more equals one more step after the series |
| `SessionProperties.ReadPressSetsText` | Device.tsx:125-130 | After any presses, a Read press that passes the guard, finds an endpoint and reads bytes sets `text` to their decoding |
| `SessionProperties.OtherPressKeepsText` | Device.tsx:74-84 | Every press that does not reach `setText` leaves `text` as it was |
| `SessionProperties.RunTextIsLastRead` | Device.tsx:74-84 | After any presses, `text` is the decoding of the bytes of the last press that reached `setText`; when no press did, `text` keeps its old value |
| `SessionProperties.RunWithoutEndpoint` | Device.tsx:61-73 | If no Read or Ping press finds an endpoint, no characteristic read or write is ever issued and `text` never changes |
| `SessionProperties.AppendKeepsSettled` | Device.tsx:26-32 | Appending requests keeps every transfer behind a settle wait, provided any new transfer comes after one |
| `SessionProperties.StepKeepsSettleInvariant` | Device.tsx:19-137 | One press keeps every transfer behind a settle wait, and keeps a settle wait in the trace whenever `connected` holds |
| `SessionProperties.RunKeepsSettleInvariant` | Device.tsx:19-137 | Any series of presses keeps that invariant |
| `SessionProperties.StepSettlesOnlyAfterConnect` | Device.tsx:26-29 | One press takes the settle wait for the first time only if it is a Connect press, with a peripheral, whose adapter connect resolved |
| `SessionProperties.SettleRequiresConnect` | Device.tsx:26-29 | A series of presses takes a first settle wait only if some Connect press in it, with a peripheral, had its adapter connect resolve |
| `SessionProperties.TransfersFollowSettle` | Device.tsx:26-32 | From the initial screen, every characteristic read or write comes after the 2000 ms settle wait. If any is issued, some Connect press, with a peripheral, had its adapter connect resolve |
| `DeviceScreen.Device.constructor` | Device.tsx:115-116 | The screen starts with `connected` false, no text and no requests |
| `DeviceScreen.Device.Connect` | Device.tsx:19-52 | Ends in the state `Session.Connect` describes: `connected` set exactly when the adapter connect succeeded or it already was, and `text` untouched |
| `DeviceScreen.Device.Read` | Device.tsx:54-86 | Ends in the state `Session.Read` describes: `text` replaced by the decoded bytes only on a successful read from an existing endpoint; `connected` untouched |
| `DeviceScreen.Device.Pong` | Device.tsx:88-112 | Ends in the state `Session.Pong` describes; `connected` and `text` untouched |
| `DeviceScreen.Device.HandleConnect` | Device.tsx:119-123 | Ends in the state `Session.HandleConnect` describes; no effect without a peripheral |
| `DeviceScreen.Device.HandleRead` | Device.tsx:125-130 | Ends in the state `Session.HandleRead` describes; no effect unless connected with a peripheral |
| `DeviceScreen.Device.HandlePing` | Device.tsx:132-137 | Ends in the state `Session.HandlePing` describes; no effect unless connected with a peripheral |

## Left out

- Native adapter calls (`BleManager.connect`, `retrieveServices`, `readRSSI`, `read`, `write`): foreign code. Each awaited call is an `Outcome` parameter, and each request appears in the `Action` trace.
- The outcome of `BleManager.write`: `pong` does not await it, so it can never affect the screen.
- UTF-8 decoding (`Buffer.toString('utf-8')`): a library call. It is the parameter `utf8`, so nothing is claimed about invalid byte sequences or about a decode/encode round trip.
- `Codec.AsciiBytes`: encodes ASCII only, the one payload the screen sends. Non-ASCII UTF-8 encoding is not modelled.
- Characteristic capability flags and descriptors: selection never looks at them.
- The timer in `sleep`: no wall-clock time. The wait is one `Settle(2000)` step that always completes.
- Interleaving of un-awaited `read`/`pong` promises: concurrency. Each operation runs to completion before the next press.
- Logging (`console.log`/`console.error`), the rendered view and styles: no behaviour that can be stated.
- Navigation (App.tsx) and the Home screen: Home is not part of this model. Only the nullable `peripheral` parameter is modelled, as `Option<Peripheral>`.
- Disconnect and error handling beyond swallowing failures: the screen has no disconnect, no error state, no guard against late adapter results, and it does not refuse a repeated connect.
