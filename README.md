# ECHONET Lite client engine, modelled in Dafny

This project models the protocol engine of the `enlite` ECHONET Lite library:
- the frame codec: `Frame.create`, the getters, the tid setter and `Frame.confirmed`;
- the `num2hex` / `Buffer.from(…, 'hex')` encoding path;
- the addressable `Node` with its open flag and 16-bit transaction counter;
- the remote `Device`: GET reads with a timeout and retries, value reads, and INFC confirmation;
- the low-voltage smart electric energy meter's notification filter;
- the local `Controller`: device list, lookup, routing and the `send` stamp;
- the `NodeProfile`: open/close, demultiplexing of received frames, instance-list discovery through the registered device classes, and encoding of outgoing frames.

Inheritance in the source (`Device extends Node`, `Controller extends Node`, `NodeProfile extends Node`) becomes composition. Each of the three classes holds its own `Node` object (`node`). The classes keep the source's mutable state as fields, and every method states its new state.

Asynchrony and the outside world become data:
- **Reads:** the events that can settle a pending read (a rejected send, the timer, a GET_RES with some tid) are a sequence of `ReadEvent`s. `Get` receives one such sequence per attempt.
- **Outbound sends:** what a device hands to `controller.send` is recorded in its `sent` trace. Likewise for the controller's calls to `nodeProfile.send`, and for the datagrams the node profile gives its socket (`datagrams`).
- **Meter events:** the meter's handler calls (the `cumulative-amounts-of-energy-*` events) are recorded in `fired`.

The proved properties are:
- **Frames:** every frame `Frame.create` accepts decodes back to its fields and properties, in order. The layout is 12 header bytes plus 2 + PDC bytes per property. Confirmations encode and decode as acknowledgements of the received frame.
- **`num2hex`:** the output reads back as its input. For values that fit their width, it is the fixed-width big-endian encoding.
- **Transaction counter:** it wraps to 0 after 0xFFFF. A GET issued with the wrapped tid 0 is refused by `Frame.create`.
- **Reads:**
  - a read resolves only with a response carrying its own tid;
  - `Get` makes at most 4 attempts and retries only after a timeout or a failed transmission;
  - a silent device exhausts all 4 attempts;
  - `Get` resolves only with the properties of a response to one of its own attempts.
- **Meter:**
  - a recorded timestamp is never advanced;
  - the two channels are independent;
  - redelivering a frame to a fresh meter calls no handler;
  - a notification later than the first one is accepted every time it is delivered.
- **Discovery:**
  - processing an instance list keeps the known devices;
  - it knows every device the list makes, unless a constructor throws;
  - processing the same list again adds nothing;
  - a list with no registered class changes nothing.
- **Controller:** `addDevice` adds a device exactly when `lookup` misses, and the controller never lists two devices with the same address and id.

## Model

| member | source | states |
|---|---|---|
| Bytes.UIntBE | src/frame.ts:63-69 | readUIntBE over n bytes gives a value below 256^n |
| Bytes.ToBE | src/lib.ts:70-76 | writing n into w big-endian bytes gives w bytes that read back as n |
| Bytes.IntBE | src/device.ts:46 | readIntBE is the two's-complement reading: within ±256^n/2 and non-negative exactly when the leading byte is below 0x80 |
| HexCodec.Num2Hex | src/lib.ts:13-24 | fails with the too-large error above MAX_SAFE_INTEGER, else with the byte-count error outside 1..8; otherwise the result is toString(16) left-padded with '0' to 2*bytes and never truncated |
| HexCodec.HexOfDigits | src/lib.ts:20-22 | toString(16) writes hex digits only, without a leading zero |
| HexCodec.HexOfValue | src/lib.ts:20-22 | the digits of toString(16) read back as the number |
| HexCodec.Num2HexValue | src/lib.ts:13-24 | whatever the padding, num2hex's output reads back as its input |
| HexCodec.PaddedIsFixed | src/lib.ts:23 | padding toString(16) to k digits, for n below 16^k, gives exactly the k-digit hex of n |
| HexCodec.BytesFromHex | src/frame.ts:32 | Buffer.from(hex) gives at most one byte per two characters, exactly one per pair for even-length hex text |
| HexCodec.BytesFromHexAppend | src/frame.ts:32 | decoding concatenated hex text is concatenating the decodings when the first part is whole pairs |
| HexCodec.FixedHexBytes | src/frame.ts:32 | 2w hex digits of n decode to the w big-endian bytes of n |
| HexCodec.Num2HexFixed | src/frame.ts:18-32 | for 0 <= n < 256^bytes, num2hex(n, bytes) has exactly 2*bytes digits and decodes to the bytes-wide big-endian form of n |
| Lib.GetResponseService | src/lib.ts:43-51 | GET is answered with GET_RES, INFC with INFC_RES, and every other code maps to itself |
| Lib.ResponseServiceIdempotent | src/lib.ts:43-51 | mapping an answer code again changes nothing |
| Lib.Edt2DateValue | src/lib.ts:53-66 | a record is produced exactly for data of 11 bytes, with a 16-bit year and a 32-bit value |
| Lib.DateValue2Buffer | src/lib.ts:68-78 | the fresh 11-byte buffer holds year, month + 1, day, hour, minute, second and value in the record layout |
| Lib.DateValueRoundTrip | src/lib.ts:53-78 | edt2DateValue reads back exactly the time and value dateValue2Buffer wrote |
| Props.Pdc | src/property.ts:15-17 | the PDC is the data length, 0 without data |
| Props.Confirmed | src/property.ts:9-11 | the confirmed property keeps the code and drops the data |
| Props.ConfirmedIdempotent | src/property.ts:9-11 | confirming twice is confirming once |
| Props.Normalized | src/frame.ts:86-87 | the decoder's view of a property: same code, PDC and data bytes, with empty data absent |
| Frames.EncodeHex | src/frame.ts:14-31 | the missing-field error exactly when tid, seoj, deoj or esv is falsy; the too-large error exactly when a complete frame has a number beyond num2hex's range; no other error |
| Frames.Create | src/frame.ts:14-33 | succeeds exactly when the hex text can be built, fails with its error otherwise, and the new frame's buffer is the decoding of that text |
| Frames.HeaderText | src/frame.ts:18-23 | the header's hex, or the too-large error exactly when a header field is beyond num2hex's range |
| Frames.AppendProperty | src/frame.ts:25-30 | appends one property's epc, pdc and data in hex, failing only when the PDC is beyond num2hex's range |
| Frames.Frame.constructor | src/frame.ts:49 | the frame wraps the given buffer |
| Frames.Frame.SetTid | src/frame.ts:55-57 | the buffer afterwards is the old bytes with the tid written big-endian over bytes 2 and 3 |
| Frames.WithTidOnlyTid | src/frame.ts:51-91 | rewriting the tid changes the tid getter and no other byte, getter or property |
| Frames.DecodeProperties | src/frame.ts:79-91 | the properties getter yields OPC properties, and no property with empty data |
| Frames.PropertiesOf | src/frame.ts:79-91 | a well-formed frame has exactly OPC properties |
| Frames.AppendPropertiesHexBytes | src/frame.ts:24-32 | the property loop's hex decodes to the epc, pdc and data bytes of each property, in order |
| Frames.EncodeLayout | src/frame.ts:14-32 | when every field fits its width, create succeeds and its buffer is the 12 header bytes followed by the properties: 12 plus 2 + PDC bytes per property |
| Frames.EmptyFrame | src/frame.ts:23 | a frame without properties is the 12 header bytes with OPC 0 |
| Frames.DecodeEncoded | src/frame.ts:79-91 | the getter decodes the encoded property list back to the properties, in order |
| Frames.RoundTrip | src/frame.ts:14-91 | decoding a created frame gives back EHD 0x1081, tid, seoj, deoj, esv, OPC and the properties in order |
| Frames.Confirmation | src/frame.ts:35-47 | the confirmation keeps the tid, swaps source and destination, answers the service code and lists the received codes without data |
| Frames.ConfirmationEncoding | src/frame.ts:35-47 | a confirmation of a frame with non-zero header fields is accepted by create, takes 12 + 2*OPC bytes and decodes to the same tid, the swapped objects and the received codes |
| Nodes.IdInjective | src/node.ts:14-16 | two valid objects share an id exactly when class and instance agree |
| Nodes.NextTid | src/node.ts:52-56 | the counter goes up by one and wraps from 0xFFFF to 0 |
| Nodes.CounterWraps | src/node.ts:52-56 | from the initial 0, the k-th call returns k modulo 0x10000 |
| Nodes.Route | src/node.ts:77-86 | GET_RES, INF and INFC go to their handlers, and any other code to none |
| Nodes.Node.constructor | src/node.ts:22-30 | a new node is closed, with counter 0 and the given identity |
| Nodes.NewNode | src/node.ts:22-30 | construction fails exactly for an instance code outside 1..0xFF; otherwise the node is closed with counter 0 and id class*0x100+instance |
| Nodes.Node.Open | src/node.ts:32-40 | true exactly when it was closed; afterwards it is open and the counter is unchanged |
| Nodes.Node.Close | src/node.ts:42-50 | true exactly when it was open; afterwards it is closed and the counter is unchanged |
| Nodes.Node.GetNextTid | src/node.ts:52-56 | returns the advanced counter, which stays within 16 bits |
| Nodes.Node.OnData | src/node.ts:73-87 | a closed node invokes no handler; an open one invokes the handler of the service code |
| Meter.BeforeIrreflexive | src/smart-electric-energy-meter.ts:99 | no time is later than itself |
| Meter.IsNew | src/smart-electric-energy-meter.ts:94-100 | the first time is recorded and accepted; afterwards a time is accepted exactly when it is later than the recorded one, which is never replaced |
| Meter.StepInfC | src/smart-electric-energy-meter.ts:70-87 | one property calls at most one handler, and only when the loop goes on |
| Meter.WalkInfC | src/smart-electric-energy-meter.ts:69-88 | the loop calls no more handlers than there are properties |
| Meter.CompletedFiresAll | src/smart-electric-energy-meter.ts:69-91 | a loop that reaches the confirmation met only valid records and called one handler per cumulative property, in order |
| Meter.NeverAdvanced | src/smart-electric-energy-meter.ts:94-108 | a recorded timestamp is never replaced by later notifications |
| Meter.ChannelsIndependent | src/smart-electric-energy-meter.ts:94-108 | notifications of one channel never change the other channel's timestamp |
| Meter.RedeliveryFiresNothing | src/smart-electric-energy-meter.ts:67-108 | redelivering a frame to a fresh meter calls no handler, and it confirms again only when the frame has no cumulative property |
| Meter.RepeatedLaterNotificationRefires | src/smart-electric-energy-meter.ts:94-100 | a notification later than the first is accepted and fires again on every delivery |
| Devices.ReadResolvesWithItsResponse | src/device.ts:96-105 | a read resolves only with the properties of a response carrying its own tid |
| Devices.UnansweredReadTimesOut | src/device.ts:71-94 | with no rejected send and no response with the read's tid, the read rejects with the timeout |
| Devices.GetOutcome | src/device.ts:55-69 | Get makes between 1 and 4 attempts; a failure before the fourth attempt is neither a timeout nor a failed transmission |
| Devices.SilentDeviceExhaustsRetries | src/device.ts:55-69 | when every attempt times out, Get fails with the timeout after exactly 4 attempts |
| Devices.NoRetryAfterOtherErrors | src/device.ts:58-63 | any other failure of the first attempt ends Get after that attempt, with that error |
| Devices.GetResolvesWithAResponse | src/device.ts:55-105 | Get resolves only with the properties of a response that carried the tid of one of its own attempts |
| Devices.FindValue | src/device.ts:44-48 | no value exactly when no property has the asked code and exactly byteLength bytes |
| Devices.FindValueIsFirstMatch | src/device.ts:44-48 | a value found is the signed big-endian reading of the first matching property |
| Devices.FirstValue | src/device.ts:44-48 | the loop returns the value of the first matching property, or none |
| Devices.Device.constructor | src/device.ts:29-37 | a new device is closed, idle, with counter 0, the given address and id class*0x100+instance |
| Devices.Device.Meter | src/smart-electric-energy-meter.ts:22-25 | a new meter is object 0x028801 whatever the entry said, closed, idle, with nothing recorded |
| Devices.Device.Close | src/smart-electric-energy-meter.ts:27-31 | true exactly when it was open; afterwards it is closed |
| Devices.Device.Settle | src/device.ts:88-93 | the pending read settles with the outcome; nothing else changes |
| Devices.Device.StartRead | src/device.ts:74-82 | the read is pending, the counter has advanced once, and a GET with the new tid to this device's id is the last call to controller.send |
| Devices.Device.OnTimeout | src/device.ts:76 | a pending read rejects with the timeout; a settled one is unchanged |
| Devices.Device.OnSendRejected | src/device.ts:82 | a pending read rejects with the error of the failed send; a settled one is unchanged |
| Devices.Device.OnGetRes | src/device.ts:96-105 | a response settles a pending read exactly when its tid is the last one issued |
| Devices.Device.GetProperties | src/device.ts:71-94 | one GET with the next tid is sent, and the read settles with the first event that decides it, or times out |
| Devices.Device.Get | src/device.ts:55-69 | the result and attempt count are those of the retry specification; the counter advanced once per attempt, and one GET per attempt was sent with that attempt's tid |
| Devices.Device.GetValue | src/device.ts:39-53 | Get's error, or the value of the first matching response property, or none; the open flag, meter record and fired handlers stay as they were, and the tid and GET requests advance by Get's attempt count |
| Devices.Device.GetCoefficient | src/smart-electric-energy-meter.ts:37-40 | getValue of 0xD3 over 4 bytes, with getValue's new state |
| Devices.Device.GetEffectiveDigits | src/smart-electric-energy-meter.ts:42-45 | getValue of 0xD7 over 1 byte, with getValue's new state |
| Devices.Device.GetUnit | src/smart-electric-energy-meter.ts:47-50 | getValue of 0xE1 over 1 byte, with getValue's new state |
| Devices.Device.GetInstantaneousElectricEnergy | src/smart-electric-energy-meter.ts:52-55 | getValue of 0xE7 over 4 bytes, with getValue's new state |
| Devices.Device.Observe | src/smart-electric-energy-meter.ts:70-87 | one turn of the meter's loop updates the timestamps and handler calls as the one-property specification says |
| Devices.Device.Filter | src/smart-electric-energy-meter.ts:69-88 | the meter's loop leaves the timestamps and handler calls of the loop specification and reports whether it reached the end |
| Devices.Device.OnInfC | src/smart-electric-energy-meter.ts:67-92 | a generic device confirms at once; the meter confirms only when its loop ran to the end |
| Devices.Device.OnData | src/node.ts:73-87 | an open device hands GET_RES to onGetRes and INFC to onInfC; anything else, or a closed device, changes nothing |
| Controllers.Find | src/controller.ts:55-60 | lookup finds the first device with that address and id, and nothing exactly when none has them |
| Controllers.FindNoneIffAbsent | src/controller.ts:55-60 | lookup misses exactly when the key is not among the devices' keys |
| Controllers.Controller.constructor | src/controller.ts:16-19 | a new controller is closed, object 0x05FF01, with no devices |
| Controllers.Controller.AddDevice | src/controller.ts:45-53 | adds the device exactly when lookup misses, appending it; the keys afterwards never repeat |
| Controllers.Controller.OnData | src/controller.ts:30-34 | the frame reaches the device lookup finds for its sender and no other device |
| Controllers.Controller.Send | src/controller.ts:36-43 | throws exactly when deoj or esv is falsy; otherwise the parameters are stamped with the controller's id as source and passed on |
| Controllers.Controller.Close | src/controller.ts:21-28 | every listed device is closed, the list is emptied, and the result is whether the controller was open |
| NodeProfiles.Entries | src/nodeprofile.ts:108-112 | entry i is the big-endian class code at 1 + 3i and the instance code at 3 + 3i, for as many entries as the count byte says |
| NodeProfiles.Made | src/enlite-impl.ts:109-119 | nothing for an unregistered class; the meter is 0x028801 at that address; a generic device gets the entry's id, or the invalid-identity error for an instance outside 1..0xFF |
| NodeProfiles.DiscoverCovers | src/nodeprofile.ts:110-118 | a list that completes keeps every known device and ends up knowing every device its entries make |
| NodeProfiles.DiscoverKnown | src/nodeprofile.ts:110-118 | a list all of whose devices are known changes nothing |
| NodeProfiles.RepeatedListAddsNothing | src/nodeprofile.ts:110-118 | processing the same instance list a second time adds no device |
| NodeProfiles.UnregisteredListIgnored | src/nodeprofile.ts:113-116 | a list in which no class is registered leaves the devices as they are |
| NodeProfiles.FirstNotification | src/nodeprofile.ts:121-133 | the first 0xD5 property of the frame, or none exactly when there is none |
| NodeProfiles.RouteOf | src/nodeprofile.ts:62-76 | dropped exactly when closed, without a controller or without properties; forwarded to the controller exactly when addressed to another object; otherwise dispatched by service code |
| NodeProfiles.RequestDatagram | src/nodeprofile.ts:78-90 | a device's GET with a non-zero tid, stamped by the controller, is accepted and its datagram decodes to that tid, the controller as source, the device as destination and the requested properties |
| NodeProfiles.WrappedTidRefused | src/node.ts:52-56 | after 0xFFFF requests the counter is 0, and a GET with tid 0 is refused for a missing field |
| NodeProfiles.ConfirmationDatagram | src/frame.ts:35-47 | the stamped confirmation is accepted, its datagram has 12 + 2*OPC bytes, the received tid, the sender as destination, the answer code and the codes without data |
| NodeProfiles.NodeProfile.constructor | src/nodeprofile.ts:22-25 | a new node profile is closed, object 0x0EF001, without controller or socket |
| NodeProfiles.NodeProfile.Open | src/nodeprofile.ts:27-44 | false without a controller or when already open; a controller that fails to open leaves the node profile open without it; success keeps the controller and a socket |
| NodeProfiles.NodeProfile.Close | src/nodeprofile.ts:46-60 | false when not open; otherwise the socket is gone, the controller is closed with its devices and released, and the node profile is closed |
| NodeProfiles.NodeProfile.Send | src/nodeprofile.ts:78-90 | nothing while closed; the no-socket error without a socket; otherwise Frame.create's error or one datagram with its bytes to the ECHONET Lite port |
| NodeProfiles.NodeProfile.CreateDevice | src/enlite-impl.ts:109-119 | agrees with the creation specification, and a made device is new, valid and closed |
| NodeProfiles.NodeProfile.Admit | src/nodeprofile.ts:111-116 | one entry: the constructor's error stops the list; a made device's key is added unless already known; added devices are new |
| NodeProfiles.NodeProfile.AdmitEntries | src/nodeprofile.ts:108-118 | the loop leaves the controller with the keys of the discovery specification, stops with its error, and keeps the old devices as a prefix |
| NodeProfiles.NodeProfile.OnInstanceListNotification | src/nodeprofile.ts:92-119 | nothing while closed, without a controller, without data or with count 0; otherwise the loop's outcome |
| NodeProfiles.NodeProfile.OnInf | src/nodeprofile.ts:121-133 | only the first instance-list notification of the frame is handled |
| NodeProfiles.NodeProfile.OnData | src/nodeprofile.ts:62-76 | the route of the routing specification; a dropped frame and a dispatch to a node handler other than onInf change neither the controller nor any device; a forwarded frame is handled by the device lookup finds and no other device changes; an INF is handled by onInf and leaves the listed devices unchanged |

## Left out

- Asynchrony and timers are not modelled as such. A pending read sees a script of events (a rejected send, the timer, responses), and a read whose script runs out times out. The value of TIMEOUT_GET and promise-retry's back-off timing are left out; src/constants.ts is not part of this model.
- Devices.Device.StartRead: requires that no read is pending; the source allows overlapping reads on one device, which then share one listener. The same precondition is on GetProperties, Get and the value getters.
- Devices.Device.GetValue: requires byteLength in 1..6, the widths readIntBE accepts; the engine calls it with 1 and 4 only.
- Frames.Frame.SetTid: requires a tid within 16 bits, where writeUInt16BE would throw otherwise.
- Lib.DateValue2Buffer: requires every field within its byte range, where the Buffer writes would throw otherwise.
- Meter.Before: compares the record's fields from the year down to the second, which is getTime()'s order only for real calendar dates with a year of at least 100 that fall outside a daylight-saving gap. JavaScript Date normalisation is left out. For records whose fields lie within the calendar ranges of Lib.InRange, three cases differ from the source:
  - years 0-99 are read by `new Date` as 1900-1999, so year 99 is ordered here before year 1950 while getTime orders them the other way;
  - a day past the end of its month rolls into the next month, so 2024-04-31 and 2024-05-01 at the same time are equal under getTime (isNew rejects the second) but ordered here;
  - a local time inside a daylight-saving spring-forward gap is moved forward by Date, which this field order does not see.
  - Edt2DateValue accepts any 11-byte record, so its month can be -1..254 and its day, hour, minute and second 0..255. Date normalises every value outside the calendar (month byte 0 or above 12, day 0, hour 24 or more, minute or second 60 or more) into a neighbouring date, and this field order does not: 2024 with month byte 13, day 1, 00:00:00 and 2025-01-01 00:00:00 have equal getTime() (isNew rejects the second) but are ordered here.
- Devices.Device.GetValue and the four meter getters also return Get's attempt count, which the source does not expose; it is there to state the new tid and the requests sent.
- NodeProfiles.NodeProfile.AdmitEntries: does not state that the devices added by a whole list are newly created objects; Admit states it for each entry. The same holds for OnInstanceListNotification.
- Controllers.Controller.AddDevice: requires the device's node to differ from the controller's own node. This and the matching precondition of NodeProfiles.NodeProfile.Open come from modelling inheritance by composition; the source's objects cannot alias that way.
- Received frames are taken to be well formed (complete header, properties within the buffer), and instance lists to carry the entries their count announces. The source's behaviour on truncated buffers (RangeError, short subarrays) is left out.
- The sent traces record each call to controller.send and nodeProfile.send, not the promise it returns; a confirmation whose send is rejected is not seen by the device.
- The event emitters (`on`, `once`, `device-created`, the meter's listeners) are left out; handler calls of the meter are recorded in `fired`.
- The socket is a flag plus the trace of datagrams; createSocket, bind, close and the message listener are left out, and OnData takes the sender's address and the received bytes directly.
- The registry of device classes is fixed when the node profile is made; `addDeviceClass` after that is left out. A registered class is either a generic device constructor or the meter's.
- The facade of src/enlite-impl.ts other than createDevice, src/enlite.ts, src/enlite-config.ts and the toString/dump/debug output are left out. src/epc.ts and src/definitions.ts are not part of this model; the property codes are the ECHONET Lite codes the engine names, and the port is 3610.
- JavaScript numbers are unbounded integers here; num2hex's MAX_SAFE_INTEGER guard is modelled, floating point is not.
