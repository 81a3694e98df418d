# Control Chain device listener, in Dafny

This project models `ControlChainDeviceListener` (`mod/control_chain.py`). The
listener is the host's client of the Control Chain daemon. It talks to the
daemon over a local stream socket, using JSON objects that each end in one NUL
byte. It asks the daemon for the device list, fetches each device's
descriptor, and reports devices and actuators to the host through callbacks.
After that it listens for `device_status` events, which say that a device was
plugged in or removed.

The model has these modules:

- `Wire`: the decoded frames and the NUL framing. `read_until(b"\0")` followed
  by `resp[:-1]` gives back every frame body, in the order written.
- `Format`: `"%i"`, with a parser beside it, so that the rendering can be
  shown to be injective.
- `Host`: the callbacks the listener fires, as values in an effect log.
  - `hw_added_cb`, `act_added_cb` and `act_removed_cb`.
  - The stored `wait_initialized` callback.
  - Callers' own request callbacks.
- `Descriptor`: descriptor ingestion as pure functions.
  - The space-in-URI rejection.
  - The per-URI unique index.
  - The mode string built from flags 0x01, 0x02 and 0x04.
  - The metadata record.
  - The `hw_versions` update.
- `Dispatch`: the listener's decisions as pure functions.
  - How the frame read for a request is matched to it.
  - Which event frames are acted upon.
  - What each callback the listener queues does to its state. This is a
    `Reaction` value.
  - When `connection_started` starts draining.
- `Listener`: the class `ControlChainListener`. Its fields are the source's
  fields: `crashed`, `idle`, `initialized`, `initializedCb`, `hwVersions`,
  `writeQueue` and the socket. It adds two fields for the reads tornado has
  pending:
  - `inFlight`: the request whose reply is awaited.
  - `readingEvents`: the event read.

  It also has logs of the request frames written and the host callbacks
  fired. The socket's callbacks become methods: `ConnectionStarted`,
  `OnReply`, `OnEvent` and `ConnectionClosed`. Every method that changes state
  keeps `Valid()`, which says two things:
  - A reply is awaited only while the listener is not idle and the socket
    exists.
  - Requests leave the queue in the order they entered it: the requests ever
    sent are the requests popped followed by the queue.
- `Scenario`: clients of the class. One bootstraps one pedal and then
  removes it. Another bootstraps with no devices, loses the connection while
  idle, and restarts. Their assertions follow from the contracts alone.

The coroutines `device_list_init` and `check_read_response` suspend on a
descriptor fetch. In the model, the fetch's callback carries a
`Continuation` value that says where the coroutine resumes. The completion
callback of the fetch then resumes it synchronously, inside the reply
handler.

Points where the code's behaviour is easy to misread; the model follows the code:

- A connection loss does not discard the queued requests. `connection_closed`
  only drops the socket. The queue is kept and is written out after the next
  `connection_started`. Requests are discarded without their callbacks only
  when a drain runs while the socket is `None`: `ProcessWriteQueue` models
  that branch.
- The initialized latch is one-way only within one connection. `start` sets
  it back to false on every restart that finds the socket path (`Started`).
- There is one stored `wait_initialized` callback, not a list. Each call made
  before the latch is set replaces the previous callback (`WaitInitialized`).
- The URI check looks for the space character only, not for any whitespace
  (`IngestRejectsSpace`).
- `hw_added_cb` and the `hw_versions` entry get `symbolify(label)`. The
  metadata `name` is built from the raw label (`IngestAccepted`).
- The unique index is not stable across removals. It counts the devices
  currently recorded with the URI, so after a removal a new unit can get an
  index already in use (`CountUriRemove`).
- A descriptor reply that is dropped never runs its completion callback. The
  bootstrap, or the event loop, then stays suspended. The model keeps that
  (`DroppedReplyChangesNothing`).

## Model

| member | source | states |
|---|---|---|
| Wire.Frame | mod/control_chain.py:165 | A request frame is its encoded body followed by exactly one NUL, and the body has no NUL. |
| Wire.ReadUntilNul | mod/control_chain.py:153-154 | `read_until(b"\0")` returns nothing while no NUL has arrived. Otherwise it returns a prefix that ends in the first NUL and holds no earlier one, and prefix plus remainder is the stream. |
| Wire.Unframe | mod/control_chain.py:138 | `resp[:-1]` is the frame without its last byte. |
| Wire.ReadFrame | mod/control_chain.py:135-138 | On a stream that starts with a frame, a read returns exactly that frame, whatever follows it, and `resp[:-1]` recovers the body. |
| Wire.Frames | mod/control_chain.py:165 | Writing several requests one after another gives a stream at least as long as the number of requests, and it ends in a NUL whenever something was written. |
| Wire.ReadBodies | mod/control_chain.py:150-154 | Reading frame after frame yields no more bodies than there are bytes. It yields nothing exactly when no NUL has arrived. |
| Wire.ReadBodiesFrames | mod/control_chain.py:150-154 | Successive reads of the frames written one after another give back every body, in order. |
| Format.NatString | mod/control_chain.py:221 | The decimal digits of a natural number: non-empty and digits only. It starts with '0' exactly for 0, so there are no leading zeros. |
| Format.IntString | mod/control_chain.py:221 | `"%i"` begins with '-' exactly for negative numbers, and every other character is a digit. |
| Format.ParseNatString | mod/control_chain.py:221 | Parsing the digits of n gives back n. |
| Format.ParseIntString | mod/control_chain.py:221 | Parsing `"%i" % n` gives back n. |
| Format.IntStringInjective | mod/control_chain.py:221 | Two integers print the same exactly when they are equal. |
| Format.IntStringHasNoColon | mod/control_chain.py:221 | A printed integer holds no ':'. |
| Descriptor.ModesFor | mod/control_chain.py:204-218 | No mode string exactly when none of flags 0x01, 0x02 and 0x04 is set. Otherwise the string starts and ends with ':'. |
| Descriptor.ModesDetermineFlags | mod/control_chain.py:208-213 | Two masks give the same mode string exactly when they agree on all three flags. |
| Descriptor.ModesIgnoreHigherBits | mod/control_chain.py:10-12 | Bits above the three flags do not change the mode string. |
| Descriptor.FlagIgnoresHigherBits | mod/control_chain.py:208-213 | Each `&` test against one flag sees only the low three bits. Python's `&` on a negative mask is included. |
| Descriptor.ActuatorUri | mod/control_chain.py:221 | An actuator URI starts with the device URI followed by ':', and at least three more characters follow: two numbers and the ':' between them. |
| Descriptor.ActuatorUriSuffix | mod/control_chain.py:221 | What follows the device URI and its ':' is the unique index, ':', and the actuator id. |
| Descriptor.ActuatorUriInjective | mod/control_chain.py:221 | For one device URI, two actuator URIs are equal exactly when the unique indices and the actuator ids are equal. |
| Descriptor.CountUri | mod/control_chain.py:195-199 | The unique index is at most the number of recorded devices. It is 0 exactly when no recorded device has the URI. |
| Descriptor.CountUriInsert | mod/control_chain.py:202 | Recording a new device id adds one to the count of its URI and leaves every other URI's count alone. |
| Descriptor.CountUriRemove | mod/control_chain.py:113-117 | Forgetting a recorded device takes one off its URI's count. Forgetting an unknown id changes nothing. |
| Descriptor.IdenticalUnitsNumbered | mod/control_chain.py:195-202 | Identical units recorded one after another, with none removed, raise their URI's count by one each. The indices handed out are therefore 0, 1, 2 and so on. |
| Descriptor.RegisterAll | mod/control_chain.py:202 | Recording several ids leaves exactly the old keys plus those ids. |
| Descriptor.UniqueIndexAsWritten | mod/control_chain.py:196-199 | The loop as written can only ever return index 0; every other outcome is the ValueError. |
| Descriptor.UniqueIndexAsWrittenDiffers | mod/control_chain.py:196-199 | The loop as written gives the intended count exactly when `hw_versions` is empty. |
| Descriptor.UniqueIndexAsWrittenSecondPedal | mod/control_chain.py:197 | With one pedal recorded, the loop as written raises where index 1 is intended. |
| Descriptor.AnnounceMembers | mod/control_chain.py:204-227 | Specifies `Descriptor.Announce` and `Descriptor.AnnounceOne`, with `Descriptor.MetadataFor`: an `act_added_cb` call is made exactly for each actuator that has at least one mode. Its record is built from that actuator. |
| Descriptor.AnnounceLastMembers | mod/control_chain.py:204-227 | The calls for a list of actuators are those for all but its last actuator, plus the last one's call when it has a mode. |
| Descriptor.AnnounceLength | mod/control_chain.py:204-216 | At most one `act_added_cb` per actuator. There is exactly one per actuator when every actuator has a mode. |
| Descriptor.IngestHwEntries | mod/control_chain.py:190-202 | Specifies `Descriptor.IngestHw`: an accepted descriptor adds exactly its device id to `hw_versions`, with the URI, the symbolified label and the version. Every other device's entry is left as it was. |
| Descriptor.IngestRejectsSpace | mod/control_chain.py:190-193 | Specifies `Descriptor.IngestEffects` and `Descriptor.IngestHw` on the space check: a descriptor fires no callback exactly when its URI holds a space. A rejected descriptor leaves `hw_versions` alone, and an accepted one records its device id. |
| Descriptor.IngestAccepted | mod/control_chain.py:201-227 | For an accepted descriptor, `hw_added_cb` with the symbolified label comes first. Every later call is an `act_added_cb` for this device, and its record has: the URI built from the unique index, the name built from the raw label, the actuator's own mode string, no steps, and its assignment limit. |
| Dispatch.ReplyOutcome | mod/control_chain.py:135-148 | The callback gets the reply's `data` exactly when the request has a callback and the frame decodes to a reply naming the request. Nothing ever escapes. |
| Dispatch.ReplyOutcomeAsWritten | mod/control_chain.py:135-148 | As written, the handler raises exactly when the request has a callback and the frame decodes to something that is not a reply. |
| Dispatch.ReplyOutcomeAsWrittenDiffers | mod/control_chain.py:143 | The handler as written differs from the intended one exactly on a decoded frame that is not a reply, read for a request with a callback. |
| Dispatch.EventDuringFetchRaises | mod/control_chain.py:143 | A `device_status` event read while a descriptor reply is awaited raises as written. The intended handler drops it. |
| Dispatch.EventActionFor | mod/control_chain.py:105-117 | A `device_status` event with a true status fetches that device's descriptor, and a false status removes it. Any other frame, or one that does not decode, is ignored. |
| Dispatch.ConnectStep | mod/control_chain.py:68-72 | The queue drains exactly when something is queued and no reply is awaited. The listener is marked idle exactly when nothing is queued and no reply is awaited. With no reply awaited, it agrees with the code as written. |
| Dispatch.ConnectStepAsWritten | mod/control_chain.py:68-72 | As written, `connection_started` never waits. It drains exactly when something is queued, and marks the listener idle otherwise. |
| Dispatch.ConnectStepAsWrittenIgnoresAwaited | mod/control_chain.py:68-72 | As written, `connection_started` drains or marks idle even while a reply is awaited. The corrected step keeps waiting. |
| Dispatch.ExternalCallbackRunsOnMatchingReply | mod/control_chain.py:135-148 | A caller's callback fires once, with the reply's data, exactly when the frame is a reply naming its request. |
| Dispatch.DroppedReplyChangesNothing | mod/control_chain.py:143-150 | A frame that is not a reply naming the request runs no callback. It queues nothing, sets no latch, does not touch `hw_versions` and arms no event read. |
| Dispatch.IngestEffectsAreAnnouncements | mod/control_chain.py:201-227 | Ingesting a descriptor fires only `hw_added_cb` and `act_added_cb`. |
| Dispatch.ListStepReaction | mod/control_chain.py:174-181 | One pass of `device_list_init`. It sets the latch exactly when no ids remain. It queues at most one request: the next id's `device_descriptor` while ids remain, and the status request at the end only if not yet initialized. Only the end can fire the waiter. |
| Dispatch.ResumeReaction | mod/control_chain.py:173-176 | Resuming a coroutine after its descriptor arrives arms the event read exactly when the event loop was waiting. It sets the latch exactly when the device list was on its last id. It queues at most one request and leaves `hw_versions` alone. |
| Dispatch.React | mod/control_chain.py:147-148 | Running a callback queues at most one request. Only a descriptor callback changes `hw_versions`. Only `device_list_init` or a descriptor callback sets the latch. Only the status callback, or a descriptor fetched by the event loop, arms the event read. |
| Dispatch.ReplyReaction | mod/control_chain.py:135-150 | A reply queues at most one request. Anything other than a decoded reply naming the request leaves the state alone. |
| Dispatch.OnlyListEndInitializes | mod/control_chain.py:173-181 | A reply sets the initialized latch only when it completes the device list. For the `device_list` request, that is exactly an empty list. For a descriptor, it is the last listed device. The stored waiter fires only then, and only if one was stored. |
| Dispatch.ListEndInitializes | mod/control_chain.py:173-181 | Conversely, an empty `device_list` reply sets the latch. So does the descriptor reply for the last listed device, whether or not its URI is accepted. |
| Listener.ControlChainListener.constructor | mod/control_chain.py:19-30 | A new listener has empty state, and `start` has run. With the socket path present, the `device_list` request is queued and not yet written. Otherwise the listener is initialized and has no socket. |
| Listener.ControlChainListener.Start | mod/control_chain.py:34-50 | With the path missing, only the latch is set. Otherwise the latch is reset, a socket exists, and `device_list` is sent with `device_list_init` as its callback. |
| Listener.ControlChainListener.RestartIfCrashed | mod/control_chain.py:52-57 | No change unless crashed. When crashed, it clears the flag and starts again. |
| Listener.ControlChainListener.WaitInitialized | mod/control_chain.py:59-64 | Once initialized, the callback fires at once. Before that, it replaces the stored callback. |
| Listener.ControlChainListener.ConnectionStarted | mod/control_chain.py:68-72 | With no reply awaited, it drains the queue, or marks the listener idle when the queue is empty. With a reply awaited, nothing changes. |
| Listener.ControlChainListener.ConnectionClosed | mod/control_chain.py:78-82 | The socket is gone, the listener is crashed, and the pending reads are gone. The latch is set and the stored waiter fires once. |
| Listener.ControlChainListener.SetInitialized | mod/control_chain.py:84-91 | The latch is set, and the stored callback is cleared and fired if there was one. |
| Listener.ControlChainListener.ProcessReadQueue | mod/control_chain.py:95-96 | Arms the event read. |
| Listener.ControlChainListener.OnEvent | mod/control_chain.py:98-120 | A removal fires `act_removed_cb` and forgets the id, and an unknown id is tolerated. An arrival sends the descriptor request and reads on only once it completes. Anything else re-arms the read. |
| Listener.ControlChainListener.ProcessWriteQueue | mod/control_chain.py:124-154 | An empty queue marks the listener idle. With a socket, the head request is popped, written and awaited. Without one, every queued request is discarded without its callback. |
| Listener.ControlChainListener.OnReply | mod/control_chain.py:135-150 | State follows `Dispatch.ReplyReaction` for the awaited request. Then the queue, with the requests the callback appended, is drained from its head. |
| Listener.ControlChainListener.Invoke | mod/control_chain.py:147-148 | Running a callback changes the state as `Dispatch.React` says. |
| Listener.ControlChainListener.SendRequest | mod/control_chain.py:158-169 | The request goes to the tail of the queue. It is written at once only when the listener was idle. |
| Listener.ControlChainListener.DeviceListStep | mod/control_chain.py:173-181 | Fetches the next listed descriptor. After the last one, it enables status events unless already initialized, then sets the latch. |
| Listener.ControlChainListener.SendDeviceDescriptor | mod/control_chain.py:231 | Sends `device_descriptor` for the id, with `dev_desc_cb` as its callback. |
| Listener.ControlChainListener.DescriptorReply | mod/control_chain.py:186-229 | A descriptor reply changes the state as `Dispatch.React` says: `dev_desc_cb` runs, then its `callback()` resumes the suspended coroutine. |
| Listener.ControlChainListener.Resume | mod/control_chain.py:175-176 | After a descriptor is handled, the device-list loop takes its next step, or the event loop re-arms its read. |
| Listener.ControlChainListener.DescriptorReceived | mod/control_chain.py:186-227 | The callbacks fired and the new `hw_versions` are exactly `Descriptor.IngestEffects` and `Descriptor.IngestHw`, computed on the old map with the symbolified label. |
| Listener.ControlChainListener.AcceptDescriptor | mod/control_chain.py:195-227 | An accepted descriptor fires `hw_added_cb` and records its `hw_versions` entry. It then fires exactly `Descriptor.Announce`, with the URI's count in the old map as the unique index. |
| Listener.ControlChainListener.AnnounceActuators | mod/control_chain.py:204-227 | The actuator loop fires exactly `Descriptor.Announce`, in list order. |
| Listener.ControlChainListener.UniqueIndex | mod/control_chain.py:195-199 | The loop over `hw_versions` returns the number of recorded devices with the URI. |
| Scenario.PedalIngested | mod/control_chain.py:201-227 | The first pedal seen gets index 0. Its single toggle actuator is announced as `pedal1:0:3`, named `Pedal:Foot`, with modes `:bypass:toggled:`. |
| Scenario.ListOnePedal | mod/control_chain.py:173-176 | After `device_list` answers [7], the descriptor request for device 7 is the one request on the wire. |
| Scenario.DescribePedal | mod/control_chain.py:178-181 | The last descriptor sets the latch and leaves `device_status` on the wire. |
| Scenario.EmptyBootstrapReactions | mod/control_chain.py:174-181 | An empty device list queues the status request and sets the latch, and the status reply arms the event read. |
| Scenario.ListNoDevices | mod/control_chain.py:174-181 | With no devices, the latch is set at once and `device_status` follows `device_list` on the wire. |
| Scenario.BootstrapEmpty | mod/control_chain.py:124-129 | Once the status request is answered, events are read and the listener is idle. |
| Scenario.RestartAfterIdle | mod/control_chain.py:34-82 | `idle` survives `connection_closed`, so a restart writes `device_list` at once, before the connection is up. `connection_started` then finds it in flight and waits for its reply. |

## Left out

- JSON encoding and decoding. Frames appear as decoded `Message` values, and
  queue entries hold the request object rather than its bytes. UTF-8
  decoding with errors ignored is not modelled.
- Tornado's I/O loop. Connects, writes and reads become the event methods of
  the class.
- Tornado refuses a second pending read ("Already reading"). The model lets
  a reply read and the event read be pending together and records both. It
  does not model that refusal.
- Listener.ControlChainListener.ConnectionStarted: the udev rule check for a
  forced Arduino (`os.path.exists` on two fixed paths) is not modelled,
  because it depends on the file system. The `set_initialized` it may call is
  modelled on its own.
- `os.path.exists(socket_path)` becomes the `pathExists` parameter. When the
  path is missing, the model says there is no socket, while the source leaves
  `self.socket` unset.
- The internals of `symbolify` (mod/symbolify) are not part of this model.
  The function is a constructor parameter.
- Listener.ControlChainListener.Invoke: reply data of a shape its callback
  does not read is ignored. This covers a `device_list` reply that is not a
  list and a `device_descriptor` reply that is not a descriptor. The source
  would raise inside the callback instead.
- Dispatch.EventActionFor: an event frame with missing keys raises KeyError
  in the source before the `finally` re-arms the read. The model ignores
  that frame, which has the same effect on the state, and does not model the
  logged exception.
- Logging (`print`) and the `__main__` demo block.
- Coroutine scheduling is made synchronous. A coroutine resumes inside the
  completion callback rather than on a later turn of the I/O loop.
- The brief idle gap while a coroutine is suspended is not reproduced. In the
  source, `check_write_response` runs `process_write_queue` (line 150) before
  tornado resumes the coroutine. With an empty queue that sets `idle` to true
  (lines 127-128), and the resumed coroutine's `send_request` then writes at
  once (lines 168-169). In the model, the coroutine's request is queued while
  the listener is busy and is written by that same drain. The order of the
  requests written is the same either way.

## Findings

| source | as written | input that shows it | evidently intended | confidence | as-written member | corrected member |
|---|---|---|---|---|---|---|
| mod/control_chain.py:197 | The unique-index loop unpacks each `(key, value)` pair of `hw_versions.items()` into three names. That raises ValueError as soon as one device is recorded, so no callback runs and the bootstrap or event loop stays suspended. | A second descriptor after device 7 "pedal1" was recorded (`Descriptor.UniqueIndexAsWrittenSecondPedal`). | The index is the count of recorded devices with the same URI, here 1. Indices for identical units rise 0, 1, 2 (`Descriptor.IdenticalUnitsNumbered`). | high, not executed | Descriptor.UniqueIndexAsWritten | Descriptor.CountUri |
| mod/control_chain.py:143 | The reply name is looked up outside the try block. A decoded frame with no `reply` key raises KeyError, so neither the callback nor the next drain runs. | A `device_status` event with a true status that arrives while a `device_descriptor` reply is awaited (`Dispatch.EventDuringFetchRaises`). | The frame is dropped like a name mismatch, and draining goes on (`Dispatch.ReplyOutcomeAsWrittenDiffers`). | medium, not executed | Dispatch.ReplyOutcomeAsWritten | Dispatch.ReplyOutcome |
| mod/control_chain.py:68-72 | `connection_started` looks only at the queue. Take a restart when the listener was idle. `idle` survives `connection_closed` (lines 78-82), so `start`'s `send_request` (line 47) writes `device_list` before the connection is requested (line 50). The model, like the code, writes it that early (`Scenario.RestartAfterIdle`). `connection_started` then finds the queue empty and marks the listener idle while that reply is still awaited, so the next `send_request` writes at once. | A crash while idle, then `restart_if_crashed` (`Dispatch.ConnectStepAsWrittenIgnoresAwaited`). | While a reply is awaited, the listener stays busy: `Listener.ControlChainListener.ConnectionStarted` keeps `idle` implying that no reply is awaited. | low, not executed | Dispatch.ConnectStepAsWritten | Dispatch.ConnectStep |
