/**
 * The decisions the listener takes when a frame arrives or the connection
 * comes up, as pure functions: how a reply is matched to the request awaiting
 * it, which events are acted upon, what a request's callback does to the
 * listener's state, and when `connection_started` starts draining the queue.
 */
module Dispatch {
  import opened Wrappers
  import opened Wire
  import opened Host
  import opened Descriptor

  /** Where a coroutine suspended on a `device_descriptor` fetch resumes once the descriptor is handled. */
  datatype Continuation =
    | ContinueDeviceList(remaining: seq<DeviceId>)   // device_list_init, with the ids still to describe
    | ContinueEventLoop                              // check_read_response, whose `finally` re-arms the event read

  /** The callback stored with a queued request. */
  datatype Callback =
    | NoCallback                                           // send_request's default
    | External(token: nat)                                 // a caller's own callback
    | DeviceListInit                                       // device_list_init
    | DescriptorReady(deviceId: DeviceId, next: Continuation)  // dev_desc_cb of send_device_descriptor
    | ArmEvents                                            // process_read_queue

  /** A `write_queue` entry: the request object (sent as its JSON frame), its name and its callback. */
  datatype Pending = Pending(request: Message, callback: Callback)

  const DEVICE_LIST_REQUEST: Pending := Pending(Request("device_list", Null), DeviceListInit)
  const STATUS_REQUEST: Pending := Pending(Request("device_status", Enable(1)), ArmEvents)

  function DescriptorRequest(deviceId: DeviceId, next: Continuation): Pending {
    Pending(Request("device_descriptor", DeviceRef(deviceId)), DescriptorReady(deviceId, next))
  }

  /** What `check_write_response` does with the frame read for a request. */
  datatype ReplyHandling =
    | Deliver(data: Data)   // the callback runs with data['data']
    | Drop                  // logged and dropped; the queue moves on
    | Raise                 // an exception escapes: neither the callback nor the next request runs

  /**
   * `check_write_response` as written: a decoded frame that is not a reply
   * (an event, say) has no 'reply' key, and `data['reply']` raises KeyError
   * outside the try block.
   */
  function ReplyOutcomeAsWritten(requestName: string, hasCallback: bool, resp: Incoming): (outcome: ReplyHandling)
    ensures outcome.Raise? <==> hasCallback && resp.Decoded? && !resp.message.Reply?
  {
    if !hasCallback then Drop
    else match resp
      case Malformed => Drop
      case Decoded(Reply(name, data)) => if name == requestName then Deliver(data) else Drop
      case Decoded(_) => Raise
  }

  /**
   * `check_write_response` with a frame that is not a reply treated like a
   * reply to another request: dropped, and draining continues. The callback
   * runs exactly when the frame decodes to a reply naming the request.
   */
  function ReplyOutcome(requestName: string, hasCallback: bool, resp: Incoming): (outcome: ReplyHandling)
    ensures !outcome.Raise?
    ensures outcome.Deliver? <==>
      hasCallback && resp.Decoded? && resp.message.Reply? && resp.message.name == requestName
    ensures outcome.Deliver? ==> outcome.data == resp.message.data
  {
    if !hasCallback then Drop
    else match resp
      case Malformed => Drop
      case Decoded(Reply(name, data)) => if name == requestName then Deliver(data) else Drop
      case Decoded(_) => Drop
  }

  /** The two differ only on a decoded frame that is not a reply, read for a request with a callback. */
  lemma ReplyOutcomeAsWrittenDiffers(requestName: string, hasCallback: bool, resp: Incoming)
    ensures ReplyOutcomeAsWritten(requestName, hasCallback, resp) != ReplyOutcome(requestName, hasCallback, resp) <==>
      hasCallback && resp.Decoded? && !resp.message.Reply?
  {
  }

  /** A device plugged in while a descriptor is being fetched: its event, read as the reply, raises. */
  lemma EventDuringFetchRaises()
    ensures ReplyOutcomeAsWritten("device_descriptor", true, Decoded(Event("device_status", Status(9, true)))) == Raise
    ensures ReplyOutcome("device_descriptor", true, Decoded(Event("device_status", Status(9, true)))) == Drop
  {
  }

  /** What `check_read_response` does with a frame read on the event channel. */
  datatype EventAction =
    | Fetch(deviceId: DeviceId)    // a device arrived: fetch its descriptor
    | Remove(deviceId: DeviceId)   // a device left: tell the host and forget it
    | Ignore                       // anything else: just read on

  function EventActionFor(resp: Incoming): (action: EventAction)
    ensures action.Fetch? <==>
      resp.Decoded? && resp.message.Event? && resp.message.name == "device_status"
      && resp.message.data.Status? && resp.message.data.status
    ensures action.Remove? <==>
      resp.Decoded? && resp.message.Event? && resp.message.name == "device_status"
      && resp.message.data.Status? && !resp.message.data.status
    ensures !action.Ignore? ==> action.deviceId == resp.message.data.deviceId
  {
    match resp
    case Decoded(Event("device_status", Status(deviceId, status))) =>
      if status then Fetch(deviceId) else Remove(deviceId)
    case _ => Ignore
  }

  /** What `connection_started` does with the write queue. */
  datatype ConnectAction = Drain | MarkIdle | KeepWaiting

  /** `connection_started` as written: drain when something is queued, otherwise mark the listener idle. */
  function ConnectStepAsWritten(queued: nat, awaiting: bool): (step: ConnectAction)
    ensures step != KeepWaiting
    ensures step == Drain <==> queued > 0
  {
    if queued > 0 then Drain else MarkIdle
  }

  /**
   * `connection_started` leaving the queue alone while a request written
   * before the connection came up still awaits its reply.
   */
  function ConnectStep(queued: nat, awaiting: bool): (step: ConnectAction)
    ensures step == MarkIdle <==> queued == 0 && !awaiting
    ensures step == Drain <==> queued > 0 && !awaiting
    ensures !awaiting ==> step == ConnectStepAsWritten(queued, awaiting)
  {
    if awaiting then KeepWaiting else ConnectStepAsWritten(queued, awaiting)
  }

  /**
   * As written, a reply still awaited when the connection comes up does not
   * stop `connection_started`: with an empty queue it marks the listener idle
   * (so the next `send_request` writes at once), otherwise it writes the next
   * request.
   */
  lemma ConnectStepAsWrittenIgnoresAwaited(queued: nat)
    ensures ConnectStepAsWritten(queued, true) == (if queued == 0 then MarkIdle else Drain)
    ensures ConnectStep(queued, true) == KeepWaiting
  {
  }

  /**
   * What running a callback does to the listener: requests it appends to the
   * queue, host callbacks it fires, the new `hw_versions`, whether it sets the
   * initialized latch and whether it arms the event read.
   */
  datatype Reaction = Reaction(appended: seq<Pending>, effects: seq<Effect>, hw: map<DeviceId, HwVersion>,
                               initializes: bool, armsEvents: bool)

  function NoReaction(hw: map<DeviceId, HwVersion>): Reaction {
    Reaction([], [], hw, false, false)
  }

  /** `set_initialized`'s call of the stored callback, if any. */
  function WaiterCalls(waiting: Option<Waiter>): seq<Effect> {
    if waiting.Some? then [InitializedCalled(waiting.value)] else []
  }

  /**
   * One pass of `device_list_init`'s loop: fetch the next descriptor; after
   * the last one, enable status events unless already initialized, then set
   * the initialized latch.
   */
  function ListStepReaction(remaining: seq<DeviceId>, initialized: bool, waiting: Option<Waiter>,
                            hw: map<DeviceId, HwVersion>): (r: Reaction)
    ensures r.initializes <==> remaining == []
    ensures r.effects != [] ==> r.initializes && waiting.Some?
    ensures r.hw == hw && !r.armsEvents && |r.appended| <= 1
    ensures r.appended != [] && !r.initializes ==> r.appended[0].request == Request("device_descriptor", DeviceRef(remaining[0]))
    ensures r.appended != [] && r.initializes ==> !initialized && r.appended[0] == STATUS_REQUEST
  {
    if remaining != [] then
      Reaction([DescriptorRequest(remaining[0], ContinueDeviceList(remaining[1..]))], [], hw, false, false)
    else
      Reaction(if initialized then [] else [STATUS_REQUEST], WaiterCalls(waiting), hw, true, false)
  }

  /** A suspended coroutine resuming after its descriptor fetch completed. */
  function ResumeReaction(next: Continuation, initialized: bool, waiting: Option<Waiter>,
                          hw: map<DeviceId, HwVersion>): (r: Reaction)
    ensures r.armsEvents <==> next == ContinueEventLoop
    ensures r.initializes <==> next == ContinueDeviceList([])
    ensures r.hw == hw && |r.appended| <= 1
  {
    match next
    case ContinueDeviceList(remaining) => ListStepReaction(remaining, initialized, waiting, hw)
    case ContinueEventLoop => Reaction([], [], hw, false, true)
  }

  /**
   * `callback(data['data'])`. Data of a shape the callback does not read
   * (not an id list for device_list_init, not a descriptor for dev_desc_cb)
   * is ignored.
   */
  function React(callback: Callback, data: Data, initialized: bool, waiting: Option<Waiter>,
                 hw: map<DeviceId, HwVersion>, symbolify: string -> string): (r: Reaction)
    ensures |r.appended| <= 1
    ensures !callback.DescriptorReady? ==> r.hw == hw
    ensures r.initializes ==> callback == DeviceListInit || callback.DescriptorReady?
    ensures r.armsEvents ==> callback == ArmEvents || (callback.DescriptorReady? && callback.next == ContinueEventLoop)
  {
    match callback
    case NoCallback => NoReaction(hw)
    case External(token) => Reaction([], [Replied(token, data)], hw, false, false)
    case ArmEvents => Reaction([], [], hw, false, true)
    case DeviceListInit =>
      if data.DeviceIds? then ListStepReaction(data.ids, initialized, waiting, hw) else NoReaction(hw)
    case DescriptorReady(deviceId, next) =>
      if data.Descriptor? then
        var desc := data.descriptor;
        var symbol := symbolify(desc.deviceLabel);
        var resumed := ResumeReaction(next, initialized, waiting, IngestHw(hw, deviceId, desc, symbol));
        resumed.(effects := IngestEffects(hw, deviceId, desc, symbol) + resumed.effects)
      else NoReaction(hw)
  }

  /** Everything `check_write_response` does before moving on to the next queued request. */
  function ReplyReaction(request: Pending, resp: Incoming, initialized: bool, waiting: Option<Waiter>,
                         hw: map<DeviceId, HwVersion>, symbolify: string -> string): (r: Reaction)
    ensures |r.appended| <= 1
    ensures r != NoReaction(hw) ==> resp.Decoded? && resp.message.Reply? && resp.message.name == request.request.name
  {
    match ReplyOutcome(request.request.name, request.callback != NoCallback, resp)
    case Deliver(data) => React(request.callback, data, initialized, waiting, hw, symbolify)
    case _ => NoReaction(hw)
  }

  /**
   * A caller's callback runs, once and with the reply's data, exactly when
   * the frame decodes to a reply naming its request.
   */
  lemma ExternalCallbackRunsOnMatchingReply(request: Pending, token: nat, data: Data, resp: Incoming, initialized: bool,
                                            waiting: Option<Waiter>, hw: map<DeviceId, HwVersion>, symbolify: string -> string)
    requires request.callback == External(token)
    ensures ReplyReaction(request, resp, initialized, waiting, hw, symbolify).effects == [Replied(token, data)] <==>
      resp == Decoded(Reply(request.request.name, data))
  {
  }

  /**
   * A frame that does not decode to a reply naming the request changes
   * nothing but the queue: no callback, no request appended, no latch, no map
   * update, no event read.
   */
  lemma DroppedReplyChangesNothing(request: Pending, resp: Incoming, initialized: bool, waiting: Option<Waiter>,
                                   hw: map<DeviceId, HwVersion>, symbolify: string -> string)
    requires !(resp.Decoded? && resp.message.Reply? && resp.message.name == request.request.name)
    ensures ReplyReaction(request, resp, initialized, waiting, hw, symbolify) == NoReaction(hw)
  {
  }

  /** Ingesting a descriptor fires only hardware and actuator callbacks. */
  lemma IngestEffectsAreAnnouncements(hw: map<DeviceId, HwVersion>, deviceId: DeviceId, desc: DeviceDescriptor, symbol: string, e: Effect)
    requires e in IngestEffects(hw, deviceId, desc, symbol)
    ensures e.HardwareAdded? || e.ActuatorAdded?
  {
    if ' ' !in desc.uri && e != HardwareAdded(desc.uri, symbol, desc.version) {
      AnnounceMembers(deviceId, desc.uri, CountUri(hw, desc.uri), desc.deviceLabel, desc.actuators, e);
    }
  }

  /**
   * Only the end of the device list sets the initialized latch: the
   * `device_list` reply with no devices, or the descriptor of its last device.
   * The initialized callback a reply fires is the stored one, and only then.
   */
  lemma OnlyListEndInitializes(request: Pending, resp: Incoming, initialized: bool, waiting: Option<Waiter>,
                               hw: map<DeviceId, HwVersion>, symbolify: string -> string, e: Effect)
    ensures var r := ReplyReaction(request, resp, initialized, waiting, hw, symbolify);
      r.initializes ==> request.callback == DeviceListInit || request.callback.DescriptorReady?
    ensures var r := ReplyReaction(request, resp, initialized, waiting, hw, symbolify);
      r.initializes && request.callback == DeviceListInit ==> resp == Decoded(Reply(request.request.name, DeviceIds([])))
    ensures var r := ReplyReaction(request, resp, initialized, waiting, hw, symbolify);
      r.initializes && request.callback.DescriptorReady? ==> request.callback.next == ContinueDeviceList([])
    ensures var r := ReplyReaction(request, resp, initialized, waiting, hw, symbolify);
      e in r.effects && e.InitializedCalled? ==> r.initializes && waiting == Some(e.waiter)
  {
    var r := ReplyReaction(request, resp, initialized, waiting, hw, symbolify);
    var outcome := ReplyOutcome(request.request.name, request.callback != NoCallback, resp);
    if outcome.Deliver? && request.callback.DescriptorReady? && outcome.data.Descriptor? {
      var desc := outcome.data.descriptor;
      var symbol := symbolify(desc.deviceLabel);
      if e in IngestEffects(hw, request.callback.deviceId, desc, symbol) {
        IngestEffectsAreAnnouncements(hw, request.callback.deviceId, desc, symbol, e);
      }
    }
  }

  /**
   * Conversely, the end of the device list does set the latch: an empty
   * `device_list` reply, and a descriptor reply for the last listed device,
   * whether or not that descriptor is accepted.
   */
  lemma ListEndInitializes(request: Pending, desc: DeviceDescriptor, initialized: bool, waiting: Option<Waiter>,
                           hw: map<DeviceId, HwVersion>, symbolify: string -> string)
    ensures request.callback == DeviceListInit ==>
      ReplyReaction(request, Decoded(Reply(request.request.name, DeviceIds([]))), initialized, waiting, hw, symbolify).initializes
    ensures request.callback.DescriptorReady? && request.callback.next == ContinueDeviceList([]) ==>
      ReplyReaction(request, Decoded(Reply(request.request.name, Descriptor(desc))), initialized, waiting, hw, symbolify).initializes
  {
  }
}
