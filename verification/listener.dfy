/**
 * The Control Chain device listener: one object whose fields the socket
 * callbacks update in place. Socket I/O is replaced by explicit event
 * methods, `ConnectionStarted`, `OnReply`, `OnEvent` and `ConnectionClosed`,
 * called when the connection comes up, when the frame awaited for a request
 * or on the event channel arrives, and when the stream closes. Host callbacks
 * are appended to `effects`, and the request objects written to the socket
 * to `written`.
 */
module Listener {
  import opened Wrappers
  import opened Wire
  import opened Host
  import opened Descriptor
  import opened Dispatch

  class ControlChainListener {
    const symbolify: string -> string

    var crashed: bool
    var idle: bool
    var initialized: bool
    var initializedCb: Option<Waiter>
    var hwVersions: map<DeviceId, HwVersion>
    var writeQueue: seq<Pending>
    var socket: bool                  // `self.socket` is a stream, not None
    var inFlight: Option<Pending>     // the request whose reply a `read_until` awaits
    var readingEvents: bool           // a `read_until` for `check_read_response` is pending
    var written: seq<Message>         // request frames written to the socket, in order
    var effects: seq<Effect>          // host callbacks fired, in order

    ghost var enqueued: seq<Pending>  // every request ever passed to send_request
    ghost var popped: seq<Pending>    // every request taken off the queue, written or discarded

    /**
     * One request at most is on the wire, and only while not idle; requests
     * leave the queue in the order they entered it.
     */
    ghost predicate Valid()
      reads this
    {
      && Ordered()
      && (idle ==> writeQueue == [] && inFlight.None?)
    }

    /** `Valid` without the idle clause, which `send_request` breaks until it drains the queue. */
    ghost predicate Ordered()
      reads this
    {
      && (idle ==> inFlight.None?)
      && (inFlight.Some? ==> socket && popped != [] && inFlight.value == popped[|popped| - 1])
      && (readingEvents ==> socket)
      && enqueued == popped + writeQueue
    }

    /** The state `process_write_queue` leaves when it starts on `queue` with nothing awaiting a reply. */
    ghost predicate DrainedFrom(queue: seq<Pending>, written0: seq<Message>, popped0: seq<Pending>)
      reads this
    {
      if queue == [] then
        idle && writeQueue == [] && inFlight.None? && written == written0 && popped == popped0
      else if !socket then
        idle && writeQueue == [] && inFlight.None? && written == written0 && popped == popped0 + queue
      else
        && !idle && writeQueue == queue[1..] && inFlight == Some(queue[0])
        && written == written0 + [queue[0].request] && popped == popped0 + [queue[0]]
    }

    twostate predicate QueueUnchanged()
      reads this
    {
      && writeQueue == old(writeQueue) && idle == old(idle) && written == old(written)
      && inFlight == old(inFlight) && enqueued == old(enqueued) && popped == old(popped)
    }

    /** `send_request(p)`: appended, and written at once when the listener was idle. */
    twostate predicate Sent(p: Pending)
      reads this
    {
      && enqueued == old(enqueued) + [p]
      && if old(idle) then DrainedFrom([p], old(written), old(popped))
         else
           && writeQueue == old(writeQueue) + [p] && idle == old(idle) && written == old(written)
           && inFlight == old(inFlight) && popped == old(popped)
    }

    /** The listener's state moved as the reaction `r` says, with the queue only appended to. */
    twostate predicate Reacted(r: Reaction)
      reads this
    {
      && enqueued == old(enqueued) + r.appended && writeQueue == old(writeQueue) + r.appended
      && idle == old(idle) && written == old(written) && inFlight == old(inFlight) && popped == old(popped)
      && effects == old(effects) + r.effects
      && hwVersions == r.hw
      && initialized == (old(initialized) || r.initializes)
      && initializedCb == (if r.initializes then None else old(initializedCb))
      && readingEvents == (old(readingEvents) || r.armsEvents)
    }

    /** `start()`: with the socket path absent, only the initialized latch is set. */
    twostate predicate Started(pathExists: bool)
      reads this
    {
      if !pathExists then initialized && socket == old(socket) && QueueUnchanged()
      else !initialized && socket && Sent(DEVICE_LIST_REQUEST)
    }

    constructor (symbolify: string -> string, pathExists: bool)
      ensures Valid()
      ensures this.symbolify == symbolify
      ensures !crashed && !idle && initializedCb.None? && hwVersions == map[]
      ensures inFlight.None? && !readingEvents && written == [] && effects == []
      ensures pathExists ==> !initialized && socket && writeQueue == [DEVICE_LIST_REQUEST]
      ensures !pathExists ==> initialized && !socket && writeQueue == []
    {
      this.symbolify := symbolify;
      crashed, idle, initialized, initializedCb := false, false, false, None;
      hwVersions, writeQueue := map[], [];
      socket, inFlight, readingEvents := false, None, false;
      written, effects := [], [];
      enqueued, popped := [], [];
      new;
      Start(pathExists);
    }

    /** `start`; `pathExists` is what `os.path.exists(socket_path)` answers. The connect completes later, in `ConnectionStarted`. */
    method Start(pathExists: bool)
      requires Valid()
      modifies this`initialized, this`socket
      modifies this`writeQueue, this`idle, this`written, this`inFlight, this`enqueued, this`popped
      ensures Valid()
      ensures Started(pathExists)
    {
      if !pathExists {
        initialized := true;
        return;
      }
      initialized := false;
      socket := true;
      SendRequest("device_list", Null, DeviceListInit);
    }

    method RestartIfCrashed(pathExists: bool)
      requires Valid()
      modifies this`crashed, this`initialized, this`socket
      modifies this`writeQueue, this`idle, this`written, this`inFlight, this`enqueued, this`popped
      ensures Valid()
      ensures !old(crashed) ==> !crashed && initialized == old(initialized) && socket == old(socket) && QueueUnchanged()
      ensures old(crashed) ==> !crashed && Started(pathExists)
    {
      if !crashed {
        return;
      }
      crashed := false;
      Start(pathExists);
    }

    /** `wait_initialized`: a single stored callback, replaced by each later one. */
    method WaitInitialized(waiter: Waiter)
      modifies this`initializedCb, this`effects
      ensures old(initialized) ==> effects == old(effects) + [InitializedCalled(waiter)] && initializedCb == old(initializedCb)
      ensures !old(initialized) ==> effects == old(effects) && initializedCb == Some(waiter)
    {
      if initialized {
        effects := effects + [InitializedCalled(waiter)];
        return;
      }
      initializedCb := Some(waiter);
    }

    /** `connection_started`, which does not start a second request while one still awaits its reply. */
    method ConnectionStarted()
      requires Valid()
      modifies this`writeQueue, this`idle, this`written, this`inFlight, this`popped
      ensures Valid()
      ensures old(inFlight).Some? ==> QueueUnchanged()
      ensures old(inFlight).None? ==> DrainedFrom(old(writeQueue), old(written), old(popped))
    {
      match ConnectStep(|writeQueue|, inFlight.Some?) {
        case Drain => ProcessWriteQueue();
        case MarkIdle => idle := true;
        case KeepWaiting =>
      }
    }

    /** `connection_closed`: the pending reads die with the stream; queued requests stay queued. */
    method ConnectionClosed()
      requires Valid()
      modifies this`socket, this`crashed, this`inFlight, this`readingEvents
      modifies this`initialized, this`initializedCb, this`effects
      ensures Valid()
      ensures !socket && crashed && inFlight.None? && !readingEvents
      ensures initialized && initializedCb.None? && effects == old(effects) + WaiterCalls(old(initializedCb))
    {
      socket := false;
      crashed := true;
      inFlight := None;
      readingEvents := false;
      SetInitialized();
    }

    /** `set_initialized`: the stored callback is cleared before it is called, so it fires once. */
    method SetInitialized()
      modifies this`initialized, this`initializedCb, this`effects
      ensures initialized && initializedCb.None?
      ensures effects == old(effects) + WaiterCalls(old(initializedCb))
    {
      initialized := true;
      if initializedCb.Some? {
        var cb := initializedCb.value;
        initializedCb := None;
        effects := effects + [InitializedCalled(cb)];
      }
    }

    /** `process_read_queue`: arm a read for `check_read_response`. */
    method ProcessReadQueue()
      requires Valid() && socket
      modifies this`readingEvents
      ensures Valid() && readingEvents
    {
      readingEvents := true;
    }

    /**
     * `check_read_response`: a removal tells the host and forgets the id (an
     * unknown id included); a connection fetches the descriptor and reads on
     * only once that fetch completes; any other frame is dropped and the read
     * is re-armed.
     */
    method OnEvent(resp: Incoming)
      requires Valid() && readingEvents
      modifies this`readingEvents, this`effects, this`hwVersions
      modifies this`writeQueue, this`idle, this`written, this`inFlight, this`enqueued, this`popped
      ensures Valid()
      ensures match EventActionFor(resp)
        case Ignore =>
          readingEvents && effects == old(effects) && hwVersions == old(hwVersions) && QueueUnchanged()
        case Remove(deviceId) =>
          && readingEvents && effects == old(effects) + [ActuatorRemoved(deviceId)]
          && hwVersions == old(hwVersions) - {deviceId} && QueueUnchanged()
        case Fetch(deviceId) =>
          && !readingEvents && effects == old(effects) && hwVersions == old(hwVersions)
          && Sent(DescriptorRequest(deviceId, ContinueEventLoop))
    {
      readingEvents := false;
      match EventActionFor(resp) {
        case Ignore =>
          ProcessReadQueue();
        case Remove(deviceId) =>
          effects := effects + [ActuatorRemoved(deviceId)];
          hwVersions := hwVersions - {deviceId};
          ProcessReadQueue();
        case Fetch(deviceId) =>
          SendDeviceDescriptor(deviceId, ContinueEventLoop);
      }
    }

    /**
     * `process_write_queue`: take the head request and write it, or, with no
     * socket, discard every queued request without running its callback.
     */
    method ProcessWriteQueue()
      requires Ordered() && inFlight.None?
      modifies this`writeQueue, this`idle, this`written, this`inFlight, this`popped
      ensures Valid()
      ensures DrainedFrom(old(writeQueue), old(written), old(popped))
      decreases |writeQueue|
    {
      if writeQueue == [] {
        idle := true;
        return;
      }
      var head := writeQueue[0];
      writeQueue := writeQueue[1..];
      popped := popped + [head];
      if !socket {
        ProcessWriteQueue();
        assert old(writeQueue) == [head] + old(writeQueue)[1..];
        return;
      }
      idle := false;
      written := written + [head.request];
      inFlight := Some(head);
    }

    /**
     * `check_write_response` for the request on the wire: its callback runs
     * when the frame is a reply naming it, then the next request goes out.
     */
    method OnReply(resp: Incoming)
      requires Valid() && inFlight.Some?
      modifies this`writeQueue, this`idle, this`written, this`inFlight, this`enqueued, this`popped
      modifies this`initialized, this`initializedCb, this`effects, this`hwVersions, this`readingEvents
      ensures Valid()
      ensures var r := old(ReplyReaction(inFlight.value, resp, initialized, initializedCb, hwVersions, symbolify));
        && enqueued == old(enqueued) + r.appended
        && DrainedFrom(old(writeQueue) + r.appended, old(written), old(popped))
        && effects == old(effects) + r.effects
        && hwVersions == r.hw
        && initialized == (old(initialized) || r.initializes)
        && initializedCb == (if r.initializes then None else old(initializedCb))
        && readingEvents == (old(readingEvents) || r.armsEvents)
    {
      var request := inFlight.value;
      inFlight := None;
      match ReplyOutcome(request.request.name, request.callback != NoCallback, resp) {
        case Deliver(data) => Invoke(request.callback, data);
        case _ =>
      }
      ProcessWriteQueue();
    }

    /** `callback(data['data'])` for the callbacks the listener itself queues. */
    method Invoke(callback: Callback, data: Data)
      requires Valid() && !idle && inFlight.None? && socket
      modifies this`writeQueue, this`idle, this`written, this`inFlight, this`enqueued, this`popped
      modifies this`initialized, this`initializedCb, this`effects, this`hwVersions, this`readingEvents
      ensures Valid()
      ensures Reacted(old(React(callback, data, initialized, initializedCb, hwVersions, symbolify)))
    {
      match callback {
        case NoCallback =>
        case External(token) =>
          effects := effects + [Replied(token, data)];
        case ArmEvents =>
          ProcessReadQueue();
        case DeviceListInit =>
          if data.DeviceIds? {
            DeviceListStep(data.ids);
          }
        case DescriptorReady(deviceId, next) =>
          if data.Descriptor? {
            DescriptorReply(deviceId, next, data.descriptor);
          }
      }
    }

    /** A `device_descriptor` reply: `dev_desc_cb`, then its `callback()` resumes the suspended coroutine. */
    method DescriptorReply(deviceId: DeviceId, next: Continuation, desc: DeviceDescriptor)
      requires Valid() && !idle && inFlight.None? && socket
      modifies this`writeQueue, this`idle, this`written, this`inFlight, this`enqueued, this`popped
      modifies this`initialized, this`initializedCb, this`effects, this`hwVersions, this`readingEvents
      ensures Valid()
      ensures Reacted(old(React(DescriptorReady(deviceId, next), Descriptor(desc), initialized, initializedCb, hwVersions, symbolify)))
    {
      ghost var symbol := symbolify(desc.deviceLabel);
      ghost var ingested := IngestEffects(hwVersions, deviceId, desc, symbol);
      ghost var resumed := ResumeReaction(next, initialized, initializedCb, IngestHw(hwVersions, deviceId, desc, symbol));
      assert React(DescriptorReady(deviceId, next), Descriptor(desc), initialized, initializedCb, hwVersions, symbolify)
          == resumed.(effects := ingested + resumed.effects);
      DescriptorReceived(deviceId, desc);
      assert effects == old(effects) + ingested;
      Resume(next);
      assert effects == old(effects) + (ingested + resumed.effects);
    }

    /** `send_request`: append to the tail of the queue; start draining only when idle. */
    method SendRequest(name: string, data: Data, callback: Callback)
      requires Valid()
      modifies this`writeQueue, this`idle, this`written, this`inFlight, this`enqueued, this`popped
      ensures Valid()
      ensures Sent(Pending(Request(name, data), callback))
    {
      var request := Pending(Request(name, data), callback);
      writeQueue := writeQueue + [request];
      enqueued := enqueued + [request];
      if idle {
        ProcessWriteQueue();
      }
    }

    /**
     * One pass of `device_list_init`'s loop. The loop suspends on each
     * descriptor fetch; the ids still to describe travel with the fetch's
     * callback and the loop resumes in `Resume`.
     */
    method DeviceListStep(remaining: seq<DeviceId>)
      requires Valid() && !idle
      modifies this`writeQueue, this`idle, this`written, this`inFlight, this`enqueued, this`popped
      modifies this`initialized, this`initializedCb, this`effects
      ensures Valid()
      ensures Reacted(old(ListStepReaction(remaining, initialized, initializedCb, hwVersions)))
    {
      if remaining != [] {
        SendDeviceDescriptor(remaining[0], ContinueDeviceList(remaining[1..]));
        return;
      }
      if !initialized {
        SendRequest("device_status", Enable(1), ArmEvents);
      }
      SetInitialized();
    }

    method SendDeviceDescriptor(deviceId: DeviceId, next: Continuation)
      requires Valid()
      modifies this`writeQueue, this`idle, this`written, this`inFlight, this`enqueued, this`popped
      ensures Valid()
      ensures Sent(DescriptorRequest(deviceId, next))
    {
      SendRequest("device_descriptor", DeviceRef(deviceId), DescriptorReady(deviceId, next));
    }

    /** The completion `callback()` of a descriptor fetch, which resumes the suspended coroutine. */
    method Resume(next: Continuation)
      requires Valid() && !idle && socket
      modifies this`writeQueue, this`idle, this`written, this`inFlight, this`enqueued, this`popped
      modifies this`initialized, this`initializedCb, this`effects, this`readingEvents
      ensures Valid()
      ensures Reacted(old(ResumeReaction(next, initialized, initializedCb, hwVersions)))
    {
      match next {
        case ContinueDeviceList(remaining) => DeviceListStep(remaining);
        case ContinueEventLoop => ProcessReadQueue();
      }
    }

    /**
     * `dev_desc_cb` up to its final `callback()`: reject a URI holding a
     * space; otherwise announce the device, record it, and announce each
     * actuator that has a mode.
     */
    method DescriptorReceived(deviceId: DeviceId, desc: DeviceDescriptor)
      modifies this`effects, this`hwVersions
      ensures effects == old(effects) + IngestEffects(old(hwVersions), deviceId, desc, symbolify(desc.deviceLabel))
      ensures hwVersions == IngestHw(old(hwVersions), deviceId, desc, symbolify(desc.deviceLabel))
    {
      var symbol := symbolify(desc.deviceLabel);
      var uri := desc.uri;
      if ' ' in uri {
        return;
      }
      AcceptDescriptor(deviceId, uri, symbol, desc.version, desc.deviceLabel, desc.actuators);
    }

    /** The accepted branch of `dev_desc_cb`: `hw_added_cb`, the `hw_versions` entry, then the actuators. */
    method AcceptDescriptor(deviceId: DeviceId, uri: string, symbol: string, version: string,
                            rawLabel: string, actuators: seq<ActuatorDescriptor>)
      modifies this`effects, this`hwVersions
      ensures effects == old(effects) + ([HardwareAdded(uri, symbol, version)]
                                         + Announce(deviceId, uri, CountUri(old(hwVersions), uri), rawLabel, actuators))
      ensures hwVersions == old(hwVersions)[deviceId := HwVersion(uri, symbol, version)]
    {
      var uniqueIndex := UniqueIndex(uri);
      var announced := [HardwareAdded(uri, symbol, version)];
      effects := effects + announced;
      hwVersions := hwVersions[deviceId := HwVersion(uri, symbol, version)];
      AnnounceActuators(deviceId, uri, uniqueIndex, rawLabel, actuators);
      assert effects == old(effects) + (announced + Announce(deviceId, uri, uniqueIndex, rawLabel, actuators));
    }

    /** The loop over `dev['actuators']`: one `act_added_cb` per actuator with a mode, in list order. */
    method AnnounceActuators(deviceId: DeviceId, uri: string, uniqueIndex: nat, rawLabel: string, actuators: seq<ActuatorDescriptor>)
      modifies this`effects
      ensures effects == old(effects) + Announce(deviceId, uri, uniqueIndex, rawLabel, actuators)
    {
      var i := 0;
      while i < |actuators|
        invariant 0 <= i <= |actuators|
        invariant effects == old(effects) + Announce(deviceId, uri, uniqueIndex, rawLabel, actuators[..i])
      {
        assert actuators[..i + 1][..i] == actuators[..i];
        ghost var announced := Announce(deviceId, uri, uniqueIndex, rawLabel, actuators[..i]);
        var calls := AnnounceOne(deviceId, uri, uniqueIndex, rawLabel, actuators[i]);
        assert Announce(deviceId, uri, uniqueIndex, rawLabel, actuators[..i + 1]) == announced + calls;
        effects := effects + calls;
        i := i + 1;
      }
      assert actuators[..i] == actuators;
    }

    /** The count of recorded devices whose URI is `uri`, taken entry by entry. */
    method UniqueIndex(uri: string) returns (n: nat)
      ensures n == CountUri(hwVersions, uri)
    {
      n := 0;
      var unseen := hwVersions.Keys;
      while unseen != {}
        invariant unseen <= hwVersions.Keys
        invariant n == |MatchingIds(hwVersions, uri) - unseen|
        decreases |unseen|
      {
        // States the non-emptiness of `unseen` as membership, which the pick below needs.
        if forall other :: other !in unseen {
          assert false;
        }
        var deviceId :| deviceId in unseen;
        ghost var counted := MatchingIds(hwVersions, uri) - unseen;
        if hwVersions[deviceId].uri == uri {
          assert MatchingIds(hwVersions, uri) - (unseen - {deviceId}) == counted + {deviceId};
          n := n + 1;
        } else {
          assert MatchingIds(hwVersions, uri) - (unseen - {deviceId}) == counted;
        }
        unseen := unseen - {deviceId};
      }
      assert MatchingIds(hwVersions, uri) - unseen == MatchingIds(hwVersions, uri);
    }
  }
}
