/**
 * Clients of the listener: the bootstrap of a fresh connection with one
 * device, followed by that device's removal event; and a bootstrap with no
 * devices, followed by a lost connection and a restart. The assertions follow
 * from the listener's contracts and the lemmas here alone.
 */
module Scenario {
  import opened Wrappers
  import opened Wire
  import opened Host
  import opened Format
  import opened Descriptor
  import opened Dispatch
  import opened Listener

  /** A one-actuator pedal: id 3, named "Foot", toggle mode only, one assignment. */
  function Pedal(): DeviceDescriptor {
    DeviceDescriptor("pedal1", "Pedal", "0.1.0", [ActuatorDescriptor(3, "Foot", CC_MODE_TOGGLE, 1)])
  }

  /**
   * The first pedal seen gets unique index 0; its actuator URI joins device
   * URI, index and actuator id, and its name uses the raw label.
   */
  lemma PedalIngested()
    ensures IngestEffects(map[], 7, Pedal(), "Pedal") == [
      HardwareAdded("pedal1", "Pedal", "0.1.0"),
      ActuatorAdded(7, 3, Metadata("pedal1:0:3", "Pedal:Foot", ":bypass:toggled:", [], 1))
    ]
    ensures IngestHw(map[], 7, Pedal(), "Pedal") == map[7 := HwVersion("pedal1", "Pedal", "0.1.0")]
  {
    assert HasMode(1, CC_MODE_TOGGLE) && !HasMode(1, CC_MODE_TRIGGER) && !HasMode(1, CC_MODE_ENUMERATION);
    assert ":bypass:toggled" + "" + "" + ":" == ":bypass:toggled:";
    assert ModesFor(1) == Some(":bypass:toggled:");
    assert IntString(0) == "0" && IntString(3) == "3";
    assert "pedal1" + ":" + "0" + ":" + "3" == "pedal1:0:3" && "Pedal" + ":" + "Foot" == "Pedal:Foot";
    assert CountUri(map[], "pedal1") == 0;
    assert Pedal().actuators[..0] == [];
  }

  /** The listener after `device_list` answered [7]: the descriptor request for device 7 is on the wire. */
  method ListOnePedal() returns (listener: ControlChainListener)
    ensures fresh(listener) && listener.Valid() && listener.socket && !listener.readingEvents
    ensures listener.inFlight == Some(DescriptorRequest(7, ContinueDeviceList([]))) && listener.writeQueue == []
    ensures listener.written == [Request("device_list", Null), Request("device_descriptor", DeviceRef(7))]
    ensures !listener.initialized && listener.initializedCb.None?
    ensures listener.effects == [] && listener.hwVersions == map[] && listener.symbolify("Pedal") == "Pedal"
  {
    listener := new ControlChainListener(s => s, true);
    listener.ConnectionStarted();
    assert listener.inFlight == Some(DEVICE_LIST_REQUEST) && listener.writeQueue == [];
    assert [7][1..] == [];
    listener.OnReply(Decoded(Reply("device_list", DeviceIds([7]))));
  }

  /** The pedal's descriptor arrives: it is announced, the list is done, and status events are enabled. */
  method DescribePedal(listener: ControlChainListener)
    requires listener.Valid() && listener.socket && !listener.readingEvents
    requires listener.inFlight == Some(DescriptorRequest(7, ContinueDeviceList([]))) && listener.writeQueue == []
    requires !listener.initialized && listener.initializedCb.None?
    requires listener.effects == [] && listener.hwVersions == map[] && listener.symbolify("Pedal") == "Pedal"
    modifies listener
    ensures listener.Valid() && !listener.readingEvents
    ensures listener.inFlight == Some(STATUS_REQUEST) && listener.writeQueue == []
    ensures listener.initialized && listener.initializedCb.None?
    ensures listener.effects == [
      HardwareAdded("pedal1", "Pedal", "0.1.0"),
      ActuatorAdded(7, 3, Metadata("pedal1:0:3", "Pedal:Foot", ":bypass:toggled:", [], 1))
    ]
    ensures listener.hwVersions == map[7 := HwVersion("pedal1", "Pedal", "0.1.0")]
  {
    PedalIngested();
    listener.OnReply(Decoded(Reply("device_descriptor", Descriptor(Pedal()))));
  }

  /** Bootstrap with one pedal, then the pedal is unplugged. */
  method BootstrapOnePedal() {
    var listener := ListOnePedal();
    DescribePedal(listener);
    listener.OnReply(Decoded(Reply("device_status", Null)));
    assert listener.readingEvents && listener.idle;

    listener.OnEvent(Decoded(Event("device_status", Status(7, false))));
    assert listener.effects[2] == ActuatorRemoved(7);
    assert listener.hwVersions == map[] && listener.readingEvents;
  }

  /** An empty device list: the latch is set at once and the status request goes out. */
  method ListNoDevices() returns (listener: ControlChainListener)
    ensures fresh(listener) && listener.Valid() && listener.socket && !listener.crashed
    ensures listener.inFlight == Some(STATUS_REQUEST) && listener.writeQueue == []
    ensures listener.written == [Request("device_list", Null), Request("device_status", Enable(1))]
    ensures listener.initialized && listener.hwVersions == map[] && listener.initializedCb.None?
  {
    listener := new ControlChainListener(s => s, true);
    listener.ConnectionStarted();
    EmptyBootstrapReactions(listener.symbolify);
    listener.OnReply(Decoded(Reply("device_list", DeviceIds([]))));
  }

  /** A bootstrap with no devices: once the status request is answered, events are read and the listener is idle. */
  method BootstrapEmpty() returns (listener: ControlChainListener)
    ensures fresh(listener) && listener.Valid() && listener.idle && listener.socket && !listener.crashed
    ensures listener.written == [Request("device_list", Null), Request("device_status", Enable(1))]
    ensures listener.initialized && listener.readingEvents
  {
    listener := ListNoDevices();
    EmptyBootstrapReactions(listener.symbolify);
    listener.OnReply(Decoded(Reply("device_status", Null)));
  }

  /** The empty list queues the status request and sets the latch; its reply arms the event reads. */
  lemma EmptyBootstrapReactions(symbolify: string -> string)
    ensures ReplyReaction(DEVICE_LIST_REQUEST, Decoded(Reply("device_list", DeviceIds([]))), false, None, map[], symbolify)
         == Reaction([STATUS_REQUEST], [], map[], true, false)
    ensures ReplyReaction(STATUS_REQUEST, Decoded(Reply("device_status", Null)), true, None, map[], symbolify)
         == Reaction([], [], map[], false, true)
  {
  }

  /**
   * The idle flag outlives a dropped connection, so the restart writes
   * `device_list` at once, before the new connection is up; the connection's
   * start then finds it in flight and waits for its reply.
   */
  method RestartAfterIdle(listener: ControlChainListener)
    requires listener.Valid() && listener.idle && !listener.crashed
    modifies listener
    ensures listener.Valid() && listener.socket && !listener.idle && listener.writeQueue == []
    ensures listener.inFlight == Some(DEVICE_LIST_REQUEST)
    ensures listener.written == old(listener.written) + [Request("device_list", Null)]
  {
    listener.ConnectionClosed();
    assert listener.idle;
    listener.RestartIfCrashed(true);
    assert listener.written == old(listener.written) + [Request("device_list", Null)];
    listener.ConnectionStarted();
  }
}
