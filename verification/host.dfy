/**
 * The upward interface to the host application. Every host callback the
 * listener fires is recorded as an `Effect`, in firing order.
 */
module Host {
  import opened Wire

  /** Identifies a callback handed to `wait_initialized`. */
  type Waiter = nat

  /** The actuator metadata record handed to `act_added_cb`. */
  datatype Metadata = Metadata(uri: string, name: string, modes: string, steps: seq<int>, maxAssigns: int)

  datatype Effect =
    | HardwareAdded(deviceUri: string, deviceLabel: string, version: string)   // hw_added_cb
    | ActuatorAdded(deviceId: DeviceId, actuatorId: int, metadata: Metadata)    // act_added_cb
    | ActuatorRemoved(deviceId: DeviceId)                                       // act_removed_cb
    | InitializedCalled(waiter: Waiter)                                         // the initialized callback
    | Replied(token: nat, data: Data)                                           // a caller's request callback
}
