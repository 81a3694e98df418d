/**
 * The daemon's wire contract: the JSON objects exchanged on the local socket,
 * seen after decoding, and the framing that delimits them (each object is
 * followed by one NUL byte; there is no length prefix).
 */
module Wire {
  import opened Wrappers

  newtype byte = x: int | 0 <= x < 256

  const NUL: byte := 0

  type DeviceId = int

  /** One entry of a descriptor's `actuators` list. */
  datatype ActuatorDescriptor = ActuatorDescriptor(id: int, name: string, supportedModes: int, maxAssignments: int)

  /** The `data` of a `device_descriptor` reply. */
  datatype DeviceDescriptor = DeviceDescriptor(uri: string, deviceLabel: string, version: string, actuators: seq<ActuatorDescriptor>)

  /** The `data` member of a frame, restricted to the shapes the daemon's vocabulary uses. */
  datatype Data =
    | Null                                        // JSON null
    | DeviceIds(ids: seq<DeviceId>)               // reply to device_list
    | DeviceRef(deviceId: DeviceId)               // {"device_id": id}, request data of device_descriptor
    | Enable(enable: int)                         // {"enable": 1}, request data of device_status
    | Descriptor(descriptor: DeviceDescriptor)    // reply to device_descriptor
    | Status(deviceId: DeviceId, status: bool)    // data of a device_status event
    | Other                                       // any other JSON value

  /** A decoded frame: `{"request": ...}`, `{"reply": ...}` or `{"event": ...}`, each with its `data`. */
  datatype Message =
    | Request(name: string, data: Data)
    | Reply(name: string, data: Data)
    | Event(name: string, data: Data)

  /** What a read hands to its callback once `json.loads` has run on it. */
  datatype Incoming = Malformed | Decoded(message: Message)

  /** A frame on the wire: the encoded object followed by one NUL. */
  function Frame(body: seq<byte>): (frame: seq<byte>)
    requires NUL !in body
    ensures |frame| == |body| + 1 && frame[|body|] == NUL
    ensures NUL !in frame[..|body|]
  {
    assert (body + [NUL])[..|body|] == body;
    body + [NUL]
  }

  /**
   * `read_until(b"\0")`: splits off the bytes up to and including the first
   * NUL of the stream; `None` while no NUL has arrived (the read keeps waiting).
   */
  function ReadUntilNul(stream: seq<byte>): (r: Option<(seq<byte>, seq<byte>)>)
    ensures r.None? <==> NUL !in stream
    ensures r.Some? ==> r.value.0 + r.value.1 == stream
    ensures r.Some? ==> |r.value.0| > 0 && r.value.0[|r.value.0| - 1] == NUL
    ensures r.Some? ==> NUL !in r.value.0[..|r.value.0| - 1]
  {
    if stream == [] then None
    else if stream[0] == NUL then
      assert [NUL] + stream[1..] == stream;
      Some(([NUL], stream[1..]))
    else
      match ReadUntilNul(stream[1..])
      case None => None
      case Some(split) =>
        var (frame, rest) := split;
        assert ([stream[0]] + frame)[..|frame|] == [stream[0]] + frame[..|frame| - 1];
        assert [stream[0]] + frame + rest == stream;
        Some(([stream[0]] + frame, rest))
  }

  /** `resp[:-1]`: the frame without its terminating byte. */
  function Unframe(resp: seq<byte>): (body: seq<byte>)
    ensures |resp| > 0 ==> body + [resp[|resp| - 1]] == resp
    ensures |resp| == 0 ==> body == []
  {
    if resp == [] then [] else resp[..|resp| - 1]
  }

  /** A read on a stream that starts with a frame returns exactly that frame, whose body is recovered. */
  lemma {:induction false} ReadFrame(body: seq<byte>, rest: seq<byte>)
    requires NUL !in body
    ensures ReadUntilNul(Frame(body) + rest) == Some((Frame(body), rest))
    ensures Unframe(Frame(body)) == body
  {
    if body == [] {
      assert Frame(body) + rest == [NUL] + rest;
    } else {
      var stream := Frame(body) + rest;
      assert stream[0] == body[0] != NUL;
      assert stream[1..] == Frame(body[1..]) + rest;
      ReadFrame(body[1..], rest);
      assert [body[0]] + Frame(body[1..]) == Frame(body);
    }
  }

  /** The bytes of several frames written one after the other. */
  function Frames(bodies: seq<seq<byte>>): (stream: seq<byte>)
    requires forall i :: 0 <= i < |bodies| ==> NUL !in bodies[i]
    ensures |stream| >= |bodies|
    ensures bodies != [] ==> stream[|stream| - 1] == NUL
  {
    if bodies == [] then [] else Frame(bodies[0]) + Frames(bodies[1..])
  }

  /** Repeated `read_until(b"\0")` followed by `resp[:-1]`, until no complete frame is left. */
  function ReadBodies(stream: seq<byte>): (bodies: seq<seq<byte>>)
    ensures |bodies| <= |stream|
    ensures bodies == [] <==> NUL !in stream
    decreases |stream|
  {
    match ReadUntilNul(stream)
    case None => []
    case Some(split) => [Unframe(split.0)] + ReadBodies(split.1)
  }

  /** Reading a stream of frames gives back every body, in the order written. */
  lemma {:induction false} ReadBodiesFrames(bodies: seq<seq<byte>>)
    requires forall i :: 0 <= i < |bodies| ==> NUL !in bodies[i]
    ensures ReadBodies(Frames(bodies)) == bodies
  {
    if bodies != [] {
      ReadFrame(bodies[0], Frames(bodies[1..]));
      ReadBodiesFrames(bodies[1..]);
    }
  }
}
