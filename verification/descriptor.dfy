/**
 * Descriptor ingestion as pure functions: the mode string of an actuator, its
 * metadata record, the per-URI unique index of a device, and the sequence of
 * host callbacks one `device_descriptor` reply produces.
 */
module Descriptor {
  import opened Wrappers
  import opened Wire
  import opened Format
  import opened Host

  const CC_MODE_TOGGLE: int := 0x01
  const CC_MODE_TRIGGER: int := 0x02
  const CC_MODE_ENUMERATION: int := 0x04

  /**
   * `mask & flag` is non-zero, for one of the one-bit mode flags. Python's `&`
   * reads a negative int in two's complement; floor division (which is what
   * Dafny's `/` does for a positive divisor) reproduces that.
   */
  predicate HasMode(mask: int, flag: int)
    requires flag == CC_MODE_TOGGLE || flag == CC_MODE_TRIGGER || flag == CC_MODE_ENUMERATION
  {
    (mask / flag) % 2 == 1
  }

  /**
   * The `modes` string of an actuator: the tags of its set flags in the fixed
   * order toggle, trigger, enumeration, then one trailing `:`. `None` when no
   * flag is set: such an actuator is skipped.
   */
  function ModesFor(mask: int): (modes: Option<string>)
    ensures modes.None? <==>
      !HasMode(mask, CC_MODE_TOGGLE) && !HasMode(mask, CC_MODE_TRIGGER) && !HasMode(mask, CC_MODE_ENUMERATION)
    ensures modes.Some? ==> |modes.value| >= 2 && modes.value[0] == ':' && modes.value[|modes.value| - 1] == ':'
  {
    var tags := (if HasMode(mask, CC_MODE_TOGGLE) then ":bypass:toggled" else "")
              + (if HasMode(mask, CC_MODE_TRIGGER) then ":trigger" else "")
              + (if HasMode(mask, CC_MODE_ENUMERATION) then ":enumeration" else "");
    if tags == "" then None else Some(tags + ":")
  }

  /** The mode string loses nothing: two masks give the same string exactly when they agree on the three flags. */
  lemma ModesDetermineFlags(m1: int, m2: int)
    ensures ModesFor(m1) == ModesFor(m2) <==>
      && HasMode(m1, CC_MODE_TOGGLE) == HasMode(m2, CC_MODE_TOGGLE)
      && HasMode(m1, CC_MODE_TRIGGER) == HasMode(m2, CC_MODE_TRIGGER)
      && HasMode(m1, CC_MODE_ENUMERATION) == HasMode(m2, CC_MODE_ENUMERATION)
  {
  }

  /** Bits above the three mode flags are ignored. */
  lemma ModesIgnoreHigherBits(mask: int)
    ensures ModesFor(mask) == ModesFor(mask % 8)
  {
    FlagIgnoresHigherBits(mask, CC_MODE_TOGGLE);
    FlagIgnoresHigherBits(mask, CC_MODE_TRIGGER);
    FlagIgnoresHigherBits(mask, CC_MODE_ENUMERATION);
  }

  lemma FlagIgnoresHigherBits(mask: int, flag: int)
    requires flag == CC_MODE_TOGGLE || flag == CC_MODE_TRIGGER || flag == CC_MODE_ENUMERATION
    ensures HasMode(mask, flag) == HasMode(mask % 8, flag)
  {
    var high, low := mask / 8, mask % 8;
    var k := 8 / flag;
    QuotientOfSum(flag, k * high, low);
    assert mask / flag == k * high + low / flag;
    QuotientOfSum(2, k / 2 * high, low / flag);
  }

  /** Division of `d * m + r` by `d`, for a non-negative `r`. */
  lemma QuotientOfSum(d: int, m: int, r: int)
    requires d == 1 || d == 2 || d == 4 || d == 8
    requires r >= 0
    ensures (d * m + r) / d == m + r / d
    ensures (d * m + r) % d == r % d
  {
    var q, rem := r / d, r % d;
    assert r == d * q + rem && 0 <= rem < d;
    assert d * m + r == d * (m + q) + rem;
  }

  /** `"%s:%i:%i" % (dev_uri, dev_unique_id, actuator['id'])`. */
  function ActuatorUri(deviceUri: string, uniqueIndex: int, actuatorId: int): (uri: string)
    ensures |uri| >= |deviceUri| + 4 && uri[..|deviceUri|] == deviceUri && uri[|deviceUri|] == ':'
  {
    deviceUri + ":" + IntString(uniqueIndex) + ":" + IntString(actuatorId)
  }

  lemma ColonBreaks(x1: string, y1: string, x2: string, y2: string)
    requires ':' !in x2 && |x1| < |x2|
    ensures x1 + ":" + y1 != x2 + ":" + y2
  {
    assert (x1 + ":" + y1)[|x1|] == ':';
    assert (x2 + ":" + y2)[|x1|] == x2[|x1|];
  }

  lemma SplitAtColon(x1: string, y1: string, x2: string, y2: string)
    requires ':' !in x1 && ':' !in x2
    requires x1 + ":" + y1 == x2 + ":" + y2
    ensures x1 == x2 && y1 == y2
  {
    var s := x1 + ":" + y1;
    if |x1| < |x2| {
      ColonBreaks(x1, y1, x2, y2);
    } else if |x2| < |x1| {
      ColonBreaks(x2, y2, x1, y1);
    }
    assert x1 == s[..|x1|] == x2;
    assert y1 == s[|x1| + 1..] == y2;
  }

  /** What follows the device URI and its colon in an actuator URI. */
  lemma ActuatorUriSuffix(deviceUri: string, uniqueIndex: int, actuatorId: int)
    ensures ActuatorUri(deviceUri, uniqueIndex, actuatorId)[|deviceUri| + 1..] == IntString(uniqueIndex) + ":" + IntString(actuatorId)
  {
    var suffix := IntString(uniqueIndex) + ":" + IntString(actuatorId);
    assert ActuatorUri(deviceUri, uniqueIndex, actuatorId) == deviceUri + ":" + suffix;
  }

  /**
   * Within one device URI, the actuator URI determines both the unique index
   * and the actuator id: identical units with different indices never share
   * an actuator URI.
   */
  lemma ActuatorUriInjective(deviceUri: string, i1: int, a1: int, i2: int, a2: int)
    ensures ActuatorUri(deviceUri, i1, a1) == ActuatorUri(deviceUri, i2, a2) <==> i1 == i2 && a1 == a2
  {
    if ActuatorUri(deviceUri, i1, a1) == ActuatorUri(deviceUri, i2, a2) {
      ActuatorUriSuffix(deviceUri, i1, a1);
      ActuatorUriSuffix(deviceUri, i2, a2);
      IntStringHasNoColon(i1);
      IntStringHasNoColon(i2);
      SplitAtColon(IntString(i1), IntString(a1), IntString(i2), IntString(a2));
      IntStringInjective(i1, i2);
      IntStringInjective(a1, a2);
    }
  }

  /** The metadata record of an actuator whose mode string is `modes`; `name` uses the raw device label. */
  function MetadataFor(deviceUri: string, uniqueIndex: int, rawLabel: string, actuator: ActuatorDescriptor, modes: string): Metadata {
    Metadata(ActuatorUri(deviceUri, uniqueIndex, actuator.id), rawLabel + ":" + actuator.name, modes, [], actuator.maxAssignments)
  }

  /** An entry of `hw_versions`: the device URI, its symbolified label and its version. */
  datatype HwVersion = HwVersion(uri: string, deviceLabel: string, version: string)

  function MatchingIds(hw: map<DeviceId, HwVersion>, uri: string): set<DeviceId> {
    set id | id in hw && hw[id].uri == uri
  }

  /** The unique index of a device announced with `uri`: how many recorded devices have that URI. */
  function CountUri(hw: map<DeviceId, HwVersion>, uri: string): (n: nat)
    ensures n <= |hw|
    ensures n == 0 <==> forall id :: id in hw ==> hw[id].uri != uri
  {
    CountUriBounds(hw, uri);
    |MatchingIds(hw, uri)|
  }

  lemma CountUriBounds(hw: map<DeviceId, HwVersion>, uri: string)
    ensures |MatchingIds(hw, uri)| <= |hw|
    ensures |MatchingIds(hw, uri)| == 0 <==> forall id :: id in hw ==> hw[id].uri != uri
  {
    var ids := MatchingIds(hw, uri);
    SubsetCardinality(ids, hw.Keys);
    if forall id :: id in hw ==> hw[id].uri != uri {
      assert ids == {};
    } else {
      var id :| id in hw && hw[id].uri == uri;
      assert id in ids;
    }
  }

  lemma SubsetCardinality<T>(a: set<T>, b: set<T>)
    requires a <= b
    ensures |a| <= |b|
  {
    assert b == a + (b - a);
  }

  /** Recording a new device adds one to the count of its URI and leaves every other URI's count alone. */
  lemma CountUriInsert(hw: map<DeviceId, HwVersion>, id: DeviceId, v: HwVersion, uri: string)
    requires id !in hw
    ensures CountUri(hw[id := v], uri) == CountUri(hw, uri) + (if v.uri == uri then 1 else 0)
  {
    if v.uri == uri {
      assert MatchingIds(hw[id := v], uri) == MatchingIds(hw, uri) + {id};
    } else {
      assert MatchingIds(hw[id := v], uri) == MatchingIds(hw, uri);
    }
  }

  /** Forgetting a device takes one off the count of its URI; forgetting an unknown id changes nothing. */
  lemma CountUriRemove(hw: map<DeviceId, HwVersion>, id: DeviceId, uri: string)
    ensures CountUri(hw - {id}, uri) == CountUri(hw, uri) - (if id in hw && hw[id].uri == uri then 1 else 0)
  {
    var before, after := MatchingIds(hw, uri), MatchingIds(hw - {id}, uri);
    if id in hw && hw[id].uri == uri {
      assert before == after + {id} && id !in after;
    } else {
      assert after == before;
    }
  }

  /** The map after devices `ids` have been recorded, in that order, all with entry `v`. */
  function RegisterAll(hw: map<DeviceId, HwVersion>, ids: seq<DeviceId>, v: HwVersion): (r: map<DeviceId, HwVersion>)
    ensures r.Keys == hw.Keys + set i | i in ids
  {
    if ids == [] then hw
    else
      var r := RegisterAll(hw, ids[..|ids| - 1], v)[ids[|ids| - 1] := v];
      assert ids == ids[..|ids| - 1] + [ids[|ids| - 1]];
      r
  }

  /**
   * Identical units announced one after the other, none removed in between,
   * get consecutive unique indices: the k-th (from 0) sees k earlier ones when
   * no unit with that URI was recorded before.
   */
  lemma {:induction false} IdenticalUnitsNumbered(hw: map<DeviceId, HwVersion>, ids: seq<DeviceId>, v: HwVersion)
    requires forall i, j :: 0 <= i < j < |ids| ==> ids[i] != ids[j]
    requires forall i :: 0 <= i < |ids| ==> ids[i] !in hw
    ensures CountUri(RegisterAll(hw, ids, v), v.uri) == CountUri(hw, v.uri) + |ids|
  {
    if ids != [] {
      var prefix := ids[..|ids| - 1];
      var last := ids[|ids| - 1];
      IdenticalUnitsNumbered(hw, prefix, v);
      assert last !in RegisterAll(hw, prefix, v);
      CountUriInsert(RegisterAll(hw, prefix, v), last, v, v.uri);
    }
  }

  /**
   * The unique-index loop as written: each `items()` entry is a (key, value)
   * pair, and unpacking it into three names raises ValueError, so the loop
   * only completes on an empty map. `None` stands for that exception.
   */
  function UniqueIndexAsWritten(hw: map<DeviceId, HwVersion>, uri: string): (index: Option<nat>)
    ensures index.Some? ==> index.value == 0
  {
    if hw == map[] then Some(0) else None
  }

  /** The loop as written gives the intended count only while no device is recorded. */
  lemma UniqueIndexAsWrittenDiffers(hw: map<DeviceId, HwVersion>, uri: string)
    ensures UniqueIndexAsWritten(hw, uri) == Some(CountUri(hw, uri)) <==> hw == map[]
  {
    if hw == map[] {
      assert MatchingIds(hw, uri) == {};
    }
  }

  /** A second pedal announced after a first one: the code as written raises where index 1 is intended. */
  lemma UniqueIndexAsWrittenSecondPedal()
    ensures UniqueIndexAsWritten(map[7 := HwVersion("pedal1", "Pedal", "0.1.0")], "pedal1") == None
    ensures CountUri(map[7 := HwVersion("pedal1", "Pedal", "0.1.0")], "pedal1") == 1
  {
    var hw: map<DeviceId, HwVersion> := map[7 := HwVersion("pedal1", "Pedal", "0.1.0")];
    assert MatchingIds(hw, "pedal1") == {7};
  }

  /** The `act_added_cb` call one actuator produces: none when it has no mode flag. */
  function AnnounceOne(deviceId: DeviceId, deviceUri: string, uniqueIndex: int, rawLabel: string, a: ActuatorDescriptor): (calls: seq<Effect>)
  {
    match ModesFor(a.supportedModes)
    case None => []
    case Some(modes) => [ActuatorAdded(deviceId, a.id, MetadataFor(deviceUri, uniqueIndex, rawLabel, a, modes))]
  }

  /** The `act_added_cb` calls for a list of actuators, in list order. */
  function Announce(deviceId: DeviceId, deviceUri: string, uniqueIndex: int, rawLabel: string, actuators: seq<ActuatorDescriptor>): (calls: seq<Effect>)
  {
    if actuators == [] then []
    else Announce(deviceId, deviceUri, uniqueIndex, rawLabel, actuators[..|actuators| - 1])
         + AnnounceOne(deviceId, deviceUri, uniqueIndex, rawLabel, actuators[|actuators| - 1])
  }

  /**
   * Exactly the actuators with at least one mode flag are announced, each with
   * the metadata record built from its own descriptor entry.
   */
  lemma {:induction false} AnnounceMembers(deviceId: DeviceId, deviceUri: string, uniqueIndex: int, rawLabel: string,
                                           actuators: seq<ActuatorDescriptor>, e: Effect)
    ensures e in Announce(deviceId, deviceUri, uniqueIndex, rawLabel, actuators) <==>
      exists a :: a in actuators && AnnouncedAs(deviceId, deviceUri, uniqueIndex, rawLabel, a, e)
    decreases |actuators|
  {
    if actuators != [] {
      var init := actuators[..|actuators| - 1];
      var last := actuators[|actuators| - 1];
      AnnounceMembers(deviceId, deviceUri, uniqueIndex, rawLabel, init, e);
      AnnounceLastMembers(deviceId, deviceUri, uniqueIndex, rawLabel, actuators, e);
      if e in Announce(deviceId, deviceUri, uniqueIndex, rawLabel, init) {
        var a :| a in init && AnnouncedAs(deviceId, deviceUri, uniqueIndex, rawLabel, a, e);
        assert a in actuators;
      } else if !AnnouncedAs(deviceId, deviceUri, uniqueIndex, rawLabel, last, e) {
        forall a | a in actuators
          ensures !AnnouncedAs(deviceId, deviceUri, uniqueIndex, rawLabel, a, e)
        {
          assert a in init || a == last;
        }
      }
    }
  }

  /** One step of `AnnounceMembers`: the calls for a list are those for all but its last actuator, then the last one's. */
  lemma AnnounceLastMembers(deviceId: DeviceId, deviceUri: string, uniqueIndex: int, rawLabel: string,
                            actuators: seq<ActuatorDescriptor>, e: Effect)
    requires actuators != []
    ensures e in Announce(deviceId, deviceUri, uniqueIndex, rawLabel, actuators) <==>
      || e in Announce(deviceId, deviceUri, uniqueIndex, rawLabel, actuators[..|actuators| - 1])
      || AnnouncedAs(deviceId, deviceUri, uniqueIndex, rawLabel, actuators[|actuators| - 1], e)
  {
    var last := actuators[|actuators| - 1];
    assert e in AnnounceOne(deviceId, deviceUri, uniqueIndex, rawLabel, last) <==> AnnouncedAs(deviceId, deviceUri, uniqueIndex, rawLabel, last, e);
  }

  /** At most one `act_added_cb` per actuator, and exactly one for each when every actuator has a mode. */
  lemma {:induction false} AnnounceLength(deviceId: DeviceId, deviceUri: string, uniqueIndex: int, rawLabel: string,
                                          actuators: seq<ActuatorDescriptor>)
    ensures |Announce(deviceId, deviceUri, uniqueIndex, rawLabel, actuators)| <= |actuators|
    ensures (forall i :: 0 <= i < |actuators| ==> ModesFor(actuators[i].supportedModes).Some?) ==>
      |Announce(deviceId, deviceUri, uniqueIndex, rawLabel, actuators)| == |actuators|
    decreases |actuators|
  {
    if actuators != [] {
      AnnounceLength(deviceId, deviceUri, uniqueIndex, rawLabel, actuators[..|actuators| - 1]);
    }
  }

  /** `e` is the `act_added_cb` call for actuator `a`, which has at least one mode. */
  ghost predicate AnnouncedAs(deviceId: DeviceId, deviceUri: string, uniqueIndex: int, rawLabel: string,
                              a: ActuatorDescriptor, e: Effect)
  {
    && ModesFor(a.supportedModes).Some?
    && e == ActuatorAdded(deviceId, a.id, MetadataFor(deviceUri, uniqueIndex, rawLabel, a, ModesFor(a.supportedModes).value))
  }

  /**
   * The host callbacks fired for a `device_descriptor` reply, before the
   * completion callback: nothing for a URI holding a space; otherwise
   * `hw_added_cb` with the symbolified label, then the actuator calls.
   */
  function IngestEffects(hw: map<DeviceId, HwVersion>, deviceId: DeviceId, desc: DeviceDescriptor, symbol: string): seq<Effect> {
    if ' ' in desc.uri then []
    else [HardwareAdded(desc.uri, symbol, desc.version)]
         + Announce(deviceId, desc.uri, CountUri(hw, desc.uri), desc.deviceLabel, desc.actuators)
  }

  /** `hw_versions` after a `device_descriptor` reply. */
  function IngestHw(hw: map<DeviceId, HwVersion>, deviceId: DeviceId, desc: DeviceDescriptor, symbol: string): map<DeviceId, HwVersion> {
    if ' ' in desc.uri then hw else hw[deviceId := HwVersion(desc.uri, symbol, desc.version)]
  }

  /**
   * An accepted descriptor records exactly one more key, the device id, with
   * its URI, symbolified label and version; every other device's record is
   * left as it was.
   */
  lemma IngestHwEntries(hw: map<DeviceId, HwVersion>, deviceId: DeviceId, desc: DeviceDescriptor, symbol: string, other: DeviceId)
    ensures ' ' !in desc.uri ==> IngestHw(hw, deviceId, desc, symbol).Keys == hw.Keys + {deviceId}
    ensures ' ' !in desc.uri ==> IngestHw(hw, deviceId, desc, symbol)[deviceId] == HwVersion(desc.uri, symbol, desc.version)
    ensures other in hw && other != deviceId ==>
      other in IngestHw(hw, deviceId, desc, symbol) && IngestHw(hw, deviceId, desc, symbol)[other] == hw[other]
  {
  }

  /** A descriptor is turned away, with no callback and no record, exactly when its URI holds a space character. */
  lemma IngestRejectsSpace(hw: map<DeviceId, HwVersion>, deviceId: DeviceId, desc: DeviceDescriptor, symbol: string)
    ensures IngestEffects(hw, deviceId, desc, symbol) == [] <==> ' ' in desc.uri
    ensures ' ' in desc.uri ==> IngestHw(hw, deviceId, desc, symbol) == hw
    ensures ' ' !in desc.uri ==> deviceId in IngestHw(hw, deviceId, desc, symbol)
  {
  }

  /**
   * For an accepted descriptor, `hw_added_cb` fires once and first; every
   * later call is an `act_added_cb` for this device whose record has the
   * actuator URI built from the unique index, the raw-label name, the mode
   * string of one actuator of the descriptor, no steps and its assignment limit.
   */
  lemma IngestAccepted(hw: map<DeviceId, HwVersion>, deviceId: DeviceId, desc: DeviceDescriptor, symbol: string, e: Effect)
    requires ' ' !in desc.uri
    ensures IngestEffects(hw, deviceId, desc, symbol)[0] == HardwareAdded(desc.uri, symbol, desc.version)
    ensures e in IngestEffects(hw, deviceId, desc, symbol)[1..] ==>
      && e.ActuatorAdded?
      && e.deviceId == deviceId
      && e.metadata.uri == ActuatorUri(desc.uri, CountUri(hw, desc.uri), e.actuatorId)
      && e.metadata.steps == []
      && exists a :: a in desc.actuators && a.id == e.actuatorId
           && e.metadata.name == desc.deviceLabel + ":" + a.name
           && ModesFor(a.supportedModes) == Some(e.metadata.modes)
           && e.metadata.maxAssigns == a.maxAssignments
  {
    var effects := IngestEffects(hw, deviceId, desc, symbol);
    assert effects[1..] == Announce(deviceId, desc.uri, CountUri(hw, desc.uri), desc.deviceLabel, desc.actuators);
    AnnounceMembers(deviceId, desc.uri, CountUri(hw, desc.uri), desc.deviceLabel, desc.actuators, e);
  }
}
