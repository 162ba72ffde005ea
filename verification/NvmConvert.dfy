/** Conversion between the JSON forms of a 500-series and a 700-series NVM. */
module NvmConvert {
  import opened HexCodec
  import NodeTable
  import opened Wrappers

  datatype Failure =
    | NoControllerNode                  // reading a property of `undefined`
    | InvalidHex(cause: HexCodec.Error)
    | DataWouldBeTruncated              // NVM_InvalidJSON

  datatype SUCUpdateEntry = SUCUpdateEntry(
    nodeId: nat, changeType: nat, supportedCCs: seq<nat>, controlledCCs: seq<nat>)

  datatype RFConfig500 = RFConfig500(
    powerLevelNormal: seq<nat>, powerLevelLow: seq<nat>, powerMode: nat, powerModeExtintEnable: nat,
    powerModeWutTimeout: nat)

  datatype Controller500 = Controller500(
    protocolVersion: string, applicationVersion: string, ownHomeId: string, learnedHomeId: Option<string>,
    nodeId: nat, lastNodeId: nat, staticControllerNodeId: nat, sucLastIndex: nat, controllerConfiguration: bv32,
    sucUpdateEntries: seq<SUCUpdateEntry>, maxNodeId: nat, reservedId: nat, systemState: Option<nat>,
    watchdogStarted: nat, rfConfig: RFConfig500, preferredRepeaters: seq<nat>, commandClasses: seq<nat>,
    applicationData: Option<string>)

  datatype Json500 = Json500(controller: Controller500, nodes: NodeTable.Table)

  /** Properties that only the 700 series knows. */
  datatype Extras = Extras(
    sucAwarenessPushNeeded: Option<nat>, lastNodeIdLR: Option<nat>, maxNodeIdLR: Option<nat>,
    reservedIdLR: Option<nat>, primaryLongRangeChannelId: Option<nat>, dcdcConfig: Option<nat>,
    applicationName: Option<string>)

  datatype DeviceInfo = DeviceInfo(
    isListening: bool, optionalFunctionality: bool, genericDeviceClass: nat, specificDeviceClass: nat)

  datatype Controller700 = Controller700(
    protocolVersion: string, applicationVersion: string, homeId: string, nodeId: nat, lastNodeId: nat,
    staticControllerNodeId: nat, sucLastIndex: nat, controllerConfiguration: bv32,
    sucUpdateEntries: seq<SUCUpdateEntry>, maxNodeId: nat, reservedId: nat, systemState: nat,
    preferredRepeaters: Option<seq<nat>>, device: DeviceInfo, includedInsecurely: seq<nat>,
    includedSecurelyInsecureCCs: seq<nat>, includedSecurelySecureCCs: seq<nat>, applicationData: Option<string>,
    extras: Extras)

  datatype Json700 = Json700(format: nat, controller: Controller700, nodes: NodeTable.Table)

  const NO_EXTRAS := Extras(None, None, None, None, None, None, None)

  const DEFAULT_RF_CONFIG := RFConfig500([255, 255, 255], [255, 255, 255], 255, 255, 0xffff_ffff)

  /** Static PC controller. */
  const DEFAULT_DEVICE := DeviceInfo(true, false, 0x02, 0x01)

  const MAX_APPLICATION_DATA := 512

  // ---- Controller configuration

  const ON_OTHER_NETWORK: bv32 := 0x02
  const SIS_PRESENT: bv32 := 0x04
  const WAS_REAL_PRIMARY: bv32 := 0x08
  const SUC: bv32 := 0x10

  /** The value of a configuration byte that was never set. */
  const UNSET: bv32 := 0xff

  predicate HasFlag(configuration: bv32, flag: bv32) {
    configuration & flag != 0
  }

  function WithoutFlag(configuration: bv32, flag: bv32): bv32 {
    configuration & !flag
  }

  function EffectiveConfiguration(configuration: bv32): bv32 {
    if configuration == UNSET then SIS_PRESENT | WAS_REAL_PRIMARY | SUC else configuration
  }

  function OrOne(id: nat): nat {
    if id == 0 then 1 else id
  }

  /** The node ID of a controller that started its network. */
  function ReconstructedNodeId(configuration: bv32, staticControllerNodeId: nat): nat {
    if HasFlag(configuration, SUC) then OrOne(staticControllerNodeId) else 1
  }

  // ---- Application data

  function TrimStart(s: seq<byte>): (t: seq<byte>)
    ensures |t| <= |s| && t == s[|s| - |t|..]
  {
    if s != [] && s[0] == 0 then TrimStart(s[1..]) else s
  }

  function TrimEnd(s: seq<byte>): (t: seq<byte>)
    ensures t <= s
  {
    if s != [] && s[|s| - 1] == 0 then TrimEnd(s[..|s| - 1]) else s
  }

  function Trim(s: seq<byte>): seq<byte> {
    TrimEnd(TrimStart(s))
  }

  predicate AllZero(s: seq<byte>) {
    forall i | 0 <= i < |s| :: s[i] == 0
  }

  /** No zero at either end. */
  predicate IsTrimmed(s: seq<byte>) {
    s != [] ==> s[0] != 0 && s[|s| - 1] != 0
  }

  lemma {:induction false} TrimStartDropsZeros(zeros: seq<byte>, t: seq<byte>)
    requires AllZero(zeros) && (t == [] || t[0] != 0)
    ensures TrimStart(zeros + t) == t
  {
    if zeros == [] {
      assert zeros + t == t;
    } else {
      assert (zeros + t)[1..] == zeros[1..] + t;
      TrimStartDropsZeros(zeros[1..], t);
    }
  }

  lemma {:induction false} TrimEndDropsZeros(t: seq<byte>, zeros: seq<byte>)
    requires AllZero(zeros) && (t == [] || t[|t| - 1] != 0)
    ensures TrimEnd(t + zeros) == t
  {
    if zeros == [] {
      assert t + zeros == t;
    } else {
      assert (t + zeros)[..|t + zeros| - 1] == t + zeros[..|zeros| - 1];
      TrimEndDropsZeros(t, zeros[..|zeros| - 1]);
    }
  }

  /** Trimming is determined by what it does: data without a zero at either end, surrounded by zeros, is what
      remains. */
  lemma TrimKeepsTheMiddle(before: seq<byte>, t: seq<byte>, after: seq<byte>)
    requires AllZero(before) && AllZero(after) && IsTrimmed(t)
    ensures Trim(before + t + after) == t
  {
    if t == [] {
      assert AllZero(before + t + after);
      assert before + t + after + [] == before + t + after;
      TrimStartDropsZeros(before + t + after, []);
    } else {
      assert before + t + after == before + (t + after);
      TrimStartDropsZeros(before, t + after);
      TrimEndDropsZeros(t, after);
    }
  }

  lemma {:induction false} TrimStartSplits(s: seq<byte>)
    ensures AllZero(s[..|s| - |TrimStart(s)|])
    ensures TrimStart(s) == [] || TrimStart(s)[0] != 0
  {
    if s != [] && s[0] == 0 {
      TrimStartSplits(s[1..]);
      var n := |s| - |TrimStart(s)|;
      assert s[..n] == [s[0]] + s[1..][..n - 1];
    }
  }

  lemma {:induction false} TrimEndSplits(s: seq<byte>)
    ensures AllZero(s[|TrimEnd(s)|..])
    ensures TrimEnd(s) == [] || TrimEnd(s)[|TrimEnd(s)| - 1] != 0
  {
    if s != [] && s[|s| - 1] == 0 {
      var init := s[..|s| - 1];
      TrimEndSplits(init);
      assert s[|TrimEnd(s)|..] == init[|TrimEnd(s)|..] + [s[|s| - 1]];
    }
  }

  /** Only zeros are lost at either end, and none remain there. */
  lemma OnlyZerosAreLost(s: seq<byte>) returns (before: seq<byte>, after: seq<byte>)
    ensures s == before + Trim(s) + after
    ensures AllZero(before) && AllZero(after) && IsTrimmed(Trim(s))
  {
    hide TrimStart, TrimEnd, AllZero;
    TrimStartSplits(s);
    var t := TrimStart(s);
    TrimEndSplits(t);
    before, after := s[..|s| - |t|], t[|TrimEnd(t)|..];
    assert s == before + t && t == TrimEnd(t) + after;
    assert s == before + TrimEnd(t) + after;
  }

  lemma TrimmedIsFixed(s: seq<byte>)
    ensures Trim(s) == s <==> IsTrimmed(s)
  {
  }

  /** The two trimming loops, and the view between the ends they find. */
  method TrimZeros(raw: seq<byte>) returns (r: seq<byte>)
    ensures r == Trim(raw)
  {
    var start := 0;
    while start < |raw| && raw[start] == 0
      invariant start <= |raw| && AllZero(raw[..start])
    {
      start := start + 1;
    }
    var end := |raw| - 1;
    while end > start && raw[end] == 0
      invariant start - 1 <= end < |raw| && (start < |raw| ==> start <= end) && AllZero(raw[end + 1..])
    {
      end := end - 1;
    }
    r := raw[start..end + 1];
    assert raw == raw[..start] + r + raw[end + 1..];
    TrimKeepsTheMiddle(raw[..start], r, raw[end + 1..]);
  }

  function Cut(s: seq<byte>): seq<byte> {
    if |s| > MAX_APPLICATION_DATA then s[..MAX_APPLICATION_DATA] else s
  }

  /** The application data on the 700 series; an empty string counts as absent. */
  function ConvertedData(data: Option<string>, truncate: bool): Result<Option<string>, Failure> {
    if data.None? || data.value == "" then Ok(None)
    else
      var raw := FromHex(data.value);
      if raw.Err? then Err(InvalidHex(raw.error))
      else if |Trim(raw.value)| > MAX_APPLICATION_DATA && !truncate then Err(DataWouldBeTruncated)
      else Ok(Some(ToHex(Cut(Trim(raw.value)))))
  }

  /** The part of `json500To700` that is about application data. */
  method ConvertData(data: Option<string>, truncateApplicationData: bool) returns (r: Result<Option<string>, Failure>)
    ensures r == ConvertedData(data, truncateApplicationData)
  {
    hide FromHex, ToHex, Trim;
    if data.None? || data.value == "" {
      return Ok(None);
    }
    var decoded := FromHex(data.value);
    if decoded.Err? {
      return Err(InvalidHex(decoded.error));
    }
    var raw := TrimZeros(decoded.value);
    if |raw| > MAX_APPLICATION_DATA {
      if !truncateApplicationData {
        return Err(DataWouldBeTruncated);
      }
      raw := raw[..MAX_APPLICATION_DATA];
    }
    return Ok(Some(ToHex(raw)));
  }

  // ---- Both conversions

  function DeviceOf(n: NodeTable.Node): DeviceInfo {
    if !NodeTable.Informed(n) then DEFAULT_DEVICE
    else
      var info := n.details.value.info;
      DeviceInfo(info.isListening, info.optionalFunctionality, info.genericDeviceClass,
                 if info.specificDeviceClass.Some? then info.specificDeviceClass.value else 0)
  }

  predicate KeepsLearnedHomeId(c: Controller500) {
    && HasFlag(EffectiveConfiguration(c.controllerConfiguration), ON_OTHER_NETWORK)
    && c.learnedHomeId.Some? && c.learnedHomeId.value != "" && c.nodeId != 0
  }

  function ControllerTo700(c: Controller500, device: DeviceInfo, data: Option<string>): Controller700 {
    var configuration := EffectiveConfiguration(c.controllerConfiguration);
    var other := KeepsLearnedHomeId(c);
    Controller700(
      c.protocolVersion, c.applicationVersion,
      if other then c.learnedHomeId.value else c.ownHomeId,
      if other then c.nodeId
      else ReconstructedNodeId(WithoutFlag(configuration, ON_OTHER_NETWORK), c.staticControllerNodeId),
      c.lastNodeId, c.staticControllerNodeId, c.sucLastIndex,
      if other then configuration else WithoutFlag(configuration, ON_OTHER_NETWORK),
      c.sucUpdateEntries,
      if c.maxNodeId == 0xff then c.lastNodeId else c.maxNodeId,
      if c.reservedId == 0xff then 0 else c.reservedId,
      if c.systemState.Some? then c.systemState.value else 0,
      Some(c.preferredRepeaters), device, c.commandClasses, [], [], data, NO_EXTRAS)
  }

  function To700(json: Json500, truncate: bool): Result<Json700, Failure> {
    var c := json.controller;
    if OrOne(c.nodeId) !in json.nodes then Err(NoControllerNode)
    else
      var data := ConvertedData(c.applicationData, truncate);
      if data.Err? then Err(data.error)
      else Ok(Json700(0, ControllerTo700(c, DeviceOf(json.nodes[OrOne(c.nodeId)]), data.value), json.nodes))
  }

  /** The part of `json500To700` that finds out whose network this is. */
  method Identify(c: Controller500) returns (homeId: string, nodeId: nat, controllerConfiguration: bv32)
    ensures homeId == if KeepsLearnedHomeId(c) then c.learnedHomeId.value else c.ownHomeId
    ensures controllerConfiguration
            == if KeepsLearnedHomeId(c) then EffectiveConfiguration(c.controllerConfiguration)
               else WithoutFlag(EffectiveConfiguration(c.controllerConfiguration), ON_OTHER_NETWORK)
    ensures nodeId == if KeepsLearnedHomeId(c) then c.nodeId
                      else ReconstructedNodeId(controllerConfiguration, c.staticControllerNodeId)
  {
    hide HasFlag, WithoutFlag;
    controllerConfiguration := c.controllerConfiguration;
    if c.controllerConfiguration == UNSET {
      controllerConfiguration := SIS_PRESENT | WAS_REAL_PRIMARY | SUC;
    }
    if HasFlag(controllerConfiguration, ON_OTHER_NETWORK)
       && c.learnedHomeId.Some? && c.learnedHomeId.value != "" && c.nodeId != 0 {
      homeId := c.learnedHomeId.value;
      nodeId := c.nodeId;
    } else {
      homeId := c.ownHomeId;
      controllerConfiguration := WithoutFlag(controllerConfiguration, ON_OTHER_NETWORK);
      if HasFlag(controllerConfiguration, SUC) {
        nodeId := OrOne(c.staticControllerNodeId);
      } else {
        nodeId := 1;
      }
    }
  }

  /** `json500To700`. */
  method Json500To700(json: Json500, truncateApplicationData: bool) returns (r: Result<Json700, Failure>)
    requires NodeTable.WellTyped(json.nodes)
    ensures r == To700(json, truncateApplicationData)
  {
    hide HasFlag, WithoutFlag, ConvertedData, KeepsLearnedHomeId, EffectiveConfiguration, ReconstructedNodeId;
    var c := json.controller;
    if OrOne(c.nodeId) !in json.nodes {
      return Err(NoControllerNode);
    }
    var controllerNode := json.nodes[OrOne(c.nodeId)];
    var device := DEFAULT_DEVICE;
    if NodeTable.HasInfo(controllerNode) {
      device := DeviceOf(controllerNode);
    }
    var data := ConvertData(c.applicationData, truncateApplicationData);
    if data.Err? {
      return Err(data.error);
    }
    var homeId, nodeId, controllerConfiguration := Identify(c);
    var maxNodeId := c.maxNodeId;
    if maxNodeId == 0xff { maxNodeId := c.lastNodeId; }
    var reservedId := c.reservedId;
    if reservedId == 0xff { reservedId := 0; }
    r := Ok(Json700(0, Controller700(
      c.protocolVersion, c.applicationVersion, homeId, nodeId, c.lastNodeId, c.staticControllerNodeId, c.sucLastIndex,
      controllerConfiguration, c.sucUpdateEntries, maxNodeId, reservedId,
      if c.systemState.Some? then c.systemState.value else 0,
      Some(c.preferredRepeaters), device, c.commandClasses, [], [], data.value, NO_EXTRAS), json.nodes));
  }

  /** `json700To500`. */
  function To500(json: Json700): Json500 {
    var c := json.controller;
    var other := HasFlag(c.controllerConfiguration, ON_OTHER_NETWORK);
    Json500(
      Controller500(
        c.protocolVersion, c.applicationVersion, c.homeId, if other then Some(c.homeId) else None,
        if other then c.nodeId else 0,
        c.lastNodeId, c.staticControllerNodeId, c.sucLastIndex, c.controllerConfiguration, c.sucUpdateEntries,
        c.maxNodeId, c.reservedId, Some(c.systemState), 0, DEFAULT_RF_CONFIG,
        if c.preferredRepeaters.Some? then c.preferredRepeaters.value else [],
        c.includedInsecurely, c.applicationData),
      json.nodes)
  }

  // ---- Each conversion by itself

  /** 500 to 700: the home ID, node ID and configuration depend on whose network the controller is on, and a
      configuration of 0xff counts as that of a primary SUC. */
  lemma ConvertedIdentity(json: Json500, truncate: bool, configuration: bv32)
    requires To700(json, truncate).Ok?
    requires if json.controller.controllerConfiguration == 0xff then configuration == 0x1c
             else configuration == json.controller.controllerConfiguration
    ensures var c, d := json.controller, To700(json, truncate).value.controller;
            if configuration & 0x02 != 0 && c.learnedHomeId.Some? && c.learnedHomeId.value != "" && c.nodeId != 0
            then d.homeId == c.learnedHomeId.value && d.nodeId == c.nodeId && d.controllerConfiguration == configuration
            else
              && d.homeId == c.ownHomeId && d.controllerConfiguration == configuration & 0xffff_fffd
              && d.nodeId == if configuration & 0x10 != 0 && c.staticControllerNodeId != 0 then c.staticControllerNodeId
                             else 1
  {
    hide To700, HasFlag, WithoutFlag, EffectiveConfiguration;
    EffectiveValue(json.controller.controllerConfiguration);
    FlagValues(configuration);
    IdentityFields(json, truncate, configuration);
  }

  lemma IdentityFields(json: Json500, truncate: bool, configuration: bv32)
    requires To700(json, truncate).Ok?
    requires configuration == EffectiveConfiguration(json.controller.controllerConfiguration)
    ensures var c, d := json.controller, To700(json, truncate).value.controller;
            if HasFlag(configuration, ON_OTHER_NETWORK)
               && c.learnedHomeId.Some? && c.learnedHomeId.value != "" && c.nodeId != 0
            then d.homeId == c.learnedHomeId.value && d.nodeId == c.nodeId && d.controllerConfiguration == configuration
            else
              && d.homeId == c.ownHomeId && d.controllerConfiguration == WithoutFlag(configuration, ON_OTHER_NETWORK)
              && d.nodeId == if HasFlag(configuration, SUC) && c.staticControllerNodeId != 0
                             then c.staticControllerNodeId else 1
  {
    hide ConvertedData, DeviceOf, HasFlag, WithoutFlag, EffectiveConfiguration, KeepsLearnedHomeId, ReconstructedNodeId;
    IdentityParts(json.controller, configuration);
  }

  lemma IdentityParts(c: Controller500, configuration: bv32)
    requires configuration == EffectiveConfiguration(c.controllerConfiguration)
    ensures KeepsLearnedHomeId(c) <==>
            HasFlag(configuration, ON_OTHER_NETWORK)
            && c.learnedHomeId.Some? && c.learnedHomeId.value != "" && c.nodeId != 0
    ensures ReconstructedNodeId(WithoutFlag(configuration, ON_OTHER_NETWORK), c.staticControllerNodeId)
            == if HasFlag(configuration, SUC) && c.staticControllerNodeId != 0 then c.staticControllerNodeId else 1
  {
    hide HasFlag, WithoutFlag, EffectiveConfiguration;
    ClearFlag(configuration);
  }

  /** The other fields: the IDs 0xff are replaced; an absent system state is 0; whatever else both forms have is carried
      over. */
  lemma ConvertedFields(json: Json500, truncate: bool)
    requires To700(json, truncate).Ok?
    ensures var c, r := json.controller, To700(json, truncate).value;
            var d := r.controller;
            && d.maxNodeId == (if c.maxNodeId == 0xff then c.lastNodeId else c.maxNodeId)
            && d.reservedId == (if c.reservedId == 0xff then 0 else c.reservedId)
            && d.systemState == (if c.systemState.Some? then c.systemState.value else 0)
            && d.protocolVersion == c.protocolVersion && d.applicationVersion == c.applicationVersion
            && d.lastNodeId == c.lastNodeId && d.staticControllerNodeId == c.staticControllerNodeId
            && d.sucLastIndex == c.sucLastIndex && d.sucUpdateEntries == c.sucUpdateEntries
            && d.preferredRepeaters == Some(c.preferredRepeaters) && d.includedInsecurely == c.commandClasses
            && d.includedSecurelyInsecureCCs == d.includedSecurelySecureCCs == []
            && d.extras == Extras(None, None, None, None, None, None, None)
            && r.nodes == json.nodes && r.format == 0
  {
    hide ConvertedData, DeviceOf, HasFlag, WithoutFlag, EffectiveConfiguration, KeepsLearnedHomeId;
  }

  lemma EffectiveValue(configuration: bv32)
    ensures EffectiveConfiguration(configuration) == if configuration == 0xff then 0x1c else configuration
  {
  }

  lemma FlagValues(configuration: bv32)
    ensures HasFlag(configuration, ON_OTHER_NETWORK) <==> configuration & 0x02 != 0
    ensures HasFlag(configuration, SUC) <==> configuration & 0x10 != 0
    ensures WithoutFlag(configuration, ON_OTHER_NETWORK) == configuration & 0xffff_fffd
  {
    assert !ON_OTHER_NETWORK == 0xffff_fffd;
  }

  /** The device fields come from the node entry of the controller, which is looked up under its node ID, or 1 if that
      is 0; without information there, the controller counts as a static PC controller. */
  lemma DeviceFields(json: Json500, truncate: bool)
    requires To700(json, truncate).Ok?
    ensures var id := if json.controller.nodeId == 0 then 1 else json.controller.nodeId;
            var device := To700(json, truncate).value.controller.device;
            && id in json.nodes
            && match json.nodes[id].details
               case Some(d) =>
                 && device.isListening == d.info.isListening
                 && device.optionalFunctionality == d.info.optionalFunctionality
                 && device.genericDeviceClass == d.info.genericDeviceClass
                 && device.specificDeviceClass
                    == if d.info.specificDeviceClass.Some? then d.info.specificDeviceClass.value else 0
               case None =>
                 && device.isListening && !device.optionalFunctionality
                 && device.genericDeviceClass == 2 && device.specificDeviceClass == 1
  {
    hide ConvertedData, HasFlag, WithoutFlag, KeepsLearnedHomeId;
  }

  /** 700 to 500, field by field: on another network the home ID is also the learned one, and otherwise the node ID is
      0; the RF configuration is erased; everything else that both forms have is carried over. */
  lemma ConvertedBackFields(json: Json700)
    ensures var c, d := json.controller, To500(json).controller;
            var other := c.controllerConfiguration & 0x02 != 0;
            && d.ownHomeId == c.homeId && d.learnedHomeId == (if other then Some(c.homeId) else None)
            && d.nodeId == (if other then c.nodeId else 0)
            && d.controllerConfiguration == c.controllerConfiguration
            && d.maxNodeId == c.maxNodeId && d.reservedId == c.reservedId && d.systemState == Some(c.systemState)
            && d.protocolVersion == c.protocolVersion && d.applicationVersion == c.applicationVersion
            && d.lastNodeId == c.lastNodeId && d.staticControllerNodeId == c.staticControllerNodeId
            && d.sucLastIndex == c.sucLastIndex && d.sucUpdateEntries == c.sucUpdateEntries
            && d.preferredRepeaters == (if c.preferredRepeaters.Some? then c.preferredRepeaters.value else [])
            && d.commandClasses == c.includedInsecurely && d.applicationData == c.applicationData
            && d.watchdogStarted == 0
            && d.rfConfig == RFConfig500([255, 255, 255], [255, 255, 255], 255, 255, 0xffff_ffff)
            && To500(json).nodes == json.nodes
  {
  }

  // ---- 700 to 500 and back

  function RoundTrip(json: Json700, truncate: bool): Result<Json700, Failure> {
    To700(To500(json), truncate)
  }

  predicate OnOtherNetwork(c: Controller700) {
    HasFlag(c.controllerConfiguration, ON_OTHER_NETWORK)
  }

  /** The ID under which the controller's own node entry is looked up on the way back. */
  function LookedUpId(c: Controller700): nat {
    if OnOtherNetwork(c) then OrOne(c.nodeId) else 1
  }

  lemma FlagFacts()
    ensures !HasFlag(EffectiveConfiguration(UNSET), ON_OTHER_NETWORK)
    ensures HasFlag(EffectiveConfiguration(UNSET), SUC)
    ensures EffectiveConfiguration(UNSET) != UNSET
    ensures WithoutFlag(EffectiveConfiguration(UNSET), ON_OTHER_NETWORK) == EffectiveConfiguration(UNSET)
  {
  }

  lemma ClearFlag(configuration: bv32)
    ensures HasFlag(WithoutFlag(configuration, ON_OTHER_NETWORK), SUC) == HasFlag(configuration, SUC)
    ensures !HasFlag(WithoutFlag(configuration, ON_OTHER_NETWORK), ON_OTHER_NETWORK)
    ensures HasFlag(configuration, ON_OTHER_NETWORK) <==> WithoutFlag(configuration, ON_OTHER_NETWORK) != configuration
  {
  }

  /** The way back fails exactly if the controller's node entry is missing, or else the application data is not
      hexadecimal, or is longer than 512 bytes without its leading and trailing zeros and must not be truncated. */
  lemma RoundTripFailsIff(json: Json700, truncate: bool)
    ensures RoundTrip(json, truncate).Err? <==>
            || LookedUpId(json.controller) !in json.nodes
            || exists data | json.controller.applicationData == Some(data) && data != "" ::
                 FromHex(data).Err? || (|Trim(FromHex(data).value)| > 512 && !truncate)
  {
    hide HasFlag, FromHex, ToHex, Trim, ControllerTo700, DeviceOf;
  }

  /** Whatever the configuration, the home ID, the node table, the SUC data, the versions, the system state and the
      command classes of insecure inclusion survive. */
  lemma AlwaysKept(json: Json700, truncate: bool)
    requires RoundTrip(json, truncate).Ok?
    ensures var back := RoundTrip(json, truncate).value;
            && back.nodes == json.nodes
            && back.controller.homeId == json.controller.homeId
            && back.controller.sucUpdateEntries == json.controller.sucUpdateEntries
            && back.controller.sucLastIndex == json.controller.sucLastIndex
            && back.controller.staticControllerNodeId == json.controller.staticControllerNodeId
            && back.controller.lastNodeId == json.controller.lastNodeId
            && back.controller.includedInsecurely == json.controller.includedInsecurely
            && back.controller.protocolVersion == json.controller.protocolVersion
            && back.controller.applicationVersion == json.controller.applicationVersion
            && back.controller.systemState == json.controller.systemState
  {
  }

  /** The configuration survives exactly if it is set and, on another network, home ID and node ID are known. */
  lemma ConfigurationKeptIff(json: Json700, truncate: bool)
    requires RoundTrip(json, truncate).Ok?
    ensures var c := json.controller;
            RoundTrip(json, truncate).value.controller.controllerConfiguration == c.controllerConfiguration
            <==> c.controllerConfiguration != UNSET && (OnOtherNetwork(c) ==> c.homeId != "" && c.nodeId != 0)
  {
  }

  /** The node ID survives exactly if it is known on another network, together with a home ID, or is the one that
      gets reconstructed. */
  lemma NodeIdKeptIff(json: Json700, truncate: bool)
    requires RoundTrip(json, truncate).Ok?
    ensures var c := json.controller;
            RoundTrip(json, truncate).value.controller.nodeId == c.nodeId
            <==> || (OnOtherNetwork(c) && c.controllerConfiguration != UNSET && c.homeId != "" && c.nodeId != 0)
                 || c.nodeId == ReconstructedNodeId(EffectiveConfiguration(c.controllerConfiguration),
                                                    c.staticControllerNodeId)
  {
  }

  /** Inputs that show the difference: a node ID of 5 on the controller's own network comes back as 1, and a
      configuration that was never set as that of a primary SUC. */
  lemma IdentityCanChange(json: Json700, truncate: bool)
    requires json.controller.applicationData.None? && 1 in json.nodes && 5 in json.nodes && json.controller.nodeId == 5
    ensures json.controller.controllerConfiguration == 0 ==>
              RoundTrip(json, truncate).Ok? && RoundTrip(json, truncate).value.controller.nodeId == 1
    ensures json.controller.controllerConfiguration == UNSET ==>
              RoundTrip(json, truncate).Ok?
              && RoundTrip(json, truncate).value.controller.controllerConfiguration == 0x1c
  {
  }

  /** What becomes of the application data: zeros at either end go, and everything past 512 bytes if truncation is
      allowed; nothing else. */
  lemma DataLosesOnlyZerosAndExcess(json: Json700, truncate: bool)
      returns (before: seq<byte>, after: seq<byte>, excess: seq<byte>)
    requires RoundTrip(json, truncate).Ok?
    requires json.controller.applicationData.Some? && json.controller.applicationData.value != ""
    ensures var data := RoundTrip(json, truncate).value.controller.applicationData;
            && data.Some? && FromHex(data.value).Ok?
            && FromHex(json.controller.applicationData.value)
               == Ok(before + FromHex(data.value).value + excess + after)
            && |FromHex(data.value).value| <= 512
            && (excess != [] ==> truncate && |FromHex(data.value).value| == 512)
            && IsTrimmed(FromHex(data.value).value + excess)
    ensures AllZero(before) && AllZero(after)
  {
    hide FromHex, ToHex, Trim, DeviceOf, AllZero;
    var raw := FromHex(json.controller.applicationData.value).value;
    before, after := OnlyZerosAreLost(raw);
    excess := Trim(raw)[|Cut(Trim(raw))|..];
    DecodeEncoded(Cut(Trim(raw)));
    assert Trim(raw) == Cut(Trim(raw)) + excess;
    assert raw == before + Cut(Trim(raw)) + excess + after;
  }

  /** Application data survives literally exactly if it is absent, or is non-empty lower-case hexadecimal for at most
      512 bytes without a zero at either end. */
  predicate Canonical(data: Option<string>) {
    data.Some? ==>
      && data.value != "" && FromHex(data.value).Ok? && Lower(data.value) == data.value
      && |data.value| <= 1024 && IsTrimmed(FromHex(data.value).value)
  }

  lemma DecodedLength(s: string)
    requires FromHex(s).Ok?
    ensures |s| == 2 * |FromHex(s).value|
  {
    EncodeDecoded(s);
    HexLength(FromHex(s).value);
  }

  lemma DataKeptIff(data: Option<string>, truncate: bool)
    ensures ConvertedData(data, truncate) == Ok(data) <==> Canonical(data)
  {
    hide FromHex, ToHex, Trim, IsTrimmed, AllHex, Lower;
    if data.Some? && data.value != "" {
      EncodeDecoded(data.value);
      if FromHex(data.value).Ok? {
        CanonicalIff(data.value);
      }
    }
  }

  lemma CanonicalIff(s: string)
    requires FromHex(s).Ok? && s != ""
    ensures var raw := FromHex(s).value;
            ToHex(Cut(Trim(raw))) == s <==> Lower(s) == s && |s| <= 1024 && IsTrimmed(raw)
    ensures |s| <= 1024 && IsTrimmed(FromHex(s).value) ==> |Trim(FromHex(s).value)| <= 512
  {
    hide FromHex, ToHex, Trim, IsTrimmed, AllHex, Lower;
    var raw := FromHex(s).value;
    EncodeDecoded(s);
    DecodedLength(s);
    TrimmedIsFixed(raw);
    var kept := Cut(Trim(raw));
    DecodeEncoded(kept);
    if ToHex(kept) == s {
      assert kept == raw;
      TrimIsNoLonger(raw);
      assert Trim(raw) == raw;
    }
  }

  lemma TrimIsNoLonger(s: seq<byte>)
    ensures |Trim(s)| <= |s|
  {
  }

  /** Exactly which 700-series JSON comes back unchanged. */
  lemma UnchangedIff(json: Json700, truncate: bool)
    requires LookedUpId(json.controller) in json.nodes
    ensures var c := json.controller;
            RoundTrip(json, truncate) == Ok(json) <==>
              && c.controllerConfiguration != UNSET
              && (if OnOtherNetwork(c) then c.homeId != "" && c.nodeId != 0
                  else c.nodeId == ReconstructedNodeId(c.controllerConfiguration, c.staticControllerNodeId))
              && Canonical(c.applicationData)
              && (c.maxNodeId == 0xff ==> c.lastNodeId == 0xff) && c.reservedId != 0xff
              && c.preferredRepeaters.Some?
              && c.device == DeviceOf(json.nodes[LookedUpId(c)])
              && c.includedSecurelyInsecureCCs == [] && c.includedSecurelySecureCCs == []
              && c.extras == NO_EXTRAS && json.format == 0
  {
    hide FromHex, ToHex, Trim, ConvertedData, Canonical, DeviceOf, HasFlag, WithoutFlag;
    FlagFacts();
    ClearFlag(json.controller.controllerConfiguration);
    DataKeptIff(json.controller.applicationData, truncate);
  }

  // ---- 500 to 700 and back

  /** The other way round, the two home IDs become one: on another network both end up as the learned one, and
      otherwise the learned one and the node ID are dropped. */
  lemma HomeIdsMerge(json: Json500, truncate: bool)
    requires To700(json, truncate).Ok?
    ensures var c, d := json.controller, To500(To700(json, truncate).value).controller;
            && To500(To700(json, truncate).value).nodes == json.nodes
            && (KeepsLearnedHomeId(c) ==>
                  && d.ownHomeId == c.learnedHomeId.value && d.learnedHomeId == c.learnedHomeId
                  && d.nodeId == c.nodeId && d.controllerConfiguration == c.controllerConfiguration)
            && (!KeepsLearnedHomeId(c) ==>
                  && d.ownHomeId == c.ownHomeId && d.learnedHomeId == None && d.nodeId == 0
                  && !HasFlag(d.controllerConfiguration, ON_OTHER_NETWORK))
            && d.sucUpdateEntries == c.sucUpdateEntries && d.commandClasses == c.commandClasses
            && d.preferredRepeaters == c.preferredRepeaters
  {
  }
}
