/**
 * The Home Assistant discovery payloads of ezville.py: `DISCOVERY_DEVICE`
 * and `DISCOVERY_PAYLOAD` (lines 24-56) and the fields `mqtt_discovery`
 * adds (lines 367-377), with the topics they announce.
 */
module Discovery {
  import opened Wrappers
  import opened Hex
  import opened Protocol

  const HaTopic: string := "ezville"

  /** The topic of one attribute of one device: `ezville/<device>/<attr>/<kind>`. */
  function Topic(did: string, attr: string, kind: string): string {
    HaTopic + "/" + did + "/" + attr + "/" + kind
  }

  /** `STATE_TOPIC.format(deviceID, attr)`. */
  function StateTopic(did: string, attr: string): string {
    Topic(did, attr, "state")
  }

  /** A template topic `~/<attr>/<kind>`, relative to the device's `~` field. */
  function Rel(attr: string, kind: string): string {
    "~/" + attr + "/" + kind
  }

  /** A value of the discovery payload; its JSON encoding is not modelled. */
  datatype Value =
    | Str(s: string)
    | Flag(b: bool)
    | Num(n: int)
    | Strs(items: seq<string>)
    | Obj(fields: map<string, Value>)

  /** A discovery message: its config topic and its payload. */
  datatype Registration = Registration(topic: string, fields: map<Key, Value>)

  /** The keys of a discovery payload; `KeyName` gives each one's JSON name. */
  datatype Key =
    | Intg | Tilde | Name | Opt | StatT | CmdT
    | ModeStatT | TempStatT | TempCmdT | CurrTempT | AwayModeStatT | AwayModeCmdT
    | Modes | MinTemp | MaxTemp | Device | UniqId

  function KeyName(k: Key): string {
    match k
    case Intg => "_intg"
    case Tilde => "~"
    case Name => "name"
    case Opt => "opt"
    case StatT => "stat_t"
    case CmdT => "cmd_t"
    case ModeStatT => "mode_stat_t"
    case TempStatT => "temp_stat_t"
    case TempCmdT => "temp_cmd_t"
    case CurrTempT => "curr_temp_t"
    case AwayModeStatT => "away_mode_stat_t"
    case AwayModeCmdT => "away_mode_cmd_t"
    case Modes => "modes"
    case MinTemp => "min_temp"
    case MaxTemp => "max_temp"
    case Device => "device"
    case UniqId => "uniq_id"
  }

  /** `DISCOVERY_DEVICE`. */
  function DiscoveryDevice(): map<string, Value> {
    map[
      "ids" := Strs(["ezville_wallpad"]),
      "name" := Str("ezville_wallpad"),
      "mf" := Str("EzVille"),
      "mdl" := Str("EzVille Wallpad"),
      "sw" := Str("ktdo79/addons/ezville_wallpad")]
  }

  /** `DISCOVERY_PAYLOAD[device][0]` with `~` and `name` formatted for one device. */
  function Template(device: string, did: string): map<Key, Value>
    requires IsFamily(device)
  {
    if device == "light" then
      map[
        Intg := Str("light"),
        Tilde := Str(HaTopic + "/" + did),
        Name := Str("ezville_" + did),
        Opt := Flag(true),
        StatT := Str(Rel("power", "state")),
        CmdT := Str(Rel("power", "command"))]
    else
      map[
        Intg := Str("climate"),
        Tilde := Str(HaTopic + "/" + did),
        Name := Str("ezville_" + did),
        ModeStatT := Str(Rel("power", "state")),
        TempStatT := Str(Rel("setTemp", "state")),
        TempCmdT := Str(Rel("setTemp", "command")),
        CurrTempT := Str(Rel("curTemp", "state")),
        AwayModeStatT := Str(Rel("away", "state")),
        AwayModeCmdT := Str(Rel("away", "command")),
        Modes := Strs(["off", "heat"]),
        MinTemp := Str("5"),
        MaxTemp := Num(40)]
  }

  /**
   * `mqtt_discovery`: drop `_intg`, add the device block and `uniq_id`,
   * and address the payload by integration and name.
   */
  function MqttDiscovery(payload: map<Key, Value>): Registration
    requires Intg in payload && payload[Intg].Str?
    requires Name in payload && payload[Name].Str?
  {
    var intg := payload[Intg].s;
    var name := payload[Name].s;
    var fields := (payload - {Intg})[Device := Obj(DiscoveryDevice())][UniqId := Str(name)];
    Registration("homeassistant/" + intg + "/ezville_wallpad/" + name + "/config", fields)
  }

  /** `mqtt_discovery` passes every template field other than `_intg`, `device` and `uniq_id` through. */
  lemma DiscoveryKeeps(payload: map<Key, Value>, field: Key)
    requires Intg in payload && payload[Intg].Str?
    requires Name in payload && payload[Name].Str?
    requires field in payload && field != Intg && field != Device && field != UniqId
    ensures field in MqttDiscovery(payload).fields
    ensures MqttDiscovery(payload).fields[field] == payload[field]
  {
  }

  function Integration(device: string): string {
    if device == "light" then "light" else "climate"
  }

  /**
   * The registration of a device: its topic names the integration and the
   * device's display name, `uniq_id` equals that name, `_intg` is gone and
   * the device block is attached.
   */
  lemma RegistrationFields(device: string, did: string)
    requires IsFamily(device)
    ensures var m := MqttDiscovery(Template(device, did));
      var name := "ezville_" + did;
      && m.topic == "homeassistant/" + Integration(device) + "/ezville_wallpad/" + name + "/config"
      && Intg !in m.fields
      && m.fields[Name] == Str(name) && m.fields[UniqId] == Str(name)
      && m.fields[Device] == Obj(DiscoveryDevice())
      && m.fields[Tilde] == Str(HaTopic + "/" + did)
  {
  }

  /** Home Assistant's `~` abbreviation: a leading `~` stands for the `~` field. */
  function Expand(base: string, t: string): string {
    if |t| > 0 && t[0] == '~' then base + t[1..] else t
  }

  /** `~` followed by a path stands for the `~` field followed by that path. */
  lemma ExpandTilde(did: string, rest: string)
    ensures Expand(HaTopic + "/" + did, "~" + rest) == HaTopic + "/" + did + rest
  {
    assert ("~" + rest)[1..] == rest;
  }

  /** The state-topic fields of each template, with the attribute each one carries. */
  function StateFields(device: string): seq<(Key, string)> {
    if device == "light" then [(StatT, "power")]
    else [(ModeStatT, "power"), (TempStatT, "setTemp"), (CurrTempT, "curTemp"), (AwayModeStatT, "away")]
  }

  /** The command-topic fields of each template, with the attribute each one carries. */
  function CommandFields(device: string): seq<(Key, string)> {
    if device == "light" then [(CmdT, "power")]
    else [(TempCmdT, "setTemp"), (AwayModeCmdT, "away")]
  }

  /** What a topic field of a registration says once `~` is expanded. */
  function Announced(device: string, did: string, field: Key): Option<string>
    requires IsFamily(device)
  {
    var m := MqttDiscovery(Template(device, did)).fields;
    if Tilde in m && m[Tilde].Str? && field in m && m[field].Str? then Some(Expand(m[Tilde].s, m[field].s)) else None
  }

  /** A template field `~<rest>` is announced as the device's topic followed by `<rest>`. */
  lemma AnnouncedPath(device: string, did: string, field: Key, attr: string, kind: string)
    requires IsFamily(device) && field != Intg && field != Device && field != UniqId
    requires field in Template(device, did) && Template(device, did)[field] == Str(Rel(attr, kind))
    ensures Announced(device, did, field) == Some(Topic(did, attr, kind))
  {
    var t := Template(device, did);
    assert Tilde in t && t[Tilde] == Str(HaTopic + "/" + did);
    ExpandField(t, did, field, attr, kind);
  }

  /** The same for any payload with a `~` field for the device. */
  lemma ExpandField(payload: map<Key, Value>, did: string, field: Key, attr: string, kind: string)
    requires Intg in payload && payload[Intg].Str? && Name in payload && payload[Name].Str?
    requires Tilde in payload && payload[Tilde] == Str(HaTopic + "/" + did)
    requires field in payload && field != Intg && field != Device && field != UniqId
    requires payload[field] == Str(Rel(attr, kind))
    ensures var m := MqttDiscovery(payload).fields;
      && Tilde in m && m[Tilde] == Str(HaTopic + "/" + did)
      && field in m && m[field] == Str(Rel(attr, kind))
    ensures Expand(HaTopic + "/" + did, Rel(attr, kind)) == Topic(did, attr, kind)
  {
    DiscoveryKeeps(payload, Tilde);
    DiscoveryKeeps(payload, field);
    assert Rel(attr, kind)[1..] == "/" + attr + "/" + kind;
    assert HaTopic + "/" + did + ("/" + attr + "/" + kind) == Topic(did, attr, kind);
  }

  /** Each topic field of a template, with the attribute and kind of topic it names. */
  lemma TemplateTopic(device: string, did: string, fields: seq<(Key, string)>, kind: string, j: nat)
    requires IsFamily(device) && j < |fields|
    requires (kind == "state" && fields == StateFields(device)) || (kind == "command" && fields == CommandFields(device))
    ensures var (field, attr) := fields[j];
      && field != Intg && field != Device && field != UniqId
      && field in Template(device, did) && Template(device, did)[field] == Str(Rel(attr, kind))
  {
  }

  /** Every state topic a registration announces is the topic the publish gate writes for that attribute. */
  lemma StateTopicsAgree(device: string, did: string, j: nat)
    requires IsFamily(device) && j < |StateFields(device)|
    ensures Announced(device, did, StateFields(device)[j].0) == Some(StateTopic(did, StateFields(device)[j].1))
  {
    var (field, attr) := StateFields(device)[j];
    TemplateTopic(device, did, StateFields(device), "state", j);
    AnnouncedPath(device, did, field, attr, "state");
  }

  /**
   * A command topic a registration announces splits into the path
   * `HA_process` expects: the prefix, the device, the attribute and
   * `command`.
   */
  lemma CommandTopicsParse(device: string, did: string, j: nat)
    requires IsFamily(device) && j < |CommandFields(device)| && '/' !in did
    ensures Announced(device, did, CommandFields(device)[j].0).Some?
    ensures Split(Announced(device, did, CommandFields(device)[j].0).value, '/')
         == [HaTopic, did, CommandFields(device)[j].1, "command"]
  {
    var (field, attr) := CommandFields(device)[j];
    TemplateTopic(device, did, CommandFields(device), "command", j);
    AnnouncedPath(device, did, field, attr, "command");
    assert '/' !in attr && '/' !in "command" && '/' !in HaTopic;
    TopicShape(did, attr, "command");
    SplitFour(HaTopic, did, attr, "command");
  }

  lemma SplitFour(a: string, b: string, c: string, d: string)
    requires '/' !in a && '/' !in b && '/' !in c && '/' !in d
    ensures Split(a + ['/'] + (b + ['/'] + (c + ['/'] + d)), '/') == [a, b, c, d]
  {
    var cd := c + ['/'] + d;
    var bcd := b + ['/'] + cd;
    SplitNoSep(d, '/');
    SplitAt(c, '/', d);
    SplitAt(b, '/', cd);
    SplitAt(a, '/', bcd);
  }

  lemma TopicShape(did: string, attr: string, kind: string)
    ensures Topic(did, attr, kind) == HaTopic + ['/'] + (did + ['/'] + (attr + ['/'] + kind))
  {
  }


  /** A device name splits on `_` into its family and both zero-padded numbers, which `int` reads back. */
  lemma DeviceIdSplits(device: string, id1: nat, id2: nat)
    requires IsFamily(device)
    ensures Split(DeviceId(device, id1, id2), '_') == [device, Pad2(id1), Pad2(id2)]
    ensures ParseDec(Pad2(id1)) == Some(id1) && ParseDec(Pad2(id2)) == Some(id2)
  {
    DecRoundTrip(id1);
    DecRoundTrip(id2);
    NoSepInDigits(Pad2(id1), '_');
    NoSepInDigits(Pad2(id2), '_');
    assert DeviceId(device, id1, id2) == device + ['_'] + (Pad2(id1) + ['_'] + Pad2(id2));
    SplitAt(device, '_', Pad2(id1) + ['_'] + Pad2(id2));
    SplitAt(Pad2(id1), '_', Pad2(id2));
    SplitNoSep(Pad2(id2), '_');
  }

  lemma DeviceIdNoSlash(device: string, id1: nat, id2: nat)
    requires IsFamily(device)
    ensures '/' !in DeviceId(device, id1, id2)
  {
    DecRoundTrip(id1);
    DecRoundTrip(id2);
    NoSepInDigits(Pad2(id1), '/');
    NoSepInDigits(Pad2(id2), '/');
    NoSepJoin(device + "_", Pad2(id1), '/');
    NoSepJoin(device + "_" + Pad2(id1) + "_", Pad2(id2), '/');
  }

  lemma NoSepInDigits(s: string, sep: char)
    requires AllDecDigits(s) && !IsDecDigit(sep)
    ensures sep !in s
  {
  }

  lemma NoSepJoin(a: string, b: string, sep: char)
    requires sep !in a && sep !in b
    ensures sep !in a + b
  {
  }

}
