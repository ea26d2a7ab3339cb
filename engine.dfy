/**
 * The gateway's state machine: the `HOMESTATE` cache and its publish gate
 * (ezville.py lines 380-412), the discovery registry (287-324, 367-377),
 * the frame handler of `EW11_process` (246-364), the command builder
 * `HA_process` (160-242), the command queue (329-334, 415-455) and the end
 * of the discovery period (466, 477-478).
 *
 * The interpreter's globals are one value `Gw`; every publish is an event
 * appended to `out`.
 */
module Engine {
  import opened Wrappers
  import opened Hex
  import opened Codec
  import opened Extractor
  import opened Protocol
  import opened Discovery

  /** A queued command: the frame to send, the ack headers that settle it, and how often it was sent. */
  datatype Job = Job(sendcmd: string, recvcmd: seq<string>, count: nat)

  /** What the gateway publishes. */
  datatype Msg =
    | Publish(topic: string, payload: string)
    | Config(reg: Registration)
    | Send(bytes: seq<Byte>)

  /** The globals of `ezville_loop`: `RESIDUE`, `DISCOVERY_MODE`, `HOMESTATE`, `DISCOVERY_LIST`, `CMD_QUEUE`. */
  datatype Gw = Gw(
    residue: string,
    discovery: bool,
    home: map<string, string>,
    registered: seq<string>,
    queue: seq<Job>,
    out: seq<Msg>)

  function Init(): Gw {
    Gw("", true, map[], [], [], [])
  }

  function OnOff(on: bool): string {
    if on then "ON" else "OFF"
  }

  // ---------------------------------------------------------------------
  // The publish gate of update_state and update_temperature.

  /** Store `val` under `did + attr`, and publish it iff it differs from the cached value. */
  function Gate(g: Gw, did: string, attr: string, val: string): Gw {
    var key := did + attr;
    if key in g.home && g.home[key] == val then g
    else g.(home := g.home[key := val], out := g.out + [Publish(StateTopic(did, attr), val)])
  }

  /**
   * After the gate the cache holds `val`; exactly one state message is
   * published when the cached value was missing or different, and none
   * otherwise; nothing else changes.
   */
  lemma GateSpec(g: Gw, did: string, attr: string, val: string)
    ensures var r := Gate(g, did, attr, val);
      var changed := !(did + attr in g.home && g.home[did + attr] == val);
      && r.home == g.home[did + attr := val]
      && r.out == g.out + (if changed then [Publish(StateTopic(did, attr), val)] else [])
      && r.residue == g.residue && r.discovery == g.discovery
      && r.registered == g.registered && r.queue == g.queue
  {
    if did + attr in g.home && g.home[did + attr] == val {
      assert g.home[did + attr := val] == g.home;
    }
  }

  /** Repeating a value changes neither the cache nor the output. */
  lemma GateIdempotent(g: Gw, did: string, attr: string, val: string)
    ensures Gate(Gate(g, did, attr, val), did, attr, val) == Gate(g, did, attr, val)
  {
  }

  /** The gate for one key leaves every other key's cache entry alone. */
  lemma GateOtherKeys(g: Gw, did: string, attr: string, val: string, key: string)
    requires key != did + attr
    ensures (key in Gate(g, did, attr, val).home) == (key in g.home)
    ensures key in g.home ==> Gate(g, did, attr, val).home[key] == g.home[key]
  {
  }

  /** `update_state`: the `power` attribute of one device. */
  function UpdateState(g: Gw, device: string, id1: nat, id2: nat, onoff: string): Gw {
    Gate(g, DeviceId(device, id1, id2), "power", onoff)
  }

  /**
   * `update_state` for one device leaves the cached attributes of every
   * other device, and its own other attributes, alone.
   */
  lemma UpdateStateIndependent(g: Gw, d1: string, a1: nat, b1: nat, onoff: string,
                               d2: string, a2: nat, b2: nat, attr: string)
    requires IsFamily(d1) && IsFamily(d2) && IsAttr(attr)
    requires (d1, a1, b1, "power") != (d2, a2, b2, attr)
    ensures var key := DeviceId(d2, a2, b2) + attr;
      && (key in UpdateState(g, d1, a1, b1, onoff).home) == (key in g.home)
      && (key in g.home ==> UpdateState(g, d1, a1, b1, onoff).home[key] == g.home[key])
  {
    var key := DeviceId(d2, a2, b2) + attr;
    if key == DeviceId(d1, a1, b1) + "power" {
      KeyInjective(d1, a1, b1, "power", d2, a2, b2, attr);
    }
    GateOtherKeys(g, DeviceId(d1, a1, b1), "power", onoff, key);
  }

  /**
   * `update_temperature`: the current and the target temperature, each as
   * two upper-case hex digits, each through its own gate.
   */
  function UpdateTemperature(g: Gw, device: string, id1: nat, id2: nat, cur: Byte, target: Byte): Gw {
    var did := DeviceId(device, id1, id2);
    Gate(Gate(g, did, "curTemp", Hex2(cur)), did, "setTemp", Hex2(target))
  }

  /** The two temperatures are gated independently, each against the value cached before the call. */
  lemma TemperatureGates(g: Gw, device: string, id1: nat, id2: nat, cur: Byte, target: Byte)
    ensures var did := DeviceId(device, id1, id2);
      var r := UpdateTemperature(g, device, id1, id2, cur, target);
      var curChanged := !(did + "curTemp" in g.home && g.home[did + "curTemp"] == Hex2(cur));
      var setChanged := !(did + "setTemp" in g.home && g.home[did + "setTemp"] == Hex2(target));
      && r.home == g.home[did + "curTemp" := Hex2(cur)][did + "setTemp" := Hex2(target)]
      && r.out == g.out
           + (if curChanged then [Publish(StateTopic(did, "curTemp"), Hex2(cur))] else [])
           + (if setChanged then [Publish(StateTopic(did, "setTemp"), Hex2(target))] else [])
  {
    var did := DeviceId(device, id1, id2);
    var g1 := Gate(g, did, "curTemp", Hex2(cur));
    GateSpec(g, did, "curTemp", Hex2(cur));
    GateSpec(g1, did, "setTemp", Hex2(target));
    assert (did + "setTemp")[|did|] != (did + "curTemp")[|did|];
    GateOtherKeys(g, did, "curTemp", Hex2(cur), did + "setTemp");
  }

  // ---------------------------------------------------------------------
  // Discovery payloads and the registry.

  /** Registering a device adds its name to the list and publishes its discovery payload. */
  function Register(g: Gw, device: string, id1: nat, id2: nat): Gw
    requires IsFamily(device)
  {
    g.(registered := g.registered + [DeviceId(device, id1, id2)],
       out := g.out + [Config(MqttDiscovery(Template(device, DeviceId(device, id1, id2))))])
  }

  // ---------------------------------------------------------------------
  // Frames from the adapter.

  /**
   * One decoded device: in discovery mode an unlisted device is
   * registered; otherwise its state goes through the gate.
   */
  function ApplyObs(g: Gw, o: Obs): Gw {
    match o
    case LightObs(rid, id, on) =>
      if g.discovery && DeviceId("light", rid, id) !in g.registered then Register(g, "light", rid, id)
      else UpdateState(g, "light", rid, id, OnOff(on))
    case ThermoObs(rid, on, cur, target) =>
      if g.discovery && DeviceId("thermostat", rid, 1) !in g.registered then Register(g, "thermostat", rid, 1)
      else UpdateTemperature(UpdateState(g, "thermostat", rid, 1, OnOff(on)), "thermostat", rid, 1, cur, target)
  }

  function ApplyAll(g: Gw, obs: seq<Obs>): Gw
    decreases |obs|
  {
    if obs == [] then g else ApplyAll(ApplyObs(g, obs[0]), obs[1..])
  }

  /** `QUEUE.remove(que)` for the first job whose ack headers contain `head`. */
  function RemoveAck(q: seq<Job>, head: string): seq<Job> {
    if q == [] then []
    else if head in q[0].recvcmd then q[1..]
    else [q[0]] + RemoveAck(q[1..], head)
  }

  predicate Settles(j: Job, head: string) {
    head in j.recvcmd
  }

  /** When no job is settled by the header, ack removal leaves the queue unchanged. */
  lemma {:induction false} RemoveAckNone(q: seq<Job>, head: string)
    requires forall j :: 0 <= j < |q| ==> !Settles(q[j], head)
    ensures RemoveAck(q, head) == q
  {
    if q != [] {
      assert !Settles(q[0], head);
      forall j | 0 <= j < |q| - 1
        ensures !Settles(q[1..][j], head)
      {
        assert q[1..][j] == q[j + 1];
      }
      RemoveAckNone(q[1..], head);
    }
  }

  /** Ack removal deletes exactly the first job the header settles and keeps the others in order. */
  lemma {:induction false} RemoveAckFirst(q: seq<Job>, head: string, i: nat)
    requires i < |q| && Settles(q[i], head)
    requires forall j :: 0 <= j < i ==> !Settles(q[j], head)
    ensures RemoveAck(q, head) == q[..i] + q[i + 1..]
  {
    if i > 0 {
      assert !Settles(q[0], head);
      forall j | 0 <= j < i - 1
        ensures !Settles(q[1..][j], head)
      {
        assert q[1..][j] == q[j + 1];
      }
      RemoveAckFirst(q[1..], head, i - 1);
      assert q[1..][..i - 1] + q[1..][i..] == q[1..i] + q[i + 1..];
      assert [q[0]] + q[1..i] == q[..i];
    }
  }

  /**
   * One accepted frame: in normal mode a matching job leaves the queue
   * first; then every decoded device is applied in order.
   */
  function HandleFrame(g: Gw, p: string): Gw
    requires IsFrame(p)
  {
    if !Accepted(p) then g
    else
      var g1 := if g.discovery then g else g.(queue := RemoveAck(g.queue, p[..8]));
      ApplyAll(g1, Decode(p))
  }

  function ApplyFrames(g: Gw, fs: seq<string>): Gw
    requires forall i :: 0 <= i < |fs| ==> IsFrame(fs[i])
    decreases |fs|
  {
    if fs == [] then g else ApplyFrames(HandleFrame(g, fs[0]), fs[1..])
  }

  /**
   * One pass of `EW11_process` over the residue and the new data, in the
   * corrected reading that clears `RESIDUE` once it is taken into the
   * text.  The code as written keeps a residue through a pass that
   * handles no frame (`Extractor.PassAsWritten`, `Extractor.StaleResidue`).
   */
  function Receive(g: Gw, data: string): Gw
    requires IsHexText(g.residue) && IsHexText(data)
  {
    HexJoin(g.residue, data);
    var pass := Extract(g.residue + data);
    ApplyFrames(g, pass.frames).(residue := pass.residue)
  }

  /** Decoded devices never touch the queue. */
  lemma {:induction false} ApplyAllQueue(g: Gw, obs: seq<Obs>)
    ensures ApplyAll(g, obs).queue == g.queue
    decreases |obs|
  {
    if obs != [] {
      ApplyObsQueue(g, obs[0]);
      ApplyAllQueue(ApplyObs(g, obs[0]), obs[1..]);
    }
  }

  lemma ApplyObsQueue(g: Gw, o: Obs)
    ensures ApplyObs(g, o).queue == g.queue
  {
    match o
    case LightObs(rid, id, on) =>
    case ThermoObs(rid, on, cur, target) =>
  }

  /** In normal mode a frame changes the queue only by ack removal, and only when it passes the filter. */
  lemma HandleFrameQueue(g: Gw, p: string)
    requires IsFrame(p) && !g.discovery
    ensures HandleFrame(g, p).queue == if Accepted(p) then RemoveAck(g.queue, p[..8]) else g.queue
  {
    if Accepted(p) {
      ApplyAllQueue(g.(queue := RemoveAck(g.queue, p[..8])), Decode(p));
    }
  }

  /** What a pass may change: the list only grows, and in discovery mode the queue is left alone. */
  predicate Evolves(g: Gw, h: Gw) {
    && h.discovery == g.discovery
    && |g.registered| <= |h.registered| && h.registered[..|g.registered|] == g.registered
    && (g.discovery ==> h.queue == g.queue)
    && (!g.discovery ==> h.registered == g.registered)
  }

  lemma EvolvesTrans(g: Gw, h: Gw, k: Gw)
    requires Evolves(g, h) && Evolves(h, k)
    ensures Evolves(g, k)
  {
    assert k.registered[..|g.registered|] == k.registered[..|h.registered|][..|g.registered|];
  }

  lemma ApplyObsEvolves(g: Gw, o: Obs)
    ensures Evolves(g, ApplyObs(g, o))
  {
    match o
    case LightObs(rid, id, on) =>
    case ThermoObs(rid, on, cur, target) =>
  }

  lemma {:induction false} ApplyAllEvolves(g: Gw, obs: seq<Obs>)
    ensures Evolves(g, ApplyAll(g, obs))
    decreases |obs|
  {
    if obs != [] {
      ApplyObsEvolves(g, obs[0]);
      ApplyAllEvolves(ApplyObs(g, obs[0]), obs[1..]);
      EvolvesTrans(g, ApplyObs(g, obs[0]), ApplyAll(g, obs));
    }
  }

  lemma {:induction false} ApplyFramesEvolves(g: Gw, fs: seq<string>)
    requires forall i :: 0 <= i < |fs| ==> IsFrame(fs[i])
    ensures Evolves(g, ApplyFrames(g, fs))
    decreases |fs|
  {
    if fs != [] {
      var h := HandleFrame(g, fs[0]);
      if Accepted(fs[0]) {
        var g1 := if g.discovery then g else g.(queue := RemoveAck(g.queue, fs[0][..8]));
        ApplyAllEvolves(g1, Decode(fs[0]));
      }
      ApplyFramesEvolves(h, fs[1..]);
      EvolvesTrans(g, h, ApplyFrames(g, fs));
    }
  }

  /**
   * A pass keeps the mode, never shrinks the discovery list, touches the
   * queue only in normal mode and the list only in discovery mode, and
   * leaves as residue either nothing or an incomplete tail of its input.
   */
  lemma ReceiveEvolves(g: Gw, data: string)
    requires IsHexText(g.residue) && IsHexText(data)
    ensures Evolves(g, Receive(g, data))
    ensures var r := Receive(g, data).residue;
      r == "" || (IsPartial(r) && IsSuffix(r, g.residue + data))
  {
    HexJoin(g.residue, data);
    ApplyFramesEvolves(g, Extract(g.residue + data).frames);
  }

  /** Registering only unlisted names keeps the discovery list free of duplicates. */
  predicate NoDup(s: seq<string>) {
    forall i, j :: 0 <= i < j < |s| ==> s[i] != s[j]
  }

  lemma ApplyObsNoDup(g: Gw, o: Obs)
    requires NoDup(g.registered)
    ensures NoDup(ApplyObs(g, o).registered)
  {
    match o
    case LightObs(rid, id, on) =>
    case ThermoObs(rid, on, cur, target) =>
  }

  lemma {:induction false} ApplyAllNoDup(g: Gw, obs: seq<Obs>)
    requires NoDup(g.registered)
    ensures NoDup(ApplyAll(g, obs).registered)
    decreases |obs|
  {
    if obs != [] {
      ApplyObsNoDup(g, obs[0]);
      ApplyAllNoDup(ApplyObs(g, obs[0]), obs[1..]);
    }
  }

  /**
   * In discovery mode the first sighting of a light registers it with
   * exactly one discovery payload; a later sighting publishes its state
   * through the gate instead.
   */
  lemma LightSighting(g: Gw, rid: nat, id: nat, on: bool)
    requires g.discovery
    ensures var did := DeviceId("light", rid, id);
      var r := ApplyObs(g, LightObs(rid, id, on));
      && (did !in g.registered ==>
            r.registered == g.registered + [did] && r.home == g.home
            && r.out == g.out + [Config(MqttDiscovery(Template("light", DeviceId("light", rid, id))))])
      && (did in g.registered ==> r == UpdateState(g, "light", rid, id, OnOff(on)))
  {
  }

  /**
   * The same routing for a thermostat, always numbered `_01`: in discovery
   * mode the first sighting registers it and publishes exactly one
   * discovery payload; a listed thermostat goes through `update_state`
   * and then `update_temperature`.
   */
  lemma ThermostatSighting(g: Gw, rid: nat, on: bool, cur: Byte, target: Byte)
    requires g.discovery
    ensures var did := DeviceId("thermostat", rid, 1);
      var r := ApplyObs(g, ThermoObs(rid, on, cur, target));
      && (did !in g.registered ==>
            r.registered == g.registered + [did] && r.home == g.home && r.queue == g.queue
            && r.out == g.out + [Config(MqttDiscovery(Template("thermostat", did)))])
      && (did in g.registered ==>
            r == UpdateTemperature(UpdateState(g, "thermostat", rid, 1, OnOff(on)), "thermostat", rid, 1, cur, target))
  {
  }

  // The end-to-end view: frames on the wire reach the handler unchanged.

  /** Whole valid frames sent back to back, with no residue pending, are all handled, in order. */
  lemma ReceiveFrames(g: Gw, fs: seq<string>)
    requires g.residue == "" && AllAccepted(IsValid, fs)
    ensures IsHexText(Concat(fs))
    ensures Receive(g, Concat(fs)) == ApplyFrames(g, fs).(residue := "")
  {
    ExtractFrames(fs);
    assert g.residue + Concat(fs) == Concat(fs);
  }

  /** `EW11_process` called once per adapter message, each a `hex().upper()` text, `RESIDUE` carried between calls. */
  function ReceiveAll(g: Gw, msgs: seq<string>): Gw
    requires IsHexText(g.residue) && forall i :: 0 <= i < |msgs| ==> IsHexText(msgs[i])
    decreases |msgs|
  {
    if msgs == [] then g
    else
      var g1 := Receive(g, msgs[0]);
      assert IsHexText(g1.residue);
      ReceiveAll(g1, msgs[1..])
  }

  /**
   * Valid frames sent back to back and delivered in any number of
   * messages, each carrying whole bytes, are all handled, in order, and no
   * residue remains: how the stream is cut does not matter.
   */
  lemma ReceiveReads(g: Gw, fs: seq<string>, msgs: seq<string>)
    requires g.residue == "" && AllAccepted(IsValid, fs)
    requires forall i :: 0 <= i < |msgs| ==> IsHexText(msgs[i]) && |msgs[i]| % 2 == 0
    requires Concat(msgs) == Concat(fs)
    ensures ReceiveAll(g, msgs) == ApplyFrames(g, fs).(residue := "")
  {
    ReceiveStream(g, fs, msgs);
  }

  /** The invariant of the fold: the residue and the messages still to come spell out the frames still to come. */
  lemma {:induction false} ReceiveStream(g: Gw, gs: seq<string>, msgs: seq<string>)
    requires AllAccepted(IsValid, gs) && IsHexText(g.residue)
    requires forall i :: 0 <= i < |msgs| ==> IsHexText(msgs[i]) && |msgs[i]| % 2 == 0
    requires g.residue + Concat(msgs) == Concat(gs) && |g.residue| % 2 == 0
    requires g.residue == "" || (gs != [] && |g.residue| < |gs[0]|)
    ensures ReceiveAll(g, msgs) == ApplyFrames(g, gs).(residue := "")
    decreases |msgs|
  {
    if msgs == [] {
      if gs != [] {
        ConcatFirst(IsValid, gs);
        assert false;
      }
    } else {
      var m, r := ReceiveFront(g, gs, msgs);
      var g1 := ReceiveStep(g, msgs[0], gs[..m], r);
      assert ReceiveAll(g, msgs) == ReceiveAll(g1, msgs[1..]);
      ReceiveStream(g1, gs[m..], msgs[1..]);
      FoldStep(g, gs, m, r);
    }
  }

  /** One message whose pass yields `frames` and `res`. */
  lemma ReceiveStep(g: Gw, data: string, frames: seq<string>, res: string) returns (g1: Gw)
    requires IsHexText(g.residue + data) && IsHexText(g.residue) && IsHexText(data)
    requires Scan(IsValid, g.residue + data, 0, "") == Pass(frames, res)
    requires AllAccepted(IsValid, frames)
    ensures g1 == ApplyFrames(g, frames).(residue := res) && Receive(g, data) == g1
  {
    g1 := ApplyFrames(g, frames).(residue := res);
  }

  /** Handling the frames of the first message, then the rest after it, is handling them all. */
  lemma FoldStep(g: Gw, gs: seq<string>, m: nat, r: string)
    requires m <= |gs| && AllAccepted(IsValid, gs[..m]) && AllAccepted(IsValid, gs[m..])
    requires AllAccepted(IsValid, gs)
    ensures ApplyFrames(ApplyFrames(g, gs[..m]).(residue := r), gs[m..]).(residue := "")
      == ApplyFrames(g, gs).(residue := "")
  {
    var g1 := ApplyFrames(g, gs[..m]);
    ApplyFramesResidue(g1, gs[m..], r);
    FoldSplit(g, gs, m);
  }

  lemma FoldSplit(g: Gw, gs: seq<string>, m: nat)
    requires m <= |gs| && AllAccepted(IsValid, gs[..m]) && AllAccepted(IsValid, gs[m..])
    requires AllAccepted(IsValid, gs)
    ensures ApplyFrames(ApplyFrames(g, gs[..m]), gs[m..]) == ApplyFrames(g, gs)
  {
    SplitJoin(gs, m);
    ApplyFramesAppend(g, gs[..m], gs[m..]);
  }

  lemma SplitJoin<T>(s: seq<T>, m: nat)
    requires m <= |s|
    ensures s[..m] + s[m..] == s
  {
  }

  /** The first message of the fold completes the first `m` frames and leaves the rest of the next one as the residue. */
  lemma ReceiveFront(g: Gw, gs: seq<string>, msgs: seq<string>) returns (m: nat, r: string)
    requires AllAccepted(IsValid, gs) && IsHexText(g.residue) && msgs != []
    requires forall i :: 0 <= i < |msgs| ==> IsHexText(msgs[i]) && |msgs[i]| % 2 == 0
    requires g.residue + Concat(msgs) == Concat(gs) && |g.residue| % 2 == 0
    ensures IsHexText(g.residue + msgs[0]) && IsHexText(msgs[0])
    ensures m <= |gs| && AllAccepted(IsValid, gs[..m]) && AllAccepted(IsValid, gs[m..])
    ensures Scan(IsValid, g.residue + msgs[0], 0, "") == Pass(gs[..m], r)
    ensures IsHexText(r) && r + Concat(msgs[1..]) == Concat(gs[m..]) && |r| % 2 == 0
    ensures r == "" || (gs[m..] != [] && |r| < |gs[m..][0]|)
  {
    var t := g.residue + msgs[0];
    var u := Concat(msgs[1..]);
    MessageSplit(g.residue, msgs);
    m, r := ScanStreamFront(IsValid, gs, t, u);
    FrontRest(gs, m, r, u);
  }

  lemma FrontRest(gs: seq<string>, m: nat, r: string, u: string)
    requires AllAccepted(IsValid, gs) && m <= |gs| && r + u == Concat(gs[m..])
    ensures AllAccepted(IsValid, gs[..m]) && AllAccepted(IsValid, gs[m..]) && IsHexText(r)
  {
    AcceptedSlices(gs, m);
    HexConcat(IsValid, gs[m..]);
    HexPrefix(r, u);
  }

  lemma MessageSplit(res: string, msgs: seq<string>)
    requires IsHexText(res) && |res| % 2 == 0 && msgs != []
    requires forall i :: 0 <= i < |msgs| ==> IsHexText(msgs[i]) && |msgs[i]| % 2 == 0
    ensures IsHexText(msgs[0]) && IsHexText(res + msgs[0]) && |res + msgs[0]| % 2 == 0
    ensures (res + msgs[0]) + Concat(msgs[1..]) == res + Concat(msgs)
  {
    assert Concat(msgs) == msgs[0] + Concat(msgs[1..]);
    assert IsHexText(msgs[0]) && |msgs[0]| % 2 == 0;
    EvenSum(|res|, |msgs[0]|);
    HexJoin(res, msgs[0]);
  }

  lemma EvenSum(a: nat, b: nat)
    requires a % 2 == 0 && b % 2 == 0
    ensures (a + b) % 2 == 0
  {
  }

  lemma AcceptedSlices(gs: seq<string>, m: nat)
    requires AllAccepted(IsValid, gs) && m <= |gs|
    ensures AllAccepted(IsValid, gs[..m]) && AllAccepted(IsValid, gs[m..])
  {
    forall i | 0 <= i < |gs| - m
      ensures IsFrame(gs[m..][i]) && IsValid(gs[m..][i])
    {
      assert gs[m..][i] == gs[m + i];
    }
  }

  /** The frame handler neither reads nor writes `RESIDUE`. */
  lemma ApplyObsResidue(g: Gw, o: Obs, x: string)
    ensures ApplyObs(g.(residue := x), o) == ApplyObs(g, o).(residue := x)
  {
    match o
    case LightObs(rid, id, on) =>
      GateResidue(g, DeviceId("light", rid, id), "power", OnOff(on), x);
    case ThermoObs(rid, on, cur, target) =>
      ThermoResidue(g, rid, on, cur, target, x);
  }

  lemma ThermoResidue(g: Gw, rid: nat, on: bool, cur: Byte, target: Byte, x: string)
    ensures var o := ThermoObs(rid, on, cur, target);
      ApplyObs(g.(residue := x), o) == ApplyObs(g, o).(residue := x)
  {
    var did := DeviceId("thermostat", rid, 1);
    var g1 := Gate(g, did, "power", OnOff(on));
    var g2 := Gate(g1, did, "curTemp", Hex2(cur));
    GateResidue(g, did, "power", OnOff(on), x);
    GateResidue(g1, did, "curTemp", Hex2(cur), x);
    GateResidue(g2, did, "setTemp", Hex2(target), x);
  }

  lemma GateResidue(g: Gw, did: string, attr: string, val: string, x: string)
    ensures Gate(g.(residue := x), did, attr, val) == Gate(g, did, attr, val).(residue := x)
  {
  }

  lemma {:induction false} ApplyAllResidue(g: Gw, obs: seq<Obs>, x: string)
    ensures ApplyAll(g.(residue := x), obs) == ApplyAll(g, obs).(residue := x)
    decreases |obs|
  {
    if obs != [] {
      ApplyObsResidue(g, obs[0], x);
      ApplyAllResidue(ApplyObs(g, obs[0]), obs[1..], x);
    }
  }

  lemma {:induction false} ApplyFramesResidue(g: Gw, fs: seq<string>, x: string)
    requires forall i :: 0 <= i < |fs| ==> IsFrame(fs[i])
    ensures ApplyFrames(g.(residue := x), fs) == ApplyFrames(g, fs).(residue := x)
    decreases |fs|
  {
    if fs != [] {
      var p := fs[0];
      if Accepted(p) {
        var g1 := if g.discovery then g else g.(queue := RemoveAck(g.queue, p[..8]));
        ApplyAllResidue(g1, Decode(p), x);
      }
      assert HandleFrame(g.(residue := x), p) == HandleFrame(g, p).(residue := x);
      ApplyFramesResidue(HandleFrame(g, p), fs[1..], x);
    }
  }

  /** Handling `a + b` is handling `a`, then `b`. */
  lemma {:induction false} ApplyFramesAppend(g: Gw, a: seq<string>, b: seq<string>)
    requires forall i :: 0 <= i < |a| ==> IsFrame(a[i])
    requires forall i :: 0 <= i < |b| ==> IsFrame(b[i])
    ensures forall i :: 0 <= i < |a + b| ==> IsFrame((a + b)[i])
    ensures ApplyFrames(g, a + b) == ApplyFrames(ApplyFrames(g, a), b)
    decreases |a|
  {
    assert forall i :: 0 <= i < |a + b| ==> IsFrame((a + b)[i]) by {
      forall i | 0 <= i < |a + b| ensures IsFrame((a + b)[i]) {
        if i < |a| { assert (a + b)[i] == a[i]; } else { assert (a + b)[i] == b[i - |a|]; }
      }
    }
    if a != [] {
      assert (a + b)[0] == a[0] && (a + b)[1..] == a[1..] + b;
      ApplyFramesAppend(HandleFrame(g, a[0]), a[1..], b);
    } else {
      assert a + b == b;
    }
  }

  // ---------------------------------------------------------------------
  // The command queue.

  /** One step of `send_to_elfin`: pop the head, send it, and re-append it while its count is below 5. */
  function SendStep(g: Gw): Gw {
    if g.discovery || g.queue == [] then g
    else
      var j := g.queue[0];
      var rest := g.queue[1..];
      match ParseBytes(j.sendcmd)
      case None => g.(queue := rest)
      case Some(bs) =>
        g.(queue := rest + (if j.count < 5 then [j.(count := j.count + 1)] else []),
           out := g.out + [Send(bs)])
  }

  function Drain(g: Gw, n: nat): Gw
    decreases n
  {
    if n == 0 then g else Drain(SendStep(g), n - 1)
  }

  /** How many more sends the queue may still make: a job with count `c` is sent at most `6 - c` more times. */
  function Budget(q: seq<Job>): nat {
    if q == [] then 0 else Budget(q[..|q| - 1]) + (if q[|q| - 1].count <= 5 then 6 - q[|q| - 1].count else 1)
  }

  lemma {:induction false} BudgetAppend(p: seq<Job>, q: seq<Job>)
    ensures Budget(p + q) == Budget(p) + Budget(q)
    decreases |q|
  {
    if q == [] {
      assert p + q == p;
    } else {
      assert (p + q)[..|p + q| - 1] == p + q[..|q| - 1];
      BudgetAppend(p, q[..|q| - 1]);
    }
  }

  function Sends(out: seq<Msg>): nat {
    if out == [] then 0 else Sends(out[..|out| - 1]) + (if out[|out| - 1].Send? then 1 else 0)
  }

  lemma SendsAppend(out: seq<Msg>, m: Msg)
    ensures Sends(out + [m]) == Sends(out) + (if m.Send? then 1 else 0)
  {
    assert (out + [m])[..|out|] == out;
  }

  /** Every job's count is at most 5 and its command is hex text the adapter accepts. */
  predicate Sendable(q: seq<Job>) {
    forall i :: 0 <= i < |q| ==> q[i].count <= 5 && ParseBytes(q[i].sendcmd).Some?
  }

  /**
   * In normal mode each step on a non-empty queue sends exactly one frame,
   * the head job's bytes, and uses up exactly one unit of budget; the
   * queue stays sendable.
   */
  lemma SendStepBudget(g: Gw)
    requires !g.discovery && g.queue != [] && Sendable(g.queue)
    ensures var r := SendStep(g);
      && r.out == g.out + [Send(ParseBytes(g.queue[0].sendcmd).value)]
      && Budget(r.queue) + 1 == Budget(g.queue)
      && Sendable(r.queue)
  {
    var j := g.queue[0];
    var rest := g.queue[1..];
    assert g.queue == [j] + rest;
    BudgetAppend([j], rest);
    assert [j][..0] == [];
    var tail := if j.count < 5 then [j.(count := j.count + 1)] else [];
    BudgetAppend(rest, tail);
    if j.count < 5 {
      assert [j.(count := j.count + 1)][..0] == [];
    }
    var r := SendStep(g);
    assert r.queue == rest + tail;
    forall i | 0 <= i < |r.queue|
      ensures r.queue[i].count <= 5 && ParseBytes(r.queue[i].sendcmd).Some?
    {
      if i < |rest| {
        assert r.queue[i] == g.queue[i + 1];
      }
    }
  }

  /**
   * Draining a sendable queue in normal mode makes exactly
   * `min(n, Budget)` sends, after which the queue is empty if the budget
   * is spent.
   */
  lemma {:induction false} DrainSends(g: Gw, n: nat)
    requires !g.discovery && Sendable(g.queue)
    ensures var r := Drain(g, n);
      && Sends(r.out) == Sends(g.out) + (if n <= Budget(g.queue) then n else Budget(g.queue))
      && (n >= Budget(g.queue) ==> r.queue == [])
    decreases n
  {
    if n > 0 {
      if g.queue == [] {
        DrainIdle(g, n);
      } else {
        SendStepBudget(g);
        SendsAppend(g.out, Send(ParseBytes(g.queue[0].sendcmd).value));
        DrainSends(SendStep(g), n - 1);
      }
    } else if g.queue != [] {
      BudgetPositive(g.queue);
    }
  }

  lemma {:induction false} BudgetPositive(q: seq<Job>)
    requires q != []
    ensures Budget(q) > 0
  {
  }

  lemma {:induction false} DrainIdle(g: Gw, n: nat)
    requires g.queue == []
    ensures Drain(g, n) == g
    decreases n
  {
    if n > 0 {
      DrainIdle(g, n - 1);
    }
  }

  /** A fresh job alone in the queue is sent six times, with counts 0 to 5, and then dropped. */
  lemma SentSixTimes(g: Gw, cmd: string, acks: seq<string>)
    requires !g.discovery && g.queue == [Job(cmd, acks, 0)] && ParseBytes(cmd).Some?
    ensures Sends(Drain(g, 7).out) == Sends(g.out) + 6
    ensures Drain(g, 7).queue == []
  {
    assert Sendable(g.queue);
    assert g.queue[..0] == [];
    assert Budget(g.queue) == 6;
    DrainSends(g, 7);
  }

  /** In discovery mode nothing is sent and the queue is left alone. */
  lemma SendStepDiscovery(g: Gw)
    requires g.discovery
    ensures SendStep(g) == g
  {
  }

  // ---------------------------------------------------------------------
  // The end of the discovery period.

  /** `if time.time() > target_time: DISCOVERY_MODE = False`, with the clock as a parameter. */
  function Advance(g: Gw, now: int, deadline: int): Gw {
    if now > deadline then g.(discovery := false) else g
  }

  /** Discovery mode only ever ends: once over, it never resumes. */
  lemma AdvanceOneWay(g: Gw, now: int, deadline: int)
    ensures Advance(g, now, deadline).discovery ==> g.discovery
    ensures now > deadline ==> !Advance(g, now, deadline).discovery
  {
  }
}
