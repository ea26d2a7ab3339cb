/**
 * The gateway as an object: the globals of `ezville_loop` are fields that
 * the handlers update in place, with the source's loops.  Each method is
 * proved to move the fields exactly as its `Engine` (or `Commands`)
 * counterpart moves a `Gw` value, so every lemma about those functions
 * holds for the object.  Like them, it follows the corrected readings of
 * the residue, the power bit and the cached target; the code as written
 * is modelled beside them (`Extractor.PassAsWritten`,
 * `Protocol.PowerAsWritten`, `Commands.SetTempAsWritten`).
 */
module Gateway {
  import opened Wrappers
  import opened Hex
  import opened Codec
  import opened Extractor
  import opened Protocol
  import opened Discovery
  import Engine
  import opened Commands

  /** A scan from cursor `k`, with `RESIDUE` holding `res`, applied to `g`: the rest of a pass. */
  function Resume(g: Engine.Gw, raw: string, k: nat, res: string): Engine.Gw
    requires IsHexText(raw) && k <= |raw|
  {
    ScanYieldsAccepted(IsValid, raw, k, res);
    var s := Scan(IsValid, raw, k, res);
    Engine.ApplyFrames(g, s.frames).(residue := s.residue)
  }

  lemma ResumeStart(g: Engine.Gw, data: string)
    requires IsHexText(g.residue) && IsHexText(data) && IsHexText(g.residue + data)
    ensures Engine.Receive(g, data) == Resume(g, g.residue + data, 0, "")
  {
  }

  lemma ResumeEnd(g: Engine.Gw, raw: string, res: string)
    requires IsHexText(raw)
    ensures Resume(g, raw, |raw|, res) == g.(residue := res)
  {
  }

  lemma ResumeSkip(g: Engine.Gw, raw: string, k: nat, res: string)
    requires IsHexText(raw) && k < |raw| && Classify(IsValid, raw, k).Skip?
    ensures Resume(g, raw, k, res) == Resume(g, raw, k + 1, res)
  {
  }

  lemma ResumeTail(g: Engine.Gw, raw: string, k: nat, res: string)
    requires IsHexText(raw) && k < |raw| && Classify(IsValid, raw, k).Tail?
    ensures Resume(g, raw, k, res) == g.(residue := raw[k..])
  {
  }

  /** A whole candidate frame at a sync that fails the checksum test: the scan skips one character. */
  lemma ResumeReject(g: Engine.Gw, raw: string, k: nat, res: string, n: nat)
    requires IsHexText(raw) && IsSync(raw, k) && k + 10 <= |raw|
    requires n == FrameLength(raw, k) && k + n <= |raw| && !IsValid(raw[k..k + n])
    ensures Resume(g, raw, k, res) == Resume(g, raw, k + 1, res)
  {
    ClassifyCandidate(IsValid, raw, k, n);
    ResumeSkip(g, raw, k, res);
  }

  /** The source's tests at a sync without a whole frame, as a step of the scan. */
  lemma ClassifyTail(raw: string, k: nat)
    requires IsHexText(raw) && IsSync(raw, k)
    requires k + 10 > |raw| || k + 10 + ByteAt(raw, k + 8) * 2 + 4 > |raw|
    ensures Classify(IsValid, raw, k).Tail?
  {
  }

  lemma ResumeTake(g: Engine.Gw, raw: string, k: nat, res: string, n: nat)
    requires IsHexText(raw) && k < |raw| && Classify(IsValid, raw, k) == Take(n)
    ensures IsFrame(raw[k..k + n])
    ensures Resume(g, raw, k, res) == Resume(Engine.HandleFrame(g, raw[k..k + n]), raw, k + n, "")
  {
    ClassifyCases(IsValid, raw, k);
    var f := raw[k..k + n];
    var rest := Scan(IsValid, raw, k + n, "");
    ScanYieldsAccepted(IsValid, raw, k + n, "");
    ScanTake(IsValid, raw, k, res, n);
    ApplyFramesCons(g, f, rest.frames);
  }

  /** `ResumeTake` with the gateway after the frame given by name. */
  lemma ResumeAfterTake(g0: Engine.Gw, g1: Engine.Gw, raw: string, k: nat, res: string, n: nat, k2: nat)
    requires IsHexText(raw) && k < |raw| && Classify(IsValid, raw, k) == Take(n)
    requires IsFrame(raw[k..k + n]) && g1 == Engine.HandleFrame(g0, raw[k..k + n])
    requires k2 == k + n
    ensures k < k2 <= |raw| && Resume(g0, raw, k, res) == Resume(g1, raw, k2, "")
  {
    ResumeTake(g0, raw, k, res, n);
  }

  /** A whole candidate that passes the checksum test is taken, and it is a frame. */
  lemma CandidateTaken(raw: string, k: nat, n: nat)
    requires IsHexText(raw) && IsSync(raw, k) && k + 10 <= |raw|
    requires n == FrameLength(raw, k) && k + n <= |raw| && IsValid(raw[k..k + n])
    ensures Classify(IsValid, raw, k) == Take(n) && IsFrame(raw[k..k + n])
  {
    ClassifyCandidate(IsValid, raw, k, n);
    CandidateHeader(raw, k, n);
  }

  lemma ApplyFramesCons(g: Engine.Gw, f: string, fs: seq<string>)
    requires IsFrame(f) && forall i :: 0 <= i < |fs| ==> IsFrame(fs[i])
    ensures forall i :: 0 <= i < |[f] + fs| ==> IsFrame(([f] + fs)[i])
    ensures Engine.ApplyFrames(g, [f] + fs) == Engine.ApplyFrames(Engine.HandleFrame(g, f), fs)
  {
    assert ([f] + fs)[0] == f && ([f] + fs)[1..] == fs;
  }

  class Gateway {
    var residue: string
    var discovery: bool
    var home: map<string, string>
    var registered: seq<string>
    var queue: seq<Engine.Job>
    var out: seq<Engine.Msg>

    function Snapshot(): Engine.Gw
      reads this
    {
      Engine.Gw(residue, discovery, home, registered, queue, out)
    }

    /** The start of `ezville_loop`: no residue, discovery mode on, everything empty. */
    constructor ()
      ensures Snapshot() == Engine.Init()
    {
      residue := "";
      discovery := true;
      home := map[];
      registered := [];
      queue := [];
      out := [];
    }

    /** One attribute through the publish gate: store it, and publish it if it changed. */
    method Gate(did: string, attr: string, val: string)
      modifies this
      ensures Snapshot() == Engine.Gate(old(Snapshot()), did, attr, val)
    {
      var key := did + attr;
      if !(key in home && home[key] == val) {
        home := home[key := val];
        out := out + [Engine.Publish(StateTopic(did, attr), val)];
      }
    }

    method UpdateState(device: string, id1: nat, id2: nat, onoff: string)
      modifies this
      ensures Snapshot() == Engine.UpdateState(old(Snapshot()), device, id1, id2, onoff)
    {
      Gate(DeviceId(device, id1, id2), "power", onoff);
    }

    method UpdateTemperature(device: string, id1: nat, id2: nat, cur: Byte, target: Byte)
      modifies this
      ensures Snapshot() == Engine.UpdateTemperature(old(Snapshot()), device, id1, id2, cur, target)
    {
      var did := DeviceId(device, id1, id2);
      Gate(did, "curTemp", Hex2(cur));
      Gate(did, "setTemp", Hex2(target));
    }

    /** Append the device to the discovery list and publish its discovery payload. */
    method Register(device: string, id1: nat, id2: nat)
      requires IsFamily(device)
      modifies this
      ensures Snapshot() == Engine.Register(old(Snapshot()), device, id1, id2)
    {
      var did := DeviceId(device, id1, id2);
      registered := registered + [did];
      out := out + [Engine.Config(MqttDiscovery(Template(device, did)))];
    }

    /** One decoded device: registered on first sight in discovery mode, otherwise gated. */
    method ApplyObs(o: Obs)
      modifies this
      ensures Snapshot() == Engine.ApplyObs(old(Snapshot()), o)
    {
      match o
      case LightObs(rid, id, on) =>
        if discovery && DeviceId("light", rid, id) !in registered {
          Register("light", rid, id);
        } else {
          UpdateState("light", rid, id, Engine.OnOff(on));
        }
      case ThermoObs(rid, on, cur, target) =>
        if discovery && DeviceId("thermostat", rid, 1) !in registered {
          Register("thermostat", rid, 1);
        } else {
          UpdateState("thermostat", rid, 1, Engine.OnOff(on));
          UpdateTemperature("thermostat", rid, 1, cur, target);
        }
    }

    /** `for que in CMD_QUEUE: if head in que['recvcmd']: remove(que); break`. */
    method RemoveAck(head: string)
      modifies this
      ensures Snapshot() == old(Snapshot()).(queue := Engine.RemoveAck(old(queue), head))
    {
      var i := 0;
      while i < |queue| && !Engine.Settles(queue[i], head)
        invariant 0 <= i <= |queue|
        invariant forall j :: 0 <= j < i ==> !Engine.Settles(queue[j], head)
      {
        i := i + 1;
      }
      if i < |queue| {
        Engine.RemoveAckFirst(queue, head, i);
        queue := queue[..i] + queue[i + 1..];
      } else {
        Engine.RemoveAckNone(queue, head);
      }
    }

    /** One valid frame: the filter, ack removal in normal mode, then each decoded device in order. */
    method HandleFrame(p: string)
      requires IsFrame(p)
      modifies this
      ensures Snapshot() == Engine.HandleFrame(old(Snapshot()), p)
    {
      if Accepted(p) {
        if !discovery {
          RemoveAck(p[..8]);
        }
        ApplyAll(Decode(p));
      }
    }

    /** The decoder's loop over the devices of one frame. */
    method ApplyAll(obs: seq<Obs>)
      modifies this
      ensures Snapshot() == Engine.ApplyAll(old(Snapshot()), obs)
    {
      var i := 0;
      while i < |obs|
        invariant 0 <= i <= |obs|
        invariant Engine.ApplyAll(Snapshot(), obs[i..]) == Engine.ApplyAll(old(Snapshot()), obs)
      {
        assert obs[i..][1..] == obs[i + 1..];
        ApplyObs(obs[i]);
        i := i + 1;
      }
    }

    /**
     * `EW11_process(data)`: the cursor loop over the residue and the new
     * data, in the corrected reading where the stored residue is taken
     * into the text and then cleared, so the pass starts with `RESIDUE`
     * empty.  As written, line 247 prepends it and nothing clears it
     * before line 361 (`Extractor.PassAsWritten`).  `RESIDUE` is cleared
     * after each handled frame, and takes the unfinished tail when the
     * loop stops at one.
     */
    method Receive(data: string)
      requires IsHexText(residue) && IsHexText(data)
      modifies this
      ensures Snapshot() == Engine.Receive(old(Snapshot()), data)
    {
      HexJoin(residue, data);
      var raw := residue + data;
      ghost var target := Engine.Receive(old(Snapshot()), data);
      ResumeStart(Snapshot(), data);
      var res := "";
      var k := 0;
      var stop := false;
      while k < |raw| && !stop
        invariant k <= |raw|
        invariant stop ==> target == Snapshot().(residue := res)
        invariant !stop ==> target == Resume(Snapshot(), raw, k, res)
        decreases |raw| - k, if stop then 0 else 1
      {
        k, res, stop := ScanAt(raw, k, res);
      }
      if !stop {
        ResumeEnd(Snapshot(), raw, res);
      }
      residue := res;
    }

    /**
     * One turn of the loop at cursor `k`: skip a character, handle a
     * whole valid frame and jump past it, or keep the unfinished tail and
     * stop.
     */
    method ScanAt(raw: string, k: nat, res: string) returns (k2: nat, res2: string, stop: bool)
      requires IsHexText(raw) && k < |raw|
      modifies this
      ensures stop ==> k2 == k && Resume(old(Snapshot()), raw, k, res) == Snapshot().(residue := res2)
      ensures !stop ==> k < k2 <= |raw| && Resume(old(Snapshot()), raw, k, res) == Resume(Snapshot(), raw, k2, res2)
    {
      k2, res2, stop := k, res, false;
      if k + 2 <= |raw| && raw[k] == 'F' && raw[k + 1] == '7' {
        if k + 10 > |raw| {
          ClassifyTail(raw, k);
          ResumeTail(Snapshot(), raw, k, res);
          res2, stop := raw[k..], true;
        } else {
          var n := 10 + ByteAt(raw, k + 8) * 2 + 4;
          if k + n > |raw| {
            ClassifyTail(raw, k);
            ResumeTail(Snapshot(), raw, k, res);
            res2, stop := raw[k..], true;
          } else {
            k2, res2 := CheckAt(raw, k, res, n);
          }
        }
      } else {
        ResumeSkip(Snapshot(), raw, k, res);
        k2 := k + 1;
      }
    }

    /**
     * A whole candidate frame of length `n` at a sync: handle it and jump
     * past it when it passes the checksum test, otherwise skip one character.
     */
    method CheckAt(raw: string, k: nat, res: string, n: nat) returns (k2: nat, res2: string)
      requires IsHexText(raw) && IsSync(raw, k) && k + 10 <= |raw|
      requires n == FrameLength(raw, k) && k + n <= |raw|
      modifies this
      ensures k < k2 <= |raw| && Resume(old(Snapshot()), raw, k, res) == Resume(Snapshot(), raw, k2, res2)
    {
      var ok := Verdict(raw, k, n);
      if !ok {
        ResumeReject(Snapshot(), raw, k, res, n);
        k2, res2 := k + 1, res;
      } else {
        CandidateTaken(raw, k, n);
        k2, res2 := TakeAt(raw, k, res, n);
      }
    }

    /** Line 272: the candidate frame passes when it equals its own `checksum`. */
    static method Verdict(raw: string, k: nat, n: nat) returns (ok: bool)
      requires k + n <= |raw|
      ensures ok == IsValid(raw[k..k + n])
    {
      var packet := raw[k..k + n];
      var c := ComputeChecksum(packet);
      ok := c == Some(packet);
    }

    /** A whole valid frame of length `n` at cursor `k`: handle it; the scan goes on after it. */
    method TakeAt(raw: string, k: nat, res: string, n: nat) returns (k2: nat, res2: string)
      requires IsHexText(raw) && k < |raw| && Classify(IsValid, raw, k) == Take(n) && IsFrame(raw[k..k + n])
      modifies this
      ensures k < k2 <= |raw| && Resume(old(Snapshot()), raw, k, res) == Resume(Snapshot(), raw, k2, res2)
    {
      ghost var g0 := Snapshot();
      HandleFrame(raw[k..k + n]);
      k2, res2 := k + n, "";
      ResumeAfterTake(g0, Snapshot(), raw, k, res, n, k2);
    }

    /** One call of `send_to_elfin`. */
    method SendToElfin()
      modifies this
      ensures Snapshot() == Engine.SendStep(old(Snapshot()))
    {
      if !discovery && queue != [] {
        var job := queue[0];
        queue := queue[1..];
        var bytes := ParseBytes(job.sendcmd);
        if bytes.Some? {
          out := out + [Engine.Send(bytes.value)];
          if job.count < 5 {
            queue := queue + [job.(count := job.count + 1)];
          }
        }
      }
    }

    /** `HA_process(topics, value)`, with `temp` the result of `int(float(value))`. */
    method HaProcess(topics: seq<string>, value: string, temp: Option<int>) returns (r: Reply)
      modifies this
      ensures r == HaCommand(old(home), topics, value, temp)
      ensures Snapshot() == Commands.HaProcess(old(Snapshot()), topics, value, temp)
    {
      r := HaCommand(home, topics, value, temp);
      if r.Queued? {
        queue := queue + [r.job];
      }
    }

    /** The end of the discovery period, with the clock reading as a parameter. */
    method Advance(now: int, deadline: int)
      modifies this
      ensures Snapshot() == Engine.Advance(old(Snapshot()), now, deadline)
    {
      if now > deadline {
        discovery := false;
      }
    }
  }
}
