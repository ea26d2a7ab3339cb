/**
 * `HA_process` (ezville.py lines 160-242): a command from Home Assistant
 * on `ezville/<device>/<attr>/command` becomes a queued job holding the
 * frame to send and the ack headers that settle it.  The codes come from
 * `RS485_DEVICE`: light power `0E`/`41`/`C1`, thermostat away `36`/`45`
 * and target `36`/`44`/`C4`.
 */
module Commands {
  import opened Wrappers
  import opened Hex
  import opened Codec
  import opened Extractor
  import opened Protocol
  import opened Discovery
  import opened Engine

  /** `str.upper()` on ASCII text. */
  function UpperChar(c: char): char {
    if 'a' <= c <= 'z' then (c as int - 'a' as int + 'A' as int) as char else c
  }

  function Upper(s: string): (u: string)
    ensures |u| == |s| && forall i :: 0 <= i < |s| ==> u[i] == UpperChar(s[i])
  {
    seq(|s|, i requires 0 <= i < |s| => UpperChar(s[i]))
  }

  /** The payload as `HA_process` compares it: `heat` means `ON`, anything else is upper-cased. */
  function Normalize(value: string): string {
    if value == "heat" then "ON" else Upper(value)
  }

  /** What one command message leads to: a job to queue, nothing, or an exception. */
  datatype Reply = Queued(job: Job) | Ignored | Raised

  /** `if sendcmd: QUEUE.append(...)`: a fresh job when `checksum` produced a frame. */
  function Enqueue(sendcmd: Option<string>, recvcmd: seq<string>): Reply {
    match sendcmd
    case None => Ignored
    case Some(c) => Queued(Job(c, recvcmd, 0))
  }

  function Pwr(on: bool): string {
    if on then "01" else "00"
  }

  /** The light power command for room `idx`, light `sid`. */
  function LightCommand(idx: nat, sid: nat, on: bool): Reply {
    Enqueue(Checksum("F70E1" + Dec(idx) + "41" + "030" + Dec(sid) + Pwr(on) + "000000"),
            ["F70E1" + Dec(idx) + "C1"])
  }

  /** The thermostat away command; its ack list `['NULL']` matches no frame. */
  function AwayCommand(idx: nat): Reply {
    Enqueue(Checksum("F7361" + Dec(idx) + "45" + "01010000"), ["NULL"])
  }

  /** The thermostat target command, with the temperature as `"{:02X}".format(t)`. */
  function TargetCommand(idx: nat, t: int): Reply {
    Enqueue(Checksum("F7361" + Dec(idx) + "44" + "01" + Format02X(t) + "0000"),
            ["F7361" + Dec(idx) + "C4"])
  }

  /**
   * The `setTemp` branch as written: the cached target, which
   * `update_temperature` stores as two hex digits, is read back with
   * `int(setTemp)`, in base 10.
   */
  function SetTempAsWritten(cached: Option<string>, idx: nat, t: int): Reply {
    match cached
    case None => Raised
    case Some(s) =>
      match ParseDec(s)
      case None => Raised
      case Some(v) => if t == v then Ignored else TargetCommand(idx, t)
  }

  /** The `setTemp` branch with the cached target read back in base 16, as it was written. */
  function SetTemp(cached: Option<string>, idx: nat, t: int): Reply {
    match cached
    case None => Raised
    case Some(s) =>
      match ParseHex(s)
      case None => Raised
      case Some(v) => if t == v then Ignored else TargetCommand(idx, t)
  }

  function Get(home: map<string, string>, key: string): Option<string> {
    if key in home then Some(home[key]) else None
  }

  /**
   * `HA_process(topics, value)`.  `temp` is `int(float(value))`, `None`
   * when that raises.  Indexing past the end of the topic or of the
   * device name, and `int` of a non-number, raise.  The `setTemp` branch
   * is the corrected `SetTemp`, which reads the cached target in base 16;
   * `SetTempAsWritten` is the code's `int(setTemp)`.
   */
  function HaCommand(home: map<string, string>, topics: seq<string>, value: string, temp: Option<int>): Reply {
    if |topics| < 2 then Raised
    else
      var info := Split(topics[1], '_');
      var device := info[0];
      if !IsFamily(device) then Ignored
      else if |topics| < 3 || |info| < 3 || ParseDec(info[1]).None? || ParseDec(info[2]).None? then Raised
      else
        var key := topics[1] + topics[2];
        var idx := ParseDec(info[1]).value;
        var sid := ParseDec(info[2]).value;
        var v := Normalize(value);
        if key !in home || home[key] == "" || v == home[key] then Ignored
        else if device == "thermostat" then
          if topics[2] == "away" then AwayCommand(idx)
          else if topics[2] == "setTemp" then
            match temp
            case None => Raised
            case Some(t) => SetTemp(Get(home, topics[1] + "setTemp"), idx, t)
          else Ignored
        else LightCommand(idx, sid, v == "ON")
  }

  /** The gateway after one command message: a queued job goes to the tail of the queue. */
  function HaProcess(g: Gw, topics: seq<string>, value: string, temp: Option<int>): Gw {
    Deliver(g, HaCommand(g.home, topics, value, temp))
  }

  /** A reply's effect on the gateway: a queued job goes to the tail of the queue. */
  function Deliver(g: Gw, c: Reply): Gw {
    match c
    case Queued(j) => g.(queue := g.queue + [j])
    case Ignored => g
    case Raised => g
  }

  /** Delivering a reply whose job is sendable keeps a sendable queue sendable and appends at most that job. */
  lemma DeliverQueue(g: Gw, c: Reply)
    requires c.Queued? ==> ParseBytes(c.job.sendcmd).Some? && c.job.count == 0
    ensures var r := Deliver(g, c);
      && r.(queue := g.queue) == g
      && (r.queue == g.queue || (|r.queue| == |g.queue| + 1 && r.queue[..|g.queue|] == g.queue))
      && (Sendable(g.queue) ==> Sendable(r.queue))
  {
    if c.Queued? {
      var r := Deliver(g, c);
      assert r.queue[..|g.queue|] == g.queue;
      assert r.queue[|g.queue|] == c.job;
    }
  }

  // ---------------------------------------------------------------------
  // The commands are frames of the bus protocol.

  /** `checksum` over a header, a length, a payload and a `0000` placeholder builds that frame. */
  lemma ChecksumBuilds(head: string, payload: seq<Byte>)
    requires |head| == 8 && IsHexText(head) && |payload| < 256
    ensures Checksum(head + Hex2(|payload|) + HexBytes(payload) + "0000") == Some(BuildFrame(head, payload))
  {
    var body := head + Hex2(|payload|) + HexBytes(payload);
    var text := head + Hex2(|payload|) + HexBytes(payload) + "0000";
    var f := BuildFrame(head, payload);
    BuildFrameValid(head, payload);
    assert text == body + "0000";
    assert Prefix(text) == body;
    assert Prefix(f) == body;
    SamePrefix(text, f);
  }

  /** `checksum` only looks at the text before the last four characters. */
  lemma SamePrefix(s: string, t: string)
    requires Prefix(s) == Prefix(t)
    ensures Checksum(s) == Checksum(t)
  {
  }

  lemma DecSmall(n: nat)
    requires n < 10
    ensures Dec(n) == [HexChar(n)] && Hex2(n) == "0" + [HexChar(n)]
  {
  }

  lemma HexBytes3(a: Byte, b: Byte, c: Byte)
    ensures HexBytes([a, b, c]) == Hex2(a) + Hex2(b) + Hex2(c)
  {
    assert [a, b, c][..2] == [a, b];
    assert [a, b][..1] == [a];
    HexBytes1(a);
    assert HexBytes([a, b]) == Hex2(a) + Hex2(b);
  }

  lemma HexBytes1(a: Byte)
    ensures HexBytes([a]) == Hex2(a)
  {
    assert [a][..0] == [];
  }

  /**
   * For a room and a light below 10 the light command is the frame with
   * header `F7 0E 1<room> 41` and payload `0<light>`, `01`/`00`, `00`;
   * its ack header is the command's with `C1` for `41`.
   */
  lemma LightCommandFrame(idx: nat, sid: nat, on: bool)
    requires idx < 10 && sid < 10
    ensures var head := "F70E1" + [HexChar(idx)] + "41";
      LightCommand(idx, sid, on) == Queued(Job(BuildFrame(head, [sid, Bit(on), 0]), ["F70E1" + [HexChar(idx)] + "C1"], 0))
  {
    var head := "F70E1" + [HexChar(idx)] + "41";
    var payload: seq<Byte> := [sid, Bit(on), 0];
    assert IsHexText(head);
    DecSmall(idx);
    DecSmall(sid);
    HexBytes3(sid, Bit(on), 0);
    assert Hex2(3) == "03" && Hex2(0) == "00" && Hex2(Bit(on)) == Pwr(on);
    assert "F70E1" + Dec(idx) + "41" + "030" + Dec(sid) + Pwr(on) + "000000"
        == head + Hex2(|payload|) + HexBytes(payload) + "0000";
    ChecksumBuilds(head, payload);
  }

  /**
   * `checksum` takes a light command exactly when its text has an even
   * length: the room and the light number take an even number of decimal
   * digits between them. Room 10 with light 10 is queued; room 10 with
   * light 1, and room 1 with light 10, are not.
   */
  lemma LightQueuedIff(idx: nat, sid: nat, on: bool)
    ensures LightCommand(idx, sid, on).Queued? <==> (|Dec(idx)| + |Dec(sid)|) % 2 == 0
  {
    var q := LightParity(idx, sid, on);
  }

  lemma LightParity(idx: nat, sid: nat, on: bool) returns (q: bool)
    ensures LightCommand(idx, sid, on).Queued? == q && (q <==> (|Dec(idx)| + |Dec(sid)|) % 2 == 0)
  {
    q := QueuedParity(Dec(idx), Dec(sid), on, ["F70E1" + Dec(idx) + "C1"]);
  }

  lemma QueuedParity(x: string, y: string, on: bool, acks: seq<string>) returns (q: bool)
    requires AllDecDigits(x) && AllDecDigits(y)
    ensures q == Enqueue(Checksum("F70E1" + x + "41" + "030" + y + Pwr(on) + "000000"), acks).Queued?
    ensures q <==> (|x| + |y|) % 2 == 0
  {
    q := Enqueue(Checksum("F70E1" + x + "41" + "030" + y + Pwr(on) + "000000"), acks).Queued?;
    DecHex(x);
    DecHex(y);
    assert IsHexText("F70E1") && IsHexText("41") && IsHexText("030") && IsHexText(Pwr(on)) && IsHexText("000000");
    var text := "F70E1" + x + "41" + "030" + y + Pwr(on) + "000000";
    ChecksumParity("F70E1", x, "41", "030", y, Pwr(on), "000000");
    var len := |Prefix(text)|;
    assert len == 14 + (|x| + |y|);
    EvenShift(len, 14, |x| + |y|);
  }

  /** A hex text of seven pieces, the last one the four-digit trailer slot, passes `checksum` iff the rest has even length. */
  lemma ChecksumParity(a: string, x: string, b: string, c: string, y: string, d: string, e: string)
    requires IsHexText(a) && IsHexText(x) && IsHexText(b) && IsHexText(c) && IsHexText(y)
    requires IsHexText(d) && IsHexText(e) && |e| >= 4
    ensures var text := a + x + b + c + y + d + e;
      && |Prefix(text)| == |text| - 4
      && (Checksum(text).Some? <==> |Prefix(text)| % 2 == 0)
  {
    var text := a + x + b + c + y + d + e;
    HexJoin(a, x);
    HexJoin(a + x, b);
    HexJoin(a + x + b, c);
    HexJoin(a + x + b + c, y);
    HexJoin(a + x + b + c + y, d);
    HexJoin(a + x + b + c + y + d, e);
    var p := Prefix(text);
    assert p == text[..|text| - 4];
    assert AllHexDigits(p) by {
      forall i | 0 <= i < |p| ensures IsHexDigit(p[i]) {
        assert p[i] == text[i];
      }
    }
  }

  lemma EvenShift(m: nat, k: nat, n: nat)
    requires m == k + n && k % 2 == 0
    ensures m % 2 == n % 2
  {
  }

  /**
   * For rooms 10 and up a queued light command is never settled: its ack
   * header has at least nine characters, and the handler compares the
   * first eight characters of each frame.
   */
  lemma LightWideRoomUnacked(idx: nat, sid: nat, on: bool, head: string)
    requires 10 <= idx && |head| == 8
    ensures LightCommand(idx, sid, on).Queued? ==> !Settles(LightCommand(idx, sid, on).job, head)
  {
    assert |Dec(idx)| >= 2;
  }

  /**
   * Rooms 10 to 99 with a light below 10 give `str(idx)` two digits and
   * the command text an odd length, so `checksum` fails and nothing is
   * queued. The decoders report such rooms for the hex room digits `A`-`F`.
   */
  lemma LightCommandWideRoom(idx: nat, sid: nat, on: bool)
    requires 10 <= idx < 100 && sid < 10
    ensures LightCommand(idx, sid, on) == Ignored
  {
    assert Dec(idx) == Dec(idx / 10) + [HexChar(idx % 10)];
    DecSmall(idx / 10);
    DecSmall(sid);
    var text := "F70E1" + Dec(idx) + "41" + "030" + Dec(sid) + Pwr(on) + "000000";
    assert |text| == 21;
    assert |Prefix(text)| == 17;
  }

  lemma DecHex(s: string)
    requires AllDecDigits(s)
    ensures IsHexText(s)
  {
    assert forall i :: 0 <= i < |s| ==> IsDecDigit(s[i]);
  }

  /** For a room below 10 the away command is the frame `F7 36 1<room> 45` with payload `01`. */
  lemma AwayCommandFrame(idx: nat)
    requires idx < 10
    ensures AwayCommand(idx) == Queued(Job(BuildFrame("F7361" + [HexChar(idx)] + "45", [1]), ["NULL"], 0))
  {
    var head := "F7361" + [HexChar(idx)] + "45";
    assert IsHexText(head);
    DecSmall(idx);
    HexBytes1(1);
    assert Hex2(1) == "01";
    assert "F7361" + Dec(idx) + "45" + "01010000" == head + Hex2(|[1]|) + HexBytes([1]) + "0000";
    ChecksumBuilds(head, [1]);
  }

  /**
   * For a room below 10 and a byte-sized temperature the target command
   * is the frame `F7 36 1<room> 44` with the temperature as its payload;
   * its ack header is the command's with `C4` for `44`.
   */
  lemma TargetCommandFrame(idx: nat, t: Byte)
    requires idx < 10
    ensures var head := "F7361" + [HexChar(idx)] + "44";
      TargetCommand(idx, t) == Queued(Job(BuildFrame(head, [t]), ["F7361" + [HexChar(idx)] + "C4"], 0))
  {
    var head := "F7361" + [HexChar(idx)] + "44";
    assert IsHexText(head);
    DecSmall(idx);
    HexBytes1(t);
    Format02XOfByte(t);
    assert Hex2(1) == "01";
    assert "F7361" + Dec(idx) + "44" + "01" + Format02X(t) + "0000" == head + Hex2(|[t]|) + HexBytes([t]) + "0000";
    ChecksumBuilds(head, [t]);
  }

  /** A valid frame is whole hex bytes, so the adapter can send it. */
  lemma ValidParses(p: string)
    requires IsValid(p)
    ensures ParseBytes(p).Some?
  {
    ValidIffTrailer(p);
    var pre := Prefix(p);
    var t := Trailer(ParseBytes(pre).value);
    assert p == pre + t;
    assert |t| == 4;
    forall i | 0 <= i < |p|
      ensures IsHexDigit(p[i])
    {
      if i < |pre| {
        assert p[i] == pre[i];
      } else {
        assert p[i] == t[i - |pre|];
      }
    }
  }

  /** A job made from `checksum`'s output is a valid frame, sendable, and not yet sent. */
  lemma EnqueueValid(text: string, recvcmd: seq<string>)
    ensures var r := Enqueue(Checksum(text), recvcmd);
      r.Queued? ==> IsValid(r.job.sendcmd) && ParseBytes(r.job.sendcmd).Some? && r.job.count == 0 && r.job.recvcmd == recvcmd
  {
    if Checksum(text).Some? {
      ChecksumIdempotent(text);
      ValidParses(Checksum(text).value);
    }
  }

  lemma SetTempValid(cached: Option<string>, idx: nat, t: int)
    ensures var r := SetTemp(cached, idx, t);
      r.Queued? ==> IsValid(r.job.sendcmd) && ParseBytes(r.job.sendcmd).Some? && r.job.count == 0
  {
    EnqueueValid("F7361" + Dec(idx) + "44" + "01" + Format02X(t) + "0000", ["F7361" + Dec(idx) + "C4"]);
  }

  // ---------------------------------------------------------------------
  // What HA_process promises.

  /**
   * A job is queued only for a light or thermostat whose attribute has a
   * non-empty cached value that differs from the normalised payload.
   */
  lemma HaQueuedOnlyOnChange(home: map<string, string>, topics: seq<string>, value: string, temp: Option<int>)
    requires HaCommand(home, topics, value, temp).Queued?
    ensures |topics| >= 3 && IsFamily(Split(topics[1], '_')[0])
    ensures var key := topics[1] + topics[2];
      key in home && home[key] != "" && home[key] != Normalize(value)
  {
  }

  /** Every queued job is a frame that passes `checksum` unchanged, with count 0. */
  lemma HaQueuedValid(home: map<string, string>, topics: seq<string>, value: string, temp: Option<int>)
    ensures var r := HaCommand(home, topics, value, temp);
      r.Queued? ==> IsValid(r.job.sendcmd) && ParseBytes(r.job.sendcmd).Some? && r.job.count == 0
  {
    var r := HaCommand(home, topics, value, temp);
    if |topics| >= 3 {
      var info := Split(topics[1], '_');
      if IsFamily(info[0]) && |info| >= 3 && ParseDec(info[1]).Some? && ParseDec(info[2]).Some? {
        var key := topics[1] + topics[2];
        var idx := ParseDec(info[1]).value;
        var sid := ParseDec(info[2]).value;
        var v := Normalize(value);
        if key in home && home[key] != "" && v != home[key] {
          if info[0] == "thermostat" {
            if topics[2] == "away" {
              assert r == AwayCommand(idx);
              EnqueueValid("F7361" + Dec(idx) + "45" + "01010000", ["NULL"]);
            } else if topics[2] == "setTemp" && temp.Some? {
              assert r == SetTemp(Get(home, topics[1] + "setTemp"), idx, temp.value);
              SetTempValid(Get(home, topics[1] + "setTemp"), idx, temp.value);
            }
          } else {
            assert r == LightCommand(idx, sid, v == "ON");
            EnqueueValid("F70E1" + Dec(idx) + "41" + "030" + Dec(sid) + Pwr(v == "ON") + "000000", ["F70E1" + Dec(idx) + "C1"]);
          }
        }
      }
    }
  }

  /**
   * A command message changes nothing but the queue, at most appending
   * one job, and a sendable queue stays sendable.
   */
  lemma HaProcessQueue(g: Gw, topics: seq<string>, value: string, temp: Option<int>)
    ensures var r := HaProcess(g, topics, value, temp);
      && r.(queue := g.queue) == g
      && (r.queue == g.queue || (|r.queue| == |g.queue| + 1 && r.queue[..|g.queue|] == g.queue))
      && (Sendable(g.queue) ==> Sendable(r.queue))
  {
    HaQueuedValid(g.home, topics, value, temp);
    DeliverQueue(g, HaCommand(g.home, topics, value, temp));
  }

  /**
   * On the topic a light's registration announces, a command is the light
   * power command for that light exactly when the cached power state is
   * set and differs from the normalised payload; otherwise nothing is queued.
   */
  lemma HaLight(home: map<string, string>, room: nat, id: nat, value: string, temp: Option<int>)
    ensures var did := DeviceId("light", room, id);
      var key := did + "power";
      var changed := key in home && home[key] != "" && home[key] != Normalize(value);
      HaCommand(home, [HaTopic, did, "power", "command"], value, temp)
        == if changed then LightCommand(room, id, Normalize(value) == "ON") else Ignored
  {
    var did := DeviceId("light", room, id);
    DeviceIdSplits("light", room, id);
    var topics := [HaTopic, did, "power", "command"];
    assert topics[1] == did && topics[2] == "power";
    assert Split(topics[1], '_')[0] == "light";
  }

  /** On a thermostat's away topic a command is the away command exactly when the cached away state differs. */
  lemma HaAway(home: map<string, string>, room: nat, value: string, temp: Option<int>)
    ensures var did := DeviceId("thermostat", room, 1);
      var key := did + "away";
      var changed := key in home && home[key] != "" && home[key] != Normalize(value);
      HaCommand(home, [HaTopic, did, "away", "command"], value, temp)
        == if changed then AwayCommand(room) else Ignored
  {
    var did := DeviceId("thermostat", room, 1);
    DeviceIdSplits("thermostat", room, 1);
    var topics := [HaTopic, did, "away", "command"];
    assert topics[1] == did && topics[2] == "away";
    assert Split(topics[1], '_')[0] == "thermostat";
  }

  /**
   * On a thermostat's target topic, with the target cached as two hex
   * digits, a request is dropped when its payload text equals the cached
   * text, and otherwise the requested temperature is sent exactly when it
   * differs from the cached one.
   */
  lemma HaTarget(home: map<string, string>, room: nat, value: string, cached: Byte, t: int)
    requires DeviceId("thermostat", room, 1) + "setTemp" in home
    requires home[DeviceId("thermostat", room, 1) + "setTemp"] == Hex2(cached)
    ensures HaCommand(home, [HaTopic, DeviceId("thermostat", room, 1), "setTemp", "command"], value, Some(t))
      == if Normalize(value) == Hex2(cached) || t == cached then Ignored else TargetCommand(room, t)
  {
    var did := DeviceId("thermostat", room, 1);
    DeviceIdSplits("thermostat", room, 1);
    var topics := [HaTopic, did, "setTemp", "command"];
    assert topics[1] == did && topics[2] == "setTemp";
    assert Split(topics[1], '_')[0] == "thermostat";
    if Normalize(value) == Hex2(cached) {
      assert HaCommand(home, topics, value, Some(t)) == Ignored;
    } else {
      assert Get(home, did + "setTemp") == Some(Hex2(cached));
      assert HaCommand(home, topics, value, Some(t)) == SetTemp(Some(Hex2(cached)), room, t);
      SetTempSuppressesSame(cached, room, t);
    }
  }

  /**
   * The text test comes first: with 25 cached as `19`, the payload `19`
   * asks for 19 degrees and is dropped, while `19.0` asks for the same and
   * is sent.
   */
  lemma HaTargetTextMatch()
    ensures var home := map[DeviceId("thermostat", 1, 1) + "setTemp" := Hex2(25)];
      var topics := [HaTopic, DeviceId("thermostat", 1, 1), "setTemp", "command"];
      && HaCommand(home, topics, "19", Some(19)) == Ignored
      && HaCommand(home, topics, "19.0", Some(19)) == TargetCommand(1, 19)
  {
    TwoTargets();
    var home := map[DeviceId("thermostat", 1, 1) + "setTemp" := Hex2(25)];
    assert Normalize("19") == "19";
    assert Normalize("19.0") == "19.0";
    HaTarget(home, 1, "19", 25, 19);
    HaTarget(home, 1, "19.0", 25, 19);
  }

  /** The corrected target branch suppresses exactly a request for the cached temperature. */
  lemma SetTempSuppressesSame(cached: Byte, idx: nat, t: int)
    ensures SetTemp(Some(Hex2(cached)), idx, t) == if t == cached then Ignored else TargetCommand(idx, t)
  {
    ParseHex2(cached);
  }

  /** The cached text of the targets 26 and 25. */
  lemma TwoTargets()
    ensures Hex2(26) == "1A" && Hex2(25) == "19"
  {
    assert 26 / 16 == 1 && 26 % 16 == 10 && 25 / 16 == 1 && 25 % 16 == 9;
    assert HexChar(1) == '1' && HexChar(10) == 'A' && HexChar(9) == '9';
  }

  /**
   * As written, a cached target of 26 (`1A`) makes any target request
   * raise; the corrected branch ignores a request for 26.
   */
  lemma SetTempRaisesOnHexDigit()
    ensures SetTempAsWritten(Some(Hex2(26)), 1, 26) == Raised
    ensures SetTemp(Some(Hex2(26)), 1, 26) == Ignored
  {
    TwoTargets();
    assert !IsDecDigit("1A"[1]);
    ParseHex2(26);
  }

  /**
   * As written, a cached target of 25 (`19`) suppresses a request for 19;
   * the corrected branch sends it.
   */
  lemma SetTempMisreadsDecimal()
    ensures SetTempAsWritten(Some(Hex2(25)), 1, 19) == Ignored
    ensures SetTemp(Some(Hex2(25)), 1, 19) == TargetCommand(1, 19)
  {
    TwoTargets();
    assert DecValue("19"[..1]) == 1;
    ParseHex2(25);
  }

  // ---------------------------------------------------------------------
  // Acks settle the commands that expect them.

  /**
   * The ack header of a light command (`0E`, `C1`) or of a target command
   * (`36`, `C4`) passes the frame filter.
   */
  lemma AckAccepted(id: string, ack: string, idx: nat, p: string)
    requires (id == "0E" && ack == "C1") || (id == "36" && ack == "C4")
    requires idx < 10 && 8 <= |p| && p[..8] == "F7" + id + "1" + [HexChar(idx)] + ack
    ensures Accepted(p)
  {
    assert p[2..4] == p[..8][2..4] == id && p[6..8] == p[..8][6..8] == ack;
    AcceptedIff(p);
  }

  /** No frame settles an away command, so it is always sent six times. */
  lemma AwayNeverSettled(idx: nat, p: string)
    requires idx < 10 && 8 <= |p|
    ensures AwayCommand(idx).Queued? && !Settles(AwayCommand(idx).job, p[..8])
  {
    AwayCommandFrame(idx);
  }

  /**
   * In normal mode, the ack frame for a queued light command removes
   * that job, the first one it settles, and leaves the rest of the queue
   * in order.
   */
  lemma LightAcked(g: Gw, idx: nat, sid: nat, on: bool, p: string, before: seq<Job>, after: seq<Job>)
    requires !g.discovery && IsFrame(p) && idx < 10 && sid < 10
    requires p[..8] == "F70E1" + [HexChar(idx)] + "C1"
    requires LightCommand(idx, sid, on).Queued?
    requires g.queue == before + [LightCommand(idx, sid, on).job] + after
    requires forall j :: 0 <= j < |before| ==> !Settles(before[j], p[..8])
    ensures HandleFrame(g, p).queue == before + after
  {
    assert Accepted(p) by {
      assert "F7" + "0E" + "1" == "F70E1";
      AckAccepted("0E", "C1", idx, p);
    }
    assert Settles(LightCommand(idx, sid, on).job, p[..8]) by {
      LightCommandFrame(idx, sid, on);
    }
    AckRemoves(g.queue, before, LightCommand(idx, sid, on).job, after, p[..8]);
    HandleFrameQueue(g, p);
  }

  /** Ack removal takes out the first job a header settles. */
  lemma AckRemoves(q: seq<Job>, before: seq<Job>, job: Job, after: seq<Job>, head: string)
    requires q == before + [job] + after && Settles(job, head)
    requires forall j :: 0 <= j < |before| ==> !Settles(before[j], head)
    ensures RemoveAck(q, head) == before + after
  {
    var i := |before|;
    assert q[i] == job;
    forall j | 0 <= j < i
      ensures !Settles(q[j], head)
    {
      assert q[j] == before[j];
    }
    RemoveAckFirst(q, head, i);
    assert q[..i] == before && q[i + 1..] == after;
  }
}
