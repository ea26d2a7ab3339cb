/**
 * The device tables of ezville.py and the decoders of the frames they
 * accept: `RS485_DEVICE` (lines 9-21), the `STATE_HEADER` and `ACK_HEADER`
 * tables derived from it (lines 59-70), the filter at line 277, and the
 * light and thermostat decoders (lines 283-324 and 336-359).
 */
module Protocol {
  import opened Wrappers
  import opened Hex
  import opened Codec
  import opened Extractor

  /** One command of `RS485_DEVICE`: its device, name, id code, cmd code and ack code if it has one. */
  datatype Entry = Entry(device: string, name: string, id: string, cmd: string, ack: Option<string>)

  /** `RS485_DEVICE`, flattened in the dictionary's order. */
  const Rs485Device: seq<Entry> := [
    Entry("light", "state", "0E", "81", None),
    Entry("light", "power", "0E", "41", Some("C1")),
    Entry("thermostat", "state", "36", "81", None),
    Entry("thermostat", "away", "36", "45", Some("00")),
    Entry("thermostat", "target", "36", "44", Some("C4"))
  ]

  /** The `STATE_HEADER` comprehension: a later entry with the same id overwrites an earlier one. */
  function StateHeaderOf(es: seq<Entry>): map<string, (string, string)> {
    if es == [] then map[]
    else
      var m := StateHeaderOf(es[..|es| - 1]);
      var e := es[|es| - 1];
      if e.name == "state" then m[e.id := (e.device, e.cmd)] else m
  }

  /** The `ACK_HEADER` comprehension, over every entry that has an ack code. */
  function AckHeaderOf(es: seq<Entry>): map<string, (string, string)> {
    if es == [] then map[]
    else
      var m := AckHeaderOf(es[..|es| - 1]);
      var e := es[|es| - 1];
      if e.ack.Some? then m[e.id := (e.device, e.ack.value)] else m
  }

  function StateHeader(): map<string, (string, string)> {
    StateHeaderOf(Rs485Device)
  }

  function AckHeader(): map<string, (string, string)> {
    AckHeaderOf(Rs485Device)
  }

  /**
   * The two tables: the thermostat's `target` entry overwrites its `away`
   * entry in `ACK_HEADER`, so the thermostat's ack code is `C4`, not `00`.
   */
  lemma HeaderTables()
    ensures StateHeader() == map["0E" := ("light", "81"), "36" := ("thermostat", "81")]
    ensures AckHeader() == map["0E" := ("light", "C1"), "36" := ("thermostat", "C4")]
  {
    var es := Rs485Device;
    var e0, e1, e2, e3, e4 := es[0], es[1], es[2], es[3], es[4];
    assert es[..4] == [e0, e1, e2, e3];
    assert [e0, e1, e2, e3][..3] == [e0, e1, e2];
    assert [e0, e1, e2][..2] == [e0, e1];
    assert [e0, e1][..1] == [e0];
    assert [e0][..0] == [];
    var s1 := map["0E" := ("light", "81")];
    assert StateHeaderOf([e0]) == s1;
    assert StateHeaderOf([e0, e1]) == s1;
    assert StateHeaderOf([e0, e1, e2]) == s1["36" := ("thermostat", "81")];
    assert StateHeaderOf([e0, e1, e2, e3]) == s1["36" := ("thermostat", "81")];
    var a1 := map["0E" := ("light", "C1")];
    assert AckHeaderOf([e0]) == map[];
    assert AckHeaderOf([e0, e1]) == a1;
    assert AckHeaderOf([e0, e1, e2]) == a1;
    assert AckHeaderOf([e0, e1, e2, e3]) == a1["36" := ("thermostat", "00")];
    assert AckHeaderOf(es) == a1["36" := ("thermostat", "00")]["36" := ("thermostat", "C4")];
  }

  /** Python's `needle in hay` on strings: `needle` occurs somewhere in `hay`. */
  function Occurs(needle: string, hay: string): bool
    decreases |hay|
  {
    |needle| <= |hay| && (hay[..|needle|] == needle || (hay != [] && Occurs(needle, hay[1..])))
  }

  /** Between strings of the same length, `in` is equality. */
  lemma OccursSameLength(needle: string, hay: string)
    requires |needle| == |hay|
    ensures Occurs(needle, hay) <==> needle == hay
  {
    assert hay[..|needle|] == hay;
  }

  /**
   * The filter of line 277: the id at characters 2-4 is a `STATE_HEADER`
   * key, and the cmd at characters 6-8 occurs in that id's state code or is
   * that id's ack code.
   */
  predicate Accepted(p: string)
    requires 8 <= |p|
  {
    var id := p[2..4];
    var cmd := p[6..8];
    && id in StateHeader()
    && (Occurs(cmd, StateHeader()[id].1) || (id in AckHeader() && cmd == AckHeader()[id].1))
  }

  /** A frame is decoded iff its id is `0E` or `36` and its cmd is `81` or that id's ack code. */
  lemma AcceptedIff(p: string)
    requires 8 <= |p|
    ensures Accepted(p) <==>
      || (p[2..4] == "0E" && (p[6..8] == "81" || p[6..8] == "C1"))
      || (p[2..4] == "36" && (p[6..8] == "81" || p[6..8] == "C4"))
  {
    HeaderTables();
    OccursSameLength(p[6..8], "81");
  }

  /** What a decoder reports for one device. */
  datatype Obs =
    | LightObs(room: nat, unit: nat, on: bool)
    | ThermoObs(room: nat, on: bool, cur: Byte, target: Byte)

  /** `int(packet[8:10], 16)`, the payload length in bytes. */
  function Len(p: string): (n: nat)
    requires IsFrame(p)
    ensures |p| == 14 + 2 * n && n < 256
  {
    ByteAt(p, 8)
  }

  /**
   * The light decoder: the room is the hex digit at character 5; the
   * payload length counts the lights plus one; light `id` is on iff payload
   * byte `id` is non-zero.  Every byte read lies in front of the trailer.
   */
  function LightObservations(p: string): (obs: seq<Obs>)
    requires IsFrame(p)
    ensures |obs| == if Len(p) >= 1 then Len(p) - 1 else 0
  {
    var slc := Len(p);
    var rid := DigitValue(p[5]);
    var n := if slc >= 1 then slc - 1 else 0;
    seq(n, i requires 0 <= i < n => LightObs(rid, i + 1, ByteAt(p, 10 + 2 * (i + 1)) > 0))
  }

  /** Python's `int(x / 2)`: true division, then truncation toward zero. */
  function TruncHalf(x: int): int {
    if x >= 0 then x / 2 else -((-x) / 2)
  }

  /**
   * `rc = int((int(packet[8:10], 16) - 5) / 2)`, the number of rooms; when
   * there is a room, every room's two temperature bytes lie in front of the
   * trailer.
   */
  function RoomCount(p: string): (rc: int)
    requires IsFrame(p)
    ensures rc >= 1 ==> 20 + 4 * rc <= |p| - 4
    ensures Len(p) < 7 ==> rc <= 0
  {
    TruncHalf(Len(p) - 5)
  }

  /** `x >> s`. */
  function Shr(x: nat, s: nat): nat {
    if s == 0 then x else Shr(x / 2, s - 1)
  }

  /**
   * Lines 322 and 357 as written: `x & 0x1F >> (rc - rid) & 1` parses as
   * `x & (0x1F >> (rc - rid)) & 1`, which is 1 iff bit 0 of `x` and bit 0 of
   * `0x1F >> (rc - rid)` are both 1.
   */
  predicate PowerAsWritten(x: nat, s: nat) {
    x % 2 == 1 && Shr(31, s) % 2 == 1
  }

  /** The reading the decoder evidently intends: bit `rc - rid` of `x & 0x1F`. */
  predicate PowerOn(x: nat, s: nat) {
    Shr(x % 32, s) % 2 == 1
  }

  lemma ShrSmall(s: nat)
    requires s < 5
    ensures Shr(31, s) % 2 == 1
  {
    if s > 0 {
      assert Shr(31, 1) == Shr(15, 0);
      if s > 1 {
        assert Shr(31, 2) == Shr(7, 0);
        if s > 2 {
          assert Shr(31, 3) == Shr(3, 0);
        }
      }
    }
  }

  lemma {:induction false} ShrZero(x: nat, s: nat)
    requires x < Pow2(s)
    ensures Shr(x, s) == 0
  {
    if s > 0 {
      ShrZero(x / 2, s - 1);
    }
  }

  /**
   * As written, every room reports bit 0 of the power byte (the last
   * room's bit), and rooms five or more places before the last one always
   * report off.
   */
  lemma PowerAsWrittenMeaning(x: nat, s: nat)
    ensures PowerAsWritten(x, s) <==> x % 2 == 1 && s < 5
  {
    if s < 5 {
      ShrSmall(s);
    } else {
      assert Pow2(5) == 32;
      Pow2Grows(5, s);
      ShrZero(31, s);
    }
  }

  lemma {:induction false} Pow2Grows(a: nat, b: nat)
    requires a <= b
    ensures Pow2(a) <= Pow2(b)
    decreases b
  {
    if a < b {
      Pow2Grows(a, b - 1);
    }
  }

  /** The power byte of a thermostat state frame: room `rid` of `rc` at bit `rc - rid`. */
  function PowerByte(flags: seq<bool>): nat {
    if flags == [] then 0
    else 2 * PowerByte(flags[..|flags| - 1]) + (if flags[|flags| - 1] then 1 else 0)
  }

  lemma {:induction false} PowerByteBound(flags: seq<bool>)
    ensures PowerByte(flags) < Pow2(|flags|)
  {
    if flags != [] {
      PowerByteBound(flags[..|flags| - 1]);
    }
  }

  /** Reading bit `j` of the power byte gives back the flag of the room `j` places before the last. */
  lemma {:induction false} PowerByteBit(flags: seq<bool>, j: nat)
    requires j < |flags|
    ensures Shr(PowerByte(flags), j) % 2 == 1 <==> flags[|flags| - 1 - j]
    decreases j
  {
    var n := |flags|;
    var x := PowerByte(flags);
    var init := PowerByte(flags[..n - 1]);
    var b := if flags[n - 1] then 1 else 0;
    assert x == 2 * init + b;
    assert x / 2 == init && x % 2 == b;
    if j > 0 {
      assert Shr(x, j) == Shr(init, j - 1);
      PowerByteBit(flags[..n - 1], j - 1);
    }
  }

  /** With at most five rooms, the intended rule decodes every room's power flag. */
  lemma PowerRoundTrip(flags: seq<bool>, rid: nat)
    requires |flags| <= 5 && 1 <= rid <= |flags|
    ensures PowerOn(PowerByte(flags), |flags| - rid) <==> flags[rid - 1]
  {
    PowerByteBound(flags);
    Pow2Grows(|flags|, 5);
    assert Pow2(5) == 32;
    assert PowerByte(flags) % 32 == PowerByte(flags);
    PowerByteBit(flags, |flags| - rid);
  }

  /**
   * The two readings differ: with two rooms, room 1 on and room 2 off, the
   * power byte is `0x02`; as written room 1 reads off, the intended reading
   * says on.
   */
  lemma PowerPrecedenceCounterexample()
    ensures PowerByte([true, false]) == 2
    ensures !PowerAsWritten(2, 1)
    ensures PowerOn(2, 1)
  {
    assert [true, false][..1] == [true];
    assert [true][..0] == [];
    assert Shr(2, 1) == Shr(1, 0);
  }

  /**
   * The thermostat decoder: for each room `rid` in `1..rc`, its power flag
   * from the power byte (payload byte 1), its current temperature from
   * characters `16 + 4 * rid`, and its target from `18 + 4 * rid`.  The
   * power flag is the corrected reading `PowerOn`, not the literal
   * precedence of `PowerAsWritten`.
   */
  function ThermostatObservations(p: string): (obs: seq<Obs>)
    requires IsFrame(p)
    ensures |obs| == if RoomCount(p) >= 1 then RoomCount(p) else 0
  {
    var rc := RoomCount(p);
    var n := if rc >= 1 then rc else 0;
    var x := ByteAt(p, 12);
    seq(n, i requires 0 <= i < n =>
      ThermoObs(i + 1, PowerOn(x, rc - (i + 1)), ByteAt(p, 16 + 4 * (i + 1)), ByteAt(p, 18 + 4 * (i + 1))))
  }

  /** The device a header names: `STATE_HEADER[packet[2:4]][0]`. */
  function Decode(p: string): seq<Obs>
    requires IsFrame(p) && Accepted(p)
  {
    var name := StateHeader()[p[2..4]].0;
    if name == "light" then LightObservations(p)
    else if name == "thermostat" then ThermostatObservations(p)
    else []
  }

  // Frame builders: what a wall-pad sends, as the partner the decoders invert.

  /** The hex text of a byte sequence, two upper-case digits per byte. */
  function HexBytes(bs: seq<Byte>): (s: string)
    ensures |s| == 2 * |bs| && IsHexText(s)
  {
    if bs == [] then "" else HexBytes(bs[..|bs| - 1]) + Hex2(bs[|bs| - 1])
  }

  lemma {:induction false} HexBytesAt(bs: seq<Byte>, j: nat)
    requires j < |bs|
    ensures ByteAt(HexBytes(bs), 2 * j) == bs[j]
  {
    var n := |bs|;
    var init := HexBytes(bs[..n - 1]);
    var s := HexBytes(bs);
    if j < n - 1 {
      HexBytesAt(bs[..n - 1], j);
      assert s[2 * j] == init[2 * j] && s[2 * j + 1] == init[2 * j + 1];
    } else {
      assert s[2 * j] == Hex2(bs[j])[0] && s[2 * j + 1] == Hex2(bs[j])[1];
    }
  }

  lemma ByteAtShift(a: string, b: string, j: nat)
    requires j + 2 <= |b| && IsHexDigit(b[j]) && IsHexDigit(b[j + 1])
    ensures (a + b)[|a| + j] == b[j] && (a + b)[|a| + j + 1] == b[j + 1]
    ensures ByteAt(a + b, |a| + j) == ByteAt(b, j)
  {
  }

  lemma ByteAtFront(a: string, b: string, j: nat)
    requires j + 2 <= |a| && IsHexDigit(a[j]) && IsHexDigit(a[j + 1])
    ensures (a + b)[j] == a[j] && (a + b)[j + 1] == a[j + 1]
    ensures ByteAt(a + b, j) == ByteAt(a, j)
  {
  }

  /** Upper-case hex text made of two parts is upper-case hex text. */
  lemma HexJoin(a: string, b: string)
    requires IsHexText(a) && IsHexText(b)
    ensures IsHexText(a + b)
  {
    forall i | 0 <= i < |a + b|
      ensures IsUpperHexDigit((a + b)[i])
    {
      if i >= |a| {
        assert (a + b)[i] == b[i - |a|];
      }
    }
  }

  /**
   * The frame a device sends: an eight-character header (sync, id, room,
   * cmd), the payload length, the payload, and the trailer from `checksum`.
   */
  function BuildFrame(head: string, payload: seq<Byte>): string
    requires |head| == 8 && IsHexText(head) && |payload| < 256
  {
    var body := head + Hex2(|payload|) + HexBytes(payload);
    var text := body + "0000";
    assert Prefix(text) == body;
    HexJoin(head, Hex2(|payload|));
    HexJoin(head + Hex2(|payload|), HexBytes(payload));
    body + Trailer(ParseBytes(body).value)
  }

  /** A built frame passes `checksum` unchanged. */
  lemma BuildFrameValid(head: string, payload: seq<Byte>)
    requires |head| == 8 && IsHexText(head) && |payload| < 256
    ensures IsValid(BuildFrame(head, payload))
  {
    var body := head + Hex2(|payload|) + HexBytes(payload);
    var f := BuildFrame(head, payload);
    assert Prefix(f) == body;
    assert f[|f| - 4..] == Trailer(ParseBytes(body).value);
    ValidIffTrailer(f);
  }

  /** Upper-case hex text of whole bytes parses, and its trailer is four upper-case hex digits. */
  lemma TrailerText(body: string, n: nat)
    requires IsHexText(body) && |body| == 10 + 2 * n
    ensures ParseBytes(body).Some?
    ensures var t := Trailer(ParseBytes(body).value); |t| == 4 && IsHexText(t)
  {
    assert AllHexDigits(body);
  }

  /** A built frame is its body, in upper-case hex, followed by a four-digit trailer. */
  lemma BuildFrameText(head: string, payload: seq<Byte>)
    requires |head| == 8 && IsHexText(head) && |payload| < 256
    ensures var body := head + Hex2(|payload|) + HexBytes(payload);
      && IsHexText(body) && |body| == 10 + 2 * |payload|
      && var f := BuildFrame(head, payload);
      && f[..|body|] == body && IsHexText(f) && |f| == |body| + 4
  {
    var h2 := Hex2(|payload|);
    var hb := HexBytes(payload);
    var body := head + h2 + hb;
    HexJoin(head, h2);
    HexJoin(head + h2, hb);
    TrailerText(body, |payload|);
    var t := Trailer(ParseBytes(body).value);
    assert BuildFrame(head, payload) == body + t;
    assert (body + t)[..|body|] == body;
    HexJoin(body, t);
  }

  /** The payload bytes of a built frame, read back one at a time. */
  lemma BuildFramePayload(head: string, payload: seq<Byte>, j: nat)
    requires |head| == 8 && IsHexText(head) && |payload| < 256 && j < |payload|
    ensures var f := BuildFrame(head, payload);
      && 10 + 2 * j + 2 <= |f| && IsHexDigit(f[10 + 2 * j]) && IsHexDigit(f[10 + 2 * j + 1])
      && ByteAt(f, 10 + 2 * j) == payload[j]
  {
    BuildFrameText(head, payload);
    var h2 := Hex2(|payload|);
    var hb := HexBytes(payload);
    var body := head + h2 + hb;
    var f := BuildFrame(head, payload);
    HexBytesAt(payload, j);
    ByteAtShift(head + h2, hb, 2 * j);
    assert f[10 + 2 * j] == body[10 + 2 * j] && f[11 + 2 * j] == body[11 + 2 * j];
  }

  /** A built frame has the header, length and payload it was built from. */
  lemma BuildFrameFacts(head: string, payload: seq<Byte>)
    requires |head| == 8 && IsHexText(head) && |payload| < 256 && head[..2] == "F7"
    ensures var f := BuildFrame(head, payload);
      && IsFrame(f) && f[..8] == head
      && Len(f) == |payload|
      && forall j :: 0 <= j < |payload| ==> ByteAt(f, 10 + 2 * j) == payload[j]
  {
    BuildFrameText(head, payload);
    var h2 := Hex2(|payload|);
    var body := head + h2 + HexBytes(payload);
    var f := BuildFrame(head, payload);
    assert f[..8] == body[..8] == head;
    assert f[0] == head[0] && f[1] == head[1];
    assert f[8] == body[8] == h2[0] && f[9] == body[9] == h2[1];
    assert ByteAt(f, 8) == |payload|;
    forall j | 0 <= j < |payload|
      ensures ByteAt(f, 10 + 2 * j) == payload[j]
    {
      BuildFramePayload(head, payload, j);
    }
  }

  function Bit(b: bool): Byte {
    if b then 1 else 0
  }

  /** A light state frame for room `room` with one flag per light. */
  function LightFrame(room: nat, lights: seq<bool>): string
    requires room < 16 && |lights| < 255
  {
    BuildFrame("F70E1" + [HexChar(room)] + "81", [0] + seq(|lights|, i requires 0 <= i < |lights| => Bit(lights[i])))
  }

  /** The light decoder reads back the room and every light's flag. */
  lemma LightRoundTrip(room: nat, lights: seq<bool>)
    requires room < 16 && |lights| < 255
    ensures IsFrame(LightFrame(room, lights))
    ensures Accepted(LightFrame(room, lights))
    ensures LightObservations(LightFrame(room, lights))
         == seq(|lights|, i requires 0 <= i < |lights| => LightObs(room, i + 1, lights[i]))
  {
    var f := LightFrame(room, lights);
    LightFrameHeader(room, lights);
    AcceptedIff(f);
    var obs := LightObservations(f);
    forall i | 0 <= i < |lights|
      ensures obs[i] == LightObs(room, i + 1, lights[i])
    {
      LightFrameByte(room, lights, i);
    }
  }

  /** A light frame's header: the light id, the room digit, the state cmd and the length. */
  lemma LightFrameHeader(room: nat, lights: seq<bool>)
    requires room < 16 && |lights| < 255
    ensures var f := LightFrame(room, lights);
      && IsFrame(f) && f[2..4] == "0E" && f[6..8] == "81" && f[5] == HexChar(room)
      && Len(f) == |lights| + 1
  {
    var head := "F70E1" + [HexChar(room)] + "81";
    var payload: seq<Byte> := [0] + seq(|lights|, i requires 0 <= i < |lights| => Bit(lights[i]));
    assert IsHexText(head);
    BuildFrameFacts(head, payload);
    var f := LightFrame(room, lights);
    assert f[2..4] == head[2..4] && f[6..8] == head[6..8] && f[5] == head[5];
  }

  /** Payload byte `i + 1` of a light frame is light `i`'s flag. */
  lemma LightFrameByte(room: nat, lights: seq<bool>, i: nat)
    requires room < 16 && |lights| < 255 && i < |lights|
    ensures var f := LightFrame(room, lights);
      && 14 + 2 * i <= |f| && IsHexDigit(f[12 + 2 * i]) && IsHexDigit(f[13 + 2 * i])
      && (ByteAt(f, 12 + 2 * i) > 0 <==> lights[i])
  {
    var head := "F70E1" + [HexChar(room)] + "81";
    var payload: seq<Byte> := [0] + seq(|lights|, i requires 0 <= i < |lights| => Bit(lights[i]));
    assert IsHexText(head);
    BuildFramePayload(head, payload, i + 1);
    assert payload[i + 1] == Bit(lights[i]);
  }

  /** One thermostat room: power flag, current and target temperature. */
  datatype Room = Room(on: bool, cur: Byte, target: Byte)

  function Temps(rooms: seq<Room>): seq<Byte>
    ensures |Temps(rooms)| == 2 * |rooms|
  {
    if rooms == [] then [] else Temps(rooms[..|rooms| - 1]) + [rooms[|rooms| - 1].cur, rooms[|rooms| - 1].target]
  }

  lemma {:induction false} TempsAt(rooms: seq<Room>, i: nat)
    requires i < |rooms|
    ensures Temps(rooms)[2 * i] == rooms[i].cur && Temps(rooms)[2 * i + 1] == rooms[i].target
  {
    var n := |rooms|;
    if i < n - 1 {
      TempsAt(rooms[..n - 1], i);
    }
  }

  function Flags(rooms: seq<Room>): seq<bool> {
    seq(|rooms|, i requires 0 <= i < |rooms| => rooms[i].on)
  }

  /**
   * A thermostat state frame for up to five rooms: payload length
   * `5 + 2 * rc`, the power byte as payload byte 1, and each room's two
   * temperatures from payload byte 5 on.
   */
  function ThermostatFrame(rooms: seq<Room>): string
    requires |rooms| <= 5
  {
    BuildFrame("F736" + "1F" + "81", ThermostatPayload(rooms))
  }

  lemma TruncHalfOdd(n: nat)
    ensures TruncHalf(5 + 2 * n - 5) == n
  {
  }

  /** Decoding a thermostat frame whose length, power byte and temperature bytes are those of `rooms`. */
  lemma ThermostatDecodeOf(f: string, rooms: seq<Room>)
    requires IsFrame(f) && |rooms| <= 5 && RoomCount(f) == |rooms|
    requires ByteAt(f, 12) == PowerByte(Flags(rooms))
    requires forall i :: 0 <= i < |rooms| ==> ByteAt(f, 20 + 4 * i) == rooms[i].cur && ByteAt(f, 22 + 4 * i) == rooms[i].target
    ensures ThermostatObservations(f)
         == seq(|rooms|, i requires 0 <= i < |rooms| => ThermoObs(i + 1, rooms[i].on, rooms[i].cur, rooms[i].target))
  {
    var obs := ThermostatObservations(f);
    forall i | 0 <= i < |rooms|
      ensures obs[i] == ThermoObs(i + 1, rooms[i].on, rooms[i].cur, rooms[i].target)
    {
      ThermostatObsAt(f, rooms, i);
    }
  }

  lemma ThermostatObsAt(f: string, rooms: seq<Room>, i: nat)
    requires IsFrame(f) && |rooms| <= 5 && RoomCount(f) == |rooms| && i < |rooms|
    requires ByteAt(f, 12) == PowerByte(Flags(rooms))
    requires ByteAt(f, 20 + 4 * i) == rooms[i].cur && ByteAt(f, 22 + 4 * i) == rooms[i].target
    ensures ThermostatObservations(f)[i] == ThermoObs(i + 1, rooms[i].on, rooms[i].cur, rooms[i].target)
  {
    PowerRoundTrip(Flags(rooms), i + 1);
    assert 16 + 4 * (i + 1) == 20 + 4 * i && 18 + 4 * (i + 1) == 22 + 4 * i;
  }

  /** The payload a thermostat frame is built from. */
  function ThermostatPayload(rooms: seq<Room>): (payload: seq<Byte>)
    requires |rooms| <= 5
    ensures |payload| == 5 + 2 * |rooms| && payload[1] == PowerByte(Flags(rooms))
    ensures forall i :: 0 <= i < |rooms| ==> payload[5 + 2 * i] == rooms[i].cur && payload[6 + 2 * i] == rooms[i].target
  {
    PowerByteBound(Flags(rooms));
    Pow2Grows(|rooms|, 5);
    assert Pow2(5) == 32;
    var payload: seq<Byte> := [0, PowerByte(Flags(rooms)), 0, 0, 0] + Temps(rooms);
    forall i | 0 <= i < |rooms|
      ensures payload[5 + 2 * i] == rooms[i].cur && payload[6 + 2 * i] == rooms[i].target
    {
      TempsAt(rooms, i);
    }
    payload
  }

  /** A thermostat frame's header: the thermostat id, the state cmd, the room count and the power byte. */
  lemma ThermostatFrameHeader(rooms: seq<Room>)
    requires |rooms| <= 5
    ensures var f := ThermostatFrame(rooms);
      && IsFrame(f) && f[2..4] == "36" && f[6..8] == "81"
      && RoomCount(f) == |rooms| && ByteAt(f, 12) == PowerByte(Flags(rooms))
  {
    var head := "F736" + "1F" + "81";
    var payload := ThermostatPayload(rooms);
    assert IsHexText(head);
    BuildFrameFacts(head, payload);
    var f := ThermostatFrame(rooms);
    assert f == BuildFrame(head, payload);
    assert f[2..4] == head[2..4] && f[6..8] == head[6..8];
    TruncHalfOdd(|rooms|);
    assert ByteAt(f, 10 + 2 * 1) == payload[1];
  }

  /** Room `i`'s two temperature bytes in a thermostat frame. */
  lemma ThermostatFrameTemps(rooms: seq<Room>, i: nat)
    requires |rooms| <= 5 && i < |rooms|
    ensures var f := ThermostatFrame(rooms);
      && 24 + 4 * i <= |f|
      && IsHexDigit(f[20 + 4 * i]) && IsHexDigit(f[21 + 4 * i])
      && IsHexDigit(f[22 + 4 * i]) && IsHexDigit(f[23 + 4 * i])
      && ByteAt(f, 20 + 4 * i) == rooms[i].cur && ByteAt(f, 22 + 4 * i) == rooms[i].target
  {
    var head := "F736" + "1F" + "81";
    var payload := ThermostatPayload(rooms);
    assert IsHexText(head);
    assert ThermostatFrame(rooms) == BuildFrame(head, payload);
    BuildFramePayload(head, payload, 5 + 2 * i);
    BuildFramePayload(head, payload, 6 + 2 * i);
  }

  /** The thermostat decoder reads back every room's flag and both temperatures. */
  lemma ThermostatRoundTrip(rooms: seq<Room>)
    requires |rooms| <= 5
    ensures IsFrame(ThermostatFrame(rooms))
    ensures Accepted(ThermostatFrame(rooms))
    ensures ThermostatObservations(ThermostatFrame(rooms))
         == seq(|rooms|, i requires 0 <= i < |rooms| => ThermoObs(i + 1, rooms[i].on, rooms[i].cur, rooms[i].target))
  {
    var f := ThermostatFrame(rooms);
    ThermostatFrameHeader(rooms);
    AcceptedIff(f);
    forall i | 0 <= i < |rooms|
      ensures ByteAt(f, 20 + 4 * i) == rooms[i].cur && ByteAt(f, 22 + 4 * i) == rooms[i].target
    {
      ThermostatFrameTemps(rooms, i);
    }
    ThermostatDecodeOf(f, rooms);
  }

  /** `"{}_{:0>2d}_{:0>2d}".format(device, id1, id2)`. */
  function DeviceId(device: string, id1: nat, id2: nat): string {
    device + "_" + Pad2(id1) + "_" + Pad2(id2)
  }

  predicate IsFamily(device: string) {
    device == "light" || device == "thermostat"
  }

  /** The attributes the gateway caches per device. */
  predicate IsAttr(attr: string) {
    attr == "power" || attr == "curTemp" || attr == "setTemp" || attr == "away"
  }

  lemma StripFamily(d1: string, d2: string, r1: string, r2: string)
    requires IsFamily(d1) && IsFamily(d2) && d1 + r1 == d2 + r2
    ensures d1 == d2 && r1 == r2
  {
    assert (d1 + r1)[0] == d1[0];
    assert (d2 + r2)[0] == d2[0];
    assert r1 == (d1 + r1)[|d1|..];
    assert r2 == (d2 + r2)[|d2|..];
  }

  lemma SplitKey(d1: string, x1: string, y1: string, t1: string, d2: string, x2: string, y2: string, t2: string)
    requires IsFamily(d1) && IsFamily(d2)
    requires AllDecDigits(x1) && AllDecDigits(y1) && AllDecDigits(x2) && AllDecDigits(y2)
    requires |t1| > 0 && |t2| > 0 && !IsDecDigit(t1[0]) && !IsDecDigit(t2[0])
    requires d1 + "_" + x1 + "_" + y1 + t1 == d2 + "_" + x2 + "_" + y2 + t2
    ensures d1 == d2 && x1 == x2 && y1 == y2 && t1 == t2
  {
    var u1 := "_" + y1 + t1;
    var u2 := "_" + y2 + t2;
    var r1 := "_" + x1 + u1;
    var r2 := "_" + x2 + u2;
    assert d1 + "_" + x1 + "_" + y1 + t1 == d1 + r1;
    assert d2 + "_" + x2 + "_" + y2 + t2 == d2 + r2;
    StripFamily(d1, d2, r1, r2);
    SkipSeparator(x1, u1, x2, u2);
    SkipSeparator(y1, t1, y2, t2);
  }

  /** `_<digits><rest>` read twice: the same digits and the same rest. */
  lemma SkipSeparator(x1: string, u1: string, x2: string, u2: string)
    requires AllDecDigits(x1) && AllDecDigits(x2)
    requires |u1| > 0 && |u2| > 0 && !IsDecDigit(u1[0]) && !IsDecDigit(u2[0])
    requires "_" + x1 + u1 == "_" + x2 + u2
    ensures x1 == x2 && u1 == u2
  {
    assert ("_" + x1 + u1)[1..] == x1 + u1;
    assert ("_" + x2 + u2)[1..] == x2 + u2;
    DigitsPrefixUnique(x1, u1, x2, u2);
  }

  /**
   * The `HOMESTATE` keys `deviceID + attribute` of different devices or
   * attributes are different.
   */
  lemma KeyInjective(d1: string, a1: nat, b1: nat, t1: string, d2: string, a2: nat, b2: nat, t2: string)
    requires IsFamily(d1) && IsFamily(d2) && IsAttr(t1) && IsAttr(t2)
    requires DeviceId(d1, a1, b1) + t1 == DeviceId(d2, a2, b2) + t2
    ensures d1 == d2 && a1 == a2 && b1 == b2 && t1 == t2
  {
    var x1, y1, x2, y2 := Pad2(a1), Pad2(b1), Pad2(a2), Pad2(b2);
    DecRoundTrip(a1);
    DecRoundTrip(a2);
    DecRoundTrip(b1);
    DecRoundTrip(b2);
    SplitKey(d1, x1, y1, t1, d2, x2, y2, t2);
    Pad2Injective(a1, a2);
    Pad2Injective(b1, b2);
  }
}
