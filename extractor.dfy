/**
 * The frame extractor of `EW11_process` (ezville.py lines 246-274 and
 * 361-364).  The text of one pass is the stored residue followed by the new
 * data, in upper-case hex.  A cursor moves one hex character at a time
 * looking for the sync `F7`; at a sync, the ten-character header gives the
 * payload length, and the whole frame is the header, twice that many
 * characters, and the four-character trailer.
 *
 * The scan is stated for any acceptance test `accept` on candidate frames,
 * so the lemmas about the cursor do not depend on the checksum arithmetic;
 * the gateway's pass, `Extract`, uses `Codec.IsValid` (`packet ==
 * checksum(packet)`, line 272).
 */
module Extractor {
  import opened Wrappers
  import opened Hex
  import opened Codec

  /** `raw_data[k:k + 2] == "F7"`. */
  predicate IsSync(raw: string, k: nat) {
    k + 2 <= |raw| && raw[k] == 'F' && raw[k + 1] == '7'
  }

  /** `10 + int(raw_data[k + 8:k + 10], 16) * 2 + 4`, the length of the frame starting at `k`. */
  function FrameLength(raw: string, k: nat): (n: nat)
    requires IsHexText(raw) && k + 10 <= |raw|
    ensures 14 <= n <= 14 + 2 * 255 && n % 2 == 0
  {
    10 + 2 * ByteAt(raw, k + 8) + 4
  }

  /** The shape of a frame: a sync, a header, and exactly the announced length. */
  predicate IsFrame(f: string) {
    && IsHexText(f)
    && IsSync(f, 0)
    && 10 <= |f|
    && |f| == FrameLength(f, 0)
  }

  /** A tail kept for the next pass: a sync whose frame is not all there yet. */
  predicate IsPartial(t: string) {
    && IsHexText(t)
    && IsSync(t, 0)
    && (|t| < 10 || |t| < FrameLength(t, 0))
  }

  /** What one pass yields: the accepted frames in order, and the value of `RESIDUE` afterwards. */
  datatype Pass = Pass(frames: seq<string>, residue: string)

  /** `t` is the last `|t|` characters of `s`. */
  predicate IsSuffix(t: string, s: string) {
    |t| <= |s| && s[|s| - |t|..] == t
  }

  lemma ShiftedHeader(raw: string, k: nat)
    requires IsHexText(raw) && k + 10 <= |raw|
    ensures IsHexText(raw[k..]) && FrameLength(raw[k..], 0) == FrameLength(raw, k)
  {
    assert raw[k..][8] == raw[k + 8] && raw[k..][9] == raw[k + 9];
  }

  lemma CandidateHeader(raw: string, k: nat, n: nat)
    requires IsHexText(raw) && IsSync(raw, k) && k + 10 <= |raw|
    requires n == FrameLength(raw, k) && k + n <= |raw|
    ensures IsFrame(raw[k..k + n])
  {
    var p := raw[k..k + n];
    assert p[0] == raw[k] && p[1] == raw[k + 1];
    assert p[8] == raw[k + 8] && p[9] == raw[k + 9];
  }

  /** What the loop of `EW11_process` does at a cursor position. */
  datatype Step =
    | Skip         // no sync here, or a whole frame that is not accepted: `k += 1`
    | Tail         // a sync whose frame is not all there: `RESIDUE = raw_data[k:]` and stop
    | Take(n: nat) // a whole, accepted frame: handle it, clear `RESIDUE`, `k += n`

  function Classify(accept: string -> bool, raw: string, k: nat): (r: Step)
    requires IsHexText(raw) && k < |raw|
    ensures r.Take? ==> 0 < r.n && k + r.n <= |raw|
  {
    if !IsSync(raw, k) || k + 10 > |raw| then
      if IsSync(raw, k) then Tail else Skip
    else
      var n := FrameLength(raw, k);
      if k + n > |raw| then Tail
      else if accept(raw[k..k + n]) then Take(n)
      else Skip
  }

  /** The three cases, stated in the source's own terms. */
  lemma ClassifyCases(accept: string -> bool, raw: string, k: nat)
    requires IsHexText(raw) && k < |raw|
    ensures var r := Classify(accept, raw, k);
      && (r.Take? <==>
           IsSync(raw, k) && k + 10 <= |raw| && k + FrameLength(raw, k) <= |raw|
           && accept(raw[k..k + FrameLength(raw, k)]))
      && (r.Take? ==> r.n == FrameLength(raw, k) && IsFrame(raw[k..k + r.n]))
      && (r.Tail? <==> IsSync(raw, k) && (k + 10 > |raw| || k + FrameLength(raw, k) > |raw|))
      && (r.Tail? ==> IsPartial(raw[k..]))
  {
    if IsSync(raw, k) {
      assert raw[k..][0] == raw[k] && raw[k..][1] == raw[k + 1];
      if k + 10 <= |raw| {
        ShiftedHeader(raw, k);
        if k + FrameLength(raw, k) <= |raw| {
          CandidateHeader(raw, k, FrameLength(raw, k));
        }
      }
    }
  }

  /**
   * The scan from cursor `k` to the end of `raw`, where `residue` is the
   * value `RESIDUE` holds when the cursor reaches `k`.  A scan that meets no
   * unfinished frame leaves `RESIDUE` as it found it.
   */
  function Scan(accept: string -> bool, raw: string, k: nat, residue: string): Pass
    requires IsHexText(raw) && k <= |raw|
    decreases |raw| - k
  {
    if k == |raw| then Pass([], residue)
    else
      match Classify(accept, raw, k)
      case Skip => Scan(accept, raw, k + 1, residue)
      case Tail => Pass([], raw[k..])
      case Take(n) =>
        var rest := Scan(accept, raw, k + n, "");
        Pass([raw[k..k + n]] + rest.frames, rest.residue)
  }

  /** At a sync with a whole candidate frame, the step is decided by the acceptance test alone. */
  lemma ClassifyCandidate(accept: string -> bool, raw: string, k: nat, n: nat)
    requires IsHexText(raw) && IsSync(raw, k) && k + 10 <= |raw|
    requires n == FrameLength(raw, k) && k + n <= |raw|
    ensures Classify(accept, raw, k) == if accept(raw[k..k + n]) then Take(n) else Skip
  {
  }

  /** One step of the scan over an accepted frame. */
  lemma ScanTake(accept: string -> bool, raw: string, k: nat, residue: string, n: nat)
    requires IsHexText(raw) && k < |raw| && Classify(accept, raw, k) == Take(n)
    ensures var rest := Scan(accept, raw, k + n, "");
      Scan(accept, raw, k, residue) == Pass([raw[k..k + n]] + rest.frames, rest.residue)
  {
  }

  predicate AllAccepted(accept: string -> bool, fs: seq<string>) {
    forall i :: 0 <= i < |fs| ==> IsFrame(fs[i]) && accept(fs[i])
  }

  lemma AcceptedCons(accept: string -> bool, f: string, fs: seq<string>)
    requires IsFrame(f) && accept(f) && AllAccepted(accept, fs)
    ensures AllAccepted(accept, [f] + fs)
  {
    forall i | 0 <= i < |[f] + fs|
      ensures IsFrame(([f] + fs)[i]) && accept(([f] + fs)[i])
    {
      if i > 0 {
        assert ([f] + fs)[i] == fs[i - 1];
      }
    }
  }

  /** Every frame a scan yields has the frame shape and passed the acceptance test. */
  lemma {:induction false} ScanYieldsAccepted(accept: string -> bool, raw: string, k: nat, residue: string)
    requires IsHexText(raw) && k <= |raw|
    ensures AllAccepted(accept, Scan(accept, raw, k, residue).frames)
    decreases |raw| - k
  {
    if k < |raw| {
      var step := Classify(accept, raw, k);
      if step.Skip? {
        ScanYieldsAccepted(accept, raw, k + 1, residue);
      } else if step.Take? {
        ClassifyCases(accept, raw, k);
        ScanYieldsAccepted(accept, raw, k + step.n, "");
        ScanTake(accept, raw, k, residue, step.n);
        AcceptedCons(accept, raw[k..k + step.n], Scan(accept, raw, k + step.n, "").frames);
      }
    }
  }

  lemma SuffixOfTail(raw: string, k: nat, t: string)
    requires k <= |raw| && IsSuffix(t, raw[k..])
    ensures IsSuffix(t, raw)
  {
    assert raw[k..][|raw[k..]| - |t|..] == raw[|raw| - |t|..];
  }

  /**
   * What `RESIDUE` holds after a scan: the value it started with, empty, or an
   * unfinished frame at the very end of the text.
   */
  lemma {:induction false} ScanResidue(accept: string -> bool, raw: string, k: nat, residue: string)
    requires IsHexText(raw) && k <= |raw|
    ensures var r := Scan(accept, raw, k, residue).residue;
      r == residue || r == "" || (IsPartial(r) && IsSuffix(r, raw[k..]))
    decreases |raw| - k
  {
    if k < |raw| {
      var step := Classify(accept, raw, k);
      if step.Skip? {
        ScanResidue(accept, raw, k + 1, residue);
        ResidueSkip(accept, raw, k, residue);
      } else if step.Tail? {
        ResidueTail(accept, raw, k, residue);
      } else {
        ScanResidue(accept, raw, k + step.n, "");
        ResidueTake(accept, raw, k, residue, step.n);
      }
    }
  }

  lemma ResidueSkip(accept: string -> bool, raw: string, k: nat, residue: string)
    requires IsHexText(raw) && k < |raw| && Classify(accept, raw, k) == Skip
    requires var r := Scan(accept, raw, k + 1, residue).residue;
      r == residue || r == "" || (IsPartial(r) && IsSuffix(r, raw[k + 1..]))
    ensures var r := Scan(accept, raw, k, residue).residue;
      r == residue || r == "" || (IsPartial(r) && IsSuffix(r, raw[k..]))
  {
    var r := Scan(accept, raw, k + 1, residue).residue;
    if r != residue && r != "" {
      assert raw[k..][1..] == raw[k + 1..];
      SuffixOfTail(raw[k..], 1, r);
    }
  }

  lemma ResidueTail(accept: string -> bool, raw: string, k: nat, residue: string)
    requires IsHexText(raw) && k < |raw| && Classify(accept, raw, k) == Tail
    ensures var r := Scan(accept, raw, k, residue).residue;
      IsPartial(r) && IsSuffix(r, raw[k..])
  {
    ClassifyCases(accept, raw, k);
  }

  lemma ResidueTake(accept: string -> bool, raw: string, k: nat, residue: string, n: nat)
    requires IsHexText(raw) && k < |raw| && Classify(accept, raw, k) == Take(n)
    requires var r := Scan(accept, raw, k + n, "").residue;
      r == "" || (IsPartial(r) && IsSuffix(r, raw[k + n..]))
    ensures var r := Scan(accept, raw, k, residue).residue;
      r == "" || (IsPartial(r) && IsSuffix(r, raw[k..]))
  {
    var r := Scan(accept, raw, k + n, "").residue;
    ScanTake(accept, raw, k, residue, n);
    if r != "" {
      assert raw[k..][n..] == raw[k + n..];
      SuffixOfTail(raw[k..], n, r);
    }
  }

  /** One pass of the gateway over `text`, with `RESIDUE` empty at the start. */
  function Extract(text: string): (r: Pass)
    requires IsHexText(text)
    ensures AllAccepted(IsValid, r.frames)
    ensures r.residue == "" || (IsPartial(r.residue) && IsSuffix(r.residue, text))
  {
    ScanYieldsAccepted(IsValid, text, 0, "");
    ScanResidue(IsValid, text, 0, "");
    Scan(IsValid, text, 0, "")
  }

  function Concat(fs: seq<string>): string {
    if fs == [] then "" else fs[0] + Concat(fs[1..])
  }

  lemma {:induction false} HexConcat(accept: string -> bool, fs: seq<string>)
    requires AllAccepted(accept, fs)
    ensures IsHexText(Concat(fs))
  {
    if fs != [] {
      assert IsFrame(fs[0]);
      HexConcat(accept, fs[1..]);
    }
  }

  lemma ShiftChar(a: string, b: string, k: nat)
    requires k < |b|
    ensures (a + b)[|a| + k] == b[k]
  {
  }

  lemma ShiftSlice(a: string, b: string, k: nat, n: nat)
    requires k + n <= |b|
    ensures (a + b)[|a| + k..|a| + k + n] == b[k..k + n]
    ensures (a + b)[|a| + k..] == b[k..]
  {
  }

  lemma HexSuffix(a: string, b: string)
    requires IsHexText(a + b)
    ensures IsHexText(b)
  {
    forall i | 0 <= i < |b|
      ensures IsUpperHexDigit(b[i])
    {
      ShiftChar(a, b, i);
    }
  }

  /** The decision at a cursor depends only on the text from the cursor on. */
  lemma ClassifyShift(accept: string -> bool, a: string, b: string, k: nat)
    requires IsHexText(a + b) && k < |b|
    ensures IsHexText(b)
    ensures Classify(accept, a + b, |a| + k) == Classify(accept, b, k)
  {
    var raw := a + b;
    HexSuffix(a, b);
    ShiftChar(a, b, k);
    if k + 1 < |b| {
      ShiftChar(a, b, k + 1);
    }
    assert IsSync(raw, |a| + k) == IsSync(b, k);
    if IsSync(b, k) && k + 10 <= |b| {
      ShiftChar(a, b, k + 8);
      ShiftChar(a, b, k + 9);
      assert FrameLength(raw, |a| + k) == FrameLength(b, k);
      var n := FrameLength(b, k);
      if k + n <= |b| {
        ShiftSlice(a, b, k, n);
      }
    }
  }

  /** Scanning `a + b` past `a` is scanning `b`: the scan never looks behind its cursor. */
  lemma {:induction false} ScanShift(accept: string -> bool, a: string, b: string, k: nat, r: string)
    requires IsHexText(a + b) && k <= |b|
    ensures IsHexText(b)
    ensures Scan(accept, a + b, |a| + k, r) == Scan(accept, b, k, r)
    decreases |b| - k, 1
  {
    HexSuffix(a, b);
    if k < |b| {
      var step := Classify(accept, b, k);
      if step.Skip? {
        ShiftSkip(accept, a, b, k, r);
      } else if step.Tail? {
        ShiftTail(accept, a, b, k, r);
      } else {
        ShiftTake(accept, a, b, k, r, step.n);
      }
    }
  }

  lemma ShiftTail(accept: string -> bool, a: string, b: string, k: nat, r: string)
    requires IsHexText(a + b) && IsHexText(b) && k < |b| && Classify(accept, b, k) == Tail
    ensures Scan(accept, a + b, |a| + k, r) == Scan(accept, b, k, r)
  {
    ClassifyShift(accept, a, b, k);
    ShiftSlice(a, b, k, 0);
  }

  lemma ShiftSkip(accept: string -> bool, a: string, b: string, k: nat, r: string)
    requires IsHexText(a + b) && IsHexText(b) && k < |b| && Classify(accept, b, k) == Skip
    ensures Scan(accept, a + b, |a| + k, r) == Scan(accept, b, k, r)
    decreases |b| - k, 0
  {
    ClassifyShift(accept, a, b, k);
    ScanShift(accept, a, b, k + 1, r);
  }

  lemma ShiftTake(accept: string -> bool, a: string, b: string, k: nat, r: string, n: nat)
    requires IsHexText(a + b) && IsHexText(b) && k < |b| && Classify(accept, b, k) == Take(n)
    ensures Scan(accept, a + b, |a| + k, r) == Scan(accept, b, k, r)
    decreases |b| - k, 0
  {
    ClassifyShift(accept, a, b, k);
    ScanShift(accept, a, b, k + n, "");
    ShiftSlice(a, b, k, n);
    ScanTake(accept, a + b, |a| + k, r, n);
    ScanTake(accept, b, k, r, n);
    assert Scan(accept, a + b, |a| + k + n, "") == Scan(accept, a + b, |a| + (k + n), "") by {
      assert |a| + k + n == |a| + (k + n);
    }
  }

  /** An accepted frame at the front of the text is taken whole, and the scan resumes behind it with `RESIDUE` cleared. */
  lemma ScanFrameFirst(accept: string -> bool, f: string, t: string, r: string)
    requires IsFrame(f) && accept(f) && IsHexText(f + t)
    ensures IsHexText(t)
    ensures var rest := Scan(accept, t, 0, "");
      Scan(accept, f + t, 0, r) == Pass([f] + rest.frames, rest.residue)
  {
    var raw := f + t;
    assert raw[..|f|] == f;
    assert raw[0] == f[0] && raw[1] == f[1] && raw[8] == f[8] && raw[9] == f[9];
    assert FrameLength(raw, 0) == |f|;
    assert Classify(accept, raw, 0) == Take(|f|);
    ScanShift(accept, f, t, 0, "");
  }

  lemma ConsAppend<T>(s: seq<T>, t: seq<T>)
    requires s != []
    ensures [s[0]] + (s[1..] + t) == s + t
  {
    assert s == [s[0]] + s[1..];
  }

  /** Concatenated accepted frames followed by any text: the frames come out first, in order. */
  lemma {:induction false} ScanConcat(accept: string -> bool, fs: seq<string>, t: string, r: string)
    requires AllAccepted(accept, fs) && IsHexText(Concat(fs) + t)
    ensures IsHexText(t)
    ensures var rest := Scan(accept, t, 0, if fs == [] then r else "");
      Scan(accept, Concat(fs) + t, 0, r) == Pass(fs + rest.frames, rest.residue)
  {
    if fs != [] {
      var f := fs[0];
      assert IsFrame(f) && accept(f);
      assert Concat(fs) + t == f + (Concat(fs[1..]) + t);
      ScanFrameFirst(accept, f, Concat(fs[1..]) + t, r);
      ScanConcat(accept, fs[1..], t, "");
      var rest := Scan(accept, t, 0, "");
      ConsAppend(fs, rest.frames);
    } else {
      assert Concat(fs) + t == t;
    }
  }

  /** The extractor recovers exactly the frames that were sent, and keeps no residue. */
  lemma ExtractFrames(fs: seq<string>)
    requires AllAccepted(IsValid, fs)
    ensures IsHexText(Concat(fs))
    ensures Extract(Concat(fs)) == Pass(fs, "")
  {
    HexConcat(IsValid, fs);
    assert Concat(fs) + "" == Concat(fs);
    ScanConcat(IsValid, fs, "", "");
  }

  lemma PrefixOfFrame(f: string, c: nat)
    requires IsFrame(f) && 2 <= c < |f|
    ensures IsPartial(f[..c])
  {
    var t := f[..c];
    if c >= 10 {
      assert t[8] == f[8] && t[9] == f[9];
      assert FrameLength(t, 0) == |f|;
    }
  }

  /** The first pass over accepted frames followed by `t` yields the frames, then whatever `t` yields. */
  lemma FirstPass(accept: string -> bool, fs1: seq<string>, t: string)
    requires AllAccepted(accept, fs1) && IsHexText(Concat(fs1) + t)
    ensures IsHexText(t)
    ensures var rest := Scan(accept, t, 0, "");
      Scan(accept, Concat(fs1) + t, 0, "") == Pass(fs1 + rest.frames, rest.residue)
  {
    ScanConcat(accept, fs1, t, "");
  }

  /** A pass over accepted frames with `RESIDUE` empty yields them all. */
  lemma SecondPass(accept: string -> bool, fs: seq<string>, t: string)
    requires AllAccepted(accept, fs) && t == Concat(fs)
    ensures IsHexText(t) && Scan(accept, t, 0, "") == Pass(fs, "")
  {
    HexConcat(accept, fs);
    assert Concat(fs) + "" == Concat(fs);
    ScanConcat(accept, fs, "", "");
  }

  lemma ConcatCons(f: string, fs: seq<string>)
    ensures Concat([f] + fs) == f + Concat(fs)
  {
    assert ([f] + fs)[1..] == fs;
  }

  lemma Rejoin(f: string, c: nat, t: string)
    requires c <= |f|
    ensures f[..c] + (f[c..] + t) == f + t
  {
    assert f == f[..c] + f[c..];
  }

  /** Two passes over a text cut at `c` inside `f` yield every frame once, and no residue. */
  predicate ResumesAt(accept: string -> bool, fs1: seq<string>, f: string, c: nat, fs2: seq<string>)
    requires c <= |f| && IsHexText(Concat(fs1) + f[..c])
  {
    var p1 := Scan(accept, Concat(fs1) + f[..c], 0, "");
    && IsHexText(p1.residue + (f[c..] + Concat(fs2)))
    && var p2 := Scan(accept, p1.residue + (f[c..] + Concat(fs2)), 0, "");
    && p1.frames + p2.frames == fs1 + [f] + fs2
    && p2.residue == ""
  }

  /** `ResumesAt` from the two passes' results. */
  lemma ResumesIntro(accept: string -> bool, fs1: seq<string>, f: string, c: nat, fs2: seq<string>,
                     first: seq<string>, kept: string, second: seq<string>)
    requires c <= |f| && IsHexText(Concat(fs1) + f[..c])
    requires Scan(accept, Concat(fs1) + f[..c], 0, "") == Pass(first, kept)
    requires IsHexText(kept + (f[c..] + Concat(fs2)))
    requires Scan(accept, kept + (f[c..] + Concat(fs2)), 0, "") == Pass(second, "")
    requires first + second == fs1 + [f] + fs2
    ensures ResumesAt(accept, fs1, f, c, fs2)
  {
  }

  /** With the cut at the frame's start, the first pass yields the frames before it and no residue. */
  lemma CutBeforeFirst(accept: string -> bool, fs1: seq<string>, f: string)
    requires AllAccepted(accept, fs1) && IsHexText(Concat(fs1) + f[..0])
    ensures Scan(accept, Concat(fs1) + f[..0], 0, "") == Pass(fs1, "")
  {
    var t1 := Concat(fs1) + f[..0];
    assert t1 == Concat(fs1);
    SecondPass(accept, fs1, t1);
  }

  /** ... and the second pass, over the whole frame and the rest, yields them. */
  lemma CutBeforeSecond(accept: string -> bool, f: string, fs2: seq<string>)
    requires IsFrame(f) && accept(f) && AllAccepted(accept, fs2)
    ensures IsHexText("" + (f[0..] + Concat(fs2)))
    ensures Scan(accept, "" + (f[0..] + Concat(fs2)), 0, "") == Pass([f] + fs2, "")
  {
    var t2 := "" + (f[0..] + Concat(fs2));
    AcceptedCons(accept, f, fs2);
    ConcatCons(f, fs2);
    assert t2 == Concat([f] + fs2);
    SecondPass(accept, [f] + fs2, t2);
  }

  lemma SplitBefore(accept: string -> bool, fs1: seq<string>, f: string, fs2: seq<string>)
    requires AllAccepted(accept, fs1) && IsFrame(f) && accept(f) && AllAccepted(accept, fs2)
    requires IsHexText(Concat(fs1) + f[..0])
    ensures ResumesAt(accept, fs1, f, 0, fs2)
  {
    CutBeforeFirst(accept, fs1, f);
    CutBeforeSecond(accept, f, fs2);
    assert fs1 + ([f] + fs2) == fs1 + [f] + fs2;
    ResumesIntro(accept, fs1, f, 0, fs2, fs1, "", [f] + fs2);
  }

  lemma SplitAfter(accept: string -> bool, fs1: seq<string>, f: string, fs2: seq<string>)
    requires AllAccepted(accept, fs1) && IsFrame(f) && accept(f) && AllAccepted(accept, fs2)
    requires IsHexText(Concat(fs1) + f[..|f|])
    ensures ResumesAt(accept, fs1, f, |f|, fs2)
  {
    assert f[..|f|] == f + "";
    FirstPass(accept, fs1, f[..|f|]);
    ScanFrameFirst(accept, f, "", "");
    var t2 := "" + (f[|f|..] + Concat(fs2));
    assert t2 == Concat(fs2);
    SecondPass(accept, fs2, t2);
    ResumesIntro(accept, fs1, f, |f|, fs2, fs1 + [f], "", fs2);
  }

  /** An unfinished frame alone is kept whole as the residue. */
  lemma ScanPartial(accept: string -> bool, t: string)
    requires IsPartial(t)
    ensures Scan(accept, t, 0, "") == Pass([], t)
  {
    ClassifyCases(accept, t, 0);
  }

  /** With the cut inside the frame, the first pass yields the frames before it and keeps its front. */
  lemma CutInsideFirst(accept: string -> bool, fs1: seq<string>, f: string, c: nat)
    requires AllAccepted(accept, fs1) && IsFrame(f) && 2 <= c < |f| && IsHexText(Concat(fs1) + f[..c])
    ensures Scan(accept, Concat(fs1) + f[..c], 0, "") == Pass(fs1, f[..c])
  {
    FirstPass(accept, fs1, f[..c]);
    PrefixOfFrame(f, c);
    ScanPartial(accept, f[..c]);
    assert fs1 + [] == fs1;
  }

  /** ... and the second pass, over the kept front, the rest of the frame and what follows, yields them. */
  lemma CutInsideSecond(accept: string -> bool, f: string, c: nat, fs2: seq<string>)
    requires IsFrame(f) && accept(f) && AllAccepted(accept, fs2) && c <= |f|
    ensures IsHexText(f[..c] + (f[c..] + Concat(fs2)))
    ensures Scan(accept, f[..c] + (f[c..] + Concat(fs2)), 0, "") == Pass([f] + fs2, "")
  {
    AcceptedCons(accept, f, fs2);
    ConcatCons(f, fs2);
    Rejoin(f, c, Concat(fs2));
    SecondPass(accept, [f] + fs2, f[..c] + (f[c..] + Concat(fs2)));
  }

  lemma SplitInside(accept: string -> bool, fs1: seq<string>, f: string, c: nat, fs2: seq<string>)
    requires AllAccepted(accept, fs1) && IsFrame(f) && accept(f) && AllAccepted(accept, fs2)
    requires 2 <= c < |f| && IsHexText(Concat(fs1) + f[..c])
    ensures ResumesAt(accept, fs1, f, c, fs2)
  {
    CutInsideFirst(accept, fs1, f, c);
    CutInsideSecond(accept, f, c, fs2);
    assert fs1 + ([f] + fs2) == fs1 + [f] + fs2;
    ResumesIntro(accept, fs1, f, c, fs2, fs1, f[..c], [f] + fs2);
  }

  /**
   * A frame cut in two by the adapter is recovered on the next pass: the
   * first pass keeps its front as the residue, the second pass completes it.
   * The cut may fall anywhere except right after the frame's first
   * character, because a lone `F` at the end of a pass is not a sync.
   */
  lemma SplitResume(fs1: seq<string>, f: string, c: nat, fs2: seq<string>)
    requires AllAccepted(IsValid, fs1) && IsFrame(f) && IsValid(f) && AllAccepted(IsValid, fs2)
    requires c <= |f| && c != 1
    ensures IsHexText(Concat(fs1) + f[..c])
    ensures ResumesAt(IsValid, fs1, f, c, fs2)
  {
    SplitAnywhere(IsValid, fs1, f, c, fs2);
  }

  /** `SplitResume` for any acceptance test. */
  lemma SplitAnywhere(accept: string -> bool, fs1: seq<string>, f: string, c: nat, fs2: seq<string>)
    requires AllAccepted(accept, fs1) && IsFrame(f) && accept(f) && AllAccepted(accept, fs2)
    requires c <= |f| && c != 1
    ensures IsHexText(Concat(fs1) + f[..c])
    ensures ResumesAt(accept, fs1, f, c, fs2)
  {
    HexConcat(accept, fs1);
    assert IsHexText(Concat(fs1) + f[..c]);
    if c == 0 {
      SplitBefore(accept, fs1, f, fs2);
    } else if c == |f| {
      SplitAfter(accept, fs1, f, fs2);
    } else {
      SplitInside(accept, fs1, f, c, fs2);
    }
  }

  lemma HexPrefix(a: string, b: string)
    requires IsHexText(a + b)
    ensures IsHexText(a)
  {
    forall i | 0 <= i < |a|
      ensures IsUpperHexDigit(a[i])
    {
      assert (a + b)[i] == a[i];
    }
  }

  /**
   * One pass, with `RESIDUE` empty, over an even-length front `t` of a
   * stream of accepted frames: it yields the first `m` frames, those that
   * lie wholly inside `t`, and keeps as residue the front of the next
   * frame.  That residue followed by the rest `u` of the stream is the text
   * of the frames still to come.
   */
  lemma {:induction false} ScanStreamFront(accept: string -> bool, gs: seq<string>, t: string, u: string)
    returns (m: nat, r: string)
    requires AllAccepted(accept, gs) && t + u == Concat(gs) && |t| % 2 == 0
    ensures IsHexText(t) && m <= |gs|
    ensures Scan(accept, t, 0, "") == Pass(gs[..m], r)
    ensures r + u == Concat(gs[m..]) && |r| % 2 == 0
    ensures r == "" || (m < |gs| && |r| < |gs[m]|)
    decreases |gs|, 1
  {
    HexConcat(accept, gs);
    HexPrefix(t, u);
    if gs == [] {
      assert |t + u| == 0;
      m, r := 0, "";
    } else if |t| < |gs[0]| {
      StreamFrontShort(accept, gs, t, u);
      assert gs[..0] == [] && gs[0..] == gs;
      m, r := 0, t;
    } else {
      m, r := StreamFrontLong(accept, gs, t, u);
    }
  }

  /** `t` ends inside the first frame: the pass keeps all of it. */
  lemma StreamFrontShort(accept: string -> bool, gs: seq<string>, t: string, u: string)
    requires AllAccepted(accept, gs) && gs != [] && t + u == Concat(gs) && |t| % 2 == 0 && |t| < |gs[0]|
    ensures IsHexText(t) && Scan(accept, t, 0, "") == Pass([], t)
  {
    HexConcat(accept, gs);
    HexPrefix(t, u);
    var f := gs[0];
    assert IsFrame(f);
    assert Concat(gs) == f + Concat(gs[1..]);
    assert (t + u)[..|t|] == t && (f + Concat(gs[1..]))[..|t|] == f[..|t|];
    if t != "" {
      PrefixOfFrame(f, |t|);
      ScanPartial(accept, t);
    }
  }

  /** `t` holds the whole first frame: the pass takes it and goes on over the rest. */
  lemma StreamFrontLong(accept: string -> bool, gs: seq<string>, t: string, u: string)
    returns (m: nat, r: string)
    requires AllAccepted(accept, gs) && gs != [] && t + u == Concat(gs) && |t| % 2 == 0 && |t| >= |gs[0]|
    ensures IsHexText(t) && m <= |gs|
    ensures Scan(accept, t, 0, "") == Pass(gs[..m], r)
    ensures r + u == Concat(gs[m..]) && |r| % 2 == 0
    ensures r == "" || (m < |gs| && |r| < |gs[m]|)
    decreases |gs|, 0
  {
    HexConcat(accept, gs);
    HexPrefix(t, u);
    var f := gs[0];
    var rest := gs[1..];
    assert IsFrame(f) && accept(f);
    assert Concat(gs) == f + Concat(rest);
    var t1 := t[|f|..];
    FrontSplit(f, Concat(rest), t, u);
    AcceptedTail(accept, gs);
    var m1, r1 := ScanStreamFront(accept, rest, t1, u);
    ScanFrameFirst(accept, f, t1, "");
    ConsSplit(gs, m1);
    m, r := m1 + 1, r1;
  }

  /** A text that starts a stream `f + x` and is at least as long as `f` is `f` followed by a front of `x`. */
  lemma FrontSplit(f: string, x: string, t: string, u: string)
    requires t + u == f + x && |t| >= |f|
    ensures t == f + t[|f|..] && t[|f|..] + u == x
  {
    assert (t + u)[..|f|] == t[..|f|] && (f + x)[..|f|] == f;
    assert t == f + t[|f|..];
    assert (f + t[|f|..]) + u == f + (t[|f|..] + u);
  }

  lemma ConsSplit<T>(s: seq<T>, m: nat)
    requires m < |s|
    ensures s[..m + 1] == [s[0]] + s[1..][..m] && s[m + 1..] == s[1..][m..]
  {
  }

  /** A stream of frames is at least as long as its first frame, which is at least 10 characters long. */
  lemma ConcatFirst(accept: string -> bool, gs: seq<string>)
    requires AllAccepted(accept, gs) && gs != []
    ensures 10 <= |gs[0]| <= |Concat(gs)|
  {
    assert IsFrame(gs[0]);
    assert Concat(gs) == gs[0] + Concat(gs[1..]);
  }

  lemma AcceptedTail(accept: string -> bool, gs: seq<string>)
    requires AllAccepted(accept, gs) && gs != []
    ensures AllAccepted(accept, gs[1..])
  {
    forall i | 0 <= i < |gs| - 1
      ensures IsFrame(gs[1..][i]) && accept(gs[1..][i])
    {
      assert gs[1..][i] == gs[i + 1];
    }
  }

  /**
   * The pass as ezville.py writes it: `RESIDUE` is prepended to the data but
   * not cleared when the pass starts, so a pass that takes no frame and
   * ends without an unfinished one leaves the old residue in place.
   */
  function PassAsWritten(residue: string, data: string): Pass
    requires IsHexText(residue + data)
  {
    Scan(IsValid, residue + data, 0, residue)
  }

  /** Past the last sync the scan takes nothing and leaves `RESIDUE` alone. */
  lemma {:induction false} ScanNoSync(accept: string -> bool, raw: string, k: nat, r: string)
    requires IsHexText(raw) && k <= |raw|
    requires forall j :: k <= j < |raw| ==> !IsSync(raw, j)
    ensures Scan(accept, raw, k, r) == Pass([], r)
    decreases |raw| - k
  {
    if k < |raw| {
      ScanNoSync(accept, raw, k + 1, r);
    }
  }

  lemma StaleFrameBytes()
    ensures AllHexDigits("F700000000")
    ensures Xor(ParseBytes("F700000000").value) == 247
  {
    var pre := "F700000000";
    assert AllHexDigits(pre);
    var bs := ParseBytes(pre).value;
    assert bs == [ByteAt(pre, 0), ByteAt(pre, 2), ByteAt(pre, 4), ByteAt(pre, 6), ByteAt(pre, 8)];
    assert bs == [247, 0, 0, 0, 0];
    assert Xor(bs[..1]) == 247 by {
      assert bs[..1][..0] == [];
    }
    assert XorByte(247, 0) == 247;
    assert bs[..2][..1] == bs[..1];
    assert Xor(bs[..2]) == 247;
    assert bs[..3][..2] == bs[..2];
    assert Xor(bs[..3]) == 247;
    assert bs[..4][..3] == bs[..3];
    assert Xor(bs[..4]) == 247;
    assert bs[..4] == bs[..|bs| - 1];
  }

  lemma StaleFrameInvalid()
    ensures !IsValid("F7000000000000")
  {
    var raw := "F7000000000000";
    assert Prefix(raw) == "F700000000";
    StaleFrameBytes();
    ValidIffTrailer(raw);
    var bs := ParseBytes("F700000000").value;
    assert raw[|raw| - 4..][..2] == "00";
    assert Trailer(bs)[..2] == Hex2(247);
  }

  /** The text of the example: one whole frame, rejected, and no other sync. */
  lemma StaleScan(accept: string -> bool, r: string)
    requires !accept("F7000000000000")
    ensures IsHexText("F7000000000000")
    ensures Scan(accept, "F7000000000000", 0, r) == Pass([], r)
  {
    var raw := "F7000000000000";
    assert raw[0..14] == raw;
    assert Classify(accept, raw, 0) == Skip;
    assert forall j :: 1 <= j < |raw| ==> raw[j] != 'F';
    ScanNoSync(accept, raw, 1, r);
  }

  /**
   * A residue `F7` followed by twelve zeros makes a whole frame whose
   * trailer does not match (its checksum is `F700000000F7EE`).  As
   * written, the pass keeps `F7` as the residue and prepends it again the
   * next time; with the residue cleared at the start it is dropped.
   */
  lemma StaleResidue()
    ensures IsHexText("F7" + "000000000000")
    ensures PassAsWritten("F7", "000000000000") == Pass([], "F7")
    ensures Extract("F7" + "000000000000") == Pass([], "")
  {
    assert "F7" + "000000000000" == "F7000000000000";
    StaleFrameInvalid();
    StaleScan(IsValid, "F7");
    StaleScan(IsValid, "");
  }
}
