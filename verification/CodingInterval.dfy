// Exact interval arithmetic of the adaptive binary coder (Annex D of ITU-T T.81),
// free of registers, byte output and carries. The arithmetic encoder and decoder are
// both proved against it.

module CodingInterval {
  import opened CodeBits
  import opened ProbabilityTable

  predicate ValidBins(bins: seq<Bin>) {
    forall i :: 0 <= i < |bins| ==> ValidBin(bins[i])
  }

  // After n shifts the coding interval is [low, low + a) in units of 2^-(16+n).
  datatype Coder = Coder(low: nat, a: nat, shifts: nat, bins: seq<Bin>)

  // One binary decision, coded with the adaptive estimate of one statistics bin.
  datatype Decision = Decision(bin: nat, bit: bool)

  function Start(bins: seq<Bin>): Coder {
    Coder(0, 0x10000, 0, bins)
  }

  // A bit string codes for a state when the fraction it denotes lies in the interval.
  ghost predicate Codes(code: seq<Byte>, s: Coder) {
    s.low <= Prefix(code, 16 + s.shifts) < s.low + s.a
  }

  // Size of the lower subinterval for a decision on this bin.
  function LowerSize(s: Coder, bin: nat): (m: int)
    requires bin < |s.bins| && ValidBins(s.bins) && s.a >= 0x8000
    ensures 0 < m < s.a
  {
    s.a - Qe(s.bins[bin])
  }

  // Narrowing to the subinterval of a decision, with conditional MPS/LPS exchange
  // (sections D.1.4 and D.1.5), before renormalization.
  function Narrow(s: Coder, d: Decision): (r: Coder)
    requires d.bin < |s.bins| && ValidBins(s.bins) && s.a >= 0x8000
    ensures ValidBins(r.bins) && |r.bins| == |s.bins| && 0 < r.a <= s.a
  {
    var sv := s.bins[d.bin];
    var qe := Qe(sv);
    var m := LowerSize(s, d.bin);
    if d.bit != Mps(sv) then
      var bins := s.bins[d.bin := AfterLps(sv)];
      if m >= qe then Coder(s.low + m, qe, s.shifts, bins) else Coder(s.low, m, s.shifts, bins)
    else if m >= 0x8000 then
      Coder(s.low, m, s.shifts, s.bins)
    else
      var bins := s.bins[d.bin := AfterMps(sv)];
      if m < qe then Coder(s.low + m, qe, s.shifts, bins) else Coder(s.low, m, s.shifts, bins)
  }

  function Double(s: Coder): Coder {
    Coder(2 * s.low, 2 * s.a, s.shifts + 1, s.bins)
  }

  function Renormalize(s: Coder): (r: Coder)
    requires 0 < s.a <= 0x10000
    ensures 0x8000 <= r.a <= 0x10000 && r.bins == s.bins
    decreases 0x8000 - s.a
  {
    if s.a >= 0x8000 then s else Renormalize(Double(s))
  }

  lemma RenormalizeIdle(s: Coder)
    requires 0x8000 <= s.a <= 0x10000
    ensures Renormalize(s) == s
  {
  }

  function EncodeStep(s: Coder, d: Decision): (r: Coder)
    requires d.bin < |s.bins| && ValidBins(s.bins) && 0x8000 <= s.a <= 0x10000
    ensures ValidBins(r.bins) && |r.bins| == |s.bins| && 0x8000 <= r.a <= 0x10000
  {
    Renormalize(Narrow(s, d))
  }

  // The decision a decoder reads off the code in the same state (section D.2.4).
  ghost function DecodeBit(code: seq<Byte>, s: Coder, bin: nat): bool
    requires bin < |s.bins| && ValidBins(s.bins) && s.a >= 0x8000
  {
    var sv := s.bins[bin];
    var m := LowerSize(s, bin);
    var exchanged := m < Qe(sv);
    if Prefix(code, 16 + s.shifts) >= s.low + m then
      if exchanged then Mps(sv) else !Mps(sv)
    else
      if exchanged then !Mps(sv) else Mps(sv)
  }

  ghost predicate InRange(trace: seq<Decision>, bins: nat) {
    forall i :: 0 <= i < |trace| ==> trace[i].bin < bins
  }

  ghost function EncodeAll(s: Coder, trace: seq<Decision>): (r: Coder)
    requires InRange(trace, |s.bins|) && ValidBins(s.bins) && 0x8000 <= s.a <= 0x10000
    ensures ValidBins(r.bins) && |r.bins| == |s.bins| && 0x8000 <= r.a <= 0x10000
    decreases |trace|
  {
    if trace == [] then s else EncodeAll(EncodeStep(s, trace[0]), trace[1..])
  }

  // Decode one decision after another on the bins asked for.
  ghost function DecodeAll(code: seq<Byte>, s: Coder, bins: seq<nat>): (trace: seq<Decision>)
    requires forall i :: 0 <= i < |bins| ==> bins[i] < |s.bins|
    requires ValidBins(s.bins) && 0x8000 <= s.a <= 0x10000
    decreases |bins|
  {
    if bins == [] then []
    else
      var d := Decision(bins[0], DecodeBit(code, s, bins[0]));
      [d] + DecodeAll(code, EncodeStep(s, d), bins[1..])
  }

  function BinsOf(trace: seq<Decision>): (bins: seq<nat>)
    ensures |bins| == |trace|
    ensures forall i :: 0 <= i < |trace| ==> bins[i] == trace[i].bin
  {
    seq(|trace|, i requires 0 <= i < |trace| => trace[i].bin)
  }

  // ----- The two subintervals partition the interval -----

  lemma NarrowChoosesDecision(code: seq<Byte>, s: Coder, d: Decision)
    requires d.bin < |s.bins| && ValidBins(s.bins) && s.a >= 0x8000
    ensures Codes(code, Narrow(s, d)) <==> Codes(code, s) && DecodeBit(code, s, d.bin) == d.bit
  {
    hide Prefix, Qe, AfterLps, AfterMps;
  }

  // Renormalization rescales the interval without changing which codes it contains.
  lemma {:induction false} RenormalizeKeepsCodes(code: seq<Byte>, s: Coder)
    requires 0 < s.a <= 0x10000
    ensures Codes(code, Renormalize(s)) <==> Codes(code, s)
    decreases 0x8000 - s.a
  {
    hide BitAt;
    if s.a < 0x8000 {
      RenormalizeKeepsCodes(code, Double(s));
      assert Prefix(code, 16 + s.shifts + 1) == 2 * Prefix(code, 16 + s.shifts) + BitAt(code, 16 + s.shifts);
    }
  }

  // A code lies in the interval after a decision exactly when it lay in the interval
  // before and the decoder reads that decision.
  lemma StepChoosesDecision(code: seq<Byte>, s: Coder, d: Decision)
    requires d.bin < |s.bins| && ValidBins(s.bins) && 0x8000 <= s.a <= 0x10000
    ensures Codes(code, EncodeStep(s, d)) <==> Codes(code, s) && DecodeBit(code, s, d.bin) == d.bit
  {
    hide Codes, DecodeBit, Narrow, Renormalize;
    NarrowChoosesDecision(code, s, d);
    RenormalizeKeepsCodes(code, Narrow(s, d));
  }

  // Round trip: whatever the decisions, a code lies in the final interval exactly when
  // decoding it with the same choice of bins returns those decisions.
  lemma {:induction false} DecodeInvertsEncode(code: seq<Byte>, s: Coder, trace: seq<Decision>)
    requires InRange(trace, |s.bins|) && ValidBins(s.bins) && 0x8000 <= s.a <= 0x10000
    ensures Codes(code, EncodeAll(s, trace))
            <==> Codes(code, s) && DecodeAll(code, s, BinsOf(trace)) == trace
    decreases |trace|
  {
    hide Codes, DecodeBit, EncodeStep;
    if trace != [] {
      var d, rest := trace[0], trace[1..];
      assert BinsOf(trace)[1..] == BinsOf(rest);
      StepChoosesDecision(code, s, d);
      DecodeInvertsEncode(code, EncodeStep(s, d), rest);
      assert trace == [d] + rest;
      assert (DecodeAll(code, s, BinsOf(trace)) == trace) ==> DecodeAll(code, s, BinsOf(trace))[0] == d;
    }
  }

  // One step of the round trip, as a decoder that already knows it is on a coded trace
  // uses it: the next decision is read correctly, and the rest stays coded.
  lemma DecodeNext(code: seq<Byte>, s: Coder, d: Decision, rest: seq<Decision>)
    requires d.bin < |s.bins| && InRange(rest, |s.bins|) && ValidBins(s.bins) && 0x8000 <= s.a <= 0x10000
    requires Codes(code, EncodeAll(s, [d] + rest))
    ensures DecodeBit(code, s, d.bin) == d.bit
    ensures Codes(code, EncodeAll(EncodeStep(s, d), rest))
  {
    hide Codes, DecodeBit, EncodeStep;
    assert ([d] + rest)[1..] == rest;
    var t := EncodeStep(s, d);
    DecodeInvertsEncode(code, t, rest);
    StepChoosesDecision(code, s, d);
  }

  lemma EncodeNext(s: Coder, d: Decision, rest: seq<Decision>)
    requires d.bin < |s.bins| && InRange(rest, |s.bins|) && ValidBins(s.bins) && 0x8000 <= s.a <= 0x10000
    ensures EncodeAll(s, [d] + rest) == EncodeAll(EncodeStep(s, d), rest)
  {
    hide EncodeStep;
    assert ([d] + rest)[1..] == rest;
  }
}
