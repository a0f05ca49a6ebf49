// Binarisation of a block for arithmetic coding (sections F.1.4 and F.2.4 of ITU-T T.81):
// which decisions, on which statistics bins, stand for the coefficients of a block.

module ArithmeticBlock {
  import opened CodeBits
  import opened ProbabilityTable
  import opened CodingInterval
  import opened Coefficients

  const DC_BINS := 64
  const AC_BINS := 256
  const TABLES := 16
  const FIXED_BIN := TABLES * DC_BINS + TABLES * AC_BINS
  const ALL_BINS := FIXED_BIN + 1

  // First statistics bin of a DC or AC table.
  function DcBase(tbl: nat): nat { DC_BINS * tbl }

  function AcBase(tbl: nat): nat { TABLES * DC_BINS + AC_BINS * tbl }

  // ----- Magnitudes -----

  // The leading one bit of v, standing alone.
  function Leading(v: nat): nat {
    if v < 2 then v else 2 * Leading(v / 2)
  }

  // Bit number m of v, m being a power of two.
  predicate BitSet(v: nat, m: nat)
    requires m > 0
  {
    v / m % 2 == 1
  }

  // Figure F.9: bit m of v and all lower bits.
  function BitsTrace(st: nat, v: nat, m: nat): seq<Decision> {
    if m == 0 then [] else [Decision(st, BitSet(v, m))] + BitsTrace(st, v, m / 2)
  }

  // Figure F.8 from the first doubling on: how often v2 can be halved, and then the bits.
  function CategoryTrace(st: nat, v2: nat, v: nat): seq<Decision>
    requires v2 >= 1
    decreases v2
  {
    if v2 / 2 == 0 then [Decision(st, false)] + BitsTrace(st + 14, v, Leading(v) / 2)
    else [Decision(st, true)] + CategoryTrace(st + 1, v2 / 2, v)
  }

  // Magnitude of a DC difference less one, with bins SP or SN and X1 and following.
  function DcMagnitude(st: nat, x: nat, v: nat): seq<Decision> {
    if v == 0 then [Decision(st, false)] else [Decision(st, true)] + CategoryTrace(x, v, v)
  }

  // Magnitude of an AC coefficient less one; the second decision shares the bin of the first.
  function AcMagnitude(st: nat, x: nat, v: nat): seq<Decision> {
    if v == 0 then [Decision(st, false)]
    else if v == 1 then [Decision(st, true), Decision(st, false)]
    else [Decision(st, true), Decision(st, true)] + CategoryTrace(x, v / 2, v)
  }

  // ----- DC differences -----

  // Figure F.4.
  function DcTrace(base: nat, context: nat, diff: int): seq<Decision> {
    var st := base + context;
    if diff == 0 then [Decision(st, false)]
    else
      [Decision(st, true), Decision(st + 1, diff < 0)]
      + DcMagnitude(if diff < 0 then st + 3 else st + 2, base + 20, Abs(diff) - 1)
  }

  // Limits between the categories of differences.
  datatype Conditioning = Conditioning(dcL: nat, dcU: nat, acK: nat)

  // Section F.1.4.4.1.2: how the next difference is conditioned on this one.
  function NextContext(cond: Conditioning, diff: int): (context: nat)
    ensures context in {0, 4, 8, 12, 16}
  {
    if diff == 0 then 0
    else
      var m := Leading(Abs(diff) - 1);
      if m < Pow2(cond.dcL) / 2 then 0
      else if m > Pow2(cond.dcU) / 2 then (if diff > 0 then 12 else 16)
      else (if diff > 0 then 4 else 8)
  }

  // ----- AC coefficients -----

  // Index of the last nonzero coefficient up to k, 0 if there is none.
  function LastNonzero(order: seq<nat>, b: seq<int>, k: nat): (ke: nat)
    requires ValidOrder(order) && |b| == BLOCK && k < BLOCK
    ensures ke <= k && (ke > 0 ==> b[order[ke]] != 0)
    ensures forall j :: ke < j <= k ==> b[order[j]] == 0
  {
    if k == 0 then 0 else if b[order[k]] != 0 then k else LastNonzero(order, b, k - 1)
  }

  // What the AC part of a block depends on.
  datatype AcPlan = AcPlan(order: seq<nat>, se: nat, base: nat, acK: nat)

  ghost predicate ValidAcPlan(p: AcPlan) {
    ValidOrder(p.order) && p.se < BLOCK
  }

  ghost predicate EndAt(p: AcPlan, b: seq<int>, ke: nat) {
    ValidAcPlan(p) && |b| == BLOCK && ke <= p.se && (ke > 0 ==> b[p.order[ke]] != 0)
  }

  // The sign and magnitude of coefficient j.
  ghost function CoefTrace(p: AcPlan, j: nat, v: int): seq<Decision>
    requires j > 0 && v != 0
  {
    [Decision(FIXED_BIN, v < 0)]
    + AcMagnitude(p.base + 3 * (j - 1) + 2, p.base + (if j <= p.acK then 189 else 217), Abs(v) - 1)
  }

  // Figure F.5 from coefficient k on: end-of-block decisions, zero decisions, values.
  ghost function AcTrace(p: AcPlan, b: seq<int>, k: nat, ke: nat): seq<Decision>
    requires EndAt(p, b, ke) && k <= ke
    decreases 2 * (ke - k) + 1
  {
    if k == ke then
      if k < p.se then [Decision(p.base + 3 * k, true)] else []
    else
      [Decision(p.base + 3 * k, false)] + RunTrace(p, b, k + 1, ke)
  }

  ghost function RunTrace(p: AcPlan, b: seq<int>, j: nat, ke: nat): seq<Decision>
    requires EndAt(p, b, ke) && 1 <= j <= ke
    decreases 2 * (ke - j) + 2
  {
    var v := b[p.order[j]];
    if v == 0 then [Decision(p.base + 3 * j - 2, false)] + RunTrace(p, b, j + 1, ke)
    else [Decision(p.base + 3 * j - 2, true)] + (CoefTrace(p, j, v) + AcTrace(p, b, j, ke))
  }

  // All AC coefficients.
  ghost function AllAcTrace(p: AcPlan, b: seq<int>): seq<Decision>
    requires ValidAcPlan(p) && |b| == BLOCK
  {
    if p.se == 0 then [] else AcTrace(p, b, 0, LastNonzero(p.order, b, p.se))
  }

  // ----- Bin indices stay in their table -----

  ghost predicate Within(trace: seq<Decision>, lo: nat, hi: nat) {
    forall i :: 0 <= i < |trace| ==> lo <= trace[i].bin < hi || trace[i].bin == FIXED_BIN
  }

  lemma {:induction false} BitsWithin(st: nat, v: nat, m: nat, lo: nat, hi: nat)
    requires lo <= st < hi
    ensures Within(BitsTrace(st, v, m), lo, hi)
  {
    hide BitSet;
    if m != 0 {
      BitsWithin(st, v, m / 2, lo, hi);
    }
  }

  lemma {:induction false} CategoryWithin(st: nat, v2: nat, v: nat, n: nat, lo: nat, hi: nat)
    requires v2 >= 1 && v2 < Pow2(n + 1) && lo <= st && st + n + 14 < hi
    ensures Within(CategoryTrace(st, v2, v), lo, hi)
    decreases v2
  {
    hide Leading, BitsTrace;
    if v2 / 2 == 0 {
      BitsWithin(st + 14, v, Leading(v) / 2, lo, hi);
    } else {
      CategoryWithin(st + 1, v2 / 2, v, n - 1, lo, hi);
    }
  }

  lemma DcWithin(tbl: nat, context: nat, diff: int)
    requires context <= 16 && Abs(diff) <= 0x10000
    ensures Within(DcTrace(DcBase(tbl), context, diff), DcBase(tbl), DcBase(tbl) + DC_BINS)
  {
    hide CategoryTrace;
    if diff != 0 && Abs(diff) > 1 {
      assert Pow2(16) == 0x10000 by { Pow2Constants(); }
      CategoryWithin(DcBase(tbl) + 20, Abs(diff) - 1, Abs(diff) - 1, 15, DcBase(tbl), DcBase(tbl) + DC_BINS);
    }
  }

  lemma CoefWithin(p: AcPlan, j: nat, v: int)
    requires 0 < j < BLOCK && v != 0 && Abs(v) <= 0x8000
    ensures Within(CoefTrace(p, j, v), p.base, p.base + AC_BINS)
  {
    hide CategoryTrace, Leading;
    var m := Abs(v) - 1;
    if m >= 2 {
      assert Pow2(14) == 0x4000 by { Pow2Constants(); assert Pow2(15) == 2 * Pow2(14); }
      CategoryWithin(p.base + (if j <= p.acK then 189 else 217), m / 2, m, 13, p.base, p.base + AC_BINS);
    }
  }

  // Coefficients of 16 bits.
  ghost predicate CoefsFit(b: seq<int>) {
    |b| == BLOCK && forall k :: 0 <= k < BLOCK ==> -0x8000 <= b[k] < 0x8000
  }

  lemma {:induction false} AcWithin(p: AcPlan, b: seq<int>, k: nat, ke: nat)
    requires EndAt(p, b, ke) && k <= ke && CoefsFit(b)
    ensures Within(AcTrace(p, b, k, ke), p.base, p.base + AC_BINS)
    decreases 2 * (ke - k) + 1
  {
    hide CoefTrace;
    if k < ke {
      RunWithin(p, b, k + 1, ke);
    }
  }

  lemma {:induction false} RunWithin(p: AcPlan, b: seq<int>, j: nat, ke: nat)
    requires EndAt(p, b, ke) && 1 <= j <= ke && CoefsFit(b)
    ensures Within(RunTrace(p, b, j, ke), p.base, p.base + AC_BINS)
    decreases 2 * (ke - j) + 2
  {
    hide CoefTrace;
    var v := b[p.order[j]];
    if v == 0 {
      RunWithin(p, b, j + 1, ke);
    } else {
      CoefWithin(p, j, v);
      AcWithin(p, b, j, ke);
    }
  }

  // ----- The bin of fixed probability -----

  // The fixed bin never moves.
  lemma {:induction false} FixedBinStays(s: Coder, trace: seq<Decision>)
    requires InRange(trace, |s.bins|) && ValidBins(s.bins) && 0x8000 <= s.a <= 0x10000
    requires |s.bins| == ALL_BINS && s.bins[FIXED_BIN] == FIXED_STATE
    ensures EncodeAll(s, trace).bins[FIXED_BIN] == FIXED_STATE
    decreases |trace|
  {
    hide EncodeStep;
    if trace != [] {
      StepKeepsFixed(s, trace[0]);
      FixedBinStays(EncodeStep(s, trace[0]), trace[1..]);
    }
  }

  lemma StepKeepsFixed(s: Coder, d: Decision)
    requires d.bin < |s.bins| && ValidBins(s.bins) && 0x8000 <= s.a <= 0x10000
    requires |s.bins| == ALL_BINS && s.bins[FIXED_BIN] == FIXED_STATE
    ensures EncodeStep(s, d).bins[FIXED_BIN] == FIXED_STATE
  {
    hide AfterLps, AfterMps, Qe, Renormalize;
    FixedStateIsFixed();
  }
}
