// Binarisation of a band of AC coefficients in progressive mode (sections G.1.3.1 and
// G.1.3.3 of ITU-T T.81), and the encoder's two routines for it.

module ArithmeticBand {
  import opened CodeBits
  import opened Coefficients
  import opened PointTransform
  import opened CodingInterval
  import opened ArithmeticEncoder
  import opened ArithmeticBlock
  import opened ArithmeticMcuEncoder

  // The coefficients of a block as they are coded.
  function SignedBlock(x: seq<int>, al: nat): (s: seq<int>)
    ensures |s| == |x| && forall p :: 0 <= p < |x| ==> s[p] == Signed(x[p], al)
  {
    seq(|x|, p requires 0 <= p < |x| => Signed(x[p], al))
  }

  // ----- First scan of a band -----

  // Figure F.5, for coefficients from ss on.
  ghost function BandTrace(p: AcPlan, s: seq<int>, ss: nat): seq<Decision>
    requires ValidAcPlan(p) && |s| == BLOCK && 1 <= ss <= p.se
  {
    FirstTrace(p, s, ss, LastNonzero(p.order, s, p.se))
  }

  ghost function FirstTrace(p: AcPlan, s: seq<int>, k: nat, ke: nat): seq<Decision>
    requires EndAt(p, s, ke) && 1 <= k
  {
    if k <= ke then AcTrace(p, s, k - 1, ke)
    else if k <= p.se then [Decision(p.base + 3 * k - 3, true)] else []
  }

  // ----- Refinement of a band -----

  // Figure G.10 from coefficient k on, where kex is the last coefficient that was nonzero
  // before: up to it no end of block needs to be ruled out.
  ghost function RefineTrace(p: AcPlan, s: seq<int>, k: nat, ke: nat, kex: nat): seq<Decision>
    requires EndAt(p, s, ke) && 1 <= k
    decreases BLOCK - k, 1
  {
    if k > ke then
      if k <= p.se then [Decision(p.base + 3 * k - 3, true)] else []
    else
      (if k > kex then [Decision(p.base + 3 * k - 3, false)] else []) + RefineRun(p, s, k, ke, kex)
  }

  // Zeros up to the next coefficient, which has a correction bit or is newly nonzero.
  ghost function RefineRun(p: AcPlan, s: seq<int>, j: nat, ke: nat, kex: nat): seq<Decision>
    requires EndAt(p, s, ke) && 1 <= j <= ke
    decreases BLOCK - j, 0
  {
    var v := s[p.order[j]];
    if v == 0 then [Decision(p.base + 3 * j - 2, false)] + RefineRun(p, s, j + 1, ke, kex)
    else RefineCoef(p, j, v) + RefineTrace(p, s, j + 1, ke, kex)
  }

  function RefineCoef(p: AcPlan, j: nat, v: int): seq<Decision>
    requires j >= 1
  {
    if Abs(v) > 1 then [Decision(p.base + 3 * j - 1, Abs(v) % 2 == 1)]
    else [Decision(p.base + 3 * j - 2, true), Decision(FIXED_BIN, v < 0)]
  }

  ghost function RefineBand(p: AcPlan, x: seq<int>, ss: nat, al: nat): seq<Decision>
    requires ValidAcPlan(p) && |x| == BLOCK && 1 <= ss <= p.se
  {
    var ke := LastNonzero(p.order, SignedBlock(x, al), p.se);
    RefineTrace(p, SignedBlock(x, al), ss, ke, LastNonzero(p.order, SignedBlock(x, al + 1), ke))
  }

  // ----- Bin indices stay in their table -----

  lemma BandWithin(p: AcPlan, s: seq<int>, ss: nat)
    requires ValidAcPlan(p) && 1 <= ss <= p.se && CoefsFit(s)
    ensures Within(BandTrace(p, s, ss), p.base, p.base + AC_BINS)
  {
    hide LastNonzero, ValidOrder, AcTrace;
    var ke := LastNonzero(p.order, s, p.se);
    if ke >= ss {
      AcWithin(p, s, ss - 1, ke);
    }
  }

  lemma {:induction false} RefineWithin(p: AcPlan, s: seq<int>, k: nat, ke: nat, kex: nat)
    requires EndAt(p, s, ke) && 1 <= k
    ensures Within(RefineTrace(p, s, k, ke, kex), p.base, p.base + AC_BINS)
    decreases BLOCK - k, 1
  {
    hide ValidOrder;
    if k <= ke {
      RefineRunWithin(p, s, k, ke, kex);
    }
  }

  lemma {:induction false} RefineRunWithin(p: AcPlan, s: seq<int>, j: nat, ke: nat, kex: nat)
    requires EndAt(p, s, ke) && 1 <= j <= ke
    ensures Within(RefineRun(p, s, j, ke, kex), p.base, p.base + AC_BINS)
    decreases BLOCK - j, 0
  {
    hide ValidOrder;
    Entries(p.order);
    if s[p.order[j]] == 0 {
      RefineRunWithin(p, s, j + 1, ke, kex);
    } else {
      RefineWithin(p, s, j + 1, ke, kex);
    }
  }

  // ----- The encoder -----

  // The last coefficient up to index from that is nonzero after the point transform.
  method FindSent(order: seq<nat>, x: seq<int>, al: nat, from: nat) returns (ke: nat)
    requires ValidOrder(order) && |x| == BLOCK && from < BLOCK
    ensures ke == LastNonzero(order, SignedBlock(x, al), from)
  {
    hide ValidOrder, Signed, Magnitude;
    Entries(order);
    ke := from;
    while ke > 0
      invariant ke <= from && LastNonzero(order, SignedBlock(x, al), ke) == LastNonzero(order, SignedBlock(x, al), from)
    {
      var v := Magnitude(x[order[ke]], al);
      SignedIsZero(x[order[ke]], al);
      if v != 0 {
        break;
      }
      ke := ke - 1;
    }
  }

  lemma SignedIsZero(x: int, al: nat)
    ensures Signed(x, al) == 0 <==> Magnitude(x, al) == 0
    ensures Abs(Signed(x, al)) == Magnitude(x, al)
    ensures Signed(x, al) < 0 <==> x < 0 && Magnitude(x, al) != 0
  {
    hide Magnitude;
  }

  // Zero decisions up to the next nonzero coefficient.
  method EncodeRun(e: Encoder, order: seq<nat>, al: nat, base: nat, x: seq<int>, from: nat, ghost p: AcPlan,
                   ghost ke: nat, ghost rest: seq<Decision>, ghost goal: Coder)
    returns (k: nat)
    requires |x| == BLOCK && p.order == order && p.base == base && EndAt(p, SignedBlock(x, al), ke) && 1 <= from <= ke
    requires e.Owes(RunTrace(p, SignedBlock(x, al), from, ke) + rest, goal)
    modifies e`c, e`a, e`sc, e`zc, e`ct, e`buffer, e`output, e`data, e.bins
    ensures from <= k <= ke && p.order[k] < BLOCK && Signed(x[order[k]], al) != 0
    ensures e.Owes(CoefTrace(p, k, Signed(x[order[k]], al)) + (AcTrace(p, SignedBlock(x, al), k, ke) + rest), goal)
  {
    hide Encoder.Owes, CoefTrace, ValidOrder, Signed, Magnitude, AcTrace, RunTrace;
    Entries(order);
    ghost var s := SignedBlock(x, al);
    k := from;
    while Magnitude(x[order[k]], al) == 0
      invariant from <= k <= ke && e.Owes(RunTrace(p, s, k, ke) + rest, goal)
      decreases ke - k
    {
      SignedIsZero(x[order[k]], al);
      RunStep(p, s, k, ke, rest);
      e.Put(base + 3 * (k - 1) + 1, false, RunTrace(p, s, k + 1, ke) + rest, goal);
      k := k + 1;
    }
    SignedIsZero(x[order[k]], al);
    RunStep(p, s, k, ke, rest);
    e.Put(base + 3 * (k - 1) + 1, true, CoefTrace(p, k, Signed(x[order[k]], al)) + (AcTrace(p, s, k, ke) + rest), goal);
  }

  // encode_mcu_AC_first, for the block of the MCU.
  method EncodeBandFirst(e: Encoder, order: seq<nat>, ss: nat, se: nat, al: nat, base: nat, acK: nat, x: seq<int>,
                         ghost rest: seq<Decision>, ghost goal: Coder)
    requires ValidOrder(order) && |x| == BLOCK && 1 <= ss <= se < BLOCK
    requires e.Owes(BandTrace(AcPlan(order, se, base, acK), SignedBlock(x, al), ss) + rest, goal)
    modifies e`c, e`a, e`sc, e`zc, e`ct, e`buffer, e`output, e`data, e.bins
    ensures e.Owes(rest, goal)
  {
    hide Encoder.Owes, CoefTrace, ValidOrder, Signed, AcTrace, RunTrace, FirstTrace;
    Entries(order);
    ghost var p, s := AcPlan(order, se, base, acK), SignedBlock(x, al);
    var ke := FindSent(order, x, al, se);
    var k := ss;
    while k <= ke
      invariant ss <= k <= se + 1 && e.Owes(FirstTrace(p, s, k, ke) + rest, goal)
    {
      FirstHead(p, s, k, ke, rest);
      e.Put(base + 3 * (k - 1), false, RunTrace(p, s, k, ke) + rest, goal);
      k := EncodeRun(e, order, al, base, x, k, p, ke, rest, goal);
      EncodeCoef(e, p, base, acK, k, Signed(x[order[k]], al), AcTrace(p, s, k, ke) + rest, goal);
      FirstNext(p, s, k, ke);
      k := k + 1;
    }
    FirstHead(p, s, k, ke, rest);
    if k <= se {
      e.Put(base + 3 * (k - 1), true, rest, goal);
    }
  }

  lemma FirstHead(p: AcPlan, s: seq<int>, k: nat, ke: nat, rest: seq<Decision>)
    requires EndAt(p, s, ke) && 1 <= k
    ensures FirstTrace(p, s, k, ke) + rest ==
      if k > ke then
        if k <= p.se then [Decision(p.base + 3 * k - 3, true)] + rest else rest
      else [Decision(p.base + 3 * k - 3, false)] + (RunTrace(p, s, k, ke) + rest)
  {
    hide ValidOrder, RunTrace;
    assert [] + rest == rest;
  }

  lemma FirstNext(p: AcPlan, s: seq<int>, k: nat, ke: nat)
    requires EndAt(p, s, ke) && k <= ke
    ensures AcTrace(p, s, k, ke) == FirstTrace(p, s, k + 1, ke)
  {
    hide ValidOrder, RunTrace;
  }

  lemma RunStep(p: AcPlan, s: seq<int>, j: nat, ke: nat, rest: seq<Decision>)
    requires EndAt(p, s, ke) && 1 <= j <= ke
    ensures p.order[j] < BLOCK && (s[p.order[j]] == 0 ==> j < ke)
    ensures RunTrace(p, s, j, ke) + rest ==
      if s[p.order[j]] == 0 then [Decision(p.base + 3 * j - 2, false)] + (RunTrace(p, s, j + 1, ke) + rest)
      else [Decision(p.base + 3 * j - 2, true)] + (CoefTrace(p, j, s[p.order[j]]) + (AcTrace(p, s, j, ke) + rest))
  {
    hide ValidOrder, CoefTrace, AcTrace;
    Entries(p.order);
  }

  // Zero decisions up to the next coefficient that has something to say.
  method EncodeRefineRun(e: Encoder, order: seq<nat>, al: nat, base: nat, x: seq<int>, from: nat, ghost p: AcPlan,
                         ghost ke: nat, ghost kex: nat, ghost rest: seq<Decision>, ghost goal: Coder)
    returns (k: nat)
    requires |x| == BLOCK && p.order == order && p.base == base && EndAt(p, SignedBlock(x, al), ke) && 1 <= from <= ke
    requires e.Owes(RefineRun(p, SignedBlock(x, al), from, ke, kex) + rest, goal)
    modifies e`c, e`a, e`sc, e`zc, e`ct, e`buffer, e`output, e`data, e.bins
    ensures from <= k <= ke && p.order[k] < BLOCK && Magnitude(x[order[k]], al) != 0
    ensures e.Owes(RefineCoef(p, k, Signed(x[order[k]], al))
                   + (RefineTrace(p, SignedBlock(x, al), k + 1, ke, kex) + rest), goal)
  {
    hide Encoder.Owes, ValidOrder, Signed, Magnitude, RefineTrace, RefineRun, RefineCoef;
    Entries(order);
    ghost var s := SignedBlock(x, al);
    k := from;
    while Magnitude(x[order[k]], al) == 0
      invariant from <= k <= ke && e.Owes(RefineRun(p, s, k, ke, kex) + rest, goal)
      decreases ke - k
    {
      SignedIsZero(x[order[k]], al);
      RefineStep(p, s, k, ke, kex, rest);
      e.Put(base + 3 * (k - 1) + 1, false, RefineRun(p, s, k + 1, ke, kex) + rest, goal);
      k := k + 1;
    }
    SignedIsZero(x[order[k]], al);
    RefineStep(p, s, k, ke, kex, rest);
  }

  // A correction bit, or a newly nonzero coefficient and its sign.
  method EncodeRefineCoef(e: Encoder, ghost p: AcPlan, base: nat, k: nat, x: int, al: nat,
                          ghost rest: seq<Decision>, ghost goal: Coder)
    requires k >= 1 && base == p.base && Magnitude(x, al) != 0
    requires e.Owes(RefineCoef(p, k, Signed(x, al)) + rest, goal)
    modifies e`c, e`a, e`sc, e`zc, e`ct, e`buffer, e`output, e`data, e.bins
    ensures e.Owes(rest, goal)
  {
    hide Encoder.Owes, Signed, Magnitude;
    SignedIsZero(x, al);
    var v := Magnitude(x, al);
    if v / 2 != 0 {
      e.Put(base + 3 * (k - 1) + 2, v % 2 == 1, rest, goal);
    } else {
      assert RefineCoef(p, k, Signed(x, al)) + rest
          == [Decision(base + 3 * k - 2, true)] + ([Decision(FIXED_BIN, x < 0)] + rest);
      e.Put(base + 3 * (k - 1) + 1, true, [Decision(FIXED_BIN, x < 0)] + rest, goal);
      e.Put(FIXED_BIN, x < 0, rest, goal);
    }
  }

  // encode_mcu_AC_refine, for the block of the MCU.
  method EncodeBandRefine(e: Encoder, order: seq<nat>, ss: nat, se: nat, al: nat, base: nat, ghost acK: nat,
                          x: seq<int>, ghost rest: seq<Decision>, ghost goal: Coder)
    requires ValidOrder(order) && |x| == BLOCK && 1 <= ss <= se < BLOCK
    requires e.Owes(RefineBand(AcPlan(order, se, base, acK), x, ss, al) + rest, goal)
    modifies e`c, e`a, e`sc, e`zc, e`ct, e`buffer, e`output, e`data, e.bins
    ensures e.Owes(rest, goal)
  {
    hide Encoder.Owes, ValidOrder, Signed, Magnitude, RefineTrace, RefineRun, RefineCoef;
    Entries(order);
    ghost var p, s := AcPlan(order, se, base, acK), SignedBlock(x, al);
    var ke := FindSent(order, x, al, se);
    var kex := FindSent(order, x, al + 1, ke);
    var k := ss;
    while k <= ke
      invariant ss <= k <= se + 1 && e.Owes(RefineTrace(p, s, k, ke, kex) + rest, goal)
    {
      RefineHead(p, s, k, ke, kex, rest);
      if k > kex {
        e.Put(base + 3 * (k - 1), false, RefineRun(p, s, k, ke, kex) + rest, goal);
      }
      k := EncodeRefineRun(e, order, al, base, x, k, p, ke, kex, rest, goal);
      EncodeRefineCoef(e, p, base, k, x[order[k]], al, RefineTrace(p, s, k + 1, ke, kex) + rest, goal);
      k := k + 1;
    }
    RefineHead(p, s, k, ke, kex, rest);
    if k <= se {
      e.Put(base + 3 * (k - 1), true, rest, goal);
    }
  }

  lemma RefineHead(p: AcPlan, s: seq<int>, k: nat, ke: nat, kex: nat, rest: seq<Decision>)
    requires EndAt(p, s, ke) && 1 <= k
    ensures RefineTrace(p, s, k, ke, kex) + rest ==
      if k > ke then
        if k <= p.se then [Decision(p.base + 3 * k - 3, true)] + rest else rest
      else if k > kex then [Decision(p.base + 3 * k - 3, false)] + (RefineRun(p, s, k, ke, kex) + rest)
      else RefineRun(p, s, k, ke, kex) + rest
  {
    hide ValidOrder, RefineRun;
    if k > ke {
      assert [] + rest == rest;
    } else {
      assert [] + RefineRun(p, s, k, ke, kex) == RefineRun(p, s, k, ke, kex);
    }
  }

  lemma RefineStep(p: AcPlan, s: seq<int>, j: nat, ke: nat, kex: nat, rest: seq<Decision>)
    requires EndAt(p, s, ke) && 1 <= j <= ke
    ensures p.order[j] < BLOCK && (s[p.order[j]] == 0 ==> j < ke)
    ensures RefineRun(p, s, j, ke, kex) + rest ==
      if s[p.order[j]] == 0 then [Decision(p.base + 3 * j - 2, false)] + (RefineRun(p, s, j + 1, ke, kex) + rest)
      else RefineCoef(p, j, s[p.order[j]]) + (RefineTrace(p, s, j + 1, ke, kex) + rest)
  {
    hide ValidOrder, RefineCoef, RefineTrace;
    Entries(p.order);
  }
}
