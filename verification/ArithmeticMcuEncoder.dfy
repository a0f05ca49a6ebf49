// The arithmetic encoder of sequential scans: DC differences with conditioning on the
// previous difference, AC coefficients up to the end of the block.

module ArithmeticMcuEncoder {
  import opened CodeBits
  import opened Coefficients
  import opened CodingInterval
  import opened ArithmeticEncoder
  import opened ArithmeticBlock

  // Each method below codes the part of a trace that it is named for, leaving the rest.

  // The magnitude bits below the leading one, which is m.
  method EncodeBits(e: Encoder, st: nat, v: nat, m: nat, ghost rest: seq<Decision>, ghost goal: Coder)
    requires e.Owes(BitsTrace(st, v, m / 2) + rest, goal)
    modifies e`c, e`a, e`sc, e`zc, e`ct, e`buffer, e`output, e`data, e.bins
    ensures e.Owes(rest, goal)
  {
    hide Encoder.Owes, BitSet;
    var b: nat := m / 2;
    while b != 0
      invariant e.Owes(BitsTrace(st, v, b) + rest, goal)
    {
      assert BitsTrace(st, v, b) + rest == [Decision(st, BitSet(v, b))] + (BitsTrace(st, v, b / 2) + rest);
      e.Put(st, BitSet(v, b), BitsTrace(st, v, b / 2) + rest, goal);
      b := b / 2;
    }
    assert BitsTrace(st, v, 0) + rest == rest;
  }

  // Halving v2 down to one; the leading bit of v comes out as m.
  method EncodeCategory(e: Encoder, from: nat, half: nat, v: nat, unit: nat, ghost rest: seq<Decision>,
                        ghost goal: Coder)
    returns (m: nat)
    requires half >= 1 && Leading(v) == unit * Leading(half)
    requires e.Owes(CategoryTrace(from, half, v) + rest, goal)
    modifies e`c, e`a, e`sc, e`zc, e`ct, e`buffer, e`output, e`data, e.bins
    ensures e.Owes(rest, goal) && m == Leading(v)
  {
    hide Encoder.Owes, BitsTrace;
    var st, v2 := from, half;
    m := unit;
    while v2 / 2 != 0
      invariant v2 >= 1 && e.Owes(CategoryTrace(st, v2, v) + rest, goal) && Leading(v) == m * Leading(v2)
      decreases v2
    {
      var next := v2 / 2;
      assert CategoryTrace(st, v2, v) + rest == [Decision(st, true)] + (CategoryTrace(st + 1, next, v) + rest);
      e.Put(st, true, CategoryTrace(st + 1, next, v) + rest, goal);
      MulTwice(m, Leading(next));
      Doubling(m, Leading(next));
      m := 2 * m;
      st, v2 := st + 1, next;
    }
    ghost var bits := BitsTrace(st + 14, v, Leading(v) / 2);
    assert CategoryTrace(st, v2, v) + rest == [Decision(st, false)] + (bits + rest);
    e.Put(st, false, bits + rest, goal);
    EncodeBits(e, st + 14, v, m, rest, goal);
  }

  lemma Doubling(m: nat, t: nat)
    ensures m * (2 * t) == (2 * m) * t
  {
  }

  // A DC difference; the conditioning for the next one comes out.
  method EncodeDc(e: Encoder, base: nat, context: nat, diff: int, cond: Conditioning,
                  ghost rest: seq<Decision>, ghost goal: Coder)
    returns (next: nat)
    requires e.Owes(DcTrace(base, context, diff) + rest, goal)
    modifies e`c, e`a, e`sc, e`zc, e`ct, e`buffer, e`output, e`data, e.bins
    ensures e.Owes(rest, goal) && next == NextContext(cond, diff)
  {
    hide Encoder.Owes, DcMagnitude, Pow2, Leading;
    var st := base + context;
    if diff == 0 {
      e.Put(st, false, rest, goal);
      return 0;
    }
    ghost var magnitude := DcMagnitude(if diff < 0 then st + 3 else st + 2, base + 20, Abs(diff) - 1);
    assert DcTrace(base, context, diff) + rest
      == [Decision(st, true)] + ([Decision(st + 1, diff < 0)] + (magnitude + rest));
    e.Put(st, true, [Decision(st + 1, diff < 0)] + (magnitude + rest), goal);
    var v := diff;
    if v > 0 {
      e.Put(st + 1, false, magnitude + rest, goal);
      st := st + 2;
      next := 4;
    } else {
      v := -v;
      e.Put(st + 1, true, magnitude + rest, goal);
      st := st + 3;
      next := 8;
    }
    var m := EncodeDcMagnitude(e, st, base + 20, v - 1, rest, goal);
    if m < Pow2(cond.dcL) / 2 {
      next := 0;
    } else if m > Pow2(cond.dcU) / 2 {
      next := next + 8;
    }
  }

  method EncodeDcMagnitude(e: Encoder, st: nat, x: nat, v: nat, ghost rest: seq<Decision>, ghost goal: Coder)
    returns (m: nat)
    requires e.Owes(DcMagnitude(st, x, v) + rest, goal)
    modifies e`c, e`a, e`sc, e`zc, e`ct, e`buffer, e`output, e`data, e.bins
    ensures e.Owes(rest, goal) && m == Leading(v)
  {
    hide Encoder.Owes, CategoryTrace;
    m := 0;
    if v != 0 {
      assert DcMagnitude(st, x, v) + rest == [Decision(st, true)] + (CategoryTrace(x, v, v) + rest);
      e.Put(st, true, CategoryTrace(x, v, v) + rest, goal);
      m := EncodeCategory(e, x, v, v, 1, rest, goal);
    } else {
      e.Put(st, false, rest, goal);
    }
  }

  // Sign and magnitude of AC coefficient j.
  method EncodeCoef(e: Encoder, ghost p: AcPlan, base: nat, acK: nat, j: nat, coef: int,
                    ghost rest: seq<Decision>, ghost goal: Coder)
    requires j > 0 && coef != 0 && base == p.base && acK == p.acK
    requires e.Owes(CoefTrace(p, j, coef) + rest, goal)
    modifies e`c, e`a, e`sc, e`zc, e`ct, e`buffer, e`output, e`data, e.bins
    ensures e.Owes(rest, goal)
  {
    hide Encoder.Owes, CategoryTrace;
    var st := base + 3 * (j - 1) + 2;
    var x := base + if j <= acK then 189 else 217;
    var v := coef;
    ghost var magnitude := AcMagnitude(st, x, Abs(coef) - 1);
    assert CoefTrace(p, j, coef) + rest == [Decision(FIXED_BIN, coef < 0)] + (magnitude + rest);
    if v > 0 {
      e.Put(FIXED_BIN, false, magnitude + rest, goal);
    } else {
      v := -v;
      e.Put(FIXED_BIN, true, magnitude + rest, goal);
    }
    v := v - 1;
    if v == 0 {
      e.Put(st, false, rest, goal);
    } else if v / 2 == 0 {
      assert magnitude + rest == [Decision(st, true)] + ([Decision(st, false)] + rest);
      e.Put(st, true, [Decision(st, false)] + rest, goal);
      e.Put(st, false, rest, goal);
    } else {
      ghost var more := CategoryTrace(x, v / 2, v) + rest;
      assert magnitude + rest == [Decision(st, true)] + ([Decision(st, true)] + more);
      e.Put(st, true, [Decision(st, true)] + more, goal);
      e.Put(st, true, more, goal);
      var _ := EncodeCategory(e, x, v / 2, v, 2, rest, goal);
    }
  }

  // All AC coefficients of a block.
  method EncodeAc(e: Encoder, order: seq<nat>, se: nat, base: nat, acK: nat, b: seq<int>,
                  ghost rest: seq<Decision>, ghost goal: Coder)
    requires ValidAcPlan(AcPlan(order, se, base, acK)) && |b| == BLOCK
    requires e.Owes(AllAcTrace(AcPlan(order, se, base, acK), b) + rest, goal)
    modifies e`c, e`a, e`sc, e`zc, e`ct, e`buffer, e`output, e`data, e.bins
    ensures e.Owes(rest, goal)
  {
    hide Encoder.Owes, CoefTrace, ValidOrder;
    Entries(order);
    ghost var p := AcPlan(order, se, base, acK);
    if se == 0 {
      assert [] + rest == rest;
      return;
    }
    var ke := FindEnd(order, b, se);
    var k := 0;
    while k < ke
      invariant k <= ke && e.Owes(AcTrace(p, b, k, ke) + rest, goal)
    {
      assert AcTrace(p, b, k, ke) + rest == [Decision(base + 3 * k, false)] + (RunTrace(p, b, k + 1, ke) + rest);
      e.Put(base + 3 * k, false, RunTrace(p, b, k + 1, ke) + rest, goal);
      k := k + 1;
      while b[order[k]] == 0
        invariant 1 <= k <= ke && e.Owes(RunTrace(p, b, k, ke) + rest, goal)
        decreases ke - k
      {
        assert RunTrace(p, b, k, ke) + rest == [Decision(base + 3 * k - 2, false)] + (RunTrace(p, b, k + 1, ke) + rest);
        e.Put(base + 3 * (k - 1) + 1, false, RunTrace(p, b, k + 1, ke) + rest, goal);
        k := k + 1;
      }
      ghost var more := AcTrace(p, b, k, ke) + rest;
      assert RunTrace(p, b, k, ke) + rest == [Decision(base + 3 * k - 2, true)] + (CoefTrace(p, k, b[order[k]]) + more);
      e.Put(base + 3 * (k - 1) + 1, true, CoefTrace(p, k, b[order[k]]) + more, goal);
      EncodeCoef(e, p, base, acK, k, b[order[k]], more, goal);
    }
    if k < se {
      e.Put(base + 3 * k, true, rest, goal);
    } else {
      assert [] + rest == rest;
    }
  }

  // The end-of-block index.
  method FindEnd(order: seq<nat>, b: seq<int>, se: nat) returns (ke: nat)
    requires ValidOrder(order) && |b| == BLOCK && 0 < se < BLOCK
    ensures ke == LastNonzero(order, b, se)
  {
    hide ValidOrder;
    Entries(order);
    ke := se;
    while ke > 0 && b[order[ke]] == 0
      invariant ke <= se && LastNonzero(order, b, ke) == LastNonzero(order, b, se)
    {
      ke := ke - 1;
    }
  }
}
