// The arithmetic decoder of sequential scans. On a segment that codes a known trace each
// method reads the part it is named for and leaves the rest; other data it reads as well,
// giving up where a magnitude or a run overflows.

module ArithmeticMcuDecoder {
  import opened CodeBits
  import opened ProbabilityTable
  import opened Coefficients
  import opened CodingInterval
  import opened ArithmeticDecoder
  import opened ArithmeticBlock

  // ----- Putting a magnitude together -----

  // Bit b joins the bits above it.
  lemma BitJoins(v: nat, b: nat)
    requires b > 0
    ensures v / b * b == v / (2 * b) * (2 * b) + if BitSet(v, b) then b else 0
  {
    HalfOfQuotient(v, b);
    EvenOrOdd(v / b, b);
  }

  // The leading one bit of v is bit i.
  ghost predicate Spans(v: nat, i: nat) {
    Pow2(i) <= v < 2 * Pow2(i)
  }

  lemma {:induction false} LeadingIs(v: nat, i: nat)
    requires Spans(v, i)
    ensures Leading(v) == Pow2(i)
  {
    if i > 0 {
      LeadingIs(v / 2, i - 1);
    }
  }

  lemma QuotientIsOne(v: nat, m: nat)
    requires m > 0 && v / m == 1
    ensures m <= v < 2 * m
  {
    assert v == (v / m) * m + v % m;
  }

  lemma QuotientPositive(v: nat, m: nat)
    requires m > 0 && v / m >= 1
    ensures v >= m
  {
    assert v == (v / m) * m + v % m;
    MulMonotone(1, v / m, m);
  }

  // ----- Decisions -----

  // The bin of fixed probability is in its state.
  ghost predicate Fixed(d: Decoder)
    reads d.bins
  {
    d.bins.Length == ALL_BINS && d.bins[FIXED_BIN] == FIXED_STATE
  }

  lemma FixedAfterEither(s: Coder, bin: nat)
    requires bin < |s.bins| && ValidBins(s.bins) && 0x8000 <= s.a <= 0x10000
    requires |s.bins| == ALL_BINS && s.bins[FIXED_BIN] == FIXED_STATE
    ensures forall bit :: EncodeStep(s, Decision(bin, bit)).bins[FIXED_BIN] == FIXED_STATE
  {
    hide EncodeStep;
    StepKeepsFixed(s, Decision(bin, false));
    StepKeepsFixed(s, Decision(bin, true));
    forall bit
      ensures EncodeStep(s, Decision(bin, bit)).bins[FIXED_BIN] == FIXED_STATE
    {
      if bit {
      } else {
      }
    }
  }

  // The next decision; t is what the segment is expected to code.
  method Get(d: Decoder, bin: nat, ghost t: seq<Decision>, ghost goal: Coder) returns (bit: bool)
    requires d.Valid() && bin < d.bins.Length
    modifies d`c, d`a, d`ct, d`pos, d`unreadMarker, d`fetched, d`low, d`shifts, d.bins
    ensures d.Valid() && d.code == old(d.code) && d.after == old(d.after) && (old(Fixed(d)) ==> Fixed(d))
    ensures old(d.Tracks(t, goal)) && t != [] && t[0].bin == bin ==> bit == t[0].bit && d.Tracks(t[1..], goal)
  {
    hide Decoder.Tracks, DecodeBit, EncodeStep;
    if Fixed(d) {
      FixedAfterEither(d.State(), bin);
    }
    ghost var first := if t == [] then Decision(bin, false) else t[0];
    ghost var rest := if t == [] then [] else t[1..];
    assert t != [] ==> t == [first] + rest;
    bit := d.Follow(bin, first, rest, goal);
  }

  // Figure F.24: the magnitude bits below the leading one.
  method DecodeBits(d: Decoder, st: nat, i: nat, ghost v: nat, ghost rest: seq<Decision>,
                    ghost goal: Coder) returns (value: nat)
    requires d.Valid() && st < d.bins.Length
    modifies d`c, d`a, d`ct, d`pos, d`unreadMarker, d`fetched, d`low, d`shifts, d.bins
    ensures d.Valid() && d.code == old(d.code) && d.after == old(d.after) && (old(Fixed(d)) ==> Fixed(d))
    ensures old(d.Tracks(BitsTrace(st, v, Pow2(i) / 2) + rest, goal)) && Spans(v, i) ==>
      value == v && d.Tracks(rest, goal)
  {
    hide Fixed, Decoder.Valid, Decoder.Tracks, BitSet;
    ghost var good := d.Tracks(BitsTrace(st, v, Pow2(i) / 2) + rest, goal) && Spans(v, i);
    ghost var k: nat := i;
    value := Pow2(i);
    var m: nat := Pow2(i) / 2;
    assert good ==> v / Pow2(i) == 1 by {
      if good {
        DivideExactly(1, Pow2(i), v - Pow2(i));
      }
    }
    while m != 0
      invariant d.Valid() && d.code == old(d.code) && d.after == old(d.after) && (old(Fixed(d)) ==> Fixed(d))
      invariant m == Pow2(k) / 2
      invariant good ==> value == v / Pow2(k) * Pow2(k) && d.Tracks(BitsTrace(st, v, m) + rest, goal)
      decreases k
    {
      ghost var t := BitsTrace(st, v, m) + rest;
      assert t[0] == Decision(st, BitSet(v, m)) && t[1..] == BitsTrace(st, v, m / 2) + rest;
      var bit := Get(d, st, t, goal);
      BitJoins(v, m);
      if bit {
        value := value + m;
      }
      k := k - 1;
      m := m / 2;
    }
    assert BitsTrace(st, v, 0) + rest == rest;
    assert k == 0;
  }

  // Figure F.23 from the first doubling on. Gives up when the magnitude needs more than 15
  // bits; otherwise the leading bit is bit i and st is the last bin used.
  method DecodeCategory(d: Decoder, x: nat, from: nat, ghost half: nat, ghost v: nat, ghost rest: seq<Decision>,
                        ghost goal: Coder)
    returns (ok: bool, i: nat, st: nat)
    requires d.Valid() && from <= 1 && x + 15 < d.bins.Length
    modifies d`c, d`a, d`ct, d`pos, d`unreadMarker, d`fetched, d`low, d`shifts, d.bins
    ensures d.Valid() && d.code == old(d.code) && d.after == old(d.after) && (old(Fixed(d)) ==> Fixed(d))
    ensures ok ==> from <= i <= 14 && st == x + (i - from)
    ensures half >= 1 && half == v / Pow2(from) && old(d.Tracks(CategoryTrace(x, half, v) + rest, goal)) ==>
      (ok <==> v < 0x8000) && (ok ==> Spans(v, i) && d.Tracks(BitsTrace(st + 14, v, Pow2(i) / 2) + rest, goal))
  {
    hide Fixed, Decoder.Valid, Decoder.Tracks, BitsTrace, Leading, CategoryTrace, Pow2;
    ghost var good := half >= 1 && half == v / Pow2(from) && d.Tracks(CategoryTrace(x, half, v) + rest, goal);
    ghost var h: nat := half;
    i, st := from, x;
    ok := true;
    Pow2Constants();
    while true
      invariant d.Valid() && d.code == old(d.code) && d.after == old(d.after) && (old(Fixed(d)) ==> Fixed(d))
      invariant from <= i <= 14 && st == x + (i - from)
      invariant good ==> h >= 1 && h == v / Pow2(i) && d.Tracks(CategoryTrace(st, h, v) + rest, goal)
      decreases 15 - i
    {
      ghost var t := if good then CategoryTrace(st, h, v) + rest else [];
      ghost var next := h / 2;
      HalfOfQuotient(v, Pow2(i));
      Pow2Next(i);
      if good {
        CategoryHead(st, h, v, rest);
      }
      var bit := Get(d, st, t, goal);
      if !bit {
        break;
      }
      h := next;
      i := i + 1;
      if i == 15 {
        if good {
          QuotientPositive(v, 0x8000);
        }
        return false, i, st;
      }
      st := st + 1;
    }
    if good {
      QuotientIsOne(v, Pow2(i));
      Pow2Monotone(i, 14);
      Pow2Next(14);
      LeadingIs(v, i);
    }
  }

  lemma Pow2Next(i: nat)
    ensures Pow2(i + 1) == 2 * Pow2(i)
  {
  }

  lemma CategoryHead(st: nat, h: nat, v: nat, rest: seq<Decision>)
    requires h >= 1
    ensures var t := CategoryTrace(st, h, v) + rest;
      && t != [] && t[0] == Decision(st, h / 2 != 0)
      && t[1..] == if h / 2 == 0 then BitsTrace(st + 14, v, Leading(v) / 2) + rest
                   else CategoryTrace(st + 1, h / 2, v) + rest
  {
    hide BitsTrace, Leading;
    var t := CategoryTrace(st, h, v) + rest;
    if h / 2 == 0 {
      assert t == [Decision(st, false)] + (BitsTrace(st + 14, v, Leading(v) / 2) + rest);
    } else {
      assert t == [Decision(st, true)] + (CategoryTrace(st + 1, h / 2, v) + rest);
    }
  }

  // Magnitude less one of a DC difference; m is its leading bit.
  method DecodeDcMagnitude(d: Decoder, st: nat, x: nat, ghost v: nat, ghost rest: seq<Decision>, ghost goal: Coder)
    returns (ok: bool, m: nat, value: nat)
    requires d.Valid() && st < d.bins.Length && x + 30 < d.bins.Length
    modifies d`c, d`a, d`ct, d`pos, d`unreadMarker, d`fetched, d`low, d`shifts, d.bins
    ensures d.Valid() && d.code == old(d.code) && d.after == old(d.after) && (old(Fixed(d)) ==> Fixed(d))
    ensures old(d.Tracks(DcMagnitude(st, x, v) + rest, goal)) ==>
      (ok <==> v < 0x8000) && (ok ==> m == Leading(v) && value == v && d.Tracks(rest, goal))
  {
    hide Fixed, Decoder.Valid, Decoder.Tracks, BitsTrace, CategoryTrace, Pow2;
    ghost var good := d.Tracks(DcMagnitude(st, x, v) + rest, goal);
    ghost var t := DcMagnitude(st, x, v) + rest;
    assert t[0] == Decision(st, v != 0);
    assert t[1..] == if v == 0 then rest else CategoryTrace(x, v, v) + rest;
    var bit := Get(d, st, t, goal);
    if !bit {
      return true, 0, 0;
    }
    Pow2Start();
    var i, last;
    ok, i, last := DecodeCategory(d, x, 0, v, v, rest, goal);
    if !ok {
      return false, 0, 0;
    }
    m := Pow2(i);
    if good {
      LeadingIs(v, i);
    }
    value := DecodeBits(d, last + 14, i, v, rest, goal);
  }

  lemma Pow2Start()
    ensures Pow2(0) == 1 && Pow2(1) == 2
  {
  }

  // A DC difference and the conditioning for the next one.
  method DecodeDc(d: Decoder, base: nat, context: nat, cond: Conditioning, ghost diff: int, ghost rest: seq<Decision>,
                  ghost goal: Coder)
    returns (ok: bool, next: nat, delta: int)
    requires d.Valid() && context <= 16 && base + DC_BINS <= d.bins.Length
    modifies d`c, d`a, d`ct, d`pos, d`unreadMarker, d`fetched, d`low, d`shifts, d.bins
    ensures d.Valid() && d.code == old(d.code) && d.after == old(d.after) && (old(Fixed(d)) ==> Fixed(d))
    ensures ok ==> next <= 16
    ensures old(d.Tracks(DcTrace(base, context, diff) + rest, goal)) ==>
      (ok <==> Abs(diff) <= 0x8000) && (ok ==> next == NextContext(cond, diff) && delta == diff && d.Tracks(rest, goal))
  {
    hide Fixed, Decoder.Valid, Decoder.Tracks, DcMagnitude, Pow2, Leading;
    var st := base + context;
    ghost var good := d.Tracks(DcTrace(base, context, diff) + rest, goal);
    ghost var v: nat := if diff == 0 then 0 else Abs(diff) - 1;
    ghost var magnitude := DcMagnitude(if diff < 0 then st + 3 else st + 2, base + 20, v) + rest;
    ghost var t := DcTrace(base, context, diff) + rest;
    assert t[0] == Decision(st, diff != 0);
    assert t[1..] == if diff == 0 then rest else [Decision(st + 1, diff < 0)] + magnitude;
    var bit := Get(d, st, t, goal);
    if !bit {
      return true, 0, 0;
    }
    assert ([Decision(st + 1, diff < 0)] + magnitude)[1..] == magnitude;
    var sign := Get(d, st + 1, [Decision(st + 1, diff < 0)] + magnitude, goal);
    var m, value;
    ok, m, value := DecodeDcMagnitude(d, if sign then st + 3 else st + 2, base + 20, v, rest, goal);
    if !ok {
      return false, 0, 0;
    }
    if m < Pow2(cond.dcL) / 2 {
      next := 0;
    } else if m > Pow2(cond.dcU) / 2 {
      next := if sign then 16 else 12;
    } else {
      next := if sign then 8 else 4;
    }
    delta := value + 1;
    if sign {
      delta := -delta;
    }
  }

  // Magnitude less one of an AC coefficient.
  method DecodeAcMagnitude(d: Decoder, st: nat, x: nat, ghost v: nat, ghost rest: seq<Decision>, ghost goal: Coder)
    returns (ok: bool, value: nat)
    requires d.Valid() && st < d.bins.Length && x + 30 < d.bins.Length
    modifies d`c, d`a, d`ct, d`pos, d`unreadMarker, d`fetched, d`low, d`shifts, d.bins
    ensures d.Valid() && d.code == old(d.code) && d.after == old(d.after) && (old(Fixed(d)) ==> Fixed(d))
    ensures old(d.Tracks(AcMagnitude(st, x, v) + rest, goal)) ==>
      (ok <==> v < 0x8000) && (ok ==> value == v && d.Tracks(rest, goal))
  {
    hide Fixed, Decoder.Valid, Decoder.Tracks, BitsTrace, CategoryTrace, Pow2, Leading, AcMagnitude;
    ghost var t := AcMagnitude(st, x, v) + rest;
    AcMagnitudeHead(st, x, v, rest);
    var bit := Get(d, st, t, goal);
    if !bit {
      return true, 0;
    }
    ghost var second := t[1..];
    bit := Get(d, st, second, goal);
    if !bit {
      return true, 1;
    }
    Pow2Start();
    var i, last;
    ok, i, last := DecodeCategory(d, x, 1, v / 2, v, rest, goal);
    if !ok {
      return false, 0;
    }
    value := DecodeBits(d, last + 14, i, v, rest, goal);
  }

  lemma AcMagnitudeHead(st: nat, x: nat, v: nat, rest: seq<Decision>)
    ensures var t := AcMagnitude(st, x, v) + rest;
      && t != [] && t[0] == Decision(st, v != 0)
      && (v == 0 ==> t[1..] == rest)
      && (v > 0 ==> t[1..] != [] && t[1..][0] == Decision(st, v > 1))
      && (v == 1 ==> t[1..][1..] == rest)
      && (v > 1 ==> t[1..][1..] == CategoryTrace(x, v / 2, v) + rest)
  {
    hide CategoryTrace;
    var t := AcMagnitude(st, x, v) + rest;
    if v == 1 {
      assert t[1..] == [Decision(st, false)] + rest;
    } else if v > 1 {
      assert t[1..] == [Decision(st, true)] + (CategoryTrace(x, v / 2, v) + rest);
    }
  }

  // Sign and magnitude of AC coefficient j.
  method DecodeCoef(d: Decoder, base: nat, acK: nat, j: nat, ghost p: AcPlan, ghost coef: int,
                    ghost rest: seq<Decision>, ghost goal: Coder)
    returns (ok: bool, value: int)
    requires d.Valid() && 0 < j < BLOCK && base + AC_BINS <= FIXED_BIN < d.bins.Length
    modifies d`c, d`a, d`ct, d`pos, d`unreadMarker, d`fetched, d`low, d`shifts, d.bins
    ensures d.Valid() && d.code == old(d.code) && d.after == old(d.after) && (old(Fixed(d)) ==> Fixed(d))
    ensures coef != 0 && p.base == base && p.acK == acK && old(d.Tracks(CoefTrace(p, j, coef) + rest, goal)) ==>
      (ok <==> Abs(coef) <= 0x8000) && (ok ==> value == coef && d.Tracks(rest, goal))
  {
    hide Fixed, Decoder.Valid, Decoder.Tracks, AcMagnitude;
    ghost var good := coef != 0 && p.base == base && p.acK == acK && d.Tracks(CoefTrace(p, j, coef) + rest, goal);
    var st := base + 3 * (j - 1) + 2;
    var x := base + if j <= acK then 189 else 217;
    ghost var v: nat := if coef == 0 then 0 else Abs(coef) - 1;
    ghost var t := if good then CoefTrace(p, j, coef) + rest else [];
    assert good ==> t[0] == Decision(FIXED_BIN, coef < 0) && t[1..] == AcMagnitude(st, x, v) + rest;
    var sign := Get(d, FIXED_BIN, t, goal);
    var magnitude;
    ok, magnitude := DecodeAcMagnitude(d, st, x, v, rest, goal);
    value := magnitude + 1;
    if sign {
      value := -value;
    }
  }

  // Beyond the last nonzero coefficient there is nothing to fill in.
  lemma {:induction false} FilledTail(order: seq<nat>, b: seq<int>, k: nat, n: nat)
    requires ValidOrder(order) && |b| == BLOCK && k <= n <= BLOCK
    requires forall j :: k <= j < n ==> b[order[j]] == 0
    ensures Filled(order, b, n) == Filled(order, b, k)
    decreases n - k
  {
    hide Filled;
    if k < n {
      FilledTail(order, b, k, n - 1);
      FillZero(order, b, n - 1);
    }
  }

  // What is expected of the AC part of block b, whose last nonzero coefficient is ke.
  lemma AcHead(p: AcPlan, b: seq<int>, k: nat, ke: nat, rest: seq<Decision>)
    requires EndAt(p, b, ke) && k <= ke && k < p.se
    ensures var t := AcTrace(p, b, k, ke) + rest;
      && t != [] && t[0] == Decision(p.base + 3 * k, k == ke)
      && (k == ke ==> t[1..] == rest)
      && (k < ke ==> t[1..] == RunTrace(p, b, k + 1, ke) + rest)
  {
    hide CoefTrace, ValidOrder;
    var t := AcTrace(p, b, k, ke) + rest;
    if k < ke {
      assert t == [Decision(p.base + 3 * k, false)] + (RunTrace(p, b, k + 1, ke) + rest);
    }
  }

  lemma RunHead(p: AcPlan, b: seq<int>, j: nat, ke: nat, rest: seq<Decision>)
    requires EndAt(p, b, ke) && 1 <= j <= ke
    ensures var t, v := RunTrace(p, b, j, ke) + rest, b[p.order[j]];
      && t != [] && t[0] == Decision(p.base + 3 * j - 2, v != 0)
      && (v == 0 ==> j < ke && t[1..] == RunTrace(p, b, j + 1, ke) + rest)
      && (v != 0 ==> t[1..] == CoefTrace(p, j, v) + (AcTrace(p, b, j, ke) + rest))
  {
    hide CoefTrace, ValidOrder;
    Entries(p.order);
    var t, v := RunTrace(p, b, j, ke) + rest, b[p.order[j]];
    if v == 0 {
      assert t == [Decision(p.base + 3 * j - 2, false)] + (RunTrace(p, b, j + 1, ke) + rest);
    } else {
      assert t == [Decision(p.base + 3 * j - 2, true)] + (CoefTrace(p, j, v) + (AcTrace(p, b, j, ke) + rest));
    }
  }

  // The next nonzero coefficient at or after index j. Gives up if the band ends without one.
  method DecodeRun(d: Decoder, base: nat, se: nat, from: nat, ghost p: AcPlan, ghost b: seq<int>, ghost ke: nat,
                   ghost rest: seq<Decision>, ghost goal: Coder)
    returns (ok: bool, j: nat)
    requires d.Valid() && 1 <= from <= se < BLOCK && base + AC_BINS <= d.bins.Length
    requires EndAt(p, b, ke) && p.base == base && p.se == se
    modifies d`c, d`a, d`ct, d`pos, d`unreadMarker, d`fetched, d`low, d`shifts, d.bins
    ensures d.Valid() && d.code == old(d.code) && d.after == old(d.after) && (old(Fixed(d)) ==> Fixed(d))
    ensures ok ==> from <= j <= se
    ensures from <= ke && old(d.Tracks(RunTrace(p, b, from, ke) + rest, goal)) ==>
      && ok && j <= ke && b[p.order[j]] != 0 && (forall k :: from <= k < j ==> b[p.order[k]] == 0)
      && d.Tracks(CoefTrace(p, j, b[p.order[j]]) + (AcTrace(p, b, j, ke) + rest), goal)
  {
    hide Fixed, Decoder.Valid, Decoder.Tracks, CoefTrace, AcTrace, RunTrace, ValidOrder;
    Entries(p.order);
    ghost var good := from <= ke && d.Tracks(RunTrace(p, b, from, ke) + rest, goal);
    j := from;
    while true
      invariant d.Valid() && d.code == old(d.code) && d.after == old(d.after) && (old(Fixed(d)) ==> Fixed(d))
      invariant from <= j <= se
      invariant good ==> j <= ke && d.Tracks(RunTrace(p, b, j, ke) + rest, goal)
      invariant good ==> forall k :: from <= k < j ==> b[p.order[k]] == 0
      decreases se - j
    {
      ghost var t := [];
      if good {
        RunHead(p, b, j, ke, rest);
        t := RunTrace(p, b, j, ke) + rest;
      }
      var bit := Get(d, base + 3 * (j - 1) + 1, t, goal);
      if bit {
        break;
      }
      if j >= se {
        return false, j;
      }
      j := j + 1;
    }
    ok := true;
  }

  // All AC coefficients of a block whose AC part is zero so far.
  method DecodeAc(d: Decoder, order: seq<nat>, se: nat, base: nat, acK: nat, block: array<int>,
                  ghost b: seq<int>, ghost rest: seq<Decision>, ghost goal: Coder)
    returns (ok: bool)
    requires d.Valid() && ValidOrder(order) && se < BLOCK && base + AC_BINS <= FIXED_BIN < d.bins.Length
    requires block.Length == BLOCK && CoefsFit(b) && block as object != d.bins as object
    modifies block
    modifies d`c, d`a, d`ct, d`pos, d`unreadMarker, d`fetched, d`low, d`shifts, d.bins
    ensures d.Valid() && d.code == old(d.code) && d.after == old(d.after) && (old(Fixed(d)) ==> Fixed(d))
    ensures old(block[..]) == Filled(order, b,
                                     1) && old(d.Tracks(AllAcTrace(AcPlan(order, se, base, acK), b) + rest, goal)) ==>
      ok && block[..] == Filled(order, b, se + 1) && d.Tracks(rest, goal)
  {
    hide Fixed, Decoder.Valid, Decoder.Tracks, CoefTrace, AcTrace, RunTrace, ValidOrder, Filled, ToCoef;
    Entries(order);
    ghost var p := AcPlan(order, se, base, acK);
    ghost var good := block[..] == Filled(order, b, 1) && d.Tracks(AllAcTrace(p, b) + rest, goal);
    if se == 0 {
      assert [] + rest == rest;
      return true;
    }
    ghost var ke := LastNonzero(order, b, se);
    var k := 0;
    while k < se
      invariant k <= se && d.Valid() && d.code == old(d.code) && d.after == old(d.after) && (old(Fixed(d)) ==> Fixed(d))
      invariant good ==> k <= ke && block[..] == Filled(order, b, k + 1) && d.Tracks(AcTrace(p, b, k, ke) + rest, goal)
      decreases se - k
    {
      ghost var t := [];
      if good {
        AcHead(p, b, k, ke, rest);
        t := AcTrace(p, b, k, ke) + rest;
      }
      var end := Get(d, base + 3 * k, t, goal);
      if end {
        if good {
          FilledTail(order, b, k + 1, se + 1);
        }
        return true;
      }
      ghost var last := k;
      ok, k := DecodeRun(d, base, se, k + 1, p, b, ke, rest, goal);
      if !ok {
        return;
      }
      var value;
      ghost var more := if good then AcTrace(p, b, k, ke) + rest else [];
      ok, value := DecodeCoef(d, base, acK, k, p, b[order[k]], more, goal);
      if !ok {
        if good {
          CoefInRange(b, order[k]);
        }
        return;
      }
      if good {
        CoefInRange(b, order[k]);
        FilledTail(order, b, last + 1, k);
        FillNext(order, b, k);
      }
      block[order[k]] := ToCoef(value);
    }
    if good {
      AcEnds(p, b, k, ke, rest);
    }
    ok := true;
  }

  lemma CoefInRange(b: seq<int>, p: nat)
    requires CoefsFit(b) && p < BLOCK
    ensures Abs(b[p]) <= 0x8000 && ToCoef(b[p]) == b[p]
  {
  }

  lemma AcEnds(p: AcPlan, b: seq<int>, k: nat, ke: nat, rest: seq<Decision>)
    requires EndAt(p, b, ke) && k <= ke && k >= p.se
    ensures AcTrace(p, b, k, ke) + rest == rest && k == ke
  {
    assert [] + rest == rest;
  }
}
