// The arithmetic decoder of bands of AC coefficients in progressive mode: on a segment that
// codes a band it brings a block from the precision it has to the precision of the scan.

module ArithmeticBandDecoder {
  import opened CodeBits
  import opened Coefficients
  import opened PointTransform
  import opened CodingInterval
  import opened ArithmeticDecoder
  import opened ArithmeticBlock
  import opened ArithmeticMcuDecoder
  import opened ArithmeticBand
  import opened ScanScript

  // All coefficients of the band are at the same precision.
  predicate Uniform(bits: seq<int>, ss: nat, se: nat, level: int) {
    se < |bits| && forall j :: ss <= j <= se ==> bits[j] == level
  }

  // Coefficients that the scan does not change are at its precision all the same.
  lemma {:induction false} SkipZeros(order: seq<nat>, x: seq<int>, y: seq<int>, bits: seq<int>, ss: nat, from: nat,
                                     hi: nat, al: nat)
    requires AtPrecision(order, x, y, Sent(bits, ss, from, al)) && |bits| == BLOCK && 1 <= ss <= from <= hi
    requires hi <= BLOCK
    requires forall j :: from <= j < hi ==> Magnitude(x[order[j]], al) == 0 && y[order[j]] == 0
    ensures AtPrecision(order, x, y, Sent(bits, ss, hi, al))
    decreases hi
  {
    hide AtPrecision, Magnitude;
    if from < hi {
      PrecisionOrder(order, x, y, Sent(bits, ss, from, al));
      Entries(order);
      SkipZeros(order, x, y, bits, ss, from, hi - 1, al);
      TruncateZero(x[order[hi - 1]], al);
      PrecisionKeep(order, x, y, Sent(bits, ss, hi - 1, al), hi - 1, al);
      SentNext(bits, ss, hi - 1, al);
    }
  }

  lemma PrecisionOrder(order: seq<nat>, x: seq<int>, y: seq<int>, bits: seq<int>)
    requires AtPrecision(order, x, y, bits)
    ensures ValidOrder(order) && |x| == |y| == BLOCK
  {
  }

  lemma TruncateZero(x: int, al: nat)
    ensures Magnitude(x, al) == 0 ==> Truncate(x, al) == 0
  {
    hide Magnitude;
  }

  lemma SentNext(bits: seq<int>, ss: nat, k: nat, al: int)
    requires ss <= k < |bits|
    ensures Sent(bits, ss, k, al)[k := al] == Sent(bits, ss, k + 1, al)
    ensures Sent(bits, ss, ss, al) == bits
  {
  }

  // One more coefficient, with only zeros before it.
  lemma SendOne(order: seq<nat>, x: seq<int>, y: seq<int>, bits: seq<int>, ss: nat, from: nat, k: nat, al: nat, v: int)
    requires AtPrecision(order, x, y, Sent(bits, ss, from, al)) && |bits| == BLOCK && 1 <= ss <= from <= k < BLOCK
    requires forall j :: from <= j < k ==> Magnitude(x[order[j]], al) == 0 && y[order[j]] == 0
    requires v == Truncate(x[order[k]], al)
    ensures AtPrecision(order, x, y[order[k] := v], Sent(bits, ss, k + 1, al))
  {
    hide AtPrecision, Magnitude, Truncate;
    SkipZeros(order, x, y, bits, ss, from, k, al);
    PrecisionStep(order, x, y, Sent(bits, ss, k, al), k, al, v);
    SentNext(bits, ss, k, al);
  }

  // ----- First scan of a band -----

  // Coefficients from index lo on are zero.
  ghost predicate Blank(order: seq<nat>, y: seq<int>, lo: nat, se: nat)
    requires ValidOrder(order) && |y| == BLOCK && se < BLOCK
  {
    forall j :: lo <= j <= se ==> y[order[j]] == 0
  }

  lemma BlankStart(order: seq<nat>, x: seq<int>, y: seq<int>, bits: seq<int>, ss: nat, se: nat)
    requires AtPrecision(order, x, y, bits) && se < BLOCK && Uniform(bits, ss, se, -1)
    ensures Blank(order, y, ss, se)
  {
    forall j | ss <= j <= se
      ensures y[order[j]] == 0
    {
      PrecisionAt(order, x, y, bits, j);
    }
  }

  // A coefficient written into a blank band.
  lemma BlankNext(order: seq<nat>, x: seq<int>, y: seq<int>, bits: seq<int>, ss: nat, lo: nat, k: nat, se: nat, al: nat,
                  v: int)
    requires AtPrecision(order, x, y, Sent(bits, ss, lo, al)) && |bits| == BLOCK && 1 <= ss <= lo <= k <= se < BLOCK
    requires Blank(order, y, lo, se)
    requires forall j :: lo <= j < k ==> SignedBlock(x, al)[order[j]] == 0
    requires v == Truncate(x[order[k]], al)
    ensures AtPrecision(order, x, y[order[k] := v], Sent(bits, ss, k + 1, al))
    ensures Blank(order, y[order[k] := v], k + 1, se)
  {
    hide AtPrecision, Magnitude, Truncate, Signed;
    PrecisionOrder(order, x, y, Sent(bits, ss, lo, al));
    forall j | lo <= j < k
      ensures Magnitude(x[order[j]], al) == 0 && y[order[j]] == 0
    {
      SignedIsZero(x[order[j]], al);
    }
    SendOne(order, x, y, bits, ss, lo, k, al, v);
  }

  lemma BlankEnd(order: seq<nat>, x: seq<int>, y: seq<int>, bits: seq<int>, ss: nat, lo: nat, se: nat, al: nat, ke: nat)
    requires AtPrecision(order, x, y, Sent(bits, ss, lo, al)) && |bits| == BLOCK && 1 <= ss <= lo <= se + 1
    requires se < BLOCK
    requires Blank(order, y, lo, se) && ke == LastNonzero(order, SignedBlock(x, al), se) && ke < lo
    ensures AtPrecision(order, x, y, Sent(bits, ss, se + 1, al))
  {
    hide AtPrecision, Magnitude, Truncate, Signed;
    PrecisionOrder(order, x, y, Sent(bits, ss, lo, al));
    forall j | lo <= j < se + 1
      ensures Magnitude(x[order[j]], al) == 0 && y[order[j]] == 0
    {
      SignedIsZero(x[order[j]], al);
    }
    SkipZeros(order, x, y, bits, ss, lo, se + 1, al);
  }

  // The segment goes on with the band from coefficient k on, into block y.
  ghost predicate FirstFrom(d: Decoder, p: AcPlan, x: seq<int>, y: seq<int>, bits: seq<int>, ss: nat, al: nat, k: nat,
                            rest: seq<Decision>, goal: Coder)
    requires ValidAcPlan(p)
    reads d, d.bins
  {
    && |bits| == BLOCK && 1 <= ss <= k <= p.se + 1
    && AtPrecision(p.order, x, y, Sent(bits, ss, k, al)) && Blank(p.order, y, k, p.se)
    && var ke := LastNonzero(p.order, SignedBlock(x, al), p.se);
       d.Tracks(FirstTrace(p, SignedBlock(x, al), k, ke) + rest, goal)
  }

  // An end-of-block decision, and the next coefficient, whose index is k.
  method DecodeFirstNext(d: Decoder, order: seq<nat>, se: nat, al: nat, base: nat, acK: nat, block: array<int>,
                         from: nat, ghost p: AcPlan, ghost x: seq<int>, ghost bits: seq<int>, ghost ss: nat,
                         ghost rest: seq<Decision>, ghost goal: Coder)
    returns (ok: bool, end: bool, k: nat)
    requires d.Valid() && ValidOrder(order) && 1 <= from <= se < BLOCK && base + AC_BINS <= FIXED_BIN < d.bins.Length
    requires block.Length == BLOCK && CoefsFit(x) && block as object != d.bins as object
    requires p == AcPlan(order, se, base, acK)
    modifies block
    modifies d`c, d`a, d`ct, d`pos, d`unreadMarker, d`fetched, d`low, d`shifts, d.bins
    ensures d.Valid() && d.code == old(d.code) && d.after == old(d.after) && (old(Fixed(d)) ==> Fixed(d))
    ensures ok && !end ==> from <= k <= se
    ensures old(FirstFrom(d, p, x, block[..], bits, ss, al, from, rest, goal)) ==>
      && ok
      && (end ==> AtPrecision(order, x, block[..], Sent(bits, ss, se + 1, al)) && d.Tracks(rest, goal))
      && (!end ==> FirstFrom(d, p, x, block[..], bits, ss, al, k + 1, rest, goal))
  {
    hide Fixed, Decoder.Valid, Decoder.Tracks, CoefTrace, AcTrace, RunTrace, FirstTrace, ValidOrder, ToCoef,
         AtPrecision, Blank, Signed;
    Entries(order);
    ghost var s, y := SignedBlock(x, al), block[..];
    ghost var ke := LastNonzero(order, s, se);
    ghost var good := FirstFrom(d, p, x, y, bits, ss, al, from, rest, goal);
    ghost var t, more := [], [];
    if good {
      FirstHead(p, s, from, ke, rest);
      t := FirstTrace(p, s, from, ke) + rest;
    }
    end := Get(d, base + 3 * (from - 1), t, goal);
    if end {
      if good {
        BlankEnd(order, x, y, bits, ss, from, se, al, ke);
      }
      return true, true, from;
    }
    ok, k := DecodeRun(d, base, se, from, p, s, ke, rest, goal);
    if !ok {
      return;
    }
    if good {
      more := AcTrace(p, s, k, ke) + rest;
      FirstNext(p, s, k, ke);
      ValueFits(x, order[k], al);
      BlankNext(order, x, y, bits, ss, from, k, se, al, Truncate(x[order[k]], al));
    }
    var value;
    ok, value := DecodeCoef(d, base, acK, k, p, s[order[k]], more, goal);
    if ok {
      block[order[k]] := ToCoef(value * Pow2(al));
      assert good ==> block[..] == y[order[k] := Truncate(x[order[k]], al)];
    }
  }

  // decode_mcu_AC_first, for the block of the MCU.
  method DecodeBandFirst(d: Decoder, order: seq<nat>, ss: nat, se: nat, al: nat, base: nat, acK: nat, block: array<int>,
                         ghost x: seq<int>, ghost bits: seq<int>, ghost rest: seq<Decision>, ghost goal: Coder)
    returns (ok: bool)
    requires d.Valid() && ValidOrder(order) && 1 <= ss <= se < BLOCK && base + AC_BINS <= FIXED_BIN < d.bins.Length
    requires block.Length == BLOCK && CoefsFit(x) && |bits| == BLOCK && block as object != d.bins as object
    modifies block
    modifies d`c, d`a, d`ct, d`pos, d`unreadMarker, d`fetched, d`low, d`shifts, d.bins
    ensures d.Valid() && d.code == old(d.code) && d.after == old(d.after) && (old(Fixed(d)) ==> Fixed(d))
    ensures
      && Uniform(bits, ss, se, -1) && old(AtPrecision(order, x, block[..], bits))
      && old(d.Tracks(BandTrace(AcPlan(order, se, base, acK), SignedBlock(x, al), ss) + rest, goal)) ==>
      ok && AtPrecision(order, x, block[..], Sent(bits, ss, se + 1, al)) && d.Tracks(rest, goal)
  {
    hide Fixed, Decoder.Valid, Decoder.Tracks, FirstTrace, ValidOrder, AtPrecision, Blank, Signed, Uniform;
    ghost var p := AcPlan(order, se, base, acK);
    ghost var good := Uniform(bits, ss, se, -1) && AtPrecision(order, x, block[..], bits)
                      && d.Tracks(BandTrace(p, SignedBlock(x, al), ss) + rest, goal);
    if good {
      BlankStart(order, x, block[..], bits, ss, se);
      SentNext(bits, ss, ss, al);
    }
    var k := ss;
    while k <= se
      invariant ss <= k <= se + 1 && d.Valid() && d.code == old(d.code) && d.after == old(d.after)
      invariant old(Fixed(d)) ==> Fixed(d)
      invariant good ==> FirstFrom(d, p, x, block[..], bits, ss, al, k, rest, goal)
      decreases se - k
    {
      var end;
      ok, end, k := DecodeFirstNext(d, order, se, al, base, acK, block, k, p, x, bits, ss, rest, goal);
      if !ok || end {
        return;
      }
      k := k + 1;
    }
    if good {
      FirstHead(p, SignedBlock(x, al), k, LastNonzero(order, SignedBlock(x, al), se), rest);
    }
    ok := true;
  }

  // The value that a coefficient is scaled back to.
  lemma ValueFits(x: seq<int>, p: nat, al: nat)
    requires CoefsFit(x) && p < BLOCK
    ensures Abs(Signed(x[p], al)) <= 0x8000
    ensures ToCoef(Signed(x[p], al) * Pow2(al)) == Truncate(x[p], al)
  {
    hide Magnitude, ToCoef, Pow2;
    TruncateFits(x[p], al);
    SignedScales(x[p], al);
  }

  // ----- Refinement of a band -----

  // Coefficients from index lo on are known up to the bit before bit al.
  ghost predicate Coarse(order: seq<nat>, x: seq<int>, y: seq<int>, lo: nat, se: nat, al: nat)
    requires ValidOrder(order) && |x| == |y| == BLOCK && se < BLOCK
  {
    forall j :: lo <= j <= se ==> y[order[j]] == Truncate(x[order[j]], al + 1)
  }

  lemma CoarseStart(order: seq<nat>, x: seq<int>, y: seq<int>, bits: seq<int>, ss: nat, se: nat, al: nat)
    requires AtPrecision(order, x, y, bits) && 1 <= ss && se < BLOCK && Uniform(bits, ss, se, al + 1)
    ensures Coarse(order, x, y, ss, se, al)
  {
    hide Truncate;
    forall j | ss <= j <= se
      ensures y[order[j]] == Truncate(x[order[j]], al + 1)
    {
      PrecisionAt(order, x, y, bits, j);
    }
  }

  // How a coefficient shows before and after its bit al has been read.
  lemma OneBitMore(x: int, al: nat)
    ensures var y: int, m: nat, w: int := Truncate(x, al + 1), Magnitude(x, al), Pow2(al);
      && (y == 0 <==> m <= 1)
      && (y != 0 ==> (y < 0 <==> x < 0))
      && Truncate(x, al) == (if m <= 1 then (if m == 0 then 0 else if x < 0 then -w else w)
                             else if m % 2 == 0 then y else if y < 0 then y - w else y + w)
  {
    hide Pow2, Magnitude;
    var m, w := Magnitude(x, al), Pow2(al);
    HalfMagnitude(x, al);
    assert Pow2(al + 1) == 2 * w by { Pow2Add(al, 1); Pow2Constants(); }
    NextBitOf(m, w);
    if m > 1 {
      MulMonotone(1, m / 2, 2 * w);
    }
  }

  lemma CoarseNext(order: seq<nat>, x: seq<int>, y: seq<int>, bits: seq<int>, ss: nat, lo: nat, k: nat, se: nat,
                   al: nat, v: int)
    requires AtPrecision(order, x, y, Sent(bits, ss, lo, al)) && |bits| == BLOCK && 1 <= ss <= lo <= k <= se < BLOCK
    requires Coarse(order, x, y, lo, se, al)
    requires forall j :: lo <= j < k ==> SignedBlock(x, al)[order[j]] == 0
    requires v == Truncate(x[order[k]], al)
    ensures AtPrecision(order, x, y[order[k] := v], Sent(bits, ss, k + 1, al))
    ensures Coarse(order, x, y[order[k] := v], k + 1, se, al)
  {
    hide AtPrecision, Magnitude, Truncate, Signed;
    PrecisionOrder(order, x, y, Sent(bits, ss, lo, al));
    CoarseZeros(order, x, y, lo, k, se, al);
    SendOne(order, x, y, bits, ss, lo, k, al, v);
  }

  lemma CoarseZeros(order: seq<nat>, x: seq<int>, y: seq<int>, lo: nat, k: nat, se: nat, al: nat)
    requires ValidOrder(order) && |x| == |y| == BLOCK && lo <= k <= se + 1 && se < BLOCK
    requires Coarse(order, x, y, lo, se, al)
    requires forall j :: lo <= j < k ==> SignedBlock(x, al)[order[j]] == 0
    ensures forall j :: lo <= j < k ==> Magnitude(x[order[j]], al) == 0 && y[order[j]] == 0
  {
    hide Magnitude, Truncate, Signed;
    forall j | lo <= j < k
      ensures Magnitude(x[order[j]], al) == 0 && y[order[j]] == 0
    {
      SignedIsZero(x[order[j]], al);
      OneBitMore(x[order[j]], al);
    }
  }

  lemma CoarseEnd(order: seq<nat>, x: seq<int>, y: seq<int>, bits: seq<int>, ss: nat, lo: nat, se: nat, al: nat,
                  ke: nat)
    requires AtPrecision(order, x, y, Sent(bits, ss, lo, al)) && |bits| == BLOCK && 1 <= ss <= lo <= se + 1
    requires se < BLOCK
    requires Coarse(order, x, y, lo, se, al) && ke == LastNonzero(order, SignedBlock(x, al), se) && ke < lo
    ensures AtPrecision(order, x, y, Sent(bits, ss, se + 1, al))
  {
    hide AtPrecision, Magnitude, Truncate, Signed;
    PrecisionOrder(order, x, y, Sent(bits, ss, lo, al));
    CoarseZeros(order, x, y, lo, se + 1, se, al);
    SkipZeros(order, x, y, bits, ss, lo, se + 1, al);
  }

  // Encoder and decoder agree from which coefficient on an end of block may come: the one
  // looks at the coefficients it codes, the other at what it holds of them.
  lemma LastsAgree(order: seq<nat>, x: seq<int>, y: seq<int>, ss: nat, se: nat, al: nat, k: nat, kexd: nat)
    requires ValidOrder(order) && |x| == |y| == BLOCK && 1 <= ss <= k <= se < BLOCK && Coarse(order, x, y, ss, se, al)
    requires kexd == LastNonzero(order, y, se)
    ensures var ke := LastNonzero(order, SignedBlock(x, al), se);
      k > kexd <==> k > LastNonzero(order, SignedBlock(x, al + 1), ke)
  {
    hide Magnitude, Truncate, Signed, ValidOrder;
    Entries(order);
    var s, t := SignedBlock(x, al), SignedBlock(x, al + 1);
    var ke := LastNonzero(order, s, se);
    var kex := LastNonzero(order, t, ke);
    forall j | ss <= j <= se
      ensures y[order[j]] != 0 <==> t[order[j]] != 0
      ensures s[order[j]] == 0 ==> t[order[j]] == 0
    {
      OneBitMore(x[order[j]], al);
      HalfMagnitude(x[order[j]], al);
      SignedIsZero(x[order[j]], al);
      SignedIsZero(x[order[j]], al + 1);
    }
  }

  // The previous end of block, from what the block holds.
  method FindHeld(order: seq<nat>, block: array<int>, se: nat) returns (kex: nat)
    requires ValidOrder(order) && block.Length == BLOCK && se < BLOCK
    ensures kex == LastNonzero(order, block[..], se)
  {
    hide ValidOrder;
    Entries(order);
    kex := se;
    while kex > 0 && block[order[kex]] == 0
      invariant kex <= se && LastNonzero(order, block[..], kex) == LastNonzero(order, block[..], se)
    {
      kex := kex - 1;
    }
  }

  // What a coefficient other than zero sends.
  lemma RefineCoefHead(p: AcPlan, j: nat, v: int, rest: seq<Decision>)
    requires j >= 1
    ensures var t := RefineCoef(p, j, v) + rest;
      && t != []
      && (Abs(v) > 1 ==> t[0] == Decision(p.base + 3 * j - 1, Abs(v) % 2 == 1) && t[1..] == rest)
      && (Abs(v) <= 1 ==> t[0] == Decision(p.base + 3 * j - 2, true) && t[1..] == [Decision(FIXED_BIN, v < 0)] + rest)
  {
    var t := RefineCoef(p, j, v) + rest;
    if Abs(v) <= 1 {
      assert t[1..] == [Decision(FIXED_BIN, v < 0)] + rest;
    }
  }

  // The segment goes on with the run that coefficient k is in.
  ghost predicate RunFrom(d: Decoder, p: AcPlan, x: seq<int>, y: seq<int>, al: nat, k: nat, ke: nat, kex: nat,
                          rest: seq<Decision>, goal: Coder)
    reads d, d.bins
  {
    && |x| == |y| == BLOCK && EndAt(p, SignedBlock(x, al), ke) && 1 <= k <= ke && Coarse(p.order, x, y, k, p.se, al)
    && d.Tracks(RefineRun(p, SignedBlock(x, al), k, ke, kex) + rest, goal)
  }

  ghost function HeldAt(p: AcPlan, y: seq<int>, k: nat): int
    requires ValidAcPlan(p) && |y| == BLOCK && k < BLOCK
  {
    y[p.order[k]]
  }

  // One coefficient of a run: v is its new value, and zero says that the run goes on.
  method DecodeRefineCoef(d: Decoder, al: nat, base: nat, held: int, ghost p: AcPlan, ghost x: seq<int>,
                          ghost y: seq<int>, k: nat, ghost ke: nat, ghost kex: nat, ghost rest: seq<Decision>,
                          ghost goal: Coder)
    returns (v: int)
    requires d.Valid() && 1 <= k < BLOCK && base + AC_BINS <= FIXED_BIN < d.bins.Length
    modifies d`c, d`a, d`ct, d`pos, d`unreadMarker, d`fetched, d`low, d`shifts, d.bins
    ensures d.Valid() && d.code == old(d.code) && d.after == old(d.after) && (old(Fixed(d)) ==> Fixed(d))
    ensures old(RunFrom(d, p, x, y, al, k, ke, kex, rest, goal)) && p.base == base && held == HeldAt(p, y, k) ==>
      && v == Truncate(x[p.order[k]], al) && (v == 0 <==> SignedBlock(x, al)[p.order[k]] == 0)
      && (v == 0 ==> RunFrom(d, p, x, y, al, k + 1, ke, kex, rest, goal))
      && (v != 0 ==> d.Tracks(RefineTrace(p, SignedBlock(x, al), k + 1, ke, kex) + rest, goal))
  {
    hide Fixed, Decoder.Valid, Decoder.Tracks, RefineTrace, RefineRun, RefineCoef, ValidOrder, Signed, Magnitude,
         Truncate, Pow2;
    ghost var s := if |x| == BLOCK then SignedBlock(x, al) else [];
    ghost var good := RunFrom(d, p, x, y, al, k, ke, kex, rest, goal) && p.base == base && held == HeldAt(p, y, k);
    ghost var t, more, c := [], [], 0;
    if good {
      Entries(p.order);
      c := x[p.order[k]];
      RefineStep(p, s, k, ke, kex, rest);
      t := RefineRun(p, s, k, ke, kex) + rest;
      OneBitMore(c, al);
      SignedIsZero(c, al);
      if s[p.order[k]] != 0 {
        more := RefineTrace(p, s, k + 1, ke, kex) + rest;
        RefineCoefHead(p, k, s[p.order[k]], more);
      }
    }
    if held != 0 {
      var bit := Get(d, base + 3 * (k - 1) + 2, t, goal);
      v := held;
      if bit {
        v := if held < 0 then held - Pow2(al) else held + Pow2(al);
      }
    } else {
      var bit := Get(d, base + 3 * (k - 1) + 1, t, goal);
      if bit {
        ghost var t1 := if t == [] then [] else t[1..];
        assert good ==> t1[1..] == more;
        var sign := Get(d, FIXED_BIN, t1, goal);
        var w: int := Pow2(al);
        v := if sign then -w else w;
      } else {
        v := 0;
      }
    }
  }

  // The rest of a run, into the block. Gives up if the band ends before the run does.
  method DecodeRefineRun(d: Decoder, order: seq<nat>, se: nat, al: nat, base: nat, block: array<int>, from: nat,
                         ghost p: AcPlan, ghost x: seq<int>, ghost ke: nat, ghost kex: nat,
                         ghost rest: seq<Decision>, ghost goal: Coder)
    returns (ok: bool, k: nat)
    requires d.Valid() && ValidOrder(order) && 1 <= from <= se < BLOCK && base + AC_BINS <= FIXED_BIN < d.bins.Length
    requires block.Length == BLOCK && block as object != d.bins as object
    requires p.order == order && p.base == base && p.se == se
    modifies block
    modifies d`c, d`a, d`ct, d`pos, d`unreadMarker, d`fetched, d`low, d`shifts, d.bins
    ensures d.Valid() && d.code == old(d.code) && d.after == old(d.after) && (old(Fixed(d)) ==> Fixed(d))
    ensures ok ==> from <= k <= se
    ensures old(RunFrom(d, p, x, block[..], al, from, ke, kex, rest, goal)) ==>
      && ok && k <= ke && (forall j :: from <= j < k ==> SignedBlock(x, al)[order[j]] == 0)
      && block[..] == old(block[..])[order[k] := Truncate(x[order[k]], al)]
      && d.Tracks(RefineTrace(p, SignedBlock(x, al), k + 1, ke, kex) + rest, goal)
  {
    hide Fixed, Decoder.Valid, Decoder.Tracks, RefineTrace, ValidOrder, Signed, Magnitude, Truncate, RunFrom;
    Entries(order);
    ghost var y := block[..];
    ghost var good := RunFrom(d, p, x, y, al, from, ke, kex, rest, goal);
    RunFacts(d, p, x, y, al, from, ke, kex, rest, goal);
    k := from;
    while true
      invariant from <= k <= se && d.Valid() && d.code == old(d.code) && d.after == old(d.after)
      invariant old(Fixed(d)) ==> Fixed(d)
      invariant block[..] == y
      invariant good ==> RunFrom(d, p, x, y, al, k, ke, kex, rest, goal)
      invariant good ==> forall j :: from <= j < k ==> SignedBlock(x, al)[order[j]] == 0
      decreases se - k
    {
      RunFacts(d, p, x, y, al, k, ke, kex, rest, goal);
      var v := DecodeRefineCoef(d, al, base, block[order[k]], p, x, y, k, ke, kex, rest, goal);
      if v != 0 {
        block[order[k]] := v;
        return true, k;
      }
      RunFacts(d, p, x, y, al, k + 1, ke, kex, rest, goal);
      if k >= se {
        return false, k;
      }
      k := k + 1;
    }
  }

  lemma RunFacts(d: Decoder, p: AcPlan, x: seq<int>, y: seq<int>, al: nat, k: nat, ke: nat, kex: nat,
                 rest: seq<Decision>, goal: Coder)
    ensures RunFrom(d, p, x, y, al, k, ke, kex, rest, goal) ==>
      |x| == |y| == BLOCK && EndAt(p, SignedBlock(x, al), ke) && k <= ke <= p.se < BLOCK
  {
    hide Decoder.Tracks, Coarse, RefineRun;
  }

  // The segment goes on with the refinement from coefficient k on, of block y.
  ghost predicate RefineFrom(d: Decoder, p: AcPlan, x: seq<int>, y: seq<int>, bits: seq<int>, ss: nat, al: nat, k: nat,
                             rest: seq<Decision>, goal: Coder)
    requires ValidAcPlan(p)
    reads d, d.bins
  {
    && |bits| == BLOCK && 1 <= ss <= k <= p.se + 1
    && AtPrecision(p.order, x, y, Sent(bits, ss, k, al)) && Coarse(p.order, x, y, k, p.se, al)
    && var ke := LastNonzero(p.order, SignedBlock(x, al), p.se);
       var kex := LastNonzero(p.order, SignedBlock(x, al + 1), ke);
       d.Tracks(RefineTrace(p, SignedBlock(x, al), k, ke, kex) + rest, goal)
  }

  // The last coefficient that was nonzero before, as the encoder sees it.
  ghost function PreviousEnd(p: AcPlan, x: seq<int>, al: nat): nat
    requires ValidAcPlan(p) && |x| == BLOCK
  {
    LastNonzero(p.order, SignedBlock(x, al + 1), LastNonzero(p.order, SignedBlock(x, al), p.se))
  }

  // An end-of-block decision if one is due, and the next run: k is the coefficient it ends with.
  method DecodeRefineNext(d: Decoder, order: seq<nat>, se: nat, al: nat, base: nat, block: array<int>, from: nat,
                          kex: nat, ghost p: AcPlan, ghost x: seq<int>, ghost bits: seq<int>, ghost ss: nat,
                          ghost rest: seq<Decision>, ghost goal: Coder)
    returns (ok: bool, end: bool, k: nat)
    requires d.Valid() && ValidOrder(order) && 1 <= from <= se < BLOCK && base + AC_BINS <= FIXED_BIN < d.bins.Length
    requires block.Length == BLOCK && |x| == BLOCK && block as object != d.bins as object
    requires p.order == order && p.base == base && p.se == se
    modifies block
    modifies d`c, d`a, d`ct, d`pos, d`unreadMarker, d`fetched, d`low, d`shifts, d.bins
    ensures d.Valid() && d.code == old(d.code) && d.after == old(d.after) && (old(Fixed(d)) ==> Fixed(d))
    ensures ok && !end ==> from <= k <= se
    ensures
      && old(RefineFrom(d, p, x, block[..], bits, ss, al, from, rest, goal))
      && (from > kex <==> from > PreviousEnd(p, x, al)) ==>
      && ok
      && (end ==> AtPrecision(order, x, block[..], Sent(bits, ss, se + 1, al)) && d.Tracks(rest, goal))
      && (!end ==> RefineFrom(d, p, x, block[..], bits, ss, al, k + 1, rest, goal))
  {
    hide Fixed, Decoder.Valid, Decoder.Tracks, RefineTrace, RefineRun, ValidOrder, AtPrecision, Coarse, Signed,
         Magnitude, Truncate;
    ghost var s, y := SignedBlock(x, al), block[..];
    ghost var ke, kexe := LastNonzero(order, s, se), PreviousEnd(p, x, al);
    ghost var good := RefineFrom(d, p, x, y, bits, ss, al, from, rest, goal) && (from > kex <==> from > kexe);
    ghost var t := [];
    if good {
      RefineHead(p, s, from, ke, kexe, rest);
      t := RefineTrace(p, s, from, ke, kexe) + rest;
    }
    end := false;
    if from > kex {
      end := Get(d, base + 3 * (from - 1), t, goal);
      if end {
        if good {
          CoarseEnd(order, x, y, bits, ss, from, se, al, ke);
        }
        return true, true, from;
      }
    }
    assert good ==> from <= ke && RunFrom(d, p, x, y, al, from, ke, kexe, rest, goal);
    ok, k := DecodeRefineRun(d, order, se, al, base, block, from, p, x, ke, kexe, rest, goal);
    if good {
      Entries(order);
      CoarseNext(order, x, y, bits, ss, from, k, se, al, Truncate(x[order[k]], al));
    }
  }

  // decode_mcu_AC_refine, for the block of the MCU.
  method DecodeBandRefine(d: Decoder, order: seq<nat>, ss: nat, se: nat, al: nat, base: nat, ghost acK: nat,
                          block: array<int>, ghost x: seq<int>, ghost bits: seq<int>, ghost rest: seq<Decision>,
                          ghost goal: Coder)
    returns (ok: bool)
    requires d.Valid() && ValidOrder(order) && 1 <= ss <= se < BLOCK && base + AC_BINS <= FIXED_BIN < d.bins.Length
    requires block.Length == BLOCK && |x| == |bits| == BLOCK && block as object != d.bins as object
    modifies block
    modifies d`c, d`a, d`ct, d`pos, d`unreadMarker, d`fetched, d`low, d`shifts, d.bins
    ensures d.Valid() && d.code == old(d.code) && d.after == old(d.after) && (old(Fixed(d)) ==> Fixed(d))
    ensures
      && Uniform(bits, ss, se, al + 1) && old(AtPrecision(order, x, block[..], bits))
      && old(d.Tracks(RefineBand(AcPlan(order, se, base, acK), x, ss, al) + rest, goal)) ==>
      ok && AtPrecision(order, x, block[..], Sent(bits, ss, se + 1, al)) && d.Tracks(rest, goal)
  {
    hide Fixed, Decoder.Valid, Decoder.Tracks, RefineTrace, RefineRun, ValidOrder, AtPrecision, Coarse, Signed,
         Magnitude, Truncate, Uniform;
    ghost var p := AcPlan(order, se, base, acK);
    ghost var good := Uniform(bits, ss, se, al + 1) && AtPrecision(order, x, block[..], bits)
                      && d.Tracks(RefineBand(p, x, ss, al) + rest, goal);
    ghost var held := block[..];
    if good {
      CoarseStart(order, x, held, bits, ss, se, al);
      SentNext(bits, ss, ss, al);
    }
    var kex := FindHeld(order, block, se);
    var k := ss;
    while k <= se
      invariant ss <= k <= se + 1 && d.Valid() && d.code == old(d.code) && d.after == old(d.after)
      invariant old(Fixed(d)) ==> Fixed(d)
      invariant good ==> RefineFrom(d, p, x, block[..], bits, ss, al, k, rest, goal)
      decreases se - k
    {
      if good {
        LastsAgree(order, x, held, ss, se, al, k, kex);
      }
      var end;
      ok, end, k := DecodeRefineNext(d, order, se, al, base, block, k, kex, p, x, bits, ss, rest, goal);
      if !ok || end {
        return;
      }
      k := k + 1;
    }
    if good {
      RefineDone(d, p, x, block[..], bits, ss, al, rest, goal);
    }
    ok := true;
  }

  lemma RefineDone(d: Decoder, p: AcPlan, x: seq<int>, y: seq<int>, bits: seq<int>, ss: nat, al: nat,
                   rest: seq<Decision>, goal: Coder)
    requires ValidAcPlan(p) && RefineFrom(d, p, x, y, bits, ss, al, p.se + 1, rest, goal)
    ensures AtPrecision(p.order, x, y, Sent(bits, ss, p.se + 1, al)) && d.Tracks(rest, goal)
  {
    hide Decoder.Tracks, RefineTrace, Coarse, ValidOrder;
    var ke := LastNonzero(p.order, SignedBlock(x, al), p.se);
    RefineHead(p, SignedBlock(x, al), p.se + 1, ke, PreviousEnd(p, x, al), rest);
  }
}
