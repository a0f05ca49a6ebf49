// Progressive arithmetic-coded scans: which routine codes an MCU of which scan, and that
// decoding brings every block from the precision before the scan to the precision after it.

module ProgressiveScan {
  import opened CodeBits
  import opened Coefficients
  import opened PointTransform
  import opened CodingInterval
  import opened ArithmeticEncoder
  import opened ArithmeticDecoder
  import opened ArithmeticBlock
  import opened ArithmeticMcuDecoder
  import opened ArithmeticSegments
  import opened ArithmeticScan
  import opened ArithmeticScanCoder
  import opened ArithmeticBand
  import opened ArithmeticBandDecoder
  import opened ScanScript

  // The last index of the band is that of the plan.
  datatype ProgScan = ProgScan(plan: ScanPlan, ss: nat, ah: nat, al: nat)

  ghost predicate ValidProg(s: ProgScan) {
    && ValidScanPlan(s.plan) && s.al <= 13
    && (if s.ss == 0 then s.plan.se == 0 else s.ss <= s.plan.se && |s.plan.layout| == 1)
    && (s.ah > 0 ==> s.al == s.ah - 1)
  }

  predicate IsDcFirst(s: ProgScan) {
    s.ss == 0 && s.ah == 0
  }

  // ----- Traces -----

  // One bit for each block.
  ghost function DcBits(mcu: Mcu, al: nat, i: nat): seq<Decision>
    requires Blocks(mcu) && i <= |mcu|
    decreases |mcu| - i
  {
    if i == |mcu| then [] else [Decision(FIXED_BIN, HasBit(mcu[i][0], al))] + DcBits(mcu, al, i + 1)
  }

  ghost function PlanOf(s: ProgScan): (p: AcPlan)
    requires ValidProg(s) && s.ss > 0
    ensures ValidAcPlan(p) && s.ss <= p.se && p.base + AC_BINS <= FIXED_BIN
  {
    assert ValidSlot(s.plan, s.plan.layout[0]);
    AcPlanOf(s.plan, s.plan.layout[0])
  }

  // The decisions of an MCU where they do not depend on earlier MCUs.
  ghost function McuDecisions(s: ProgScan, mcu: Mcu): seq<Decision>
    requires ValidProg(s) && !IsDcFirst(s) && ValidMcu(s.plan, mcu)
  {
    if s.ss == 0 then DcBits(mcu, s.al, 0)
    else if s.ah == 0 then BandTrace(PlanOf(s), SignedBlock(mcu[0], s.al), s.ss)
    else RefineBand(PlanOf(s), mcu[0], s.ss, s.al)
  }

  function DcMcus(mcus: seq<Mcu>, al: nat): (m: seq<Mcu>)
    requires forall i, j :: 0 <= i < |mcus| && 0 <= j < |mcus[i]| ==> |mcus[i][j]| == BLOCK
    ensures |m| == |mcus| && forall i :: 0 <= i < |mcus| ==> m[i] == DcMcu(mcus[i], al)
  {
    seq(|mcus|, i requires 0 <= i < |mcus| => DcMcu(mcus[i], al))
  }

  lemma McuHasBlocks(plan: ScanPlan, mcu: Mcu)
    requires ValidMcu(plan, mcu)
    ensures Blocks(mcu) && |mcu| == |plan.layout|
  {
  }

  lemma DcMcusValid(plan: ScanPlan, mcus: seq<Mcu>, al: nat)
    requires ValidMcus(plan, mcus) && al <= 15
    ensures forall i, j :: 0 <= i < |mcus| && 0 <= j < |mcus[i]| ==> |mcus[i][j]| == BLOCK
    ensures ValidMcus(plan, DcMcus(mcus, al))
  {
    hide Shifted;
    forall i | 0 <= i < |mcus|
      ensures Blocks(mcus[i]) && ValidMcu(plan, DcMcu(mcus[i], al))
    {
      assert ValidMcu(plan, mcus[i]);
      forall j | 0 <= j < |mcus[i]|
        ensures CoefsFit(DcBlock(mcus[i][j], al))
      {
        assert CoefsFit(mcus[i][j]);
        ShiftedFits(mcus[i][j][0], al);
      }
    }
    forall i, j | 0 <= i < |mcus| && 0 <= j < |mcus[i]|
      ensures |mcus[i][j]| == BLOCK
    {
      assert Blocks(mcus[i]);
    }
  }

  ghost function ProgTraces(s: ProgScan, mcus: seq<Mcu>, interval: nat): (ts: Traces)
    requires ValidProg(s) && ValidMcus(s.plan, mcus)
    ensures |ts| == |mcus|
  {
    DcMcusValid(s.plan, mcus, s.al);
    if IsDcFirst(s) then ScanTraces(s.plan, DcMcus(mcus, s.al), interval)
    else seq(|mcus|, i requires 0 <= i < |mcus| => McuDecisions(s, mcus[i]))
  }

  lemma ProgTraceOf(s: ProgScan, mcus: seq<Mcu>, interval: nat, i: nat)
    requires ValidProg(s) && ValidMcus(s.plan, mcus) && i < |mcus| && !IsDcFirst(s)
    ensures ValidMcu(s.plan, mcus[i]) && ProgTraces(s, mcus, interval)[i] == McuDecisions(s, mcus[i])
  {
    hide McuDecisions;
  }

  lemma {:induction false} DcBitsInRange(mcu: Mcu, al: nat, i: nat)
    requires Blocks(mcu) && i <= |mcu|
    ensures InRange(DcBits(mcu, al, i), ALL_BINS)
    decreases |mcu| - i
  {
    if i < |mcu| {
      DcBitsInRange(mcu, al, i + 1);
    }
  }

  lemma DecisionsInRange(s: ProgScan, mcu: Mcu)
    requires ValidProg(s) && !IsDcFirst(s) && ValidMcu(s.plan, mcu)
    ensures InRange(McuDecisions(s, mcu), ALL_BINS)
  {
    hide Within, InRange, BandTrace, RefineTrace, RefineBand, LastNonzero, ValidOrder, DcBits, ValidScanPlan, Signed;
    if s.ss == 0 {
      DcBitsInRange(mcu, s.al, 0);
    } else {
      var p, x := PlanOf(s), mcu[0];
      assert CoefsFit(x);
      if s.ah == 0 {
        SignedFit(x, s.al);
        BandWithin(p, SignedBlock(x, s.al), s.ss);
        WithinTable(BandTrace(p, SignedBlock(x, s.al), s.ss), p.base, p.base + AC_BINS);
      } else {
        RefineBandWithin(p, x, s.ss, s.al);
        WithinTable(RefineBand(p, x, s.ss, s.al), p.base, p.base + AC_BINS);
      }
    }
  }

  lemma RefineBandWithin(p: AcPlan, x: seq<int>, ss: nat, al: nat)
    requires ValidAcPlan(p) && |x| == BLOCK && 1 <= ss <= p.se
    ensures Within(RefineBand(p, x, ss, al), p.base, p.base + AC_BINS)
  {
    hide Within, RefineTrace, ValidOrder, Signed;
    var ke := LastNonzero(p.order, SignedBlock(x, al), p.se);
    RefineWithin(p, SignedBlock(x, al), ss, ke, LastNonzero(p.order, SignedBlock(x, al + 1), ke));
  }

  lemma SignedFit(x: seq<int>, al: nat)
    requires CoefsFit(x)
    ensures CoefsFit(SignedBlock(x, al))
  {
    hide Magnitude;
    forall p | 0 <= p < BLOCK
      ensures -0x8000 <= SignedBlock(x, al)[p] < 0x8000
    {
      TruncateFits(x[p], al);
    }
  }

  lemma ProgUsable(s: ProgScan, mcus: seq<Mcu>, interval: nat)
    requires ValidProg(s) && ValidMcus(s.plan, mcus)
    ensures Usable(ProgTraces(s, mcus, interval))
  {
    hide McuDecisions, InRange, ValidMcus, ScanTraces, ValidScanPlan;
    if IsDcFirst(s) {
      DcMcusValid(s.plan, mcus, s.al);
      ScanUsable(s.plan, DcMcus(mcus, s.al), interval);
    } else {
      var ts := ProgTraces(s, mcus, interval);
      forall i | 0 <= i < |ts|
        ensures InRange(ts[i], ALL_BINS)
      {
        ProgTraceOf(s, mcus, interval, i);
        DecisionsInRange(s, mcus[i]);
      }
    }
  }

  // ----- The encoder -----

  // encode_mcu_DC_refine, encode_mcu_AC_first or encode_mcu_AC_refine
  method EncodeLater(coder: Encoder, s: ProgScan, mcu: Mcu, ghost rest: seq<Decision>, ghost goal: Coder)
    requires ValidProg(s) && !IsDcFirst(s) && ValidMcu(s.plan, mcu)
    requires coder.Owes(McuDecisions(s, mcu) + rest, goal)
    modifies coder`c, coder`a, coder`sc, coder`zc, coder`ct, coder`buffer, coder`output, coder`data, coder.bins
    ensures coder.Owes(rest, goal)
  {
    hide Encoder.Owes, BandTrace, RefineBand, ValidOrder, CoefsFit;
    McuHasBlocks(s.plan, mcu);
    var plan := s.plan;
    if s.ss == 0 {
      var i := 0;
      while i < |mcu|
        invariant i <= |mcu| && coder.Owes(DcBits(mcu, s.al, i) + rest, goal)
      {
        assert DcBits(mcu, s.al, i) + rest
            == [Decision(FIXED_BIN, HasBit(mcu[i][0], s.al))] + (DcBits(mcu, s.al, i + 1) + rest);
        coder.Put(FIXED_BIN, HasBit(mcu[i][0], s.al), DcBits(mcu, s.al, i + 1) + rest, goal);
        i := i + 1;
      }
      assert DcBits(mcu, s.al, |mcu|) + rest == rest;
    } else {
      var tbl := plan.layout[0].ac;
      assert ValidSlot(plan, plan.layout[0]);
      if s.ah == 0 {
        EncodeBandFirst(coder, plan.order, s.ss, plan.se, s.al, AcBase(tbl), plan.acK[tbl], mcu[0], rest, goal);
      } else {
        EncodeBandRefine(coder, plan.order, s.ss, plan.se, s.al, AcBase(tbl), plan.acK[tbl], mcu[0], rest, goal);
      }
    }
  }

  // Encode a scan of a progressive file.
  method EncodeProgressive(s: ProgScan, interval: nat, mcus: seq<Mcu>) returns (output: seq<Byte>)
    requires ValidProg(s) && ValidMcus(s.plan, mcus)
    ensures Scanned(ProgTraces(s, mcus, interval), interval, output)
  {
    hide Scanned, Usable, McuDecisions, ScanEncoder.Valid, SegmentEncoder.Rest, SegmentEncoder.Aim, Encoder.Owes,
         SegmentEncoder.Frame, ValidScanPlan, ProgTraces, ValidMcus;
    ProgUsable(s, mcus, interval);
    var seg := NewSegmentEncoder(interval, ProgTraces(s, mcus, interval));
    if IsDcFirst(s) {
      ghost var dcs := DcTracesOf(s, mcus, interval);
      var e := new ScanEncoder(seg, s.plan, dcs);
      for i := 0 to |mcus|
        invariant e.seg == seg && e.plan == s.plan && e.mcus == dcs && seg.interval == interval && seg.done == i
        invariant fresh(e) && fresh(seg) && fresh(seg.coder) && fresh(seg.coder.bins) && e.Valid()
        invariant seg.ts == ProgTraces(s, mcus, interval)
      {
        McuAt(s.plan, mcus, i);
        e.EncodeMcuDcFirst(mcus[i], s.al);
      }
      SegmentOf(e);
    } else {
      for i := 0 to |mcus|
        invariant seg.interval == interval && seg.done == i && fresh(seg) && fresh(seg.coder) && fresh(seg.coder.bins)
        invariant seg.Valid() && seg.ts == ProgTraces(s, mcus, interval)
      {
        ProgTraceOf(s, mcus, interval, i);
        var _ := seg.Begin();
        EncodeLater(seg.coder, s, mcus[i], seg.Rest(), seg.Aim());
      }
    }
    output := seg.Finish();
  }

  ghost function DcTracesOf(s: ProgScan, mcus: seq<Mcu>, interval: nat): (dcs: seq<Mcu>)
    requires ValidProg(s) && ValidMcus(s.plan, mcus) && IsDcFirst(s)
    ensures |dcs| == |mcus| && ValidMcus(s.plan, dcs)
    ensures ProgTraces(s, mcus, interval) == ScanTraces(s.plan, dcs, interval)
    ensures forall i :: 0 <= i < |mcus| ==> Blocks(mcus[i]) && dcs[i] == DcMcu(mcus[i], s.al)
  {
    DcMcusValid(s.plan, mcus, s.al);
    DcMcus(mcus, s.al)
  }

  lemma McuAt(plan: ScanPlan, mcus: seq<Mcu>, i: nat)
    requires ValidMcus(plan, mcus) && i < |mcus|
    ensures ValidMcu(plan, mcus[i]) && Blocks(mcus[i]) && |mcus[i]| == |plan.layout|
  {
  }

  // ----- What decoding an MCU does for a block -----

  // Block y holds what was sent of x before the scan.
  ghost predicate Known(s: ProgScan, x: seq<int>, y: seq<int>, bits: seq<int>) {
    && |bits| == BLOCK && AtPrecision(s.plan.order, x, y, bits)
    && Uniform(bits, s.ss, s.plan.se, if s.ah == 0 then -1 else s.ah)
  }

  // Block z holds what has been sent of x after the scan, if y does before it.
  ghost predicate Improves(s: ProgScan, x: seq<int>, y: seq<int>, z: seq<int>, bits: seq<int>) {
    && |z| == BLOCK
    && (Known(s, x, y, bits) ==> AtPrecision(s.plan.order, x, z, Sent(bits, s.ss, s.plan.se + 1, s.al)))
  }

  ghost predicate McuImproves(s: ProgScan, xs: Mcu, ys: Mcu, zs: Mcu, bitss: seq<seq<int>>) {
    |xs| == |ys| == |zs| == |bitss| && forall i :: 0 <= i < |xs| ==> Improves(s, xs[i], ys[i], zs[i], bitss[i])
  }

  // A new DC coefficient.
  lemma DcImproves(s: ProgScan, x: seq<int>, y: seq<int>, bits: seq<int>, v: int)
    requires ValidProg(s) && s.ss == 0 && |x| == |y| == BLOCK
    requires Known(s, x, y, bits) ==> v == Shifted(x[0], s.al) * Pow2(s.al)
    ensures Improves(s, x, y, y[0 := v], bits)
  {
    hide AtPrecision, Shifted, Pow2;
    if Known(s, x, y, bits) {
      PrecisionOrder(s.plan.order, x, y, bits);
      PrecisionStep(s.plan.order, x, y, bits, 0, s.al, v);
      SentNext(bits, 0, 0, s.al);
    }
  }

  // First scans: the coefficient is written as it comes.
  lemma FirstImproves(s: ProgScan, x: seq<int>, y: seq<int>, bits: seq<int>)
    requires ValidProg(s) && IsDcFirst(s) && CoefsFit(x) && |y| == BLOCK
    ensures Improves(s, x, y, y[0 := ToCoef(DcBlock(x, s.al)[0] * Pow2(s.al))], bits)
  {
    hide ToCoef, Pow2, Shifted;
    ShiftedFits(x[0], s.al);
    DcImproves(s, x, y, bits, Shifted(x[0], s.al) * Pow2(s.al));
  }

  // Refinement: one more bit.
  lemma BitImproves(s: ProgScan, x: seq<int>, y: seq<int>, bits: seq<int>)
    requires ValidProg(s) && s.ss == 0 && s.ah > 0 && |x| == |y| == BLOCK
    ensures Improves(s, x, y, BitWritten(x, y, s.al), bits)
  {
    hide Pow2, Shifted, HasBit, WithBit, AtPrecision;
    if Known(s, x, y, bits) {
      PrecisionOrder(s.plan.order, x, y, bits);
      PrecisionAt(s.plan.order, x, y, bits, 0);
      NextDcBit(x[0], s.al);
    }
    DcImproves(s, x, y, bits, if HasBit(x[0], s.al) then WithBit(y[0], s.al) else y[0]);
  }

  function BitWritten(x: seq<int>, y: seq<int>, al: nat): (z: seq<int>)
    requires |x| == |y| == BLOCK
    ensures |z| == BLOCK
  {
    y[0 := if HasBit(x[0], al) then WithBit(y[0], al) else y[0]]
  }

  // ----- The decoder -----

  ghost predicate BitsWritten(now: Mcu, was: Mcu, mcu: Mcu, al: nat, i: nat) {
    && |now| == |was| == |mcu| && Blocks(was) && Blocks(mcu)
    && forall j :: 0 <= j < |was| ==> now[j] == if j < i then BitWritten(mcu[j], was[j], al) else was[j]
  }

  // decode_mcu_DC_refine
  method DecodeDcRefine(d: Decoder, al: nat, blocks: seq<array<int>>, ghost mcu: Mcu, ghost rest: seq<Decision>,
                        ghost goal: Coder)
    requires d.Valid() && FIXED_BIN < d.bins.Length && |mcu| == |blocks| && Blocks(mcu)
    requires forall i :: 0 <= i < |blocks| ==> blocks[i].Length == BLOCK && blocks[i] as object != d.bins as object
    requires forall i, j :: 0 <= i < j < |blocks| ==> blocks[i] != blocks[j]
    modifies blocks
    modifies d`c, d`a, d`ct, d`pos, d`unreadMarker, d`fetched, d`low, d`shifts, d.bins
    ensures d.Valid() && d.code == old(d.code) && d.after == old(d.after) && (old(Fixed(d)) ==> Fixed(d))
    ensures old(d.Tracks(DcBits(mcu, al, 0) + rest, goal)) ==>
      BitsWritten(Contents(blocks), old(Contents(blocks)), mcu, al, |mcu|) && d.Tracks(rest, goal)
  {
    hide Fixed, Decoder.Valid, Decoder.Tracks, DcBits, HasBit, WithBit, Contents, BitsWritten;
    ghost var was := Contents(blocks);
    ghost var good := d.Tracks(DcBits(mcu, al, 0) + rest, goal);
    NoBitWritten(was, mcu, al);
    var i := 0;
    while i < |blocks|
      invariant i <= |blocks| && d.Valid() && d.code == old(d.code) && d.after == old(d.after)
      invariant old(Fixed(d)) ==> Fixed(d)
      invariant good ==> d.Tracks(DcBits(mcu, al, i) + rest, goal) && BitsWritten(Contents(blocks), was, mcu, al, i)
    {
      ghost var before := Contents(blocks);
      DcBitsHead(mcu, al, i, rest);
      var bit := Get(d, FIXED_BIN, DcBits(mcu, al, i) + rest, goal);
      if bit {
        blocks[i][0] := WithBit(blocks[i][0], al);
      }
      assert Contents(blocks) == before[i := blocks[i][..]];
      if good {
        BitWrittenNext(before, was, mcu, al, i, blocks[i][..]);
      }
      i := i + 1;
    }
    DcBitsDone(mcu, al, rest);
  }

  lemma NoBitWritten(was: Mcu, mcu: Mcu, al: nat)
    requires |was| == |mcu| && Blocks(was) && Blocks(mcu)
    ensures BitsWritten(was, was, mcu, al, 0)
  {
  }

  lemma BitWrittenNext(before: Mcu, was: Mcu, mcu: Mcu, al: nat, i: nat, b: seq<int>)
    requires BitsWritten(before, was, mcu, al, i) && i < |was|
    requires |before[i]| == |mcu[i]| == BLOCK
    requires b == before[i][0 := if HasBit(mcu[i][0], al) then WithBit(before[i][0], al) else before[i][0]]
    ensures BitsWritten(before[i := b], was, mcu, al, i + 1)
  {
    hide HasBit, WithBit;
  }

  lemma DcBitsHead(mcu: Mcu, al: nat, i: nat, rest: seq<Decision>)
    requires Blocks(mcu) && i < |mcu|
    ensures var t := DcBits(mcu, al, i) + rest;
      t != [] && t[0] == Decision(FIXED_BIN, HasBit(mcu[i][0], al)) && t[1..] == DcBits(mcu, al, i + 1) + rest
  {
  }

  lemma DcBitsDone(mcu: Mcu, al: nat, rest: seq<Decision>)
    requires Blocks(mcu)
    ensures DcBits(mcu, al, |mcu|) + rest == rest
  {
  }

  // decode_mcu_DC_refine, decode_mcu_AC_first or decode_mcu_AC_refine
  method DecodeLater(d: Decoder, s: ProgScan, blocks: seq<array<int>>, ghost mcu: Mcu, ghost bitss: seq<seq<int>>,
                     ghost rest: seq<Decision>, ghost goal: Coder)
    returns (ok: bool)
    requires ValidProg(s) && !IsDcFirst(s) && ValidMcu(s.plan, mcu) && |blocks| == |mcu| == |bitss| && Blocks(bitss)
    requires d.Valid() && FIXED_BIN < d.bins.Length
    requires forall i :: 0 <= i < |blocks| ==> blocks[i].Length == BLOCK && blocks[i] as object != d.bins as object
    requires forall i, j :: 0 <= i < j < |blocks| ==> blocks[i] != blocks[j]
    modifies blocks
    modifies d`c, d`a, d`ct, d`pos, d`unreadMarker, d`fetched, d`low, d`shifts, d.bins
    ensures d.Valid() && d.code == old(d.code) && d.after == old(d.after) && (old(Fixed(d)) ==> Fixed(d))
    ensures
      && (s.ss > 0 ==> Known(s, mcu[0], old(blocks[0][..]), bitss[0]))
      && old(d.Tracks(McuDecisions(s, mcu) + rest, goal)) ==>
      ok && McuImproves(s, mcu, old(Contents(blocks)), Contents(blocks), bitss) && d.Tracks(rest, goal)
  {
    hide Fixed, Decoder.Valid, Decoder.Tracks, BandTrace, RefineBand, ValidOrder, CoefsFit, DcBits, AtPrecision,
         Uniform, BitsWritten, Improves;
    McuHasBlocks(s.plan, mcu);
    var plan := s.plan;
    if s.ss == 0 {
      ghost var was := Contents(blocks);
      ghost var good := d.Tracks(DcBits(mcu, s.al, 0) + rest, goal);
      DecodeDcRefine(d, s.al, blocks, mcu, rest, goal);
      ok := true;
      if good {
        AllImprove(s, mcu, was, Contents(blocks), bitss);
      }
    } else {
      var tbl := plan.layout[0].ac;
      assert ValidSlot(plan, plan.layout[0]);
      ghost var was := blocks[0][..];
      if s.ah == 0 {
        ok := DecodeBandFirst(d, plan.order, s.ss, plan.se, s.al, AcBase(tbl), plan.acK[tbl], blocks[0],
                              mcu[0], bitss[0], rest, goal);
      } else {
        ok := DecodeBandRefine(d, plan.order, s.ss, plan.se, s.al, AcBase(tbl), plan.acK[tbl], blocks[0],
                               mcu[0], bitss[0], rest, goal);
      }
      if ok {
        BandImproves(s, mcu[0], was, blocks[0][..], bitss[0]);
      }
    }
  }

  lemma AllImprove(s: ProgScan, mcu: Mcu, was: Mcu, now: Mcu, bitss: seq<seq<int>>)
    requires ValidProg(s) && s.ss == 0 && s.ah > 0 && |mcu| == |bitss| && BitsWritten(now, was, mcu, s.al, |mcu|)
    ensures McuImproves(s, mcu, was, now, bitss)
  {
    hide BitWritten, Improves;
    forall i | 0 <= i < |mcu|
      ensures Improves(s, mcu[i], was[i], now[i], bitss[i])
    {
      BitImproves(s, mcu[i], was[i], bitss[i]);
    }
  }

  lemma AllImproveFirst(s: ProgScan, mcu: Mcu, was: Mcu, now: Mcu, bitss: seq<seq<int>>)
    requires ValidProg(s) && IsDcFirst(s) && |mcu| == |bitss| && Blocks(mcu)
    requires McuWritten(now, was, DcMcu(mcu, s.al), s.al, |mcu|)
    requires forall i :: 0 <= i < |mcu| ==> CoefsFit(mcu[i])
    ensures McuImproves(s, mcu, was, now, bitss)
  {
    hide Improves, ToCoef, DcBlock, CoefsFit;
    forall i | 0 <= i < |mcu|
      ensures Improves(s, mcu[i], was[i], now[i], bitss[i])
    {
      FirstImproves(s, mcu[i], was[i], bitss[i]);
    }
  }

  lemma BandImproves(s: ProgScan, x: seq<int>, y: seq<int>, z: seq<int>, bits: seq<int>)
    requires |z| == BLOCK
    ensures AtPrecision(s.plan.order, x, z, Sent(bits, s.ss, s.plan.se + 1, s.al)) ==> Improves(s, x, y, z, bits)
  {
    hide AtPrecision;
  }
}
