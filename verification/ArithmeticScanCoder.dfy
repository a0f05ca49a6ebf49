// Arithmetic coding of whole sequential scans, with restart markers, against decoding them.

module ArithmeticScanCoder {
  import opened CodeBits
  import opened Coefficients
  import opened PointTransform
  import opened Segment
  import opened RestartSegments
  import opened CodingInterval
  import opened ArithmeticEncoder
  import opened ArithmeticDecoder
  import opened ArithmeticBlock
  import opened ArithmeticMcuEncoder
  import opened ArithmeticMcuDecoder
  import opened ArithmeticSegments
  import opened ArithmeticScan

  // The context that MCU i - 1 leaves behind.
  ghost function ContextLeft(plan: ScanPlan, mcus: seq<Mcu>, interval: nat, i: nat): (c: Context)
    requires ValidScanPlan(plan) && ValidMcus(plan, mcus) && i <= |mcus|
    ensures ValidContext(plan, c)
  {
    FreshIsValid(plan);
    if i == 0 then FreshContext(plan)
    else ContextAfter(plan, mcus[i - 1], ContextAt(plan, mcus, interval, i - 1), 0)
  }

  lemma ContextStarts(plan: ScanPlan, mcus: seq<Mcu>, interval: nat, i: nat)
    requires ValidScanPlan(plan) && ValidMcus(plan, mcus) && i < |mcus|
    ensures ContextAt(plan, mcus, interval, i) ==
      if i > 0 && StartsSegment(i, interval) then FreshContext(plan) else ContextLeft(plan, mcus, interval, i)
  {
    hide ContextAfter, ValidScanPlan, ValidMcus;
  }

  lemma PlanOfMcu(plan: ScanPlan, mcus: seq<Mcu>, i: nat)
    requires ValidScanPlan(plan) && ValidMcus(plan, mcus) && i < |mcus|
    ensures ValidMcu(plan, mcus[i]) && |mcus[i]| == |plan.layout|
  {
  }

  // ----- The encoder -----

  class ScanEncoder {
    const seg: SegmentEncoder
    const plan: ScanPlan
    var lastDc: seq<int>
    var dcContext: seq<nat>
    ghost const mcus: seq<Mcu>

    ghost function Ctx(): Context
      reads this
    {
      Context(lastDc, dcContext)
    }

    ghost predicate Valid()
      reads this, seg, seg.coder, seg.coder.bins
    {
      && ValidScanPlan(plan) && ValidMcus(plan, mcus) && seg.ts == ScanTraces(plan, mcus, seg.interval)
      && seg.Valid() && Ctx() == ContextLeft(plan, mcus, seg.interval, seg.done)
    }

    constructor (e: SegmentEncoder, p: ScanPlan, ghost all: seq<Mcu>)
      requires ValidScanPlan(p) && ValidMcus(p, all) && e.ts == ScanTraces(p, all, e.interval)
      requires e.Valid() && e.done == 0
      ensures Valid() && seg == e && plan == p && mcus == all
    {
      hide SegmentEncoder.Valid, ValidScanPlan, ValidMcus, ScanTraces, ContextAfter, StartsSegment;
      seg, plan, mcus := e, p, all;
      lastDc, dcContext := seq(p.comps, _ => 0), seq(p.comps, _ => 0);
    }

    // The blocks of one MCU.
    method EncodeBlocks(mcu: Mcu, ghost rest: seq<Decision>, ghost goal: Coder)
      requires ValidScanPlan(plan) && ValidMcu(plan, mcu) && ValidContext(plan, Ctx())
      requires seg.coder.Owes(McuTrace(plan, mcu, Ctx(), 0) + rest, goal)
      modifies this`lastDc, this`dcContext, seg.coder`c, seg.coder`a, seg.coder`sc, seg.coder`zc, seg.coder`ct
      modifies seg.coder`buffer, seg.coder`output, seg.coder`data, seg.coder.bins
      ensures seg.coder.Owes(rest, goal)
      ensures Ctx() == old(ContextAfter(plan, mcu, Ctx(), 0))
    {
      hide Encoder.Owes, DcTrace, AllAcTrace, ValidOrder, CoefsFit, NextContext, McuTrace, ContextAfter, ValidContext,
           ValidScanPlan;
      ghost var final := ContextAfter(plan, mcu, Ctx(), 0);
      var i := 0;
      while i < |mcu|
        invariant i <= |mcu| && ValidContext(plan, Ctx()) && ContextAfter(plan, mcu, Ctx(), i) == final
        invariant seg.coder.Owes(McuTrace(plan, mcu, Ctx(), i) + rest, goal)
      {
        McuStep(plan, mcu, Ctx(), i, rest);
        var slot, b := plan.layout[i], mcu[i];
        ghost var more := McuTrace(plan, mcu, NextAfter(plan, slot, b, Ctx()), i + 1) + rest;
        ghost var acs := AllAcTrace(AcPlanOf(plan, slot), b);
        var context := EncodeDc(seg.coder, DcBase(slot.dc), dcContext[slot.ci], b[0] - lastDc[slot.ci],
                                CondOf(plan, slot), acs + more, goal);
        dcContext := dcContext[slot.ci := context];
        lastDc := lastDc[slot.ci := b[0]];
        EncodeAc(seg.coder, plan.order, plan.se, AcBase(slot.ac), plan.acK[slot.ac], b, more, goal);
        i := i + 1;
      }
      McuDone(plan, mcu, Ctx(), rest);
    }

    // Before an MCU: the context is fresh behind a restart marker.
    method BeginMcu()
      requires Valid() && seg.done < |mcus|
      modifies this`lastDc, this`dcContext, seg, seg.coder, seg.coder.bins
      ensures seg.Frame() && seg.done == old(seg.done) + 1 && seg.lo < seg.done
      ensures Ctx() == ContextAt(plan, mcus, seg.interval, seg.done - 1)
      ensures seg.coder.Owes(McuTrace(plan, mcus[seg.done - 1], Ctx(), 0) + seg.Rest(), seg.Aim())
    {
      hide SegmentEncoder.Frame, Encoder.Owes, ContextAt, ContextLeft, McuTrace, ValidScanPlan, ValidMcus;
      ContextStarts(plan, mcus, seg.interval, seg.done);
      TraceOf(plan, mcus, seg.interval, seg.done);
      var restarted := seg.Begin();
      if restarted {
        lastDc, dcContext := seq(plan.comps, _ => 0), seq(plan.comps, _ => 0);
      }
    }

    // encode_mcu
    method EncodeMcu(mcu: Mcu)
      requires Valid() && seg.done < |mcus| && mcu == mcus[seg.done]
      modifies this`lastDc, this`dcContext, seg, seg.coder, seg.coder.bins
      ensures Valid() && seg.done == old(seg.done) + 1
    {
      hide Encoder.Owes, ContextAt, ContextAfter, McuTrace, ValidScanPlan, ValidMcus, ValidContext, Goal, Span,
           SegmentEncoder.Frame, SegmentEncoder.Rest, SegmentEncoder.Aim;
      PlanOfMcu(plan, mcus, seg.done);
      BeginMcu();
      EncodeBlocks(mcu, seg.Rest(), seg.Aim());
    }

    // The DC coefficients of one MCU, shifted.
    method EncodeDcs(mcu: Mcu, al: nat, ghost rest: seq<Decision>, ghost goal: Coder)
      requires ValidScanPlan(plan) && plan.se == 0 && Blocks(mcu) && ValidMcu(plan, DcMcu(mcu, al))
      requires ValidContext(plan, Ctx())
      requires seg.coder.Owes(McuTrace(plan, DcMcu(mcu, al), Ctx(), 0) + rest, goal)
      modifies this`lastDc, this`dcContext, seg.coder`c, seg.coder`a, seg.coder`sc, seg.coder`zc, seg.coder`ct
      modifies seg.coder`buffer, seg.coder`output, seg.coder`data, seg.coder.bins
      ensures seg.coder.Owes(rest, goal)
      ensures Ctx() == old(ContextAfter(plan, DcMcu(mcu, al), Ctx(), 0))
    {
      hide Encoder.Owes, DcTrace, ValidOrder, CoefsFit, NextContext, McuTrace, ContextAfter, ValidContext,
           ValidScanPlan;
      ghost var dcs := DcMcu(mcu, al);
      ghost var final := ContextAfter(plan, dcs, Ctx(), 0);
      var i := 0;
      while i < |mcu|
        invariant i <= |mcu| && ValidContext(plan, Ctx()) && ContextAfter(plan, dcs, Ctx(), i) == final
        invariant seg.coder.Owes(McuTrace(plan, dcs, Ctx(), i) + rest, goal)
      {
        McuStep(plan, dcs, Ctx(), i, rest);
        var slot, m := plan.layout[i], Shifted(mcu[i][0], al);
        ghost var more := McuTrace(plan, dcs, NextAfter(plan, slot, dcs[i], Ctx()), i + 1) + rest;
        assert AllAcTrace(AcPlanOf(plan, slot), dcs[i]) + more == more;
        var context := EncodeDc(seg.coder, DcBase(slot.dc), dcContext[slot.ci], m - lastDc[slot.ci],
                                CondOf(plan, slot), more, goal);
        dcContext := dcContext[slot.ci := context];
        lastDc := lastDc[slot.ci := m];
        i := i + 1;
      }
      McuDone(plan, dcs, Ctx(), rest);
    }

    // encode_mcu_DC_first
    method EncodeMcuDcFirst(mcu: Mcu, al: nat)
      requires Valid() && plan.se == 0 && seg.done < |mcus| && Blocks(mcu) && DcMcu(mcu, al) == mcus[seg.done]
      modifies this`lastDc, this`dcContext, seg, seg.coder, seg.coder.bins
      ensures Valid() && seg.done == old(seg.done) + 1
    {
      hide Encoder.Owes, ContextAt, ContextAfter, McuTrace, ValidScanPlan, ValidMcus, ValidContext, Goal, Span,
           SegmentEncoder.Frame, SegmentEncoder.Rest, SegmentEncoder.Aim;
      PlanOfMcu(plan, mcus, seg.done);
      BeginMcu();
      EncodeDcs(mcu, al, seg.Rest(), seg.Aim());
    }
  }

  // Encode a scan.
  method EncodeScan(plan: ScanPlan, interval: nat, mcus: seq<Mcu>) returns (output: seq<Byte>)
    requires ValidScanPlan(plan) && ValidMcus(plan, mcus)
    ensures Scanned(ScanTraces(plan, mcus, interval), interval, output)
  {
    hide ScanEncoder.Valid, SegmentEncoder.Valid, ValidScanPlan, ValidMcus, Scanned, Usable;
    ScanUsable(plan, mcus, interval);
    var seg := NewSegmentEncoder(interval, ScanTraces(plan, mcus, interval));
    var e := new ScanEncoder(seg, plan, mcus);
    for i := 0 to |mcus|
      invariant e.seg == seg && e.plan == plan && e.mcus == mcus && seg.interval == interval && seg.done == i
      invariant fresh(e) && fresh(seg) && fresh(seg.coder) && fresh(seg.coder.bins) && e.Valid()
      invariant seg.ts == ScanTraces(plan, mcus, interval)
    {
      e.EncodeMcu(mcus[i]);
    }
    SegmentOf(e);
    output := seg.Finish();
  }

  lemma SegmentOf(e: ScanEncoder)
    requires e.Valid()
    ensures e.seg.Valid()
  {
  }

  // ----- The decoder -----

  class ScanDecoder {
    const seg: SegmentDecoder
    const plan: ScanPlan
    var lastDc: seq<int>
    var dcContext: seq<nat>
    ghost const mcus: seq<Mcu>

    ghost function Ctx(): Context
      reads this
    {
      Context(lastDc, dcContext)
    }

    ghost predicate Ready()
      reads this, seg.coder, seg.coder.bins
    {
      && ValidScanPlan(plan) && seg.coder.Valid() && Fixed(seg.coder)
      && |lastDc| == |dcContext| == plan.comps
      && forall i :: 0 <= i < plan.comps ==> dcContext[i] <= 16
    }

    // Between two MCUs. An overflow is met exactly where an MCU cannot be recovered.
    ghost predicate Valid()
      reads this, seg, seg.coder, seg.coder.bins
    {
      && Ready() && ValidMcus(plan, mcus) && seg.ts == ScanTraces(plan, mcus, seg.interval) && seg.Valid()
      && (seg.failed <==> seg.done > 0 && !Recoverable(plan, mcus, seg.interval, seg.done - 1))
      && (!seg.failed ==> Ctx() == ContextLeft(plan, mcus, seg.interval, seg.done))
    }

    constructor (d: SegmentDecoder, p: ScanPlan, ghost all: seq<Mcu>)
      requires ValidScanPlan(p) && ValidMcus(p, all) && d.ts == ScanTraces(p, all, d.interval)
      requires d.Valid() && d.done == 0 && !d.failed
      ensures Valid() && seg == d && plan == p && mcus == all
    {
      seg, plan, mcus := d, p, all;
      lastDc, dcContext := seq(p.comps, _ => 0), seq(p.comps, _ => 0);
    }

    // One block, of which all coefficients are zero so far; b is what it may be.
    method DecodeBlock(block: array<int>, slot: Slot, ghost b: seq<int>, ghost rest: seq<Decision>, ghost goal: Coder)
      requires Ready() && ValidSlot(plan, slot) && block.Length == BLOCK && !seg.failed && CoefsFit(b)
      requires block as object != seg.coder.bins as object
      modifies block, this`lastDc, this`dcContext, seg`failed
      modifies seg.coder`c, seg.coder`a, seg.coder`ct, seg.coder`pos, seg.coder`unreadMarker, seg.coder`fetched
      modifies seg.coder`low, seg.coder`shifts, seg.coder.bins
      ensures Ready() && seg.coder.code == old(seg.coder.code) && seg.coder.after == old(seg.coder.after)
      ensures old(Awaits(slot, b, rest, goal)) && old(block[..]) == Filled(plan.order, b, 0) ==>
        && (seg.failed <==> !DiffFits(slot, b, old(Ctx())))
        && (!seg.failed ==> block[..] == Filled(plan.order, b, plan.se + 1))
        && (!seg.failed ==> Ctx() == NextAfter(plan, slot, b, old(Ctx())) && seg.coder.Tracks(rest, goal))
    {
      hide Decoder.Valid, Decoder.Tracks, DcTrace, AllAcTrace, ValidOrder, Filled, NextContext, ToCoef;
      Entries(plan.order);
      ghost var good := Awaits(slot, b, rest, goal) && block[..] == Filled(plan.order, b, 0);
      ghost var acs := AllAcTrace(AcPlanOf(plan, slot), b) + rest;
      ghost var diff := b[0] - lastDc[slot.ci];
      var ok, next, delta := DecodeDc(seg.coder, DcBase(slot.dc), dcContext[slot.ci], CondOf(plan, slot), diff, acs,
                                      goal);
      if !ok {
        seg.failed := true;
        return;
      }
      dcContext := dcContext[slot.ci := next];
      lastDc := lastDc[slot.ci := lastDc[slot.ci] + delta];
      block[0] := ToCoef(lastDc[slot.ci]);
      if good {
        CoefInRange(b, 0);
        FillNext(plan.order, b, 0);
      }
      ok := DecodeAc(seg.coder, plan.order, plan.se, AcBase(slot.ac), plan.acK[slot.ac], block, b, rest, goal);
      seg.failed := !ok;
    }

    // The segment goes on with block b and then the rest.
    ghost predicate Awaits(slot: Slot, b: seq<int>, rest: seq<Decision>, goal: Coder)
      requires Ready() && ValidSlot(plan, slot) && CoefsFit(b)
      reads this, seg.coder, seg.coder.bins
    {
      && ValidContext(plan, Ctx())
      && seg.coder.Tracks(DcTrace(DcBase(slot.dc), dcContext[slot.ci], b[0] - lastDc[slot.ci])
                      + (AllAcTrace(AcPlanOf(plan, slot), b) + rest), goal)
    }

    // decode_mcu for the blocks of one MCU, all zero so far. After an overflow the rest of
    // the segment is left alone.
    method DecodeMcu(blocks: seq<array<int>>, ghost mcu: Mcu, ghost rest: seq<Decision>, ghost goal: Coder)
      requires Ready() && |blocks| == |plan.layout| && ValidMcu(plan, mcu)
      requires forall i :: 0 <= i < |blocks| ==>
        blocks[i].Length == BLOCK && blocks[i] as object != seg.coder.bins as object
      requires forall i, j :: 0 <= i < j < |blocks| ==> blocks[i] != blocks[j]
      modifies blocks, this`lastDc, this`dcContext, seg`failed
      modifies seg.coder`c, seg.coder`a, seg.coder`ct, seg.coder`pos, seg.coder`unreadMarker, seg.coder`fetched
      modifies seg.coder`low, seg.coder`shifts, seg.coder.bins
      ensures Ready() && seg.coder.code == old(seg.coder.code) && seg.coder.after == old(seg.coder.after)
      ensures old(seg.failed) ==> seg.failed && Contents(blocks) == old(Contents(blocks))
      ensures old(!seg.failed && AwaitsMcu(mcu, 0, rest, goal) && Contents(blocks) == ZeroMcu(|blocks|)) ==>
        && (seg.failed <==> !old(McuFits(plan, mcu, Ctx(), 0)))
        && (!seg.failed ==> Contents(blocks) == Visible(plan, mcu))
        && (!seg.failed ==> Ctx() == old(ContextAfter(plan, mcu, Ctx(), 0)))
        && (!seg.failed ==> ValidContext(plan, Ctx()) && seg.coder.Tracks(rest, goal))
    {
      hide Decoder.Valid, Decoder.Tracks, ValidOrder, Filled, CoefsFit, McuTrace, ContextAfter, McuFits, ValidScanPlan,
           ValidContext, NextAfter, DiffFits, DcTrace, AllAcTrace, Contents, ZeroMcu, Fixed;
      if seg.failed {
        return;
      }
      ghost var c0 := Ctx();
      ghost var good := AwaitsMcu(mcu, 0, rest, goal) && Contents(blocks) == ZeroMcu(|blocks|);
      ghost var fits := good && McuFits(plan, mcu, c0, 0);
      ghost var final := if good then ContextAfter(plan, mcu, c0, 0) else c0;
      StartFilling(plan, mcu, Contents(blocks));
      var i := 0;
      while i < |blocks|
        invariant i <= |blocks| && Ready() && seg.coder.code == old(seg.coder.code)
        invariant seg.coder.after == old(seg.coder.after) && !seg.failed
        invariant good ==> AwaitsMcu(mcu, i, rest, goal) && FilledUpTo(plan, mcu, Contents(blocks), i)
        invariant good ==> (fits <==> McuFits(plan, mcu, Ctx(), i)) && ContextAfter(plan, mcu, Ctx(), i) == final
      {
        SlotFits(plan, mcu, i);
        var slot := plan.layout[i];
        ghost var before := Contents(blocks);
        ghost var more := [];
        if good {
          McuStep(plan, mcu, Ctx(), i, rest);
          more := McuTrace(plan, mcu, NextAfter(plan, slot, mcu[i], Ctx()), i + 1) + rest;
          NotYetFilled(plan, mcu, before, i);
        }
        DecodeBlock(blocks[i], slot, mcu[i], more, goal);
        assert Contents(blocks) == before[i := blocks[i][..]];
        if seg.failed {
          return;
        }
        if good {
          FillOne(plan, mcu, before, blocks[i][..], i);
        }
        i := i + 1;
      }
      if good {
        McuDone(plan, mcu, Ctx(), rest);
        AllFilled(plan, mcu, Contents(blocks));
      }
    }

    // The segment goes on with the blocks of an MCU from block i on.
    ghost predicate AwaitsMcu(mcu: Mcu, i: nat, rest: seq<Decision>, goal: Coder)
      requires Ready() && ValidMcu(plan, mcu) && i <= |mcu|
      reads this, seg.coder, seg.coder.bins
    {
      ValidContext(plan, Ctx()) && seg.coder.Tracks(McuTrace(plan, mcu, Ctx(), i) + rest, goal)
    }

    // Before an MCU: behind a restart marker the context is fresh and decoding goes on.
    method BeginMcu()
      requires Valid() && seg.done < |mcus|
      modifies this`lastDc, this`dcContext, seg, seg.coder, seg.coder.bins
      ensures Ready() && seg.Frame() && seg.done == old(seg.done) + 1 && seg.lo < seg.done
      ensures seg.failed <==>
        !StartsSegment(seg.done - 1, seg.interval) && !Recoverable(plan, mcus, seg.interval, seg.done - 2)
      ensures !seg.failed ==> Ctx() == ContextAt(plan, mcus, seg.interval, seg.done - 1)
      ensures !seg.failed ==> seg.coder.Tracks(McuTrace(plan, mcus[seg.done - 1], Ctx(), 0) + seg.Rest(), seg.Aim())
    {
      hide Decoder.Valid, Decoder.Tracks, ContextAt, ContextLeft, McuTrace, ValidScanPlan, ValidMcus, Recoverable,
           Goal, Span, Chain, Usable, Counting, Unstuff, AfterMarker, Fixed, StartsSegment;
      ContextStarts(plan, mcus, seg.interval, seg.done);
      TraceOf(plan, mcus, seg.interval, seg.done);
      FirstStarts(seg.interval);
      var restarted := seg.Begin();
      if restarted {
        lastDc, dcContext := seq(plan.comps, _ => 0), seq(plan.comps, _ => 0);
      }
    }

    // decode_mcu, into blocks that the caller has cleared.
    method DecodeNext() returns (mcu: Mcu, ok: bool)
      requires Valid() && seg.done < |mcus|
      modifies this`lastDc, this`dcContext, seg, seg.coder, seg.coder.bins
      ensures Valid() && seg.done == old(seg.done) + 1
      ensures ok <==> Recoverable(plan, mcus, seg.interval, seg.done - 1)
      ensures ok ==> mcu == Visible(plan, mcus[seg.done - 1])
    {
      hide Decoder.Valid, Decoder.Tracks, ContextAt, ContextAfter, McuTrace, McuFits, ValidScanPlan, ValidMcus,
           ValidContext, Goal, Span, Chain, Usable, Counting, Unstuff, AfterMarker, Fixed, StartsSegment, Visible,
           Contents, ZeroMcu, Recoverable, ScanTraces, SegmentDecoder.Placed, SegmentDecoder.Rest, SegmentDecoder.Aim;
      var blocks := NewBlocks(|plan.layout|);
      PlanOfMcu(plan, mcus, seg.done);
      RecoverableStep(plan, mcus, seg.interval, seg.done);
      BeginMcu();
      DecodeMcu(blocks, mcus[seg.done - 1], seg.Rest(), seg.Aim());
      mcu := ReadOut(blocks);
      ok := !seg.failed;
    }

    // The DC coefficient of one block, at bit position al and above.
    method DecodeDcBlock(block: array<int>, slot: Slot, al: nat, ghost b: seq<int>, ghost rest: seq<Decision>,
                         ghost goal: Coder)
      requires Ready() && ValidSlot(plan, slot) && block.Length == BLOCK && !seg.failed && CoefsFit(b) && plan.se == 0
      requires block as object != seg.coder.bins as object
      modifies block, this`lastDc, this`dcContext, seg`failed
      modifies seg.coder`c, seg.coder`a, seg.coder`ct, seg.coder`pos, seg.coder`unreadMarker, seg.coder`fetched
      modifies seg.coder`low, seg.coder`shifts, seg.coder.bins
      ensures Ready() && seg.coder.code == old(seg.coder.code) && seg.coder.after == old(seg.coder.after)
      ensures old(Awaits(slot, b, rest, goal)) ==>
        && (seg.failed <==> !DiffFits(slot, b, old(Ctx())))
        && (!seg.failed ==> block[..] == old(block[..])[0 := ToCoef(b[0] * Pow2(al))])
        && (!seg.failed ==> Ctx() == NextAfter(plan, slot, b, old(Ctx())) && seg.coder.Tracks(rest, goal))
    {
      hide Decoder.Valid, Decoder.Tracks, DcTrace, ValidOrder, NextContext, ToCoef;
      assert AllAcTrace(AcPlanOf(plan, slot), b) + rest == rest;
      ghost var diff := b[0] - lastDc[slot.ci];
      var ok, next, delta := DecodeDc(seg.coder, DcBase(slot.dc), dcContext[slot.ci], CondOf(plan, slot), diff, rest,
                                      goal);
      if !ok {
        seg.failed := true;
        return;
      }
      dcContext := dcContext[slot.ci := next];
      lastDc := lastDc[slot.ci := lastDc[slot.ci] + delta];
      block[0] := ToCoef(lastDc[slot.ci] * Pow2(al));
    }

    // The blocks of one MCU. After an overflow the rest of the segment is left alone.
    method DecodeDcs(blocks: seq<array<int>>, al: nat, ghost dcs: Mcu, ghost rest: seq<Decision>, ghost goal: Coder)
      requires Ready() && plan.se == 0 && |blocks| == |plan.layout| && ValidMcu(plan, dcs)
      requires forall i :: 0 <= i < |blocks| ==>
        blocks[i].Length == BLOCK && blocks[i] as object != seg.coder.bins as object
      requires forall i, j :: 0 <= i < j < |blocks| ==> blocks[i] != blocks[j]
      modifies blocks, this`lastDc, this`dcContext, seg`failed
      modifies seg.coder`c, seg.coder`a, seg.coder`ct, seg.coder`pos, seg.coder`unreadMarker, seg.coder`fetched
      modifies seg.coder`low, seg.coder`shifts, seg.coder.bins
      ensures Ready() && seg.coder.code == old(seg.coder.code) && seg.coder.after == old(seg.coder.after)
      ensures old(seg.failed) ==> seg.failed && Contents(blocks) == old(Contents(blocks))
      ensures old(!seg.failed && AwaitsMcu(dcs, 0, rest, goal)) ==>
        && (seg.failed <==> !old(McuFits(plan, dcs, Ctx(), 0)))
        && (!seg.failed ==> McuWritten(Contents(blocks), old(Contents(blocks)), dcs, al, |dcs|))
        && (!seg.failed ==> Ctx() == old(ContextAfter(plan, dcs, Ctx(), 0)))
        && (!seg.failed ==> ValidContext(plan, Ctx()) && seg.coder.Tracks(rest, goal))
    {
      hide Decoder.Valid, Decoder.Tracks, ValidOrder, CoefsFit, McuTrace, ContextAfter, McuFits, ValidScanPlan,
           ValidContext, NextAfter, DiffFits, DcTrace, AllAcTrace, Contents, Fixed, ToCoef, McuWritten;
      if seg.failed {
        return;
      }
      ghost var c0, was := Ctx(), Contents(blocks);
      ghost var good := AwaitsMcu(dcs, 0, rest, goal);
      ghost var fits := good && McuFits(plan, dcs, c0, 0);
      ghost var final := if good then ContextAfter(plan, dcs, c0, 0) else c0;
      NoneWritten(plan, was, dcs, al);
      var i := 0;
      while i < |blocks|
        invariant i <= |blocks| && Ready() && seg.coder.code == old(seg.coder.code)
        invariant seg.coder.after == old(seg.coder.after)
        invariant !seg.failed
        invariant good ==> AwaitsMcu(dcs, i, rest, goal) && McuWritten(Contents(blocks), was, dcs, al, i)
        invariant good ==> (fits <==> McuFits(plan, dcs, Ctx(), i)) && ContextAfter(plan, dcs, Ctx(), i) == final
      {
        SlotFits(plan, dcs, i);
        var slot := plan.layout[i];
        ghost var before := Contents(blocks);
        ghost var more := [];
        if good {
          McuStep(plan, dcs, Ctx(), i, rest);
          more := McuTrace(plan, dcs, NextAfter(plan, slot, dcs[i], Ctx()), i + 1) + rest;
        }
        DecodeDcBlock(blocks[i], slot, al, dcs[i], more, goal);
        assert Contents(blocks) == before[i := blocks[i][..]];
        if seg.failed {
          return;
        }
        if good {
          OneWritten(plan, before, was, dcs, al, i, blocks[i][..]);
        }
        i := i + 1;
      }
      if good {
        McuDone(plan, dcs, Ctx(), rest);
      }
    }

    // decode_mcu_DC_first; what it does not get to is left as it was.
    method DecodeMcuDcFirst(blocks: seq<array<int>>, al: nat) returns (ok: bool)
      requires Valid() && plan.se == 0 && seg.done < |mcus| && |blocks| == |plan.layout|
      requires forall i :: 0 <= i < |blocks| ==>
        blocks[i].Length == BLOCK && blocks[i] as object != seg.coder.bins as object
      requires forall i, j :: 0 <= i < j < |blocks| ==> blocks[i] != blocks[j]
      modifies blocks, this`lastDc, this`dcContext, seg, seg.coder, seg.coder.bins
      ensures Valid() && seg.done == old(seg.done) + 1
      ensures ok <==> Recoverable(plan, mcus, seg.interval, seg.done - 1)
      ensures ok ==> McuWritten(Contents(blocks), old(Contents(blocks)), mcus[seg.done - 1], al, |blocks|)
    {
      hide Decoder.Valid, Decoder.Tracks, ContextAt, ContextAfter, McuTrace, McuFits, ValidScanPlan, ValidMcus,
           ValidContext, Goal, Span, Chain, Usable, Counting, Unstuff, AfterMarker, Fixed, StartsSegment, Contents,
           Recoverable, ScanTraces, SegmentDecoder.Placed, SegmentDecoder.Rest, SegmentDecoder.Aim, McuWritten;
      PlanOfMcu(plan, mcus, seg.done);
      RecoverableStep(plan, mcus, seg.interval, seg.done);
      BeginMcu();
      DecodeDcs(blocks, al, mcus[seg.done - 1], seg.Rest(), seg.Aim());
      ok := !seg.failed;
    }
  }

  // The first i blocks have got their DC coefficients, and nothing else has changed.
  ghost predicate McuWritten(now: Mcu, was: Mcu, dcs: Mcu, al: nat, i: nat) {
    |now| == |was| == |dcs| && Blocks(was) && Blocks(dcs) && now == DcWritten(was, dcs, al, i)
  }

  lemma NoneWritten(plan: ScanPlan, was: Mcu, dcs: Mcu, al: nat)
    requires ValidScanPlan(plan) && ValidMcu(plan, dcs) && |was| == |dcs| && Blocks(was)
    ensures McuWritten(was, was, dcs, al, 0)
  {
    assert was == DcWritten(was, dcs, al, 0);
  }

  lemma OneWritten(plan: ScanPlan, before: Mcu, was: Mcu, dcs: Mcu, al: nat, i: nat, b: seq<int>)
    requires McuWritten(before, was, dcs, al, i) && i < |was|
    requires b == before[i][0 := ToCoef(dcs[i][0] * Pow2(al))]
    ensures McuWritten(before[i := b], was, dcs, al, i + 1)
  {
    hide ToCoef;
    assert before[i := b] == DcWritten(was, dcs, al, i + 1);
  }

  lemma RecoverableStep(plan: ScanPlan, mcus: seq<Mcu>, interval: nat, i: nat)
    requires ValidScanPlan(plan) && ValidMcus(plan, mcus) && i < |mcus|
    ensures Recoverable(plan, mcus, interval, i) <==>
      && (!StartsSegment(i, interval) ==> Recoverable(plan, mcus, interval, i - 1))
      && McuFits(plan, mcus[i], ContextAt(plan, mcus, interval, i), 0)
  {
    hide McuFits, ContextAt, ValidScanPlan, ValidMcu;
  }

  // The first i MCUs are reported good exactly if they can be recovered, and then they are
  // what was coded.
  ghost predicate DecodedWell(plan: ScanPlan, mcus: seq<Mcu>, interval: nat, decoded: seq<Mcu>, good: seq<bool>, n: nat)
    requires ValidScanPlan(plan) && ValidMcus(plan, mcus) && n <= |mcus|
  {
    && |decoded| == |good| == n
    && forall i :: 0 <= i < n ==>
      && (good[i] <==> Recoverable(plan, mcus, interval, i))
      && (good[i] ==> decoded[i] == Visible(plan, mcus[i]))
  }

  lemma DecodedPush(plan: ScanPlan, mcus: seq<Mcu>, interval: nat, decoded: seq<Mcu>, good: seq<bool>, n: nat, mcu: Mcu,
                    ok: bool)
    requires ValidScanPlan(plan) && ValidMcus(plan, mcus) && n < |mcus|
    requires DecodedWell(plan, mcus, interval, decoded, good, n)
    requires ok <==> Recoverable(plan, mcus, interval, n)
    requires ok ==> mcu == Visible(plan, mcus[n])
    ensures DecodedWell(plan, mcus, interval, decoded + [mcu], good + [ok], n + 1)
  {
    hide Recoverable, Visible, ValidScanPlan, ValidMcu;
  }

  lemma DecodedNone(plan: ScanPlan, mcus: seq<Mcu>, interval: nat)
    requires ValidScanPlan(plan) && ValidMcus(plan, mcus)
    ensures DecodedWell(plan, mcus, interval, [], [], 0)
  {
  }

  lemma FirstStarts(interval: nat)
    ensures StartsSegment(0, interval)
  {
  }

  // The first i blocks show what they should, the others are zero.
  ghost predicate FilledUpTo(plan: ScanPlan, mcu: Mcu, c: Mcu, i: nat)
    requires ValidScanPlan(plan) && ValidMcu(plan, mcu)
  {
    && |c| == |mcu|
    && (forall j :: 0 <= j < i && j < |c| ==> c[j] == Filled(plan.order, mcu[j], plan.se + 1))
    && (forall j :: i <= j < |c| ==> c[j] == seq(BLOCK, _ => 0))
  }

  lemma StartFilling(plan: ScanPlan, mcu: Mcu, c: Mcu)
    requires ValidScanPlan(plan) && ValidMcu(plan, mcu) && |c| == |mcu|
    ensures c == ZeroMcu(|c|) ==> FilledUpTo(plan, mcu, c, 0)
  {
  }

  lemma SlotFits(plan: ScanPlan, mcu: Mcu, i: nat)
    requires ValidScanPlan(plan) && ValidMcu(plan, mcu) && i < |plan.layout|
    ensures ValidSlot(plan, plan.layout[i]) && |mcu| == |plan.layout| && CoefsFit(mcu[i]) && |mcu[i]| == BLOCK
    ensures ValidOrder(plan.order) && plan.se < BLOCK
  {
  }

  lemma NotYetFilled(plan: ScanPlan, mcu: Mcu, c: Mcu, i: nat)
    requires ValidScanPlan(plan) && ValidMcu(plan, mcu) && FilledUpTo(plan, mcu, c, i) && i < |c|
    ensures |mcu[i]| == BLOCK && c[i] == Filled(plan.order, mcu[i], 0)
  {
  }

  lemma FillOne(plan: ScanPlan, mcu: Mcu, before: Mcu, b: seq<int>, i: nat)
    requires ValidScanPlan(plan) && ValidMcu(plan, mcu) && FilledUpTo(plan, mcu, before, i) && i < |before|
    requires |mcu[i]| == BLOCK && b == Filled(plan.order, mcu[i], plan.se + 1)
    ensures FilledUpTo(plan, mcu, before[i := b], i + 1)
  {
  }

  lemma AllFilled(plan: ScanPlan, mcu: Mcu, c: Mcu)
    requires ValidScanPlan(plan) && ValidMcu(plan, mcu) && FilledUpTo(plan, mcu, c, |c|)
    ensures c == Visible(plan, mcu)
  {
  }

  // Decode a scan. An MCU is reported good, and is what was coded, exactly if no DC difference
  // of its segment up to it overflows; an overflow does no harm beyond the next restart marker.
  method DecodeScan(plan: ScanPlan, interval: nat, input: seq<Byte>, n: nat, ghost mcus: seq<Mcu>)
    returns (decoded: seq<Mcu>, good: seq<bool>)
    requires ValidScanPlan(plan) && ValidMcus(plan, mcus) && |mcus| == n
    requires Usable(ScanTraces(plan, mcus, interval))
    requires Chain(ScanTraces(plan, mcus, interval), interval, input, 0, 0, 0)
    ensures DecodedWell(plan, mcus, interval, decoded, good, n)
  {
    hide ScanDecoder.Valid, SegmentDecoder.Valid, ValidScanPlan, ValidMcus, Usable, Chain, Recoverable, Visible,
         DecodedWell;
    var seg := NewSegmentDecoder(input, interval, ScanTraces(plan, mcus, interval));
    var d := new ScanDecoder(seg, plan, mcus);
    decoded, good := [], [];
    DecodedNone(plan, mcus, interval);
    for i := 0 to n
      invariant d.seg == seg && d.plan == plan && d.mcus == mcus && seg.interval == interval && seg.done == i
      invariant fresh(d) && fresh(seg) && fresh(seg.coder) && fresh(seg.coder.bins) && d.Valid()
      invariant DecodedWell(plan, mcus, interval, decoded, good, i)
    {
      var mcu, ok := d.DecodeNext();
      DecodedPush(plan, mcus, interval, decoded, good, i, mcu, ok);
      decoded, good := decoded + [mcu], good + [ok];
    }
  }

  // Main result: whatever the MCUs, the conditioning and the restart interval, an MCU comes
  // back exactly if no DC difference of its segment up to it exceeds 2^15 in magnitude; no
  // other MCU is reported good.
  method CodeAndDecode(plan: ScanPlan, interval: nat, mcus: seq<Mcu>, marker: Byte, tail: seq<Byte>)
    returns (decoded: seq<Mcu>, good: seq<bool>)
    requires ValidScanPlan(plan) && ValidMcus(plan, mcus) && marker != 0 && marker != 0xFF
    ensures |decoded| == |good| == |mcus|
    ensures forall i :: 0 <= i < |mcus| ==> (good[i] <==> Recoverable(plan, mcus, interval, i))
    ensures forall i :: 0 <= i < |mcus| && good[i] ==> decoded[i] == Visible(plan, mcus[i])
  {
    hide Chain, Usable, ValidScanPlan, ValidMcu, Recoverable, Visible;
    var output := EncodeScan(plan, interval, mcus);
    decoded, good := DecodeScan(plan, interval, output + [0xFF, marker] + tail, |mcus|, mcus);
  }

  // With all 64 coefficients in the scan nothing is lost.
  lemma AllVisible(plan: ScanPlan, mcu: Mcu)
    requires ValidScanPlan(plan) && ValidMcu(plan, mcu) && plan.se == BLOCK - 1
    ensures Visible(plan, mcu) == mcu
  {
    hide ValidOrder, Filled;
    forall i | 0 <= i < |mcu|
      ensures Visible(plan, mcu)[i] == mcu[i]
    {
      CoefsFitSize(mcu[i]);
      FilledAll(plan.order, mcu[i]);
    }
  }

  lemma CoefsFitSize(b: seq<int>)
    requires CoefsFit(b)
    ensures |b| == BLOCK
  {
  }

  // The trace of an MCU from block i on begins with that of the block.
  lemma McuStep(plan: ScanPlan, mcu: Mcu, c: Context, i: nat, rest: seq<Decision>)
    requires ValidScanPlan(plan) && ValidMcu(plan, mcu) && ValidContext(plan, c) && i < |mcu|
    ensures |mcu| == |plan.layout| && CoefsFit(mcu[i]) && |mcu[i]| == BLOCK
    ensures |plan.dcL| == |plan.dcU| == |plan.acK| == TABLES && |c.last| == |c.dc| == plan.comps
    ensures var slot, b := plan.layout[i], mcu[i];
      && ValidSlot(plan, slot) && ValidAcPlan(AcPlanOf(plan, slot))
      && c.dc[slot.ci] <= 16
      && var next := NextAfter(plan, slot, b, c);
         && ContextAfter(plan, mcu, c, i) == ContextAfter(plan, mcu, next, i + 1)
         && (McuFits(plan, mcu, c, i) <==> DiffFits(slot, b, c) && McuFits(plan, mcu, next, i + 1))
         && McuTrace(plan, mcu, c, i) + rest ==
            DcTrace(DcBase(slot.dc), c.dc[slot.ci], b[0] - c.last[slot.ci])
            + (AllAcTrace(AcPlanOf(plan, slot), b) + (McuTrace(plan, mcu, next, i + 1) + rest))
  {
    hide DcTrace, AllAcTrace, ValidOrder, NextAfter;
  }

  lemma McuDone(plan: ScanPlan, mcu: Mcu, c: Context, rest: seq<Decision>)
    requires ValidScanPlan(plan) && ValidMcu(plan, mcu) && ValidContext(plan, c)
    ensures ContextAfter(plan, mcu, c, |mcu|) == c && McuFits(plan, mcu, c, |mcu|)
    ensures McuTrace(plan, mcu, c, |mcu|) + rest == rest
  {
    assert [] + rest == rest;
  }
}
