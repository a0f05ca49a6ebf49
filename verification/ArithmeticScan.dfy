// Sequential arithmetic-coded scans: the decisions of whole MCUs with the context that
// earlier blocks leave behind, and what a decoder can recover.

module ArithmeticScan {
  import opened CodeBits
  import opened Coefficients
  import opened PointTransform
  import opened CodingInterval
  import opened ArithmeticBlock
  import opened RestartSegments
  import opened ArithmeticSegments

  // Order, last coefficient index, blocks of an MCU, components, and conditioning per table.
  datatype ScanPlan = ScanPlan(order: seq<nat>, se: nat, layout: seq<Slot>, comps: nat,
                               dcL: seq<nat>, dcU: seq<nat>, acK: seq<nat>)

  ghost predicate ValidScanPlan(plan: ScanPlan) {
    && ValidOrder(plan.order) && plan.se < BLOCK
    && |plan.dcL| == |plan.dcU| == |plan.acK| == TABLES
    && forall i :: 0 <= i < |plan.layout| ==> ValidSlot(plan, plan.layout[i])
  }

  predicate ValidSlot(plan: ScanPlan, slot: Slot) {
    slot.ci < plan.comps && slot.dc < TABLES && slot.ac < TABLES
  }

  ghost predicate ValidMcu(plan: ScanPlan, mcu: Mcu) {
    |mcu| == |plan.layout| && forall i :: 0 <= i < |mcu| ==> CoefsFit(mcu[i])
  }

  ghost predicate ValidMcus(plan: ScanPlan, mcus: seq<Mcu>) {
    forall i :: 0 <= i < |mcus| ==> ValidMcu(plan, mcus[i])
  }

  // DC prediction and conditioning category of each component.
  datatype Context = Context(last: seq<int>, dc: seq<nat>)

  ghost predicate ValidContext(plan: ScanPlan, c: Context) {
    && |c.last| == |c.dc| == plan.comps
    && (forall i :: 0 <= i < plan.comps ==> -0x8000 <= c.last[i] < 0x8000 && c.dc[i] <= 16)
  }

  function FreshContext(plan: ScanPlan): Context {
    Context(seq(plan.comps, _ => 0), seq(plan.comps, _ => 0))
  }

  function CondOf(plan: ScanPlan, slot: Slot): Conditioning
    requires slot.dc < |plan.dcL| == |plan.dcU| && slot.ac < |plan.acK|
  {
    Conditioning(plan.dcL[slot.dc], plan.dcU[slot.dc], plan.acK[slot.ac])
  }

  function AcPlanOf(plan: ScanPlan, slot: Slot): AcPlan
    requires slot.ac < |plan.acK|
  {
    AcPlan(plan.order, plan.se, AcBase(slot.ac), plan.acK[slot.ac])
  }

  // ----- One block -----

  ghost function BlockTrace(plan: ScanPlan, slot: Slot, b: seq<int>, c: Context): seq<Decision>
    requires ValidScanPlan(plan) && ValidSlot(plan, slot) && CoefsFit(b) && ValidContext(plan, c)
  {
    DcTrace(DcBase(slot.dc), c.dc[slot.ci], b[0] - c.last[slot.ci]) + AllAcTrace(AcPlanOf(plan, slot), b)
  }

  ghost function NextAfter(plan: ScanPlan, slot: Slot, b: seq<int>, c: Context): (n: Context)
    requires ValidScanPlan(plan) && ValidSlot(plan, slot) && CoefsFit(b) && ValidContext(plan, c)
    ensures ValidContext(plan, n)
  {
    Context(c.last[slot.ci := b[0]], c.dc[slot.ci := NextContext(CondOf(plan, slot), b[0] - c.last[slot.ci])])
  }

  // The DC difference is one that a decoder can read.
  ghost predicate DiffFits(slot: Slot, b: seq<int>, c: Context)
    requires |b| == BLOCK && slot.ci < |c.last|
  {
    Abs(b[0] - c.last[slot.ci]) <= 0x8000
  }

  // ----- One MCU, from block i on -----

  ghost function McuTrace(plan: ScanPlan, mcu: Mcu, c: Context, i: nat): seq<Decision>
    requires ValidScanPlan(plan) && ValidMcu(plan, mcu) && ValidContext(plan, c) && i <= |mcu|
    decreases |mcu| - i
  {
    if i == |mcu| then []
    else
      BlockTrace(plan, plan.layout[i], mcu[i], c)
      + McuTrace(plan, mcu, NextAfter(plan, plan.layout[i], mcu[i], c), i + 1)
  }

  ghost function ContextAfter(plan: ScanPlan, mcu: Mcu, c: Context, i: nat): (n: Context)
    requires ValidScanPlan(plan) && ValidMcu(plan, mcu) && ValidContext(plan, c) && i <= |mcu|
    ensures ValidContext(plan, n)
    decreases |mcu| - i
  {
    if i == |mcu| then c else ContextAfter(plan, mcu, NextAfter(plan, plan.layout[i], mcu[i], c), i + 1)
  }

  ghost predicate McuFits(plan: ScanPlan, mcu: Mcu, c: Context, i: nat)
    requires ValidScanPlan(plan) && ValidMcu(plan, mcu) && ValidContext(plan, c) && i <= |mcu|
    decreases |mcu| - i
  {
    i < |mcu| ==>
      DiffFits(plan.layout[i], mcu[i], c) && McuFits(plan, mcu, NextAfter(plan, plan.layout[i], mcu[i], c), i + 1)
  }

  // ----- All decisions use bins of the tables they are meant for -----

  lemma BlockInRange(plan: ScanPlan, slot: Slot, b: seq<int>, c: Context)
    requires ValidScanPlan(plan) && ValidSlot(plan, slot) && CoefsFit(b) && ValidContext(plan, c)
    ensures Within(DcTrace(DcBase(slot.dc), c.dc[slot.ci], b[0] - c.last[slot.ci]), DcBase(slot.dc),
                   DcBase(slot.dc) + DC_BINS)
    ensures Within(AllAcTrace(AcPlanOf(plan, slot), b), AcBase(slot.ac), AcBase(slot.ac) + AC_BINS)
    ensures InRange(BlockTrace(plan, slot, b, c), ALL_BINS)
  {
    hide DcTrace, AcTrace, Within, LastNonzero, ValidOrder;
    DcWithin(slot.dc, c.dc[slot.ci], b[0] - c.last[slot.ci]);
    var p := AcPlanOf(plan, slot);
    if plan.se > 0 {
      AcWithin(p, b, 0, LastNonzero(p.order, b, p.se));
    } else {
      NoneWithin(AcBase(slot.ac), AcBase(slot.ac) + AC_BINS);
    }
    var x, y := DcTrace(DcBase(slot.dc), c.dc[slot.ci], b[0] - c.last[slot.ci]), AllAcTrace(p, b);
    WithinTable(x, DcBase(slot.dc), DcBase(slot.dc) + DC_BINS);
    WithinTable(y, AcBase(slot.ac), AcBase(slot.ac) + AC_BINS);
    RangeAppend(x, y);
  }

  lemma NoneWithin(lo: nat, hi: nat)
    ensures Within([], lo, hi)
  {
  }

  lemma WithinTable(trace: seq<Decision>, lo: nat, hi: nat)
    requires Within(trace, lo, hi) && hi <= FIXED_BIN
    ensures InRange(trace, ALL_BINS)
  {
  }

  lemma RangeAppend(a: seq<Decision>, b: seq<Decision>)
    requires InRange(a, ALL_BINS) && InRange(b, ALL_BINS)
    ensures InRange(a + b, ALL_BINS)
  {
  }

  lemma {:induction false} McuInRange(plan: ScanPlan, mcu: Mcu, c: Context, i: nat)
    requires ValidScanPlan(plan) && ValidMcu(plan, mcu) && ValidContext(plan, c) && i <= |mcu|
    ensures InRange(McuTrace(plan, mcu, c, i), ALL_BINS)
    decreases |mcu| - i
  {
    hide BlockTrace, NextAfter, ValidOrder, CoefsFit, InRange;
    RangeNone();
    if i < |mcu| {
      var next := NextAfter(plan, plan.layout[i], mcu[i], c);
      BlockInRange(plan, plan.layout[i], mcu[i], c);
      McuInRange(plan, mcu, next, i + 1);
      RangeAppend(BlockTrace(plan, plan.layout[i], mcu[i], c), McuTrace(plan, mcu, next, i + 1));
    }
  }

  lemma RangeNone()
    ensures InRange([], ALL_BINS)
  {
  }

  // ----- The MCUs of a scan -----

  lemma FreshIsValid(plan: ScanPlan)
    ensures ValidContext(plan, FreshContext(plan))
  {
  }

  // The context in which MCU i is coded: fresh at the start of a segment.
  ghost function ContextAt(plan: ScanPlan, mcus: seq<Mcu>, interval: nat, i: nat): (c: Context)
    requires ValidScanPlan(plan) && ValidMcus(plan, mcus) && i < |mcus|
    ensures ValidContext(plan, c)
  {
    FreshIsValid(plan);
    if StartsSegment(i, interval) then FreshContext(plan)
    else ContextAfter(plan, mcus[i - 1], ContextAt(plan, mcus, interval, i - 1), 0)
  }

  // All DC differences of the segment up to and including MCU i can be read.
  ghost predicate Recoverable(plan: ScanPlan, mcus: seq<Mcu>, interval: nat, i: nat)
    requires ValidScanPlan(plan) && ValidMcus(plan, mcus) && i < |mcus|
  {
    && (!StartsSegment(i, interval) ==> Recoverable(plan, mcus, interval, i - 1))
    && McuFits(plan, mcus[i], ContextAt(plan, mcus, interval, i), 0)
  }

  ghost function ScanTraces(plan: ScanPlan, mcus: seq<Mcu>, interval: nat): (ts: Traces)
    requires ValidScanPlan(plan) && ValidMcus(plan, mcus)
    ensures |ts| == |mcus|
  {
    hide McuTrace, ContextAt, ValidScanPlan;
    seq(|mcus|, i requires 0 <= i < |mcus| => McuTrace(plan, mcus[i], ContextAt(plan, mcus, interval, i), 0))
  }

  lemma TraceOf(plan: ScanPlan, mcus: seq<Mcu>, interval: nat, i: nat)
    requires ValidScanPlan(plan) && ValidMcus(plan, mcus) && i < |mcus|
    ensures ScanTraces(plan, mcus, interval)[i] == McuTrace(plan, mcus[i], ContextAt(plan, mcus, interval, i), 0)
  {
    hide McuTrace, ContextAt, ValidScanPlan, ValidMcus;
  }

  lemma ScanUsable(plan: ScanPlan, mcus: seq<Mcu>, interval: nat)
    requires ValidScanPlan(plan) && ValidMcus(plan, mcus)
    ensures Usable(ScanTraces(plan, mcus, interval))
  {
    hide McuTrace, ContextAt, ValidScanPlan, InRange;
    var ts := ScanTraces(plan, mcus, interval);
    forall i | 0 <= i < |ts|
      ensures InRange(ts[i], ALL_BINS)
    {
      McuInRange(plan, mcus[i], ContextAt(plan, mcus, interval, i), 0);
    }
  }

  // What a decoder shows of a block: coefficients beyond the last one coded stay zero.
  ghost function Visible(plan: ScanPlan, mcu: Mcu): (v: Mcu)
    requires ValidScanPlan(plan) && ValidMcu(plan, mcu)
    ensures |v| == |mcu|
  {
    seq(|mcu|, i requires 0 <= i < |mcu| => Filled(plan.order, mcu[i], plan.se + 1))
  }

  // ----- When nothing can overflow -----

  predicate Small(dc: int) {
    -0x4000 <= dc < 0x4000
  }

  ghost predicate SmallDcs(mcu: Mcu) {
    forall i :: 0 <= i < |mcu| ==> |mcu[i]| == BLOCK && Small(mcu[i][0])
  }

  ghost predicate SmallContext(c: Context) {
    forall i :: 0 <= i < |c.last| ==> Small(c.last[i])
  }

  lemma {:induction false} SmallMcuFits(plan: ScanPlan, mcu: Mcu, c: Context, i: nat)
    requires ValidScanPlan(plan) && ValidMcu(plan, mcu) && ValidContext(plan, c) && i <= |mcu|
    requires SmallDcs(mcu) && SmallContext(c)
    ensures McuFits(plan, mcu, c, i) && SmallContext(ContextAfter(plan, mcu, c, i))
    decreases |mcu| - i
  {
    hide ValidOrder, CoefsFit, NextContext;
    if i < |mcu| {
      SmallMcuFits(plan, mcu, NextAfter(plan, plan.layout[i], mcu[i], c), i + 1);
    }
  }

  // DC coefficients of 15 bits: every MCU can be recovered.
  lemma {:induction false} SmallRecoverable(plan: ScanPlan, mcus: seq<Mcu>, interval: nat, i: nat)
    requires ValidScanPlan(plan) && ValidMcus(plan, mcus) && i < |mcus|
    requires forall k :: 0 <= k <= i ==> SmallDcs(mcus[k])
    ensures Recoverable(plan, mcus, interval, i)
    ensures SmallContext(ContextAt(plan, mcus, interval, i))
  {
    hide ValidOrder, McuFits, ContextAfter, ValidContext, SmallDcs;
    FreshIsValid(plan);
    var c := ContextAt(plan, mcus, interval, i);
    if !StartsSegment(i, interval) {
      SmallRecoverable(plan, mcus, interval, i - 1);
      SmallMcuFits(plan, mcus[i - 1], ContextAt(plan, mcus, interval, i - 1), 0);
    }
    SmallMcuFits(plan, mcus[i], c, 0);
  }

  // A block with nothing but a DC coefficient.
  function DcOnly(dc: int): (b: seq<int>)
    ensures |b| == BLOCK
  {
    seq(BLOCK, i => if i == 0 then dc else 0)
  }

  // Two valid DC coefficients that cannot be recovered: they differ by more than 2^15.
  lemma TooFarApart(plan: ScanPlan, mcus: seq<Mcu>)
    requires ValidScanPlan(plan) && |plan.layout| == 1
    requires mcus == [[DcOnly(0x7FFF)], [DcOnly(-0x8000)]]
    ensures ValidMcus(plan, mcus) && Recoverable(plan, mcus, 0, 0) && !Recoverable(plan, mcus, 0, 1)
  {
    hide ValidOrder, NextContext;
    assert ValidSlot(plan, plan.layout[0]);
    assert ValidMcu(plan, mcus[0]) && ValidMcu(plan, mcus[1]);
    var slot, c := plan.layout[0], FreshContext(plan);
    FreshIsValid(plan);
    assert ContextAt(plan, mcus, 0, 0) == c;
    var d := NextAfter(plan, slot, mcus[0][0], c);
    assert ContextAfter(plan, mcus[0], d, 1) == d;
    assert ContextAt(plan, mcus, 0, 1) == ContextAfter(plan, mcus[0], c, 0) == d;
    assert d.last[slot.ci] == 0x7FFF && !DiffFits(slot, mcus[1][0], d);
  }

  // ----- First DC scans in progressive mode: a sequential scan of shifted DC coefficients -----

  function DcBlock(x: seq<int>, al: nat): (b: seq<int>)
    requires |x| == BLOCK
    ensures |b| == BLOCK
  {
    x[0 := Shifted(x[0], al)]
  }

  ghost predicate Blocks(mcu: Mcu) {
    forall i :: 0 <= i < |mcu| ==> |mcu[i]| == BLOCK
  }

  function DcMcu(mcu: Mcu, al: nat): (m: Mcu)
    requires forall i :: 0 <= i < |mcu| ==> |mcu[i]| == BLOCK
    ensures |m| == |mcu| && forall i :: 0 <= i < |mcu| ==> m[i] == DcBlock(mcu[i], al)
  {
    seq(|mcu|, i requires 0 <= i < |mcu| => DcBlock(mcu[i], al))
  }

  // What a decoder makes of the first i blocks.
  function DcWritten(before: Mcu, dcs: Mcu, al: nat, i: nat): (m: Mcu)
    requires |before| == |dcs| && forall j :: 0 <= j < |dcs| ==> |before[j]| == |dcs[j]| == BLOCK
    ensures |m| == |before|
    ensures forall j :: 0 <= j < |before| ==>
      m[j] == if j < i then before[j][0 := ToCoef(dcs[j][0] * Pow2(al))] else before[j]
  {
    seq(|before|,
        j requires 0 <= j < |before| => if j < i then before[j][0 := ToCoef(dcs[j][0] * Pow2(al))] else before[j])
  }
}
