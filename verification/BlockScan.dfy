// Sequential Huffman scans: MCUs of several blocks, DC prediction per component, the tokens
// of a whole scan, and the state a decoder reaches on any data.

module BlockScan {
  import opened CodeBits
  import opened Coefficients
  import opened RestartSegments
  import opened BitPacker
  import opened HuffmanFields
  import opened BlockCoding

  // The coefficient order and the blocks of an MCU.
  datatype Plan = Plan(order: seq<nat>, layout: seq<Slot>, comps: nat)

  ghost predicate ValidPlan(plan: Plan, ts: Tables) {
    && ValidOrder(plan.order)
    && GoodTables(ts)
    && forall i :: 0 <= i < |plan.layout| ==> ValidSlot(plan.layout[i], plan.comps, ts)
  }

  predicate ValidSlot(s: Slot, comps: nat, ts: Tables) {
    s.ci < comps && s.dc < |ts.dcEnc| && s.ac < |ts.acEnc|
  }

  ghost predicate ValidMcu(plan: Plan, mcu: Mcu) {
    |mcu| == |plan.layout| && forall i :: 0 <= i < |mcu| ==> |mcu[i]| == BLOCK && ToCoef(mcu[i][0]) == mcu[i][0]
  }

  ghost predicate ValidSlots(plan: Plan) {
    ValidOrder(plan.order) && forall i :: 0 <= i < |plan.layout| ==> plan.layout[i].ci < plan.comps
  }

  // DC predictions after the first n blocks.
  ghost function LastAfter(plan: Plan, mcu: Mcu, last: seq<int>, n: nat): (l: seq<int>)
    requires ValidSlots(plan) && ValidMcu(plan, mcu) && |last| == plan.comps && n <= |mcu|
    ensures |l| == plan.comps
  {
    if n == 0 then last else LastAfter(plan, mcu, last, n - 1)[plan.layout[n - 1].ci := mcu[n - 1][0]]
  }

  ghost predicate BlockInRange(plan: Plan, mcu: Mcu, last: seq<int>, i: nat)
    requires ValidSlots(plan) && ValidMcu(plan, mcu) && |last| == plan.comps && i < |mcu|
  {
    InRange(plan.order, mcu[i], LastAfter(plan, mcu, last, i)[plan.layout[i].ci])
  }

  ghost predicate McuInRange(plan: Plan, mcu: Mcu, last: seq<int>)
    requires ValidSlots(plan) && ValidMcu(plan, mcu) && |last| == plan.comps
  {
    forall i :: 0 <= i < |mcu| ==> BlockInRange(plan, mcu, last, i)
  }

  ghost function McuTokens(plan: Plan, mcu: Mcu, last: seq<int>, n: nat): seq<Token>
    requires ValidSlots(plan) && ValidMcu(plan, mcu) && |last| == plan.comps && n <= |mcu|
    requires forall i :: 0 <= i < n ==> BlockInRange(plan, mcu, last, i)
  {
    if n == 0 then []
    else
      assert BlockInRange(plan, mcu, last, n - 1);
      var slot := plan.layout[n - 1];
      McuTokens(plan, mcu, last, n - 1)
      + BlockTokens(plan.order, slot, mcu[n - 1], LastAfter(plan, mcu, last, n - 1)[slot.ci])
  }

  // ----- Scans -----

  ghost predicate ValidMcus(plan: Plan, mcus: seq<Mcu>) {
    forall i :: 0 <= i < |mcus| ==> ValidMcu(plan, mcus[i])
  }

  function Zeros(n: nat): (z: seq<int>)
    ensures |z| == n
  {
    seq(n, _ => 0)
  }

  // The predictions with which MCU i is coded: at the start of a segment they are zero.
  function Predictions(plan: Plan, interval: nat, last: seq<int>, i: nat): (l: seq<int>)
    ensures |last| == plan.comps ==> |l| == plan.comps
  {
    if StartsSegment(i, interval) then Zeros(plan.comps) else last
  }

  // The predictions behind the first n MCUs.
  ghost function ScanLast(plan: Plan, mcus: seq<Mcu>, interval: nat, n: nat): (l: seq<int>)
    requires ValidSlots(plan) && ValidMcus(plan, mcus) && n <= |mcus|
    ensures |l| == plan.comps
    decreases n, 0
  {
    if n == 0 then Zeros(plan.comps)
    else LastAfter(plan, mcus[n - 1], Before(plan, mcus, interval, n - 1), |plan.layout|)
  }

  ghost function Before(plan: Plan, mcus: seq<Mcu>, interval: nat, i: nat): (l: seq<int>)
    requires ValidSlots(plan) && ValidMcus(plan, mcus) && i <= |mcus|
    ensures |l| == plan.comps
    decreases i, 1
  {
    Predictions(plan, interval, ScanLast(plan, mcus, interval, i), i)
  }

  ghost predicate ScanInRange(plan: Plan, mcus: seq<Mcu>, interval: nat, n: nat)
    requires ValidSlots(plan) && ValidMcus(plan, mcus) && n <= |mcus|
  {
    forall i :: 0 <= i < n ==> McuInRange(plan, mcus[i], Before(plan, mcus, interval, i))
  }

  // The tokens of the MCUs from lo up to n.
  ghost function SpanTokens(plan: Plan, mcus: seq<Mcu>, interval: nat, lo: nat, n: nat): seq<Token>
    requires ValidSlots(plan) && ValidMcus(plan, mcus) && lo <= n <= |mcus| && ScanInRange(plan, mcus, interval, n)
  {
    if n == lo then []
    else
      SpanTokens(plan, mcus, interval, lo, n - 1)
      + McuTokens(plan, mcus[n - 1], Before(plan, mcus, interval, n - 1), |plan.layout|)
  }

  ghost function ScanTokens(plan: Plan, mcus: seq<Mcu>, interval: nat, n: nat): seq<Token>
    requires ValidSlots(plan) && ValidMcus(plan, mcus) && n <= |mcus| && ScanInRange(plan, mcus, interval, n)
  {
    SpanTokens(plan, mcus, interval, 0, n)
  }

  lemma ScanGoesOn(plan: Plan, mcus: seq<Mcu>, interval: nat, n: nat)
    requires ValidSlots(plan) && ValidMcus(plan, mcus) && n < |mcus|
    ensures ValidMcu(plan, mcus[n]) && |mcus[n]| == |plan.layout|
    ensures ScanInRange(plan, mcus, interval, n + 1) <==>
      ScanInRange(plan, mcus, interval, n) && McuInRange(plan, mcus[n], Before(plan, mcus, interval, n))
    ensures ScanLast(plan, mcus, interval, n + 1) ==
      LastAfter(plan, mcus[n], Before(plan, mcus, interval, n), |plan.layout|)
  {
    hide LastAfter, BlockInRange, ValidOrder;
  }

  lemma SpanGoesOn(plan: Plan, mcus: seq<Mcu>, interval: nat, lo: nat, n: nat)
    requires ValidSlots(plan) && ValidMcus(plan, mcus) && lo <= n < |mcus| && ScanInRange(plan, mcus, interval, n + 1)
    ensures ValidMcu(plan, mcus[n]) && McuInRange(plan, mcus[n], Before(plan, mcus, interval, n))
    ensures |mcus[n]| == |plan.layout|
    ensures SpanTokens(plan, mcus, interval, lo, n + 1) == SpanTokens(plan, mcus, interval, lo, n)
      + McuTokens(plan, mcus[n], Before(plan, mcus, interval, n), |plan.layout|)
  {
    hide LastAfter, BlockInRange, ValidOrder, McuTokens;
  }

  lemma SpanStarts(plan: Plan, mcus: seq<Mcu>, interval: nat, lo: nat)
    requires ValidSlots(plan) && ValidMcus(plan, mcus) && lo <= |mcus| && ScanInRange(plan, mcus, interval, lo)
    ensures SpanTokens(plan, mcus, interval, lo, lo) == []
  {
  }

  lemma ScanStarts(plan: Plan, mcus: seq<Mcu>, interval: nat)
    requires ValidSlots(plan) && ValidMcus(plan, mcus)
    ensures ScanInRange(plan, mcus, interval, 0) && ScanTokens(plan, mcus, interval, 0) == []
    ensures ScanLast(plan, mcus, interval, 0) == Zeros(plan.comps)
  {
  }

  // ----- Decoding -----

  // Bit position and DC predictions between blocks.
  datatype State = State(at: nat, last: seq<int>)

  ghost function DecodeNext(plan: Plan, ts: Tables, data: seq<Byte>, b: seq<int>, i: nat, s: State): (r: Scanned)
    requires ValidPlan(plan, ts) && i < |plan.layout| && |b| == BLOCK && |s.last| == plan.comps
    ensures |r.b| == BLOCK
  {
    var slot := plan.layout[i];
    DecodeBlock(plan.order, ts.dcDec[slot.dc], ts.acDec[slot.ac], data, b, s.last[slot.ci], s.at)
  }

  // The state after the first n blocks of an MCU; bs is what the blocks hold before.
  ghost function StateAfter(plan: Plan, ts: Tables, data: seq<Byte>, bs: Mcu, s: State, n: nat): (r: State)
    requires ValidPlan(plan, ts) && |bs| == |plan.layout| && n <= |bs| && |s.last| == plan.comps
    requires forall i :: 0 <= i < |bs| ==> |bs[i]| == BLOCK
    ensures |r.last| == plan.comps
  {
    if n == 0 then s
    else
      var before, slot := StateAfter(plan, ts, data, bs, s, n - 1), plan.layout[n - 1];
      var diff := DcDifference(ts.dcDec[slot.dc], data, before.at);
      State(DecodeNext(plan, ts, data, bs[n - 1], n - 1, before).at,
            before.last[slot.ci := diff + before.last[slot.ci]])
  }

  ghost function BlockAfter(plan: Plan, ts: Tables, data: seq<Byte>, bs: Mcu, s: State, i: nat): (b: seq<int>)
    requires ValidPlan(plan, ts) && |bs| == |plan.layout| && i < |bs| && |s.last| == plan.comps
    requires forall j :: 0 <= j < |bs| ==> |bs[j]| == BLOCK
    ensures |b| == BLOCK
  {
    DecodeNext(plan, ts, data, bs[i], i, StateAfter(plan, ts, data, bs, s, i)).b
  }

  // The state after a whole MCU; behind the end of the data nothing is done.
  ghost function StateAfterMcu(plan: Plan, ts: Tables, data: seq<Byte>, bs: Mcu, s: State): (r: State)
    requires ValidPlan(plan, ts) && |bs| == |plan.layout| && |s.last| == plan.comps
    requires forall j :: 0 <= j < |bs| ==> |bs[j]| == BLOCK
    ensures |r.last| == plan.comps
  {
    if s.at > 8 * |data| then s else StateAfter(plan, ts, data, bs, s, |bs|)
  }

  ghost function McuAfter(plan: Plan, ts: Tables, data: seq<Byte>, bs: Mcu, s: State): (r: Mcu)
    requires ValidPlan(plan, ts) && |bs| == |plan.layout| && |s.last| == plan.comps
    requires forall j :: 0 <= j < |bs| ==> |bs[j]| == BLOCK
    ensures |r| == |bs| && forall j :: 0 <= j < |r| ==> |r[j]| == BLOCK
  {
    if s.at > 8 * |data| then bs
    else seq(|bs|, i requires 0 <= i < |bs| => BlockAfter(plan, ts, data, bs, s, i))
  }

  // ----- Suspension -----

  // Blocks of an MCU, some of them already partly decoded.
  ghost predicate PartialMcu(bs: Mcu, cs: Mcu, fs: Mcu) {
    |bs| == |cs| == |fs| && forall i :: 0 <= i < |bs| ==> Partial(bs[i], cs[i], fs[i])
  }

  lemma {:induction false} StateTwice(plan: Plan, ts: Tables, data: seq<Byte>, bs: Mcu, cs: Mcu, s: State, n: nat)
    requires ValidPlan(plan, ts) && |bs| == |cs| == |plan.layout| && n <= |bs| && |s.last| == plan.comps
    requires forall i :: 0 <= i < |bs| ==> |bs[i]| == |cs[i]| == BLOCK
    requires forall i :: 0 <= i < |bs| ==> Partial(bs[i], cs[i], BlockAfter(plan, ts, data, bs, s, i))
    ensures StateAfter(plan, ts, data, cs, s, n) == StateAfter(plan, ts, data, bs, s, n)
  {
    hide Partial, BlockAfter, ValidPlan, StateAfter, DecodeNext, Behind;
    StateStarts(plan, ts, data, bs, s);
    StateStarts(plan, ts, data, cs, s);
    if n > 0 {
      StateTwice(plan, ts, data, bs, cs, s, n - 1);
      StateSteps(plan, ts, data, bs, s, n - 1);
      StateSteps(plan, ts, data, cs, s, n - 1);
      NextTwice(plan, ts, data, bs[n - 1], cs[n - 1], n - 1, StateAfter(plan, ts, data, bs, s, n - 1));
    }
  }

  lemma BlockTwice(plan: Plan, ts: Tables, data: seq<Byte>, bs: Mcu, cs: Mcu, s: State, n: nat)
    requires ValidPlan(plan, ts) && |bs| == |cs| == |plan.layout| && n < |bs| && |s.last| == plan.comps
    requires forall i :: 0 <= i < |bs| ==> |bs[i]| == |cs[i]| == BLOCK
    requires forall i :: 0 <= i < |bs| ==> Partial(bs[i], cs[i], BlockAfter(plan, ts, data, bs, s, i))
    ensures BlockAfter(plan, ts, data, cs, s, n) == BlockAfter(plan, ts, data, bs, s, n)
  {
    hide Partial, BlockAfter, ValidPlan, StateAfter, DecodeNext, Behind;
    StateTwice(plan, ts, data, bs, cs, s, n);
    StateSteps(plan, ts, data, bs, s, n);
    StateSteps(plan, ts, data, cs, s, n);
    NextTwice(plan, ts, data, bs[n], cs[n], n, StateAfter(plan, ts, data, bs, s, n));
  }

  lemma StateStarts(plan: Plan, ts: Tables, data: seq<Byte>, bs: Mcu, s: State)
    requires ValidPlan(plan, ts) && |bs| == |plan.layout| && |s.last| == plan.comps
    requires forall j :: 0 <= j < |bs| ==> |bs[j]| == BLOCK
    ensures StateAfter(plan, ts, data, bs, s, 0) == s
  {
  }

  // The state behind a block, when the decoder has scanned r for it.
  ghost function Behind(plan: Plan, ts: Tables, data: seq<Byte>, i: nat, s: State, r: Scanned): State
    requires ValidPlan(plan, ts) && i < |plan.layout| && |s.last| == plan.comps
  {
    var slot := plan.layout[i];
    State(r.at, s.last[slot.ci := DcDifference(ts.dcDec[slot.dc], data, s.at) + s.last[slot.ci]])
  }

  lemma StateSteps(plan: Plan, ts: Tables, data: seq<Byte>, bs: Mcu, s: State, n: nat)
    requires ValidPlan(plan, ts) && |bs| == |plan.layout| && n < |bs| && |s.last| == plan.comps
    requires forall j :: 0 <= j < |bs| ==> |bs[j]| == BLOCK
    ensures var before := StateAfter(plan, ts, data, bs, s, n);
      var r := DecodeNext(plan, ts, data, bs[n], n, before);
      && BlockAfter(plan, ts, data, bs, s, n) == r.b
      && StateAfter(plan, ts, data, bs, s, n + 1) == Behind(plan, ts, data, n, before, r)
  {
    hide DecodeNext, DcDifference;
  }

  lemma NextTwice(plan: Plan, ts: Tables, data: seq<Byte>, b: seq<int>, c: seq<int>, i: nat, s: State)
    requires ValidPlan(plan, ts) && i < |plan.layout| && |b| == |c| == BLOCK && |s.last| == plan.comps
    requires Partial(b, c, DecodeNext(plan, ts, data, b, i, s).b)
    ensures DecodeNext(plan, ts, data, c, i, s) == DecodeNext(plan, ts, data, b, i, s)
  {
    hide Partial, DecodeBlock, ValidOrder, Agree;
    var slot := plan.layout[i];
    DecodeBlockTwice(plan.order, ts.dcDec[slot.dc], ts.acDec[slot.ac], data, b, c, s.last[slot.ci], s.at);
  }

  // Main result: decoding an MCU again after suspensions gives the same blocks and state.
  lemma McuTwice(plan: Plan, ts: Tables, data: seq<Byte>, bs: Mcu, cs: Mcu, s: State)
    requires ValidPlan(plan, ts) && |bs| == |cs| == |plan.layout| && |s.last| == plan.comps
    requires forall i :: 0 <= i < |bs| ==> |bs[i]| == |cs[i]| == BLOCK
    requires PartialMcu(bs, cs, McuAfter(plan, ts, data, bs, s))
    ensures McuAfter(plan, ts, data, cs, s) == McuAfter(plan, ts, data, bs, s)
    ensures StateAfterMcu(plan, ts, data, cs, s) == StateAfterMcu(plan, ts, data, bs, s)
  {
    hide Partial, StateAfter, BlockAfter, ValidPlan;
    var fs := McuAfter(plan, ts, data, bs, s);
    if s.at > 8 * |data| {
      forall i | 0 <= i < |bs|
        ensures cs[i] == bs[i]
      {
        PartialOfSame(bs[i], cs[i]);
      }
    } else {
      forall i | 0 <= i < |bs|
        ensures Partial(bs[i], cs[i], BlockAfter(plan, ts, data, bs, s, i))
      {
        assert fs[i] == BlockAfter(plan, ts, data, bs, s, i);
      }
      StateTwice(plan, ts, data, bs, cs, s, |bs|);
      forall i | 0 <= i < |bs|
        ensures BlockAfter(plan, ts, data, cs, s, i) == BlockAfter(plan, ts, data, bs, s, i)
      {
        BlockTwice(plan, ts, data, bs, cs, s, i);
      }
    }
  }

  lemma PartialOfSame(b: seq<int>, c: seq<int>)
    requires Partial(b, c, b)
    ensures c == b
  {
  }

  // ----- Decoding inverts coding -----

  lemma {:induction false} McuInverts(plan: Plan, ts: Tables, data: seq<Byte>, mcu: Mcu, s: State, n: nat)
    requires ValidPlan(plan, ts) && ValidMcu(plan, mcu) && |s.last| == plan.comps && n <= |mcu|
    requires McuInRange(plan, mcu, s.last) && AllCoded(ts, McuTokens(plan, mcu, s.last, n))
    requires Carries(data, s.at, FieldsOf(ts, McuTokens(plan, mcu, s.last, n)))
    ensures StateAfter(plan, ts, data, ZeroMcu(|mcu|), s, n) ==
      State(s.at + Length(FieldsOf(ts, McuTokens(plan, mcu, s.last, n))), LastAfter(plan, mcu, s.last, n))
    ensures forall i :: 0 <= i < n ==> BlockAfter(plan, ts, data, ZeroMcu(|mcu|), s, i) == mcu[i]
  {
    hide StateAfter, BlockAfter, Carries, Length, FieldsOf, Coded, BlockTokens, InRange, DecodeBlock, DcDifference,
         Agree, ValidOrder, ToCoef;
    var zero := ZeroMcu(|mcu|);
    if n == 0 {
      StateStarts(plan, ts, data, zero, s);
      NoFields(ts);
    } else {
      var slot, last := plan.layout[n - 1], LastAfter(plan, mcu, s.last, n - 1);
      assert BlockInRange(plan, mcu, s.last, n - 1);
      var front := McuTokens(plan, mcu, s.last, n - 1);
      var more := BlockTokens(plan.order, slot, mcu[n - 1], last[slot.ci]);
      SplitFields(ts, data, s.at, front, more);
      McuInverts(plan, ts, data, mcu, s, n - 1);
      BlockInverts(plan.order, slot, ts, data, mcu[n - 1], last[slot.ci], s.at + Length(FieldsOf(ts, front)));
      StateSteps(plan, ts, data, zero, s, n - 1);
    }
  }

  lemma SplitFields(ts: Tables, data: seq<Byte>, at: nat, a: seq<Token>, b: seq<Token>)
    requires AllCoded(ts, a + b) && Carries(data, at, FieldsOf(ts, a + b))
    ensures AllCoded(ts, a) && AllCoded(ts, b)
    ensures Carries(data, at, FieldsOf(ts, a)) && Carries(data, at + Length(FieldsOf(ts, a)), FieldsOf(ts, b))
    ensures Length(FieldsOf(ts, a + b)) == Length(FieldsOf(ts, a)) + Length(FieldsOf(ts, b))
  {
    hide Carries, Length, FieldsOf, AllCoded;
    CodedParts(ts, a, b);
    FieldsOfAppend(ts, a, b);
    CarriesAppend(data, at, FieldsOf(ts, a), FieldsOf(ts, b));
    LengthAppend(FieldsOf(ts, a), FieldsOf(ts, b));
  }

  lemma CodedParts(ts: Tables, a: seq<Token>, b: seq<Token>)
    requires AllCoded(ts, a + b)
    ensures AllCoded(ts, a) && AllCoded(ts, b)
  {
    hide Coded;
    forall i | 0 <= i < |a|
      ensures Coded(ts, a[i])
    {
      assert (a + b)[i] == a[i];
    }
    forall i | 0 <= i < |b|
      ensures Coded(ts, b[i])
    {
      assert (a + b)[|a| + i] == b[i];
    }
  }

  // The state before MCU n when every MCU is decoded into zeros.
  ghost function ScanState(plan: Plan, ts: Tables, data: seq<Byte>, n: nat): (s: State)
    requires ValidPlan(plan, ts)
    ensures |s.last| == plan.comps
  {
    if n == 0 then State(0, Zeros(plan.comps))
    else StateAfterMcu(plan, ts, data, ZeroMcu(|plan.layout|), ScanState(plan, ts, data, n - 1))
  }

  // Main result for a segment: every MCU of it is read back.
  lemma {:induction false} SpanInverts(plan: Plan, ts: Tables, data: seq<Byte>, mcus: seq<Mcu>, interval: nat,
                                       lo: nat, n: nat)
    requires ValidPlan(plan, ts) && ValidMcus(plan, mcus) && lo <= n <= |mcus| && ScanInRange(plan, mcus, interval, n)
    requires StartsSegment(lo, interval) && forall i :: lo < i < n ==> !StartsSegment(i, interval)
    requires AllCoded(ts, SpanTokens(plan, mcus, interval, lo, n))
    requires Carrier(data, FieldsOf(ts, SpanTokens(plan, mcus, interval, lo, n)))
    ensures ScanState(plan, ts, data, n - lo) ==
      State(Length(FieldsOf(ts, SpanTokens(plan, mcus, interval, lo, n))),
            if n == lo then Zeros(plan.comps) else ScanLast(plan, mcus, interval, n))
    ensures forall i :: lo <= i < n ==>
      McuAfter(plan, ts, data, ZeroMcu(|plan.layout|), ScanState(plan, ts, data, i - lo)) == mcus[i]
  {
    hide StateAfterMcu, McuAfter, Carries, Length, FieldsOf, AllCoded, McuTokens, McuInRange, LastAfter, GoodTables,
         ValidOrder, StartsSegment;
    if n == lo {
      NoFields(ts);
    } else {
      SpanParts(plan, ts, data, mcus, interval, lo, n);
      SpanInverts(plan, ts, data, mcus, interval, lo, n - 1);
      NextMcuInverts(plan, ts, data, mcus[n - 1], ScanState(plan, ts, data, n - 1 - lo));
    }
  }

  lemma SpanParts(plan: Plan, ts: Tables, data: seq<Byte>, mcus: seq<Mcu>, interval: nat, lo: nat, n: nat)
    requires ValidPlan(plan, ts) && ValidMcus(plan, mcus) && lo < n <= |mcus| && ScanInRange(plan, mcus, interval, n)
    requires AllCoded(ts, SpanTokens(plan, mcus, interval, lo, n))
    requires Carrier(data, FieldsOf(ts, SpanTokens(plan, mcus, interval, lo, n)))
    ensures var front, last := SpanTokens(plan, mcus, interval, lo, n - 1), Before(plan, mcus, interval, n - 1);
      && AllCoded(ts, front) && Carrier(data, FieldsOf(ts, front))
      && McuInRange(plan, mcus[n - 1], last)
      && AllCoded(ts, McuTokens(plan, mcus[n - 1], last, |plan.layout|))
      && Carries(data, Length(FieldsOf(ts, front)), FieldsOf(ts, McuTokens(plan, mcus[n - 1], last, |plan.layout|)))
      && Length(FieldsOf(ts, SpanTokens(plan, mcus, interval, lo, n))) ==
         Length(FieldsOf(ts, front)) + Length(FieldsOf(ts, McuTokens(plan, mcus[n - 1], last, |plan.layout|)))
  {
    hide Carries, Length, FieldsOf, AllCoded, McuTokens, LastAfter, GoodTables, ValidOrder, BlockInRange;
    var front, last := SpanTokens(plan, mcus, interval, lo, n - 1), Before(plan, mcus, interval, n - 1);
    assert McuInRange(plan, mcus[n - 1], last);
    SplitFields(ts, data, 0, front, McuTokens(plan, mcus[n - 1], last, |plan.layout|));
  }

  lemma NextMcuInverts(plan: Plan, ts: Tables, data: seq<Byte>, mcu: Mcu, s: State)
    requires ValidPlan(plan, ts) && ValidMcu(plan, mcu) && |s.last| == plan.comps
    requires McuInRange(plan, mcu, s.last) && s.at <= 8 * |data|
    requires AllCoded(ts, McuTokens(plan, mcu, s.last, |plan.layout|))
    requires Carries(data, s.at, FieldsOf(ts, McuTokens(plan, mcu, s.last, |plan.layout|)))
    ensures McuAfter(plan, ts, data, ZeroMcu(|plan.layout|), s) == mcu
    ensures StateAfterMcu(plan, ts, data, ZeroMcu(|plan.layout|), s) ==
      State(s.at + Length(FieldsOf(ts, McuTokens(plan, mcu, s.last, |plan.layout|))),
            LastAfter(plan, mcu, s.last, |plan.layout|))
  {
    hide StateAfter, BlockAfter, Carries, Length, FieldsOf, AllCoded, McuTokens, LastAfter, GoodTables, ValidOrder;
    McuInverts(plan, ts, data, mcu, s, |plan.layout|);
  }
}
