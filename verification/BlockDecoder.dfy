// The sequential Huffman decoder: MCUs of full-size blocks, decoded while the source may
// suspend at any bit and at every restart marker.

module BlockDecoder {
  import opened CodeBits
  import opened Coefficients
  import opened HuffmanTables
  import opened HuffmanFields
  import opened Segment
  import opened RestartMarkers
  import opened BitReader
  import opened BlockCoding
  import opened BlockScan

  // A table with which the decoder may be called.
  ghost predicate GoodDecoders(ts: Tables) {
    && (forall i :: 0 <= i < |ts.dcDec| ==> GoodTable(ts.dcDec[i]) && SmallSymbols(ts.dcDec[i]))
    && (forall i :: 0 <= i < |ts.acDec| ==> GoodTable(ts.acDec[i]))
  }

  // The check on DC tables: no more than 15 extra bits.
  ghost predicate SmallSymbols(t: HuffTable) {
    CountsLegal(t.bits, t.huffval) && SymbolsBelow(ListedSymbols(t.bits, t.huffval), 15)
  }

  lemma DcSymbolIsSmall(t: HuffTable, data: seq<Byte>, at: nat)
    requires SmallSymbols(t)
    ensures SymbolAt(t, data, at).symbol <= 15
  {
    hide RuledOut, Window, CodesFit, DecodeSymbol;
    StartDecoding(t.bits, data, at);
    DecodedIsListed(t, data, at, 1);
  }

  lemma {:induction false} DecodedIsListed(t: HuffTable, data: seq<Byte>, at: nat, l: nat)
    requires SmallSymbols(t) && RuledOut(t.bits, data, at, l)
    ensures DecodeSymbol(t.bits, t.huffval, data, at, l).symbol <= 15
    decreases 17 - l
  {
    hide Window, CodesFit, Total, NextCode;
    if l < 17 {
      var w := Window(data, at, l);
      if w < NextCode(t.bits, l) {
        SymbolInRange(t.bits, data, at, l);
        TotalMonotone(t.bits, l, 16);
        assert ListedSymbols(t.bits, t.huffval)[SymbolNumber(t.bits, w, l)] <= 15;
      } else {
        DecodedIsListed(t, data, at, l + 1);
      }
    }
  }

  lemma PartialWrite(order: seq<nat>, t: HuffTable, data: seq<Byte>, c: seq<int>, b: seq<int>, k: nat, pos: nat,
                     at: nat)
    requires ValidOrder(order) && |c| == |b| == BLOCK && k < BLOCK + 16 && pos == order[k]
    requires forall p :: 0 <= p < BLOCK && p != pos ==> c[p] == b[p]
    ensures Partial(c, b, DecodeAc(order, t, data, b, k + 1, at).b)
  {
    hide DecodeAc;
    DecodeAcFrame(order, t, data, b, k + 1, at, pos);
  }

  lemma PartialTransitive(a: seq<int>, b: seq<int>, c: seq<int>, f: seq<int>)
    requires Partial(a, b, f) && Partial(b, c, f)
    ensures Partial(a, c, f)
  {
  }

  lemma PartialSame(b: seq<int>, f: seq<int>)
    requires |b| == |f| == BLOCK
    ensures Partial(b, b, f)
  {
  }

  // The first i blocks are decoded, the others are as before.
  ghost predicate Progress(plan: Plan, ts: Tables, data: seq<Byte>, cs: Mcu, s: State, now: Mcu, i: nat)
    requires ValidPlan(plan, ts) && |cs| == |plan.layout| && |s.last| == plan.comps
    requires forall j :: 0 <= j < |cs| ==> |cs[j]| == BLOCK
  {
    && |now| == |cs|
    && (forall j :: 0 <= j < i && j < |cs| ==> now[j] == BlockAfter(plan, ts, data, cs, s, j))
    && (forall j :: i <= j < |cs| ==> now[j] == cs[j])
  }

  lemma NothingDone(plan: Plan, ts: Tables, data: seq<Byte>, cs: Mcu, s: State)
    requires ValidPlan(plan, ts) && |cs| == |plan.layout| && |s.last| == plan.comps
    requires forall j :: 0 <= j < |cs| ==> |cs[j]| == BLOCK
    ensures Progress(plan, ts, data, cs, s, cs, 0) && StateAfter(plan, ts, data, cs, s, 0) == s
  {
  }

  lemma NoData(plan: Plan, ts: Tables, data: seq<Byte>, orig: Mcu, cs: Mcu, s: State)
    requires ValidPlan(plan, ts) && |orig| == |cs| == |plan.layout| && |s.last| == plan.comps
    requires forall j :: 0 <= j < |cs| ==> |orig[j]| == |cs[j]| == BLOCK
    requires s.at > 8 * |data| && McuAfter(plan, ts, data, cs, s) == McuAfter(plan, ts, data, orig, s)
    ensures cs == McuAfter(plan, ts, data, orig, s) && s == StateAfterMcu(plan, ts, data, orig, s)
  {
  }

  lemma SlotInPlan(plan: Plan, ts: Tables, i: nat)
    requires ValidPlan(plan, ts) && i < |plan.layout|
    ensures var slot := plan.layout[i];
      slot.ci < plan.comps && slot.dc < |ts.dcDec| && slot.ac < |ts.acDec| && ValidOrder(plan.order)
  {
    assert ValidSlot(plan.layout[i], plan.comps, ts);
  }

  lemma ProgressAt(plan: Plan, ts: Tables, data: seq<Byte>, cs: Mcu, s: State, now: Mcu, i: nat)
    requires ValidPlan(plan, ts) && |cs| == |plan.layout| && |s.last| == plan.comps && i < |cs|
    requires forall j :: 0 <= j < |cs| ==> |cs[j]| == BLOCK
    requires Progress(plan, ts, data, cs, s, now, i)
    ensures |now| == |cs| && now[i] == cs[i]
  {
  }

  // Decoding block i, or part of it.
  lemma BlockStep(plan: Plan, ts: Tables, data: seq<Byte>, cs: Mcu, s: State, before: Mcu, b: seq<int>, i: nat,
                  here: State)
    requires ValidPlan(plan, ts) && |cs| == |plan.layout| && |s.last| == plan.comps && i < |cs|
    requires forall j :: 0 <= j < |cs| ==> |cs[j]| == BLOCK
    requires Progress(plan, ts, data, cs, s, before, i) && here == StateAfter(plan, ts, data, cs, s, i)
    ensures var slot := plan.layout[i];
      var r := DecodeBlock(plan.order, ts.dcDec[slot.dc], ts.acDec[slot.ac], data, cs[i], here.last[slot.ci], here.at);
      && StateAfter(plan, ts, data, cs, s, i + 1) ==
         State(r.at, here.last[slot.ci := DcDifference(ts.dcDec[slot.dc], data, here.at) + here.last[slot.ci]])
      && BlockAfter(plan, ts, data, cs, s, i) == r.b
      && (b == r.b ==> Progress(plan, ts, data, cs, s, before[i := b], i + 1))
  {
    hide StateAfter, BlockAfter, DecodeBlock, DcDifference, Agree, ValidOrder;
    StateSteps(plan, ts, data, cs, s, i);
  }

  lemma StillPartial(plan: Plan, ts: Tables, data: seq<Byte>, orig: Mcu, cs: Mcu, s: State,
                     before: Mcu, now: Mcu, i: nat)
    requires ValidPlan(plan, ts) && |orig| == |cs| == |now| == |plan.layout| && |s.last| == plan.comps && i < |cs|
    requires forall j :: 0 <= j < |cs| ==> |orig[j]| == |cs[j]| == BLOCK
    requires s.at <= 8 * |data| && McuAfter(plan, ts, data, cs, s) == McuAfter(plan, ts, data, orig, s)
    requires PartialMcu(orig, cs, McuAfter(plan, ts, data, orig, s))
    requires Progress(plan, ts, data, cs, s, before, i) && now == before[i := now[i]]
    requires Partial(cs[i], now[i], BlockAfter(plan, ts, data, cs, s, i))
    ensures PartialMcu(orig, now, McuAfter(plan, ts, data, orig, s))
  {
    hide BlockAfter, ValidPlan;
    var fs := McuAfter(plan, ts, data, orig, s);
    forall j | 0 <= j < |cs|
      ensures Partial(orig[j], now[j], fs[j])
    {
      assert fs[j] == BlockAfter(plan, ts, data, cs, s, j);
      assert Partial(orig[j], cs[j], fs[j]);
    }
  }

  lemma AllDone(plan: Plan, ts: Tables, data: seq<Byte>, cs: Mcu, s: State, now: Mcu)
    requires ValidPlan(plan, ts) && |cs| == |plan.layout| && |s.last| == plan.comps && s.at <= 8 * |data|
    requires forall j :: 0 <= j < |cs| ==> |cs[j]| == BLOCK
    requires Progress(plan, ts, data, cs, s, now, |cs|)
    ensures now == McuAfter(plan, ts, data, cs, s)
    ensures StateAfterMcu(plan, ts, data, cs, s) == StateAfter(plan, ts, data, cs, s, |cs|)
  {
    hide BlockAfter, StateAfter, ValidPlan;
  }

  // ----- Restarts -----

  // Behind a restart marker all predictions are zero.
  ghost function Restarted(plan: Plan, input: seq<Byte>, interval: nat, s: Situation<State>): (r: Situation<State>)
    requires s.end > 0
    ensures r.end > 0
  {
    var l := LandingAt(input, s.end, s.num);
    var stretch := StretchAt(input, l);
    var start := StartOfSegment(l.marker != 0, s.state.at > 8 * |s.data|);
    Situation(stretch.data, stretch.end, (s.num + 1) % 8, interval, State(start, Zeros(plan.comps)))
  }

  // Where the next MCU is decoded.
  ghost function Ready(plan: Plan, input: seq<Byte>, interval: nat, s: Situation<State>): (r: Situation<State>)
    requires s.end > 0
    ensures r.end > 0 && (interval > 0 ==> r.togo > 0)
    ensures |s.state.last| == plan.comps ==> |r.state.last| == plan.comps
  {
    if interval > 0 && s.togo == 0 then Restarted(plan, input, interval, s) else s
  }

  ghost predicate ValidSituation(plan: Plan, ts: Tables, s: Situation<State>) {
    ValidPlan(plan, ts) && s.end > 0 && |s.state.last| == plan.comps
  }

  ghost predicate Sized(plan: Plan, bs: Mcu) {
    |bs| == |plan.layout| && forall i :: 0 <= i < |bs| ==> |bs[i]| == BLOCK
  }

  // The next MCU when its blocks hold bs, and the situation behind it.
  ghost function NextMcu(plan: Plan, ts: Tables, input: seq<Byte>, interval: nat, s: Situation<State>,
                         bs: Mcu): (r: Mcu)
    requires ValidSituation(plan, ts, s) && Sized(plan, bs)
    ensures Sized(plan, r)
  {
    var r := Ready(plan, input, interval, s);
    McuAfter(plan, ts, r.data, bs, r.state)
  }

  ghost function NextSituation(plan: Plan, ts: Tables, input: seq<Byte>, interval: nat, s: Situation<State>, bs: Mcu)
    : (r: Situation<State>)
    requires ValidSituation(plan, ts, s) && Sized(plan, bs)
    ensures ValidSituation(plan, ts, r)
  {
    var r := Ready(plan, input, interval, s);
    r.(togo := if interval > 0 then r.togo - 1 else r.togo, state := StateAfterMcu(plan, ts, r.data, bs, r.state))
  }

  class SequentialDecoder {
    const reader: Reader
    const plan: Plan
    const ts: Tables
    const interval: nat          // MCUs between restart markers, 0 for none
    var saved: BitState
    var lastDc: seq<int>
    var restartsToGo: nat
    ghost var savedAt: nat

    ghost predicate Steady()
      reads this`lastDc, this`savedAt, this`saved, reader`nextRestartNum, reader`insufficientData, reader`code
    {
      && ValidPlan(plan, ts) && GoodDecoders(ts) && |lastDc| == plan.comps
      && reader.nextRestartNum < 8 && 0 <= saved.getBuffer < WORD
      && reader.insufficientData == (savedAt > 8 * |reader.code|)
    }

    // A restart marker has to be dealt with before the next MCU.
    predicate Due()
      reads this`restartsToGo
    {
      interval != 0 && restartsToGo == 0
    }

    // Inside a segment.
    ghost predicate Resuming()
      reads this`lastDc, this`savedAt, this`saved, reader
    {
      Steady() && reader.Resumable(saved, savedAt)
    }

    // Between MCUs.
    ghost predicate Valid()
      reads this, reader
    {
      Steady() && if Due() then reader.Seeking(saved.pos) else reader.Resumable(saved, savedAt)
    }

    ghost function Inside(): State
      reads this`savedAt, this`lastDc
    {
      State(savedAt, lastDc)
    }

    ghost function Here(): Situation<State>
      reads this`savedAt, this`lastDc, this`restartsToGo, reader
    {
      Situation(reader.code, reader.end, reader.nextRestartNum, restartsToGo, Inside())
    }

    ghost predicate Reading()
      reads this, reader
    {
      reader.Valid() && reader.insufficientData == (reader.at > 8 * |reader.code|)
    }

    constructor (r: Reader, p: Plan, t: Tables, restartInterval: nat)
      requires r.Valid() && !r.insufficientData && r.at <= 8 * |r.code| && r.nextRestartNum < 8
      requires ValidPlan(p, t) && GoodDecoders(t)
      ensures Valid() && reader == r && plan == p && ts == t && interval == restartInterval
      ensures Here() == Situation(r.code, r.end, r.nextRestartNum, restartInterval, State(r.at, Zeros(p.comps)))
    {
      reader, plan, ts, interval := r, p, t, restartInterval;
      saved, lastDc, savedAt := BitState(r.getBuffer, r.bitsLeft, r.pos), Zeros(p.comps), r.at;
      restartsToGo := restartInterval;
    }

    // The DC difference of a block.
    method ReadDifference(t: HuffTable) returns (ok: bool, diff: int)
      requires Reading() && GoodTable(t) && SmallSymbols(t)
      modifies reader`unreadMarker, reader`insufficientData, reader`getBuffer, reader`bitsLeft, reader`pos, reader`at
      ensures ok ==> Reading() && diff == DcDifference(t, reader.code, old(reader.at))
      ensures ok ==> reader.at == BehindDc(t, reader.code, old(reader.at)) >= old(reader.at)
      ensures !ok ==> reader.unreadMarker == old(reader.unreadMarker) == 0 && !reader.Complete()
      ensures !ok ==> reader.insufficientData == old(reader.insufficientData) == false
      ensures old(reader.unreadMarker) != 0 ==> reader.unreadMarker == old(reader.unreadMarker)
    {
      hide Reads, Pow2, SymbolAt, GoodTable, SmallSymbols, Window, Extend;
      DcSymbolIsSmall(t, reader.code, reader.at);
      var s;
      ok, s := reader.HuffDecode(t);
      if !ok {
        return false, 0;
      }
      diff := 0;
      if s != 0 {
        var r;
        ok, r := reader.ReadBits(s);
        if !ok {
          return;
        }
        diff := Extend(r, s);
      }
    }

    // The AC coefficients of a block.
    method ReadAc(block: array<int>, t: HuffTable) returns (ok: bool)
      requires Reading() && GoodTable(t) && ValidOrder(plan.order) && block.Length == BLOCK
      modifies block
      modifies reader`unreadMarker, reader`insufficientData, reader`getBuffer, reader`bitsLeft, reader`pos, reader`at
      ensures ok ==> Reading()
      ensures ok ==>
        Scanned(block[..], reader.at) == DecodeAc(plan.order, t, reader.code, old(block[..]), 1, old(reader.at))
      ensures !ok ==>
        Partial(old(block[..]), block[..], DecodeAc(plan.order, t, reader.code, old(block[..]), 1, old(reader.at)).b)
      ensures !ok ==> reader.unreadMarker == old(reader.unreadMarker) == 0 && !reader.Complete()
      ensures !ok ==> reader.insufficientData == old(reader.insufficientData) == false
      ensures old(reader.unreadMarker) != 0 ==> reader.unreadMarker == old(reader.unreadMarker)
    {
      hide Reads, Pow2, SymbolAt, GoodTable, Window, Extend, DecodeAc, Partial, ValidOrder;
      Entries(plan.order);
      ghost var goal := DecodeAc(plan.order, t, reader.code, block[..], 1, reader.at);
      PartialSame(block[..], goal.b);
      var k := 1;
      while k < BLOCK
        invariant 1 <= k <= BLOCK + 15 && Reading() && reader.at >= old(reader.at)
        invariant DecodeAc(plan.order, t, reader.code, block[..], k, reader.at) == goal
        invariant Partial(old(block[..]), block[..], goal.b)
        invariant old(reader.unreadMarker) != 0 ==> reader.unreadMarker == old(reader.unreadMarker)
        decreases BLOCK + 16 - k
      {
        ghost var before := block[..];
        ReadSymbol(plan.order, t, reader.code, before, k, reader.at);
        var sym;
        ok, sym := reader.HuffDecode(t);
        if !ok {
          return;
        }
        var r, s := sym / 16, sym % 16;
        if s != 0 {
          k := k + r;
          var v;
          ok, v := reader.ReadBits(s);
          if !ok {
            return;
          }
          block[plan.order[k]] := Extend(v, s);
          PartialWrite(plan.order, t, reader.code, before, block[..], k, plan.order[k], reader.at);
          PartialTransitive(old(block[..]), before, block[..], goal.b);
          k := k + 1;
        } else if r == 15 {
          k := k + 16;
        } else {
          return true;
        }
      }
      DecodeAcDone(plan.order, t, reader.code, block[..], k, reader.at);
      ok := true;
    }

    // One block, after which the DC prediction of its component is dc.
    method ReadBlock(block: array<int>, slot: Slot, prediction: int) returns (ok: bool, dc: int)
      requires Reading() && GoodDecoders(ts) && ValidOrder(plan.order) && block.Length == BLOCK
      requires slot.dc < |ts.dcDec| && slot.ac < |ts.acDec|
      modifies block
      modifies reader`unreadMarker, reader`insufficientData, reader`getBuffer, reader`bitsLeft, reader`pos, reader`at
      ensures ok ==> Reading()
      ensures ok ==> Scanned(block[..], reader.at) == BlockGoal(slot, old(block[..]), prediction, old(reader.at))
      ensures ok ==> dc == DcDifference(ts.dcDec[slot.dc], reader.code, old(reader.at)) + prediction
      ensures ok ==> reader.at >= old(reader.at)
      ensures !ok ==> Partial(old(block[..]), block[..], BlockGoal(slot, old(block[..]), prediction, old(reader.at)).b)
      ensures !ok ==> reader.unreadMarker == old(reader.unreadMarker) == 0 && !reader.Complete()
      ensures !ok ==> reader.insufficientData == old(reader.insufficientData) == false
      ensures old(reader.unreadMarker) != 0 ==> reader.unreadMarker == old(reader.unreadMarker)
    {
      hide Reads, GoodTable, DecodeAc, Partial, ValidOrder, DcDifference, BehindDc, SmallSymbols, ToCoef;
      ghost var c, goal := block[..], BlockGoal(slot, block[..], prediction, reader.at);
      var diff;
      ok, diff := ReadDifference(ts.dcDec[slot.dc]);
      if !ok {
        PartialSame(block[..], goal.b);
        return false, 0;
      }
      dc := diff + prediction;
      block[0] := ToCoef(dc);
      ghost var started := block[..];
      DcStays(plan.order, ts.acDec[slot.ac], reader.code, c, started, reader.at);
      ok := ReadAc(block, ts.acDec[slot.ac]);
      if !ok {
        PartialTransitive(c, started, block[..], goal.b);
      }
    }

    // Block i of an MCU that holds cs, decoded from state s on.
    method ReadNext(blocks: seq<array<int>>, i: nat, last: seq<int>, ghost cs: Mcu, ghost s: State)
      returns (ok: bool, next: seq<int>)
      requires Reading() && ValidPlan(plan, ts) && GoodDecoders(ts)
      requires |blocks| == |cs| == |plan.layout| && i < |blocks| && |s.last| == |last| == plan.comps
      requires forall j :: 0 <= j < |blocks| ==> blocks[j].Length == |cs[j]| == BLOCK
      requires forall j, k :: 0 <= j < k < |blocks| ==> blocks[j] != blocks[k]
      requires State(reader.at, last) == StateAfter(plan, ts, reader.code, cs, s, i)
      requires Progress(plan, ts, reader.code, cs, s, Contents(blocks), i)
      modifies blocks
      modifies reader`unreadMarker, reader`insufficientData, reader`getBuffer, reader`bitsLeft, reader`pos, reader`at
      ensures ok ==> Reading() && reader.at >= old(reader.at) && |next| == plan.comps
      ensures ok ==> State(reader.at, next) == StateAfter(plan, ts, reader.code, cs, s, i + 1)
      ensures ok ==> Progress(plan, ts, reader.code, cs, s, Contents(blocks), i + 1)
      ensures !ok ==> Contents(blocks) == old(Contents(blocks))[i := blocks[i][..]]
      ensures !ok ==> Partial(cs[i], blocks[i][..], BlockAfter(plan, ts, reader.code, cs, s, i))
      ensures !ok ==> reader.unreadMarker == old(reader.unreadMarker) == 0 && !reader.Complete()
      ensures !ok ==> reader.insufficientData == old(reader.insufficientData) == false
      ensures old(reader.unreadMarker) != 0 ==> reader.unreadMarker == old(reader.unreadMarker)
    {
      hide Reads, GoodTable, StateAfter, BlockAfter, DecodeBlock, ValidPlan, Partial, Progress, GoodDecoders,
           ValidOrder, Contents, DcDifference;
      SlotInPlan(plan, ts, i);
      var slot := plan.layout[i];
      ghost var before, here := Contents(blocks), State(reader.at, last);
      ProgressAt(plan, ts, reader.code, cs, s, before, i);
      var dc;
      ok, dc := ReadBlock(blocks[i], slot, last[slot.ci]);
      assert Contents(blocks) == before[i := blocks[i][..]];
      BlockStep(plan, ts, reader.code, cs, s, before, blocks[i][..], i, here);
      next := last[slot.ci := dc];
    }

    // decode_mcu inside a segment. The blocks may have been partly filled by attempts that
    // had to suspend.
    method DecodeBlocks(blocks: seq<array<int>>, ghost orig: Mcu) returns (ok: bool)
      requires Resuming() && |blocks| == |orig| == |plan.layout|
      requires forall i :: 0 <= i < |blocks| ==> blocks[i].Length == |orig[i]| == BLOCK
      requires forall i, j :: 0 <= i < j < |blocks| ==> blocks[i] != blocks[j]
      requires PartialMcu(orig, Contents(blocks), McuAfter(plan, ts, reader.code, orig, Inside()))
      modifies blocks, this`saved, this`lastDc, this`savedAt
      modifies reader`unreadMarker, reader`insufficientData, reader`getBuffer, reader`bitsLeft, reader`pos, reader`at
      ensures Resuming()
      ensures ok ==> Contents(blocks) == old(McuAfter(plan, ts, reader.code, orig, Inside()))
      ensures ok ==> Inside() == old(StateAfterMcu(plan, ts, reader.code, orig, Inside()))
      ensures !ok ==> Inside() == old(Inside()) && !reader.Complete()
      ensures !ok ==> PartialMcu(orig, Contents(blocks), McuAfter(plan, ts, reader.code, orig, Inside()))
    {
      hide Reads, GoodTable, StateAfter, BlockAfter, DecodeNext, DecodeBlock, McuAfter, StateAfterMcu, ValidPlan,
           PartialMcu, Partial, Progress, GoodDecoders, Behind, ValidOrder, Contents, AfterMarker, InputAt;
      ghost var cs, s, data := Contents(blocks), Inside(), reader.code;
      McuTwice(plan, ts, data, orig, cs, s);
      NothingDone(plan, ts, data, cs, s);
      if reader.insufficientData {
        NoData(plan, ts, data, orig, cs, s);
        return true;
      }
      reader.Load(saved, savedAt);
      var last := lastDc;
      var i := 0;
      while i < |blocks|
        invariant i <= |blocks| && Reading() && reader.at >= savedAt && |last| == plan.comps
        invariant State(reader.at, last) == StateAfter(plan, ts, data, cs, s, i)
        invariant old(reader.unreadMarker) != 0 ==> reader.unreadMarker == old(reader.unreadMarker)
        invariant Inside() == s && saved == old(saved)
        invariant Progress(plan, ts, data, cs, s, Contents(blocks), i)
      {
        ghost var before := Contents(blocks);
        ok, last := ReadNext(blocks, i, last, cs, s);
        if !ok {
          StillPartial(plan, ts, data, orig, cs, s, before, Contents(blocks), i);
          return;
        }
        i := i + 1;
      }
      AllDone(plan, ts, data, cs, s, Contents(blocks));
      saved, lastDc, savedAt := BitState(reader.getBuffer, reader.bitsLeft, reader.pos), last, reader.at;
      BufferRange(reader);
      ok := true;
    }

    // process_restart. Suspending in the middle loses nothing.
    method ProcessRestart() returns (ok: bool)
      requires Valid() && Due()
      modifies this`saved, this`lastDc, this`savedAt, this`restartsToGo
      modifies reader`unreadMarker, reader`insufficientData, reader`nextRestartNum, reader`code, reader`end
      ensures ok ==> Resuming() && Here() == old(Restarted(plan, reader.input, interval, Here()))
      ensures !ok ==> Valid() && Here() == old(Here())
      ensures !ok ==> !reader.HasArrived(LandingAt(reader.input, reader.end, reader.nextRestartNum).pos)
    {
      hide ValidPlan, GoodDecoders, Resync, Reads, AfterMarker, InputAt, Unstuff;
      var t;
      ghost var p;
      ok, t, p := reader.ProcessRestart(saved);
      saved := t;
      if !ok {
        return;
      }
      BufferOf(reader, saved, p);
      lastDc := Zeros(plan.comps);
      savedAt := p;
      restartsToGo := interval;
    }

    // decode_mcu. How often it had to suspend before has no influence on the MCU.
    method DecodeMcu(blocks: seq<array<int>>, ghost orig: Mcu) returns (ok: bool)
      requires Valid() && |blocks| == |orig| && Sized(plan, orig)
      requires forall i :: 0 <= i < |blocks| ==> blocks[i].Length == BLOCK
      requires forall i, j :: 0 <= i < j < |blocks| ==> blocks[i] != blocks[j]
      requires ValidSituation(plan, ts, Here())
      requires PartialMcu(orig, Contents(blocks), NextMcu(plan, ts, reader.input, interval, Here(), orig))
      modifies blocks, this`saved, this`lastDc, this`savedAt, this`restartsToGo
      modifies reader`unreadMarker, reader`insufficientData, reader`getBuffer, reader`bitsLeft, reader`pos, reader`at
      modifies reader`nextRestartNum, reader`code, reader`end
      ensures Valid() && ValidSituation(plan, ts, Here())
      ensures ok ==> Contents(blocks) == old(NextMcu(plan, ts, reader.input, interval, Here(), orig))
      ensures ok ==> Here() == old(NextSituation(plan, ts, reader.input, interval, Here(), orig))
      ensures !ok ==> Ready(plan, reader.input, interval, Here()) == old(Ready(plan, reader.input, interval, Here()))
      ensures !ok ==> PartialMcu(orig, Contents(blocks), NextMcu(plan, ts, reader.input, interval, Here(), orig))
      ensures !ok ==> !reader.HasArrived(Ready(plan, reader.input, interval, Here()).end)
    {
      hide ValidPlan, GoodDecoders, Resync, Reads, AfterMarker, InputAt, Unstuff, PartialMcu, Contents, McuAfter,
           StateAfterMcu, LandingAt;
      if interval != 0 && restartsToGo == 0 {
        ok := ProcessRestart();
        if !ok {
          return;
        }
      }
      ok := DecodeBlocks(blocks, orig);
      if ok {
        if interval != 0 {
          restartsToGo := restartsToGo - 1;
        }
        reader.ResumableSeeks(saved, savedAt);
      }
    }

    ghost function BlockGoal(slot: Slot, b: seq<int>, prediction: int, at: nat): (r: Scanned)
      requires ValidOrder(plan.order) && |b| == BLOCK && slot.dc < |ts.dcDec| && slot.ac < |ts.acDec|
      reads this, reader
      ensures |r.b| == BLOCK
    {
      DecodeBlock(plan.order, ts.dcDec[slot.dc], ts.acDec[slot.ac], reader.code, b, prediction, at)
    }
  }

  // The DC coefficient is final once it is written.
  lemma DcStays(order: seq<nat>, t: HuffTable, data: seq<Byte>, c: seq<int>, b: seq<int>, at: nat)
    requires ValidOrder(order) && |c| == |b| == BLOCK && forall p :: 0 < p < BLOCK ==> c[p] == b[p]
    ensures Partial(c, b, DecodeAc(order, t, data, b, 1, at).b)
  {
    hide DecodeAc;
    DecodeAcFrame(order, t, data, b, 1, at, 0);
  }

  lemma DecodeAcDone(order: seq<nat>, t: HuffTable, data: seq<Byte>, b: seq<int>, k: nat, at: nat)
    requires ValidOrder(order) && |b| == BLOCK && k >= BLOCK
    ensures DecodeAc(order, t, data, b, k, at) == Scanned(b, at)
  {
  }
}
