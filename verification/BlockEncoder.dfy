// The sequential Huffman encoder: the output pass, which writes the codes of each block, and
// the statistics pass, which must count exactly the symbols the output pass will need.

module BlockEncoder {
  import opened CodeBits
  import opened Coefficients
  import opened HuffmanTables
  import opened HuffmanFields
  import opened Segment
  import opened RestartSegments
  import opened BitPacker
  import opened BlockCoding
  import opened BlockScan

  // Number of bits needed for a magnitude.
  method CountBits(n: nat) returns (nbits: nat)
    ensures nbits == BitLength(n)
  {
    var temp := n;
    nbits := 0;
    while temp != 0
      invariant nbits + BitLength(temp) == BitLength(n)
    {
      temp := temp / 2;
      nbits := nbits + 1;
    }
  }

  // The block cannot be coded if one of its tokens cannot.
  lemma NotAllCoded(ts: Tables, done: seq<Token>, t: Token, rest: seq<Token>)
    requires !Coded(ts, t)
    ensures !AllCoded(ts, done + ([t] + rest))
  {
    hide Coded;
    assert (done + ([t] + rest))[|done|] == t;
  }

  // ----- What remains to be coded of a block -----

  // Of block b the tokens done are coded; index k is next and r zeros are pending.
  ghost predicate Underway(order: seq<nat>, slot: Slot, b: seq<int>, last: int, done: seq<Token>, k: nat, r: nat)
    requires ValidOrder(order) && |b| == BLOCK && 1 <= k <= BLOCK
  {
    && BitLength(Abs(b[0] - last)) <= MAX_COEF_BITS + 1
    && (forall j :: 1 <= j < k ==> BitLength(Abs(b[order[j]])) <= MAX_COEF_BITS)
    && (InRange(order, b, last) ==> BlockTokens(order, slot, b, last) == done + AcTokens(order, slot.ac, b, k, r))
  }

  lemma BlockStarts(order: seq<nat>, slot: Slot, b: seq<int>, last: int)
    requires ValidOrder(order) && |b| == BLOCK && BitLength(Abs(b[0] - last)) <= MAX_COEF_BITS + 1
    ensures Underway(order, slot, b, last, [DcToken(slot.dc, b[0] - last)], 1, 0)
    ensures Contains(order, slot, b, last, [], DcToken(slot.dc, b[0] - last))
  {
    hide BitLength, AcTokens;
    if InRange(order, b, last) {
      var rest := AcTokens(order, slot.ac, b, 1, 0);
      assert BlockTokens(order, slot, b, last) == [] + ([DcToken(slot.dc, b[0] - last)] + rest);
    }
  }

  lemma PassZero(order: seq<nat>, slot: Slot, b: seq<int>, last: int, done: seq<Token>, k: nat, r: nat)
    requires ValidOrder(order) && |b| == BLOCK && 1 <= k < BLOCK && Underway(order, slot, b, last, done, k, r)
    requires b[order[k]] == 0
    ensures Underway(order, slot, b, last, done, k + 1, r + 1)
  {
    hide BitLength;
    assert BitLength(Abs(0)) == 0 by { ZeroLength(); }
  }

  lemma AcTokensStep(order: seq<nat>, table: nat, b: seq<int>, k: nat, r: nat)
    requires ValidOrder(order) && |b| == BLOCK && 1 <= k < BLOCK && b[order[k]] != 0
    requires forall j :: k <= j < BLOCK ==> BitLength(Abs(b[order[j]])) <= MAX_COEF_BITS
    ensures r > 15 ==> AcTokens(order, table, b, k, r)
                       == [Token(false, table, 0xF0, 0)] + AcTokens(order, table, b, k, r - 16)
    ensures r <= 15 ==> AcTokens(order, table, b, k, r)
                        == [CoefToken(table, r, b[order[k]])] + AcTokens(order, table, b, k + 1, 0)
  {
    hide BitLength, ValidOrder;
    Entries(order);
  }

  // The token for a run of r zeros and a coefficient.
  ghost function CoefToken(table: nat, r: nat, v: int): Token
    requires r <= 15 && BitLength(Abs(v)) <= MAX_COEF_BITS
  {
    Token(false, table, 16 * r + BitLength(Abs(v)), v)
  }

  // Sixteen zeros before a coefficient.
  lemma NextZrl(order: seq<nat>, slot: Slot, b: seq<int>, last: int, done: seq<Token>, k: nat, r: nat)
    requires ValidOrder(order) && |b| == BLOCK && 1 <= k < BLOCK && Underway(order, slot, b, last, done, k, r)
    requires b[order[k]] != 0 && r > 15
    ensures Underway(order, slot, b, last, done + [Token(false, slot.ac, 0xF0, 0)], k, r - 16)
    ensures Contains(order, slot, b, last, done, Token(false, slot.ac, 0xF0, 0))
  {
    hide BitLength, AcTokens, ValidOrder, BlockTokens;
    Entries(order);
    if InRange(order, b, last) {
      var t := Token(false, slot.ac, 0xF0, 0);
      AcTokensStep(order, slot.ac, b, k, r);
      var rest := AcTokens(order, slot.ac, b, k, r - 16);
      assert done + ([t] + rest) == (done + [t]) + rest;
    }
  }

  lemma NextCoef(order: seq<nat>, slot: Slot, b: seq<int>, last: int, done: seq<Token>, k: nat, r: nat)
    requires ValidOrder(order) && |b| == BLOCK && 1 <= k < BLOCK && Underway(order, slot, b, last, done, k, r)
    requires b[order[k]] != 0 && r <= 15 && BitLength(Abs(b[order[k]])) <= MAX_COEF_BITS
    ensures Underway(order, slot, b, last, done + [CoefToken(slot.ac, r, b[order[k]])], k + 1, 0)
    ensures Contains(order, slot, b, last, done, CoefToken(slot.ac, r, b[order[k]]))
  {
    hide BitLength, AcTokens, ValidOrder, BlockTokens, CoefToken;
    Entries(order);
    if InRange(order, b, last) {
      var t := CoefToken(slot.ac, r, b[order[k]]);
      AcTokensStep(order, slot.ac, b, k, r);
      var rest := AcTokens(order, slot.ac, b, k + 1, 0);
      assert done + ([t] + rest) == (done + [t]) + rest;
    }
  }

  // If the block is in range, t follows the tokens done.
  ghost predicate Contains(order: seq<nat>, slot: Slot, b: seq<int>, last: int, done: seq<Token>, t: Token)
    requires ValidOrder(order) && |b| == BLOCK
  {
    InRange(order, b, last) ==> exists rest :: BlockTokens(order, slot, b, last) == done + ([t] + rest)
  }

  lemma OutOfRange(order: seq<nat>, b: seq<int>, last: int, k: nat)
    requires ValidOrder(order) && |b| == BLOCK && 1 <= k < BLOCK && BitLength(Abs(b[order[k]])) > MAX_COEF_BITS
    ensures !InRange(order, b, last)
  {
  }

  // The end of the block, with the end-of-block code if zeros are pending.
  lemma BlockEnds(order: seq<nat>, slot: Slot, b: seq<int>, last: int, done: seq<Token>, r: nat)
    requires ValidOrder(order) && |b| == BLOCK && Underway(order, slot, b, last, done, BLOCK, r)
    ensures InRange(order, b, last)
    ensures r == 0 ==> BlockTokens(order, slot, b, last) == done
    ensures r > 0 ==> BlockTokens(order, slot, b, last) == done + [Token(false, slot.ac, 0, 0)]
    ensures r > 0 ==> Contains(order, slot, b, last, done, Token(false, slot.ac, 0, 0))
  {
    hide BitLength, BlockTokens;
    if r > 0 {
      var t := Token(false, slot.ac, 0, 0);
      assert done + ([t] + []) == done + [t];
    } else {
      assert done + [] == done;
    }
  }

  // ----- The output pass -----

  // The pieces carry the MCUs of a scan.
  ghost predicate AllCarried(plan: Plan, ts: Tables, mcus: seq<Mcu>, interval: nat, ps: seq<Piece>)
    requires ValidSlots(plan) && ValidMcus(plan, mcus)
  {
    forall k :: 0 <= k < |ps| ==> PieceCarries(plan, ts, mcus, interval, ps[k])
  }

  ghost predicate PieceCarries(plan: Plan, ts: Tables, mcus: seq<Mcu>, interval: nat, p: Piece)
    requires ValidSlots(plan) && ValidMcus(plan, mcus)
  {
    && p.lo <= p.hi <= |mcus| && ScanInRange(plan, mcus, interval, p.hi)
    && AllCoded(ts, SpanTokens(plan, mcus, interval, p.lo, p.hi))
    && Carrier(p.data, FieldsOf(ts, SpanTokens(plan, mcus, interval, p.lo, p.hi)))
  }

  lemma AddCarried(plan: Plan, ts: Tables, mcus: seq<Mcu>, interval: nat, ps: seq<Piece>, p: Piece)
    requires ValidSlots(plan) && ValidMcus(plan, mcus) && AllCarried(plan, ts, mcus, interval, ps)
    requires PieceCarries(plan, ts, mcus, interval, p)
    ensures AllCarried(plan, ts, mcus, interval, ps + [p])
  {
    hide PieceCarries, ValidSlots, ValidMcus;
  }

  class SequentialEncoder {
    const writer: BitWriter
    const plan: Plan
    const ts: Tables
    const interval: nat             // MCUs between restart markers, 0 for none
    var lastDc: seq<int>            // DC prediction of each component
    var restartsToGo: nat
    var nextRestartNum: nat
    ghost const start: seq<Byte>    // what was written before the scan
    ghost const mcus: seq<Mcu>      // the scan
    ghost var prior: seq<Byte>      // what was written before the segment
    ghost var tokens: seq<Token>    // everything coded so far in the segment
    ghost var done: nat             // MCUs coded
    ghost var lo: nat               // first MCU of the segment
    ghost var ps: seq<Piece>        // the segments before it

    ghost predicate Writing()
      reads this`lastDc, this`prior, this`tokens, writer
    {
      && writer.Valid() && writer.prior == prior
      && ValidPlan(plan, ts) && |lastDc| == plan.comps
      && AllCoded(ts, tokens) && writer.fields == FieldsOf(ts, tokens)
    }

    ghost function SegmentEndOf(lo: nat): (hi: nat)
      ensures hi <= |mcus|
    {
      if lo <= |mcus| then SegmentEnd(lo, |mcus|, interval) else 0
    }

    // How far the scan has come.
    ghost predicate Placed()
      reads this`restartsToGo, this`nextRestartNum, this`prior, this`done, this`lo, this`ps
    {
      && ValidSlots(plan) && ValidMcus(plan, mcus)
      && lo <= done <= SegmentEndOf(lo) && lo == NextLo(ps) && Cuts(|mcus|, interval, ps)
      && Counting(lo, done, restartsToGo, interval) && nextRestartNum == |ps| % 8
      && prior == start + Joined(ps) && AllCarried(plan, ts, mcus, interval, ps)
      && ScanInRange(plan, mcus, interval, done)
    }

    // Between MCUs.
    ghost predicate Valid()
      reads this, writer
    {
      && Writing() && Placed() && (done == 0 || lo < done)
      && tokens == SpanTokens(plan, mcus, interval, lo, done)
      && lastDc == ScanLast(plan, mcus, interval, done)
    }

    constructor (w: BitWriter, p: Plan, t: Tables, restartInterval: nat, ghost all: seq<Mcu>)
      requires w.Valid() && w.fields == [] && ValidPlan(p, t) && ValidSlots(p) && ValidMcus(p, all)
      ensures Valid() && writer == w && plan == p && ts == t && interval == restartInterval && mcus == all && done == 0
      ensures start == w.prior
    {
      hide ValidSlots, ValidMcus, ValidPlan;
      writer, plan, ts, interval, lastDc := w, p, t, restartInterval, Zeros(p.comps);
      restartsToGo, nextRestartNum := restartInterval, 0;
      start, mcus, prior, tokens, done, lo, ps := w.prior, all, w.prior, [], 0, 0, [];
      NoFields(t);
      ScanStarts(p, all, restartInterval);
      CountingStart(restartInterval);
      assert w.prior + Joined([]) == w.prior;
    }

    // A symbol and the extra bits of a value.
    method EmitToken(c: CDerived, symbol: Byte, value: int, nbits: nat, ghost t: Token) returns (ok: bool)
      requires Writing() && ValidToken(ts, t) && c == Encoder(ts, t)
      requires symbol == t.symbol && value == t.value && nbits == BitLength(Abs(value)) <= 16
      modifies writer, this`tokens
      ensures Writing() && ok == Coded(ts, t)
      ensures ok ==> tokens == old(tokens) + [t]
      ensures !ok ==> tokens == old(tokens)
    {
      hide Pow2, BitLength, FieldsOf, ValidOrder, ExtraBits, HasCode;
      ghost var d := if t.isDC then ts.dcDec[t.table] else ts.acDec[t.table];
      ok := EmitSymbol(writer, c, symbol, d);
      if !ok {
        return;
      }
      if nbits != 0 {
        MaskedBits(value);
        var _ := writer.EmitBits(if value < 0 then value - 1 else value, nbits);
      }
      PushToken(ts, tokens, t);
      tokens := tokens + [t];
    }

    // One more token of a block.
    method EmitNext(c: CDerived, symbol: Byte, value: int, nbits: nat, ghost t: Token, ghost start: seq<Token>,
                    ghost before: seq<Token>, ghost b: seq<int>, ghost last: int, ghost slot: Slot)
      returns (ok: bool)
      requires Writing() && ValidToken(ts, t) && c == Encoder(ts, t) && |b| == BLOCK
      requires symbol == t.symbol && value == t.value && nbits == BitLength(Abs(value)) <= 16
      requires tokens == start + before && AllCoded(ts, before) && Contains(plan.order, slot, b, last, before, t)
      modifies writer, this`tokens
      ensures ok ==> Writing() && tokens == start + (before + [t]) && AllCoded(ts, before + [t])
      ensures !ok ==> !Codable(ts, plan.order, slot, b, last)
    {
      hide BitLength, FieldsOf, ValidOrder, Coded, InRange, BlockTokens, Agree, Contains, ExtraBits;
      ok := EmitToken(c, symbol, value, nbits, t);
      if ok {
        PushToken(ts, before, t);
        assert start + before + [t] == start + (before + [t]);
      } else {
        Missing(plan.order, slot, ts, b, last, before, t);
      }
    }

    // Zero-run codes.
    method EncodeZeros(ghost b: seq<int>, ghost last: int, slot: Slot, ghost k: nat, zeros: nat,
                       ghost start: seq<Token>, ghost before: seq<Token>)
      returns (ok: bool, r: nat, ghost done: seq<Token>)
      requires Writing() && |b| == BLOCK && slot.ac < |ts.acEnc| && 1 <= k < BLOCK && b[plan.order[k]] != 0
      requires Underway(plan.order, slot, b, last, before, k, zeros) && AllCoded(ts, before) && tokens == start + before
      modifies writer, this`tokens
      ensures ok ==> Writing() && AllCoded(ts, done) && Underway(plan.order, slot, b, last, done, k, r) && r <= 15
      ensures ok ==> tokens == start + done
      ensures !ok ==> !Codable(ts, plan.order, slot, b, last)
    {
      hide BitLength, FieldsOf, ValidOrder, AllCoded, Coded, InRange, BlockTokens, AcTokens, Agree, Underway, Contains,
           Codable;
      Entries(plan.order);
      ZeroLength();
      r := zeros;
      done := before;
      while r > 15
        invariant Writing() && tokens == start + done && AllCoded(ts, done)
        invariant Underway(plan.order, slot, b, last, done, k, r)
        decreases r
      {
        NextZrl(plan.order, slot, b, last, done, k, r);
        ghost var t := Token(false, slot.ac, 0xF0, 0);
        ok := EmitNext(ts.acEnc[slot.ac], 0xF0, 0, 0, t, start, done, b, last, slot);
        if !ok {
          return;
        }
        done := done + [t];
        r := r - 16;
      }
      ok := true;
    }

    // A nonzero coefficient with the zeros before it.
    method EncodeCoefficient(b: seq<int>, ghost last: int, slot: Slot, k: nat, zeros: nat, ghost start: seq<Token>,
                             ghost before: seq<Token>)
      returns (ok: bool, ghost done: seq<Token>)
      requires Writing() && |b| == BLOCK && slot.ac < |ts.acEnc| && 1 <= k < BLOCK && b[plan.order[k]] != 0
      requires Underway(plan.order, slot, b, last, before, k, zeros) && AllCoded(ts, before) && tokens == start + before
      modifies writer, this`tokens
      ensures ok ==> Writing() && AllCoded(ts, done) && Underway(plan.order, slot, b, last, done, k + 1, 0)
      ensures ok ==> tokens == start + done
      ensures !ok ==> !Codable(ts, plan.order, slot, b, last)
    {
      hide BitLength, FieldsOf, ValidOrder, AllCoded, Coded, InRange, BlockTokens, AcTokens, Agree, Underway, Contains,
           Codable;
      Entries(plan.order);
      var r;
      ok, r, done := EncodeZeros(b, last, slot, k, zeros, start, before);
      if !ok {
        return;
      }
      var v := b[plan.order[k]];
      var nbits := CountBits(Abs(v));
      if nbits > MAX_COEF_BITS {
        OutOfRange(plan.order, b, last, k);
        NotCodable(ts, plan.order, slot, b, last);
        return false, done;
      }
      NextCoef(plan.order, slot, b, last, done, k, r);
      ghost var t := CoefToken(slot.ac, r, v);
      ok := EmitNext(ts.acEnc[slot.ac], 16 * r + nbits, v, nbits, t, start, done, b, last, slot);
      done := done + [t];
    }

    // encode_one_block. Fails exactly if a coefficient is out of range or a code is missing.
    method EncodeOneBlock(b: seq<int>, last: int, slot: Slot) returns (ok: bool)
      requires Writing() && |b| == BLOCK && slot.dc < |ts.dcEnc| && slot.ac < |ts.acEnc|
      modifies writer, this`tokens
      ensures ok == Codable(ts, plan.order, slot, b, last)
      ensures ok ==> Writing() && tokens == old(tokens) + BlockTokens(plan.order, slot, b, last)
    {
      hide BitLength, FieldsOf, ValidOrder, AllCoded, Coded, InRange, BlockTokens, AcTokens, Agree, Underway, Contains,
           Codable;
      Entries(plan.order);
      ZeroLength();
      NoFields(ts);
      ghost var start := tokens;
      var temp := b[0] - last;
      var nbits := CountBits(Abs(temp));
      if nbits > MAX_COEF_BITS + 1 {
        DcOutOfRange(plan.order, b, last);
        NotCodable(ts, plan.order, slot, b, last);
        return false;
      }
      BlockStarts(plan.order, slot, b, last);
      ghost var done := [DcToken(slot.dc, temp)];
      assert start + [] == start && [] + done == done;
      ok := EmitNext(ts.dcEnc[slot.dc], nbits, temp, nbits, done[0], start, [], b, last, slot);
      if !ok {
        return;
      }
      var r: nat, k: nat := 0, 1;
      while k < BLOCK
        invariant 1 <= k <= BLOCK && Writing() && tokens == start + done && AllCoded(ts, done)
        invariant Underway(plan.order, slot, b, last, done, k, r)
      {
        if b[plan.order[k]] == 0 {
          PassZero(plan.order, slot, b, last, done, k, r);
          r := r + 1;
        } else {
          ok, done := EncodeCoefficient(b, last, slot, k, r, start, done);
          if !ok {
            return;
          }
          r := 0;
        }
        k := k + 1;
      }
      BlockEnds(plan.order, slot, b, last, done, r);
      if r > 0 {
        ghost var t := Token(false, slot.ac, 0, 0);
        ok := EmitNext(ts.acEnc[slot.ac], 0, 0, 0, t, start, done, b, last, slot);
        if !ok {
          return;
        }
        done := done + [t];
      }
      IsCodable(ts, plan.order, slot, b, last);
      ok := true;
    }

    // The blocks of an MCU. Fails exactly if some block cannot be coded.
    method EncodeBlocks(mcu: Mcu) returns (ok: bool)
      requires Writing() && ValidSlots(plan) && ValidMcu(plan, mcu)
      modifies writer, this`tokens, this`lastDc
      ensures ok == McuCodable(ts, plan, mcu, old(lastDc), |mcu|)
      ensures ok ==> Writing() && tokens == old(tokens) + McuTokens(plan, mcu, old(lastDc), |mcu|)
      ensures ok ==> lastDc == LastAfter(plan, mcu, old(lastDc), |mcu|)
    {
      hide FieldsOf, ValidOrder, AllCoded, InRange, BlockTokens, Agree, Codable, LastAfter, McuTokens, McuCodable,
           ValidMcu;
      ghost var before, first := tokens, lastDc;
      NoBlocks(ts, plan, mcu, first);
      assert before + [] == before;
      for i := 0 to |mcu|
        invariant Writing() && McuCodable(ts, plan, mcu, first, i) && lastDc == LastAfter(plan, mcu, first, i)
        invariant tokens == before + McuTokens(plan, mcu, first, i)
      {
        NextBlock(ts, plan, mcu, first, i);
        var slot := plan.layout[i];
        ok := EncodeOneBlock(mcu[i], lastDc[slot.ci], slot);
        if !ok {
          McuPrefix(ts, plan, mcu, first, i, |mcu|);
          return;
        }
        TokensNext(plan, mcu, first, i);
        assert before + McuTokens(plan, mcu, first, i) + BlockTokens(plan.order, slot, mcu[i], lastDc[slot.ci])
          == before + (McuTokens(plan, mcu, first, i) + BlockTokens(plan.order, slot, mcu[i], lastDc[slot.ci]));
        lastDc := lastDc[slot.ci := mcu[i][0]];
      }
      ok := true;
    }

    // The last byte of the segment is filled up, and its data carries every token.
    method CloseSegment()
      requires Writing()
      modifies writer
      ensures writer.output == prior + Stuff(writer.data) && writer.putBuffer == writer.putBits == 0
      ensures AllCoded(ts, tokens) && Carrier(writer.data, FieldsOf(ts, tokens))
    {
      hide FieldsOf, ValidOrder, AllCoded, Agree, Stuff, Carries, Length;
      writer.Flush();
    }

    // emit_restart_s: a marker behind the segment, and predictions start over.
    method EmitRestart()
      requires Valid() && done < |mcus| && interval > 0 && restartsToGo == 0
      modifies this, writer
      ensures Writing() && Placed() && done == old(done) == lo && tokens == []
      ensures restartsToGo == interval && lastDc == Zeros(plan.comps)
    {
      hide FieldsOf, ValidPlan, ValidSlots, ValidMcus, AllCoded, Carrier, Stuff, Cuts, Joined, Counting, SpanTokens,
           AllCarried, ScanInRange, StartsSegment, Packed, Layout, ValidFields, ScanLast;
      CloseSegment();
      ghost var segment := writer.data;
      writer.WriteMarker(RST0 + nextRestartNum);
      BeginSegment(segment);
      lastDc := Zeros(plan.comps);
      NoFields(ts);
    }

    // Behind a marker the countdown and the segment start over.
    method BeginSegment(ghost segment: seq<Byte>)
      requires Placed() && done < |mcus| && interval > 0 && restartsToGo == 0
      requires AllCoded(ts, SpanTokens(plan, mcus, interval, lo, done))
      requires Carrier(segment, FieldsOf(ts, SpanTokens(plan, mcus, interval, lo, done)))
      requires writer.prior == prior + Stuff(segment) + [0xFF, RST0 + nextRestartNum]
      modifies this`restartsToGo, this`nextRestartNum, this`prior, this`tokens, this`lo, this`ps
      ensures Placed() && lo == done && tokens == [] && restartsToGo == interval && writer.prior == prior
    {
      hide FieldsOf, ValidSlots, ValidMcus, AllCoded, Carrier, Stuff, Cuts, Joined, Counting, SpanTokens, AllCarried,
           ScanInRange, StartsSegment;
      CountingRestart(lo, done, restartsToGo, interval);
      SegmentIsFull(lo, done, |mcus|, interval);
      ghost var piece := Piece(lo, done, segment, RST0 + nextRestartNum);
      CutPush(|mcus|, interval, ps, piece);
      PiecePushed(ps, piece);
      AddCarried(plan, ts, mcus, interval, ps, piece);
      assert start + Joined(ps) + Stuff(segment) + [0xFF, piece.marker]
        == start + (Joined(ps) + Stuff(segment) + [0xFF, piece.marker]);
      restartsToGo := interval;
      nextRestartNum := (nextRestartNum + 1) % 8;
      prior, ps, lo, tokens := writer.prior, ps + [piece], done, [];
    }

    // Emit a restart marker if one is due.
    method BeginMcu()
      requires Valid() && done < |mcus|
      modifies this, writer
      ensures Writing() && Placed() && done == old(done) && tokens == SpanTokens(plan, mcus, interval, lo, done)
      ensures lastDc == Before(plan, mcus, interval, done) && (interval > 0 ==> restartsToGo > 0)
    {
      hide FieldsOf, ValidPlan, ValidSlots, ValidMcus, AllCoded, Cuts, Joined, Counting, SpanTokens, AllCarried,
           ScanInRange, StartsSegment, ScanLast;
      CountingRestart(lo, done, restartsToGo, interval);
      ScanStarts(plan, mcus, interval);
      if interval != 0 && restartsToGo == 0 {
        EmitRestart();
        SpanStarts(plan, mcus, interval, done);
      }
    }

    // encode_mcu_huff. Fails exactly if some block cannot be coded.
    method EncodeMcu(mcu: Mcu) returns (ok: bool)
      requires Valid() && done < |mcus| && mcu == mcus[done] && ValidMcu(plan, mcu)
      modifies this, writer
      ensures ok == McuCodable(ts, plan, mcu, Before(plan, mcus, interval, old(done)), |mcu|)
      ensures ok ==> Valid() && done == old(done) + 1
    {
      hide FieldsOf, ValidPlan, ValidSlots, ValidMcus, ValidMcu, AllCoded, Cuts, Joined, Counting, SpanTokens,
           AllCarried, ScanInRange, Before, ScanLast, McuCodable, LastAfter, McuTokens;
      ScanGoesOn(plan, mcus, interval, done);
      BeginMcu();
      CountingNext(lo, done, restartsToGo, interval, |mcus|);
      ok := EncodeBlocks(mcu);
      if !ok {
        return;
      }
      CodableInRange(ts, plan, mcu, Before(plan, mcus, interval, done));
      SpanGoesOn(plan, mcus, interval, lo, done);
      if interval != 0 {
        restartsToGo := restartsToGo - 1;
      }
      done := done + 1;
    }

    // finish_pass_huff: the last byte is filled up, and the pieces carry every token.
    method Finish(ghost marker: Byte)
      requires Valid() && done == |mcus| && marker != 0 && marker != 0xFF
      modifies this, writer
      ensures ValidSlots(plan) && ValidMcus(plan, mcus) && ScanInRange(plan, mcus, interval, |mcus|)
      ensures ps != [] && NextLo(ps) == |mcus| && Cuts(|mcus|, interval, ps)
      ensures AllCarried(plan, ts, mcus, interval, ps)
      ensures writer.output + [0xFF, marker] == start + Joined(ps)
    {
      hide FieldsOf, ValidPlan, ValidSlots, ValidMcus, AllCoded, Carrier, Stuff, Cuts, Joined, Counting, SpanTokens,
           AllCarried, ScanInRange, StartsSegment;
      CloseSegment();
      ghost var piece := Piece(lo, done, writer.data, marker);
      CutPush(|mcus|, interval, ps, piece);
      PiecePushed(ps, piece);
      AddCarried(plan, ts, mcus, interval, ps, piece);
      assert start + Joined(ps) + Stuff(piece.data) + [0xFF, piece.marker]
        == start + (Joined(ps) + Stuff(piece.data) + [0xFF, piece.marker]);
      ps := ps + [piece];
    }
  }

  lemma CodableInRange(ts: Tables, plan: Plan, mcu: Mcu, last: seq<int>)
    requires ValidSlots(plan) && ValidMcu(plan, mcu) && |last| == plan.comps
    requires McuCodable(ts, plan, mcu, last, |mcu|)
    ensures McuInRange(plan, mcu, last)
  {
    hide BlockInRange;
  }

  // The first n blocks are in range and none of their codes is missing.
  ghost predicate McuCodable(ts: Tables, plan: Plan, mcu: Mcu, last: seq<int>, n: nat)
    requires ValidSlots(plan) && ValidMcu(plan, mcu) && |last| == plan.comps && n <= |mcu|
    ensures McuCodable(ts, plan, mcu, last, n) ==> forall i :: 0 <= i < n ==> BlockInRange(plan, mcu, last, i)
  {
    && (forall i :: 0 <= i < n ==> BlockInRange(plan, mcu, last, i))
    && AllCoded(ts, McuTokens(plan, mcu, last, n))
  }

  lemma NoBlocks(ts: Tables, plan: Plan, mcu: Mcu, last: seq<int>)
    requires ValidSlots(plan) && ValidMcu(plan, mcu) && |last| == plan.comps
    ensures McuCodable(ts, plan, mcu, last, 0) && McuTokens(plan, mcu, last, 0) == []
    ensures LastAfter(plan, mcu, last, 0) == last
  {
  }

  lemma NextBlock(ts: Tables, plan: Plan, mcu: Mcu, last: seq<int>, i: nat)
    requires ValidPlan(plan, ts) && ValidMcu(plan, mcu) && |last| == plan.comps && i < |mcu|
    requires forall j :: 0 <= j < i ==> BlockInRange(plan, mcu, last, j)
    ensures |mcu| == |plan.layout| && |mcu[i]| == BLOCK
    ensures var slot, l := plan.layout[i], LastAfter(plan, mcu, last, i);
      && slot.ci < plan.comps && slot.dc < |ts.dcEnc| && slot.ac < |ts.acEnc|
      && LastAfter(plan, mcu, last, i + 1) == l[slot.ci := mcu[i][0]]
      && (McuCodable(ts, plan, mcu, last, i + 1) <==>
          McuCodable(ts, plan, mcu, last, i) && Codable(ts, plan.order, slot, mcu[i], l[slot.ci]))
      && (Codable(ts, plan.order, slot, mcu[i], l[slot.ci]) ==> BlockInRange(plan, mcu, last, i))
  {
    hide ValidOrder, AllCoded, BlockTokens, Agree, McuTokens, BlockInRange, McuCodable, LastAfter, Codable;
    assert ValidSlot(plan.layout[i], plan.comps, ts);
    LastNext(plan, mcu, last, i);
    CodableNext(ts, plan, mcu, last, i);
  }

  lemma LastNext(plan: Plan, mcu: Mcu, last: seq<int>, i: nat)
    requires ValidSlots(plan) && ValidMcu(plan, mcu) && |last| == plan.comps && i < |mcu|
    ensures LastAfter(plan, mcu, last, i + 1) == LastAfter(plan, mcu, last, i)[plan.layout[i].ci := mcu[i][0]]
    ensures BlockInRange(plan, mcu, last, i) <==>
            InRange(plan.order, mcu[i], LastAfter(plan, mcu, last, i)[plan.layout[i].ci])
  {
    hide InRange, ValidOrder;
  }

  lemma TokensNext(plan: Plan, mcu: Mcu, last: seq<int>, i: nat)
    requires ValidSlots(plan) && ValidMcu(plan, mcu) && |last| == plan.comps && i < |mcu|
    requires forall j :: 0 <= j <= i ==> BlockInRange(plan, mcu, last, j)
    ensures InRange(plan.order, mcu[i], LastAfter(plan, mcu, last, i)[plan.layout[i].ci])
    ensures McuTokens(plan, mcu, last, i + 1) == McuTokens(plan, mcu, last, i)
      + BlockTokens(plan.order, plan.layout[i], mcu[i], LastAfter(plan, mcu, last, i)[plan.layout[i].ci])
  {
    hide InRange, ValidOrder, BlockTokens, LastAfter;
    assert BlockInRange(plan, mcu, last, i);
  }

  lemma CodableNext(ts: Tables, plan: Plan, mcu: Mcu, last: seq<int>, i: nat)
    requires ValidPlan(plan, ts) && ValidSlots(plan) && ValidMcu(plan, mcu) && |last| == plan.comps && i < |mcu|
    requires forall j :: 0 <= j < i ==> BlockInRange(plan, mcu, last, j)
    ensures var slot, l := plan.layout[i], LastAfter(plan, mcu, last, i);
      && (McuCodable(ts, plan, mcu, last, i + 1) <==>
          McuCodable(ts, plan, mcu, last, i) && Codable(ts, plan.order, slot, mcu[i], l[slot.ci]))
      && (Codable(ts, plan.order, slot, mcu[i], l[slot.ci]) ==> BlockInRange(plan, mcu, last, i))
  {
    hide InRange, ValidOrder, BlockTokens, LastAfter, AllCoded, McuTokens, BlockInRange, Agree, ValidPlan;
    LastNext(plan, mcu, last, i);
    if BlockInRange(plan, mcu, last, i) {
      TokensNext(plan, mcu, last, i);
      var slot, l := plan.layout[i], LastAfter(plan, mcu, last, i);
      AllCodedAppend(ts, McuTokens(plan, mcu, last, i), BlockTokens(plan.order, slot, mcu[i], l[slot.ci]));
    }
  }

  lemma AllCodedAppend(ts: Tables, a: seq<Token>, b: seq<Token>)
    ensures AllCoded(ts, a + b) <==> AllCoded(ts, a) && AllCoded(ts, b)
  {
    hide Coded;
    if AllCoded(ts, a + b) {
      CodedParts(ts, a, b);
    }
  }

  // What cannot be coded for its first blocks cannot be coded.
  lemma {:induction false} McuPrefix(ts: Tables, plan: Plan, mcu: Mcu, last: seq<int>, i: nat, n: nat)
    requires ValidPlan(plan, ts) && ValidMcu(plan, mcu) && |last| == plan.comps && i < n <= |mcu|
    ensures McuCodable(ts, plan, mcu, last, n) ==> McuCodable(ts, plan, mcu, last, i + 1)
  {
    hide ValidOrder, AllCoded, BlockInRange, McuTokens, McuCodable, LastAfter;
    if i + 1 < n && McuCodable(ts, plan, mcu, last, n) {
      NextBlock(ts, plan, mcu, last, n - 1);
      McuPrefix(ts, plan, mcu, last, i, n - 1);
    }
  }

  // The block is in range and none of its codes is missing.
  ghost predicate Codable(ts: Tables, order: seq<nat>, slot: Slot, b: seq<int>, last: int)
    requires ValidOrder(order) && |b| == BLOCK
  {
    InRange(order, b, last) && AllCoded(ts, BlockTokens(order, slot, b, last))
  }

  lemma NotCodable(ts: Tables, order: seq<nat>, slot: Slot, b: seq<int>, last: int)
    requires ValidOrder(order) && |b| == BLOCK && !InRange(order, b, last)
    ensures !Codable(ts, order, slot, b, last)
  {
  }

  lemma IsCodable(ts: Tables, order: seq<nat>, slot: Slot, b: seq<int>, last: int)
    requires ValidOrder(order) && |b| == BLOCK && InRange(order, b, last)
    requires AllCoded(ts, BlockTokens(order, slot, b, last))
    ensures Codable(ts, order, slot, b, last)
  {
  }

  lemma PushToken(ts: Tables, tokens: seq<Token>, t: Token)
    requires AllCoded(ts, tokens) && Coded(ts, t)
    ensures AllCoded(ts, tokens + [t]) && FieldsOf(ts, tokens + [t]) == FieldsOf(ts, tokens) + TokenFields(ts, t)
  {
    hide FieldsOf, Coded, TokenFields;
    FieldsOfOne(ts, t);
    FieldsOfAppend(ts, tokens, [t]);
  }

  lemma DcOutOfRange(order: seq<nat>, b: seq<int>, last: int)
    requires ValidOrder(order) && |b| == BLOCK && BitLength(Abs(b[0] - last)) > MAX_COEF_BITS + 1
    ensures !InRange(order, b, last)
  {
  }

  lemma Missing(order: seq<nat>, slot: Slot, ts: Tables, b: seq<int>, last: int, done: seq<Token>, t: Token)
    requires ValidOrder(order) && |b| == BLOCK && !Coded(ts, t)
    requires Contains(order, slot, b, last, done, t)
    ensures !Codable(ts, order, slot, b, last)
  {
    hide Coded, InRange, BlockTokens;
    if InRange(order, b, last) {
      var rest :| BlockTokens(order, slot, b, last) == done + ([t] + rest);
      NotAllCoded(ts, done, t, rest);
    }
  }
}
