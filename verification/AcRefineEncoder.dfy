// The Huffman encoder for AC refinement scans: runs of ends of band that span blocks and
// correction bits that wait in a buffer of 1000 entries until their code is written. It fails
// exactly if one of the symbols of the scan has no code.

module AcRefineEncoder {
  import opened CodeBits
  import opened Coefficients
  import opened PointTransform
  import opened HuffmanTables
  import opened Segment
  import opened RestartSegments
  import opened BitPacker
  import opened HuffmanFields
  import opened AcRefinement
  import opened AcRefineCoding
  import opened AcRefineRuns
  import opened AcRefineSymbols

  function Buffered(s: seq<nat>): (fields: seq<Field>)
    ensures |fields| == |s|
  {
    if s == [] then [] else Buffered(s[..|s| - 1]) + [Field(s[|s| - 1], 1)]
  }

  lemma BufferedNone()
    ensures Buffered([]) == []
  {
  }

  lemma BufferedPush(s: seq<nat>, x: nat)
    ensures Buffered(s + [x]) == Buffered(s) + [Field(x, 1)]
  {
    assert (s + [x])[..|s|] == s;
  }

  lemma {:induction false} BufferedAppend(s: seq<nat>, t: seq<nat>)
    ensures Buffered(s + t) == Buffered(s) + Buffered(t)
  {
    if t == [] {
      assert s + t == s;
    } else {
      var u := t[..|t| - 1];
      BufferedAppend(s, u);
      assert s + t == (s + u) + [t[|t| - 1]];
      BufferedPush(s + u, t[|t| - 1]);
    }
  }

  // ----- What the loop knows about runs of 16 zeros -----

  // Among the coefficients from lo to k the sixteenth zero is at z, and only zeros follow it.
  ghost predicate SixteenthZero(band: Band, b: seq<int>, lo: nat, z: nat, k: nat)
    requires ValidBand(band) && |b| == BLOCK
  {
    && lo <= z < k <= band.se + 1
    && At(band, b, z) == 0 && Zeros(band, b, lo, z) == 15
    && forall j :: z < j < k ==> At(band, b, j) == 0
  }

  lemma {:induction false} OnlyZeros(band: Band, b: seq<int>, lo: nat, z: nat, k: nat)
    requires ValidBand(band) && |b| == BLOCK && lo <= z <= k <= band.se + 1
    requires forall j :: z <= j < k ==> At(band, b, j) == 0
    ensures Zeros(band, b, lo, k) == Zeros(band, b, lo, z) + (k - z)
    ensures Corrections(band, b, lo, k) == Corrections(band, b, lo, z)
    ensures Zeros(band, b, z, k) == k - z && Corrections(band, b, z, k) == []
  {
    hide At;
    if z < k {
      OnlyZeros(band, b, lo, z, k - 1);
    }
  }

  // After a zero-run code for the first sixteen zeros the next sixteen are the next ones.
  lemma AfterZrl(band: Band, b: seq<int>, lo: nat, z: nat, k: nat)
    requires ValidBand(band) && |b| == BLOCK && SixteenthZero(band, b, lo, z, k)
    ensures Zeros(band, b, lo, k) == 16 + Zeros(band, b, z + 1, k)
    ensures Corrections(band, b, lo, k) == Corrections(band, b, lo, z) && Corrections(band, b, z + 1, k) == []
    ensures Zeros(band, b, z + 1, k) > 15 ==> z + 16 < k && SixteenthZero(band, b, z + 1, z + 16, k)
    ensures NoneNew(band, b, z + 1, k)
  {
    hide At;
    OnlyZeros(band, b, lo, z, k);
    OnlyZeros(band, b, lo, z + 1, k);
    if Zeros(band, b, z + 1, k) > 15 {
      OnlyZeros(band, b, z + 1, z + 1, z + 16);
    }
  }

  method CountBits(n: nat) returns (nbits: nat)
    requires n >= 1
    ensures nbits == Log2(n)
  {
    var temp := n;
    nbits := 0;
    while temp > 1
      invariant temp >= 1 && nbits + Log2(temp) == Log2(n)
    {
      temp := temp / 2;
      nbits := nbits + 1;
    }
  }

  function CodeFields(c: CDerived, sym: Byte, sign: nat, bits: seq<nat>): seq<Field>
    requires |c.ehufco| == |c.ehufsi| == 256
  {
    [SymbolField(c, sym)] + (if sign < 2 then [Field(sign, 1)] + Buffered(bits) else Buffered(bits))
  }

  // ----- What is to be coded -----

  // A decoder holds these blocks at precision al + 1.
  ghost predicate AllKnown(band: Band, held: seq<seq<int>>, blocks: seq<seq<int>>) {
    ValidBand(band) && |held| == |blocks| && forall i :: 0 <= i < |blocks| ==> Known(band, held[i], blocks[i])
  }

  lemma KnownAre(band: Band, held: seq<seq<int>>, blocks: seq<seq<int>>)
    requires AllKnown(band, held, blocks)
    ensures ValidBand(band) && Sized(held) && Sized(blocks)
  {
  }

  // The blocks from lo up to hi and what they must become.
  ghost function Part(band: Band, held: seq<seq<int>>, blocks: seq<seq<int>>, lo: nat, hi: nat): (bs: Blocks)
    requires AllKnown(band, held, blocks) && lo <= hi <= |blocks|
    ensures ValidBlocks(bs)
  {
    KnownAre(band, held, blocks);
    var final := seq(hi - lo, i requires 0 <= i < hi - lo => Sharpened(band, held[lo + i], blocks[lo + i]));
    Blocks(held[lo..hi], final)
  }

  lemma PartPush(band: Band, held: seq<seq<int>>, blocks: seq<seq<int>>, lo: nat, hi: nat)
    requires AllKnown(band, held, blocks) && lo <= hi < |blocks|
    ensures Known(band, held[hi], blocks[hi])
    ensures Part(band, held, blocks, lo, hi + 1) ==
      Add(Part(band, held, blocks, lo, hi), held[hi], Sharpened(band, held[hi], blocks[hi]))
  {
    hide Known, Sharpened, ValidBand;
    var more := Add(Part(band, held, blocks, lo, hi), held[hi], Sharpened(band, held[hi], blocks[hi]));
    assert held[lo..hi + 1] == held[lo..hi] + [held[hi]];
    assert Part(band, held, blocks, lo, hi + 1).final == more.final;
  }

  lemma PartNone(band: Band, held: seq<seq<int>>, blocks: seq<seq<int>>, lo: nat)
    requires AllKnown(band, held, blocks) && lo <= |blocks|
    ensures Part(band, held, blocks, lo, lo) == Blocks([], [])
  {
  }

  // Decoding the data from its start gives every block its final value and leaves no run.
  ghost predicate Written(job: Job, data: seq<Byte>, bs: Blocks)
    requires ValidJob(job) && ValidBlocks(bs)
  {
    exists at: nat :: at <= 8 * |data| && Decodes(job, data, bs, Position(at, 0))
  }

  // Each piece makes a decoder give its blocks their final values.
  ghost predicate AllWritten(job: Job, held: seq<seq<int>>, blocks: seq<seq<int>>, ps: seq<Piece>)
    requires ValidJob(job) && AllKnown(job.band, held, blocks)
  {
    forall k :: 0 <= k < |ps| ==> PieceWritten(job, held, blocks, ps[k])
  }

  ghost predicate PieceWritten(job: Job, held: seq<seq<int>>, blocks: seq<seq<int>>, p: Piece)
    requires ValidJob(job) && AllKnown(job.band, held, blocks)
  {
    p.lo <= p.hi <= |blocks| && Written(job, p.data, Part(job.band, held, blocks, p.lo, p.hi))
  }

  class RefineEncoder {
    const writer: BitWriter
    const band: Band
    const c: CDerived
    const interval: nat           // MCUs between restart markers, 0 for none
    const bitBuffer: array<nat>   // correction bits not yet written
    var eobrun: nat               // run of ends of band not yet written
    var be: nat                   // number of correction bits that belong to it
    var restartsToGo: nat
    var nextRestartNum: nat
    ghost const job: Job
    ghost const start: seq<Byte>  // what was written before the scan
    ghost const held: seq<seq<int>>
    ghost const blocks: seq<seq<int>>
    ghost var prior: seq<Byte>    // what was written before the segment
    ghost var symbols: seq<Byte>  // the symbols written so far in the scan
    ghost var bs: Blocks          // the blocks coded so far in the segment
    ghost var done: nat           // blocks begun
    ghost var lo: nat             // first block of the segment
    ghost var ps: seq<Piece>      // the segments before it

    ghost predicate Consistent()
      reads this`eobrun, this`be, this`symbols, this`prior, writer, bitBuffer
    {
      && writer.Valid() && writer.prior == prior && ValidJob(job) && job.band == band && job.c == c
      && bitBuffer.Length == MAX_CORR_BITS && be <= MAX_CORR_BITS && eobrun <= MAX_RUN
      && (eobrun == 0 ==> be == 0)
      && AllHaveCodes(c, symbols)
    }

    ghost function Emitted(): Emission
      reads this`symbols, this`eobrun, this`be
    {
      Emission(symbols, eobrun, be)
    }

    ghost predicate Bits(n: nat)
      requires n <= bitBuffer.Length
      reads bitBuffer
    {
      forall i :: 0 <= i < n ==> bitBuffer[i] < 2
    }

    // Between blocks neither the run nor the buffer is full.
    ghost predicate Between()
      reads this`eobrun, this`be, this`symbols, this`prior, this`bs, writer, bitBuffer
    {
      && Consistent()
      && Bounded(Emitted())
      && Bits(be)
      && Faithful(job, writer.fields, eobrun, Buffered(bitBuffer[..be]), bs)
    }

    // How far the scan has come.
    ghost predicate Placed()
      reads this`restartsToGo, this`nextRestartNum, this`prior, this`done, this`lo, this`ps
    {
      && ValidJob(job) && job.band == band && AllKnown(band, held, blocks) && Sized(blocks)
      && lo <= done <= SegmentEndOf(lo) && lo == NextLo(ps) && Cuts(|blocks|, interval, ps)
      && Counting(lo, done, restartsToGo, interval) && nextRestartNum == |ps| % 8
      && prior == start + Joined(ps) && AllWritten(job, held, blocks, ps)
    }

    ghost function SegmentEndOf(lo: nat): (hi: nat)
      ensures hi <= |blocks|
    {
      if lo <= |blocks| then SegmentEnd(lo, |blocks|, interval) else 0
    }

    // Between MCUs.
    ghost predicate Valid()
      reads this, writer, bitBuffer
    {
      && Between() && Placed() && (done == 0 || lo < done)
      && bs == Part(band, held, blocks, lo, done)
      && Emitted() == ScanCoded(band, blocks, interval, done)
    }

    // Inside block b, of which the coefficients before lo are coded.
    ghost predicate Coding(a: seq<int>, b: seq<int>, lo: nat)
      requires ValidBand(job.band)
      reads this, writer, bitBuffer
    {
      && Consistent() && Known(band, a, b) && band.ss <= lo <= band.se + 1
      && Bits(be)
      && if eobrun > 0 then lo == band.ss && Faithful(job, writer.fields, eobrun, Buffered(bitBuffer[..be]), bs)
         else Halfway(job, writer.fields, bs, a, b, lo)
    }

    constructor (w: BitWriter, b: Band, derived: CDerived, restartInterval: nat, ghost t: HuffTable,
                 ghost known: seq<seq<int>>, ghost all: seq<seq<int>>)
      requires w.Valid() && w.fields == [] && ValidJob(Job(b, derived, t)) && AllKnown(b, known, all)
      ensures Valid() && writer == w && band == b && c == derived && job == Job(b, derived, t) && start == w.prior
      ensures interval == restartInterval && held == known && blocks == all && done == 0 && fresh(bitBuffer)
    {
      hide Faithful, Known, ValidBand, Agree;
      writer, band, c, interval, bitBuffer := w, b, derived, restartInterval, new nat[MAX_CORR_BITS];
      eobrun, be, restartsToGo, nextRestartNum := 0, 0, restartInterval, 0;
      job, start, held, blocks := Job(b, derived, t), w.prior, known, all;
      prior, symbols, bs, done, lo, ps := w.prior, [], Blocks([], []), 0, 0, [];
      StartFaithful(Job(b, derived, t));
      KnownAre(b, known, all);
      PartNone(b, known, all, 0);
      ScanStarts(b, all, restartInterval);
      CountingStart(restartInterval);
      assert w.prior + Joined([]) == w.prior;
      BufferedNone();
    }

    // emit_buffered_bits
    method EmitBuffered(start: nat, n: nat)
      requires writer.Valid() && start + n <= bitBuffer.Length
      requires forall i :: start <= i < start + n ==> bitBuffer[i] < 2
      modifies writer
      ensures writer.Valid() && writer.prior == old(writer.prior)
      ensures writer.fields == old(writer.fields) + Buffered(bitBuffer[start..start + n])
    {
      hide Buffered;
      var i := 0;
      BufferedNone();
      assert bitBuffer[start..start] == [];
      while i < n
        invariant i <= n && writer.Valid() && writer.prior == old(writer.prior)
        invariant writer.fields == old(writer.fields) + Buffered(bitBuffer[start..start + i])
      {
        var bit := bitBuffer[start + i];
        assert bit % Pow2(1) == bit;
        var _ := writer.EmitBits(bit, 1);
        assert bitBuffer[start..start + i + 1] == bitBuffer[start..start + i] + [bit];
        BufferedPush(bitBuffer[start..start + i], bit);
        i := i + 1;
      }
    }

    // emit_ac_symbol
    method EmitAcSymbol(sym: Byte) returns (ok: bool)
      requires writer.Valid() && writer.prior == prior && Agree(c, job.t) && AllHaveCodes(c, symbols)
      modifies this`symbols, writer
      ensures writer.Valid() && writer.prior == prior && ok == HasCode(c, sym)
      ensures ok ==> writer.fields == old(writer.fields) + [SymbolField(c, sym)]
      ensures ok ==> symbols == old(symbols) + [sym] && AllHaveCodes(c, symbols)
    {
      hide Agree, HasCode;
      ok := EmitSymbol(writer, c, sym, job.t);
      if ok {
        symbols := symbols + [sym];
      }
    }

    // The symbol for a run of ends of band and the low bits of its length.
    method EmitRun(n: nat) returns (ok: bool)
      requires writer.Valid() && writer.prior == prior && Agree(c, job.t) && AllHaveCodes(c, symbols)
      requires |c.ehufco| == |c.ehufsi| == 256 && 1 <= n <= MAX_RUN
      modifies this`symbols, writer
      ensures ok == AllHaveCodes(c, RunSymbols(n))
      ensures ok ==> writer.Valid() && writer.prior == prior && AllHaveCodes(c, symbols) && RunHasCode(c, n)
      ensures ok ==> writer.fields == old(writer.fields) + RunFields(c, n)
      ensures ok ==> symbols == old(symbols) + RunSymbols(n)
    {
      hide Agree, Log2, Pow2, HasCode, AllHaveCodes;
      Log2OfRun(n);
      var nbits := CountBits(n);
      OneCode(c, 16 * nbits);
      ok := EmitAcSymbol(16 * nbits);
      if ok && nbits != 0 {
        var _ := writer.EmitBits(n, nbits);
      }
    }

    // emit_eobrun
    method EmitEobrun() returns (ok: bool)
      requires Consistent() && Bits(be)
      modifies this`eobrun, this`be, this`symbols, writer
      ensures ok == AllHaveCodes(c, RunSymbols(old(eobrun)))
      ensures ok ==> Consistent() && Emitted() == Closed(old(Emitted()))
      ensures ok && old(eobrun) == 0 ==> writer.fields == old(writer.fields)
      ensures ok && old(eobrun) > 0 ==> RunHasCode(c, old(eobrun))
      ensures ok && old(eobrun) > 0 ==>
        writer.fields == old(writer.fields) + (RunFields(c, old(eobrun)) + Buffered(old(bitBuffer[..be])))
    {
      hide Agree, AllHaveCodes, RunFields, RunHasCode, Buffered, RunSymbols;
      if eobrun == 0 {
        NoRun(c, symbols);
        return true;
      }
      ok := EmitRun(eobrun);
      if !ok {
        return;
      }
      EmitBuffered(0, be);
      assert bitBuffer[0..be] == bitBuffer[..be];
      eobrun, be := 0, 0;
    }

    // The pending run has to be written before any other code of the block.
    method Settle(ghost a: seq<int>, ghost b: seq<int>, ghost k: nat) returns (ok: bool)
      requires ValidBand(job.band) && Coding(a, b, k)
      modifies this`eobrun, this`be, this`symbols, writer
      ensures ok == AllHaveCodes(c, RunSymbols(old(eobrun)))
      ensures ok ==> Coding(a, b, k) && Emitted() == Closed(old(Emitted()))
    {
      hide Agree, Buffered, RunFields, RunHasCode, Faithful, Halfway, Known, AllHaveCodes;
      ghost var e, bits, fields := eobrun, Buffered(bitBuffer[..be]), writer.fields;
      ok := EmitEobrun();
      if ok && e > 0 {
        WriteRun(job, fields, e, bits, bs);
        Begin(job, writer.fields, bs, a, b);
      }
    }

    // Correction bits that wait in the buffer, for the coefficients from lo to k.
    ghost predicate Waiting(b: seq<int>, lo: nat, k: nat, start: nat, br: nat)
      requires ValidBand(band) && |b| == BLOCK && k <= band.se + 1
      reads this, bitBuffer
    {
      && start + br <= bitBuffer.Length
      && (forall i :: start <= i < start + br ==> bitBuffer[i] < 2)
      && Buffered(bitBuffer[start..start + br]) == Corrections(band, b, lo, k)
      && NoneNew(band, b, lo, k)
    }

    // A symbol, the bit for a new coefficient (none if sign is 2), and waiting correction bits.
    method EmitCode(sym: Byte, sign: nat, first: nat, br: nat) returns (ok: bool)
      requires writer.Valid() && writer.prior == prior && Agree(c, job.t) && AllHaveCodes(c, symbols)
      requires sign <= 2 && first + br <= bitBuffer.Length
      requires forall i :: first <= i < first + br ==> bitBuffer[i] < 2
      modifies this`symbols, writer
      ensures writer.Valid() && writer.prior == prior && ok == HasCode(c, sym)
      ensures ok ==> writer.fields == old(writer.fields) + CodeFields(c, sym, sign, bitBuffer[first..first + br])
      ensures ok ==> symbols == old(symbols) + [sym] && AllHaveCodes(c, symbols)
    {
      hide Agree, Buffered, HasCode, Pow2, AllHaveCodes;
      ok := EmitAcSymbol(sym);
      if ok {
        if sign < 2 {
          OneBit(sign);
          var _ := writer.EmitBits(sign, 1);
        }
        EmitBuffered(first, br);
      }
    }

    // Writing the symbols for the coefficients from k on leads to this goal.
    ghost predicate Heading(b: seq<int>, k: nat, r: nat, goal: Emission)
      requires ValidBand(band) && |b| == BLOCK && band.ss <= k <= band.se + 1
      reads this`symbols, this`eobrun, this`be
    {
      eobrun <= MAX_RUN && Continued(Emitted(), BandSymbols(band, b, k, r)) == goal
    }

    // One zero-run code, which takes the waiting correction bits along.
    method EmitZrl(ghost a: seq<int>, ghost b: seq<int>, ghost from: nat, ghost z: nat, ghost k: nat, first: nat,
                   br: nat, ghost r: nat, ghost goal: Emission)
      returns (ok: bool)
      requires ValidBand(job.band) && ValidBand(band) && |b| == BLOCK && Coding(a, b, from) && from <= k <= band.se
      requires Waiting(b, from, k, first, br) && SixteenthZero(band, b, from, z, k)
      requires band.ss <= k && At(band, b, k) != 0 && r > 15 && k <= Eob(band, b) && Heading(b, k, r, goal)
      modifies this`eobrun, this`be, this`symbols, writer
      ensures ok ==> z < k && Coding(a, b, z + 1) && eobrun == be == 0 && Heading(b, k, r - 16, goal)
      ensures !ok ==> !AllHaveCodes(c, goal.symbols)
    {
      hide Agree, Buffered, Faithful, Halfway, Known, SixteenthZero, At, HasCode, Corrections, Zeros, NoneNew,
           AllHaveCodes, Continued, Closed, RunSymbols, BandSymbols, Eob;
      ZrlIsNext(band, b, k, r);
      ContinuedStep(c, Emitted(), ZRL, BandSymbols(band, b, k, r - 16));
      ghost var e := Emitted();
      ok := Settle(a, b, from);
      if !ok {
        return;
      }
      ClosedIs(e);
      ghost var fields := writer.fields;
      ok := EmitCode(ZRL, 2, first, br);
      if !ok {
        return;
      }
      ZrlStep(band, b, from, z, k);
      CodeZrl(job, fields, bs, a, b, from, z);
      assert writer.fields == fields + ZrlFields(job, b, from, z);
    }

    // Zero-run codes, as long as at least 16 zeros wait. The first takes the bits along.
    method EmitZrls(ghost a: seq<int>, ghost b: seq<int>, ghost from: nat, ghost sixteenth: nat, ghost k: nat,
                    zeros: nat, start: nat, count: nat, ghost goal: Emission)
      returns (ok: bool, r: nat, ghost at: nat)
      requires ValidBand(job.band) && ValidBand(band) && |b| == BLOCK && Coding(a, b, from) && from <= k <= band.se
      requires Waiting(b, from, k, start, count) && zeros == Zeros(band, b, from, k) > 15
      requires SixteenthZero(band, b, from, sixteenth, k)
      requires band.ss <= k && At(band, b, k) != 0 && k <= Eob(band, b) && Heading(b, k, zeros, goal)
      modifies this`eobrun, this`be, this`symbols, writer
      ensures ok ==> Coding(a, b, at) && eobrun == be == 0 && from <= at <= k
      ensures ok ==> Waiting(b, at, k, 0, 0) && r == Zeros(band, b, at, k) <= 15 && Heading(b, k, r, goal)
      ensures !ok ==> !AllHaveCodes(c, goal.symbols)
    {
      hide Buffered, SixteenthZero, Corrections, Zeros, NoneNew, AllHaveCodes, Coding, At, Eob, BandSymbols, Continued;
      var first, br := start, count;
      ghost var z := sixteenth;
      r, at := zeros, from;
      while r > 15
        invariant Coding(a, b, at) && from <= at <= k && Heading(b, k, r, goal)
        invariant Waiting(b, at, k, first, br) && r == Zeros(band, b, at, k)
        invariant r > 15 ==> SixteenthZero(band, b, at, z, k)
        invariant r <= 15 ==> eobrun == be == 0 && first == br == 0
        decreases r
      {
        ok := EmitZrl(a, b, at, z, k, first, br, r, goal);
        if !ok {
          return;
        }
        ZrlStep(band, b, at, z, k);
        r := r - 16;
        first, br := 0, 0;
        assert Buffered(bitBuffer[0..0]) == [] by { assert bitBuffer[0..0] == []; BufferedNone(); }
        at, z := z + 1, z + 16;
      }
      ok := true;
    }

    // A newly nonzero coefficient with the run before it.
    method EmitNew(ghost a: seq<int>, b: seq<int>, ghost from: nat, k: nat, r: nat, first: nat, br: nat,
                   ghost goal: Emission)
      returns (ok: bool)
      requires ValidBand(job.band) && ValidBand(band) && |b| == BLOCK && Coding(a, b, from) && from <= k <= band.se
      requires At(band, b, k) == 1 && Waiting(b, from, k, first, br) && r == Zeros(band, b, from, k) <= 15
      requires band.ss <= k && Heading(b, k, r, goal)
      modifies this`eobrun, this`be, this`symbols, writer
      ensures ok ==> Coding(a, b, k + 1) && eobrun == be == 0 && Heading(b, k + 1, 0, goal)
      ensures !ok ==> !AllHaveCodes(c, goal.symbols)
    {
      hide Agree, Buffered, Faithful, Halfway, Known, HasCode, Corrections, Zeros, NoneNew, At, AllHaveCodes, SignBit,
           ValidBand, CodeFields, Magnitude, RunFields, Pow2, Continued, Closed, RunSymbols, BandSymbols;
      OrderAt(band, k);
      NewIsNext(band, b, k, r);
      ContinuedStep(c, Emitted(), 16 * r + 1, BandSymbols(band, b, k + 1, 0));
      ghost var bits, e := bitBuffer[first..first + br], Emitted();
      ok := Settle(a, b, from);
      if !ok {
        return;
      }
      ClosedIs(e);
      ghost var fields := writer.fields;
      var sign := SignBit(b[band.order[k]]);
      ok := EmitCode(16 * r + 1, sign, first, br);
      if !ok {
        return;
      }
      NewStep(job, fields, bs, a, b, from, k, r, bits);
      assert Bits(be);
    }

    // The loop over the band: everything that cannot wait is written.
    method EncodeBand(ghost a: seq<int>, b: seq<int>) returns (ok: bool, r: nat, br: nat, ghost from: nat)
      requires Between() && |b| == BLOCK && ValidBand(band) && Known(band, a, b)
      modifies this`eobrun, this`be, this`symbols, writer, bitBuffer
      ensures ok ==> Coding(a, b, from) && Waiting(b, from, band.se + 1, be, br) && from == TailStart(band, b)
      ensures ok ==> br <= BLOCK - 1 && Bounded(Emitted()) && Emitted() == Opened(band, old(Emitted()), b)
      ensures ok ==> (r > 0 || br > 0 <==> from <= band.se)
      ensures !ok ==> !AllHaveCodes(c, Opened(band, old(Emitted()), b).symbols)
    {
      hide Buffered, Known, HasCode, Corrections, Zeros, NoneNew, At, AllHaveCodes, ValidBand, SixteenthZero, Coding,
           Faithful, Agree, Magnitudes, Eob, BandSymbols, Continued, Waiting, TailStart;
      BandRange(band);
      ghost var z, goal := 0, Opened(band, Emitted(), b);
      r, br, from := 0, 0, band.ss;
      var absvalues, eob := PrePass(band, b);
      var k := band.ss;
      ghost var values := absvalues[..];
      StartBand(a, b);
      TailIs(band, b);
      while k <= band.se
        invariant job.band == band && Coding(a, b, from) && band.ss <= from <= k <= band.se + 1
        invariant Bounded(Emitted()) && br <= k - band.ss && Heading(b, k, r, goal)
        invariant Waiting(b, from, k, be, br) && r == Zeros(band, b, from, k)
        invariant absvalues[..] == values
        invariant k <= eob && r > 15 ==> SixteenthZero(band, b, from, z, k)
        invariant k > eob ==> from == TailStart(band, b)
      {
        MagnitudeAt(band, b, values, k);
        var temp := absvalues[k];
        assert temp == values[k];
        if temp == 0 {
          z := ZeroPassed(b, from, z, k, eob, r, br, goal);
          r := r + 1;
        } else {
          ok, r, br, from := EncodeNonzero(a, b, from, z, k, eob, r, br, temp, goal);
          if !ok {
            return;
          }
        }
        k := k + 1;
      }
      WaitingAtEnd(b, from, r, br);
      NothingNext(band, b, r, Emitted());
      ok := true;
    }

    lemma WaitingAtEnd(b: seq<int>, from: nat, r: nat, br: nat)
      requires ValidBand(band) && |b| == BLOCK && from <= band.se + 1 && r == Zeros(band, b, from, band.se + 1)
      requires Waiting(b, from, band.se + 1, be, br)
      ensures r > 0 || br > 0 <==> from <= band.se
    {
      hide At, Zeros, Corrections, NoneNew, Buffered;
      ZerosLeft(band, b, from, r, br, bitBuffer[be..be + br]);
    }

    // A coefficient that stays zero is only counted.
    lemma ZeroPassed(b: seq<int>, from: nat, z: nat, k: nat, eob: nat, r: nat, br: nat, goal: Emission) returns (s: nat)
      requires ValidBand(band) && |b| == BLOCK && band.ss <= from <= k <= band.se && At(band, b, k) == 0
      requires Waiting(b, from, k, be, br) && r == Zeros(band, b, from, k) && Heading(b, k, r, goal)
      requires eob == Eob(band, b) && (k <= eob && r > 15 ==> SixteenthZero(band, b, from, z, k))
      ensures Waiting(b, from, k + 1, be, br) && r + 1 == Zeros(band, b, from, k + 1) && Heading(b, k + 1, r + 1, goal)
      ensures k + 1 <= eob && r + 1 > 15 ==> SixteenthZero(band, b, from, s, k + 1)
      ensures eob != k
    {
      hide Buffered, Corrections, Zeros, NoneNew, At, Eob, BandSymbols, Continued, SixteenthZero;
      TailIs(band, b);
      PassedOne(band, b, from, k);
      s := SixteenthStep(band, b, from, z, k, eob);
      ZeroIsNext(band, b, k, r);
    }

    // A coefficient that is nonzero at the new precision.
    method EncodeNonzero(ghost a: seq<int>, b: seq<int>, ghost start: nat, ghost z: nat, k: nat, eob: nat,
                         zeros: nat, count: nat, temp: nat, ghost goal: Emission)
      returns (ok: bool, r: nat, br: nat, ghost from: nat)
      requires ValidBand(job.band) && ValidBand(band) && |b| == BLOCK && Coding(a, b, start)
      requires band.ss <= start <= k <= band.se && eob == Eob(band, b) && temp == At(band, b, k) != 0
      requires Waiting(b, start, k, be, count) && zeros == Zeros(band, b, start, k) && Heading(b, k, zeros, goal)
      requires k <= eob && zeros > 15 ==> SixteenthZero(band, b, start, z, k)
      requires Bounded(Emitted()) && count <= k - band.ss
      modifies this`eobrun, this`be, this`symbols, writer, bitBuffer
      ensures ok ==> Coding(a, b, from) && start <= from <= k + 1 && Heading(b, k + 1, r, goal)
      ensures ok ==> Waiting(b, from, k + 1, be, br) && r == Zeros(band, b, from, k + 1)
      ensures ok ==> Bounded(Emitted()) && br <= k + 1 - band.ss
      ensures ok && k < eob ==> r <= 15
      ensures ok && k > eob ==> from == start
      ensures ok && temp == 1 ==> from == k + 1
      ensures !ok ==> !AllHaveCodes(c, goal.symbols)
    {
      hide Buffered, HasCode, Corrections, Zeros, NoneNew, At, AllHaveCodes, ValidBand, SixteenthZero, Coding, Eob,
           BandSymbols, Continued;
      BandRange(band);
      if temp == 1 {
        NewBeforeEob(band, b, k);
      }
      r, br, from := zeros, count, start;
      if r > 15 && k <= eob {
        ok, r, from := EmitZrls(a, b, start, z, k, r, be, br, goal);
        if !ok {
          return;
        }
        br := 0;
      }
      if temp > 1 {
        PassedOne(band, b, from, k);
        CorrectionIsNext(band, b, k, r);
        Append(a, b, from, k, br, temp % 2);
        br := br + 1;
      } else {
        ok := EmitNew(a, b, from, k, r, be, br, goal);
        if !ok {
          return;
        }
        r, br, from := 0, 0, k + 1;
        NothingWaits(b, from);
      }
      ok := true;
    }

    lemma StartBand(a: seq<int>, b: seq<int>)
      requires Between() && ValidBand(band) && Known(band, a, b)
      ensures Coding(a, b, band.ss) && Waiting(b, band.ss, band.ss, be, 0) && Zeros(band, b, band.ss, band.ss) == 0
      ensures Heading(b, band.ss, 0, Opened(band, Emitted(), b))
    {
      hide Agree, Buffered, Faithful, Halfway, BandSymbols, Continued, AllHaveCodes;
      NothingWaits(b, band.ss);
      if eobrun == 0 {
        assert bitBuffer[..be] == [];
        BufferedNone();
        Begin(job, writer.fields, bs, a, b);
      }
    }

    // encode_mcu_AC_refine for one block, which the decoder holds as a, behind the restart
    // marker if there is one. Fails exactly if a symbol has no code.
    method EncodeBlock(ghost a: seq<int>, b: seq<int>) returns (ok: bool)
      requires Between() && ValidBand(band) && Known(band, a, b)
      modifies this`eobrun, this`be, this`symbols, this`bs, writer, bitBuffer
      ensures ok == AllHaveCodes(c, BlockCoded(band, old(Emitted()), b).symbols)
      ensures ok ==> Between() && bs == Add(old(bs), a, Sharpened(band, a, b))
      ensures ok ==> Emitted() == BlockCoded(band, old(Emitted()), b)
    {
      hide Buffered, AllHaveCodes, ValidBand, Faithful, Known, Sharpened, Coding, Waiting, Bits, Agree, Consistent,
           Opened, TailStart, Forced, Corrections;
      KnownSizes(band, a, b);
      assert ValidBand(job.band) && job.band == band by { BandsAgree(); }
      ghost var from, e := 0, Emitted();
      var r, br;
      ok, r, br, from := EncodeBand(a, b);
      if !ok {
        OpenedMissing(c, band, e, b);
        return;
      }
      if r > 0 || br > 0 {
        CountBlock(a, b, from, br);
        ok := ForceOut();
      } else {
        CloseBlock(a, b, from);
      }
      if ok {
        assert AllHaveCodes(c, symbols) by { CodesListed(); }
      }
    }

    lemma CodesListed()
      requires Consistent()
      ensures AllHaveCodes(c, symbols)
    {
    }

    // A block that ends in a run of ends of band, together with its correction bits.
    method CountBlock(ghost a: seq<int>, ghost b: seq<int>, ghost from: nat, br: nat)
      requires ValidBand(job.band) && ValidBand(band) && |b| == BLOCK && Coding(a, b, from) && from <= band.se
      requires Waiting(b, from, band.se + 1, be, br) && be + br <= MAX_CORR_BITS && eobrun < MAX_RUN
      requires Known(band, a, b)
      modifies this`eobrun, this`be, this`bs
      ensures Consistent() && Bits(be)
      ensures Emitted() == Emission(symbols, old(eobrun) + 1, old(be) + |Corrections(band, b, from, band.se + 1)|)
      ensures bs == Add(old(bs), a, Sharpened(band, a, b))
      ensures Faithful(job, writer.fields, eobrun, Buffered(bitBuffer[..be]), bs)
    {
      hide Agree, Buffered, ValidBand, Faithful, Halfway, Known, Corrections, NoneNew, Sharpened, AllHaveCodes;
      JoinBuffered(bitBuffer[..], be, br);
      if eobrun > 0 {
        JoinRun(job, writer.fields, eobrun, Buffered(bitBuffer[..be]), bs, a, b);
      } else {
        EndWithRun(job, writer.fields, bs, a, b, from);
      }
      bs := Add(bs, a, Sharpened(band, a, b));
      eobrun := eobrun + 1;
      assert bitBuffer[..][..be + br] == bitBuffer[..be + br];
      assert bitBuffer[..][..be] == bitBuffer[..be];
      assert bitBuffer[..][be..be + br] == bitBuffer[be..be + br];
      be := be + br;
    }

    // Write the run if it or the buffer might overflow with the next block.
    method ForceOut() returns (ok: bool)
      requires Consistent() && Bits(be) && Faithful(job, writer.fields, eobrun, Buffered(bitBuffer[..be]), bs)
      modifies this`eobrun, this`be, this`symbols, writer
      ensures ok == AllHaveCodes(c, Forced(old(Emitted())).symbols)
      ensures ok ==> Between() && Emitted() == Forced(old(Emitted()))
    {
      hide Agree, Buffered, AllHaveCodes, Faithful, RunFields, RunHasCode;
      ghost var e, bits, fields := eobrun, Buffered(bitBuffer[..be]), writer.fields;
      if eobrun == MAX_RUN || be > MAX_CORR_BITS - BLOCK + 1 {
        ClosedCodes(c, Emitted());
        ok := EmitEobrun();
        if ok && e > 0 {
          WriteRun(job, fields, e, bits, bs);
          assert bitBuffer[..be] == [];
          BufferedNone();
        }
      } else {
        ok := true;
      }
    }

    lemma BandsAgree()
      requires Between()
      ensures ValidBand(job.band) && job.band == band
    {
    }

    // A block whose last coefficient is newly nonzero.
    ghost method CloseBlock(a: seq<int>, b: seq<int>, from: nat)
      requires ValidBand(job.band) && ValidBand(band) && Known(band, a, b) && Coding(a, b, from) && from > band.se
      requires Bounded(Emitted())
      modifies this`bs
      ensures Between() && bs == Add(old(bs), a, Sharpened(band, a, b))
    {
      hide Agree, Buffered, Faithful, Halfway, Known, Sharpened, AllHaveCodes;
      assert bitBuffer[..be] == [];
      BufferedNone();
      EndExactly(job, writer.fields, bs, a, b);
      bs := Add(bs, a, Sharpened(band, a, b));
    }

    // What is pending is written and the last byte is filled up. The data of the segment
    // then makes a decoder give every block its final value.
    method CloseSegment() returns (ok: bool)
      requires Between()
      modifies this`eobrun, this`be, this`symbols, writer
      ensures ok == AllHaveCodes(c, Closed(old(Emitted())).symbols)
      ensures ok ==> Emitted() == Closed(old(Emitted())) && AllHaveCodes(c, symbols)
      ensures ok ==> writer.output == prior + Stuff(writer.data) && ValidJob(job) && ValidBlocks(bs)
      ensures ok ==> Written(job, writer.data, bs) && writer.putBuffer == writer.putBits == 0
    {
      hide Agree, Buffered, HasCode, AllHaveCodes, Faithful, RunFields, RunHasCode, Decodes, Carries, Length, Stuff;
      ghost var e, bits, fields := eobrun, Buffered(bitBuffer[..be]), writer.fields;
      if e == 0 {
        assert bitBuffer[..be] == [];
        BufferedNone();
      }
      ClosedCodes(c, Emitted());
      ok := EmitEobrun();
      if !ok {
        return;
      }
      if e > 0 {
        WriteRun(job, fields, e, bits, bs);
      }
      assert ValidBlocks(bs) by { FaithfulBlocks(job, writer.fields, bs); }
      fields := writer.fields;
      writer.Flush();
      FinishedDecodes(job, fields, bs, writer.data);
    }

    // emit_restart_e: the segment is closed and its marker written, and everything that
    // belongs to AC coding starts over.
    method EmitRestart() returns (ok: bool)
      requires Valid() && done < |blocks| && interval > 0 && restartsToGo == 0
      modifies this, writer
      ensures ok == AllHaveCodes(c, Closed(old(Emitted())).symbols)
      ensures ok ==> Between() && Placed() && done == old(done) == lo && bs == Blocks([], [])
      ensures ok ==> restartsToGo == interval && Emitted() == Closed(old(Emitted()))
    {
      hide AllHaveCodes, Known, ValidBand, Agree, Stuff, Written, Faithful, Cuts, Joined, Counting, Part, Sized,
           AllWritten, Buffered, ValidJob, ValidFields, Packed, Layout;
      ok := CloseSegment();
      if !ok {
        return;
      }
      ghost var segment := writer.data;
      writer.WriteMarker(RST0 + nextRestartNum);
      BeginSegment(segment);
      StartFaithful(job);
      assert bitBuffer[..be] == [];
      BufferedNone();
    }

    // Behind a marker the countdown and the segment start over.
    method BeginSegment(ghost segment: seq<Byte>)
      requires Placed() && done < |blocks| && interval > 0 && restartsToGo == 0
      requires Written(job, segment, Part(band, held, blocks, lo, done))
      requires writer.prior == prior + Stuff(segment) + [0xFF, RST0 + nextRestartNum]
      modifies this`restartsToGo, this`nextRestartNum, this`prior, this`bs, this`lo, this`ps
      ensures Placed() && lo == done && bs == Blocks([], []) && restartsToGo == interval && writer.prior == prior
    {
      hide Known, ValidBand, Agree, Stuff, Written, Cuts, Joined, Counting, StartsSegment, Part, AllWritten, ValidJob,
           Sized, AllKnown;
      CountingRestart(lo, done, restartsToGo, interval);
      SegmentIsFull(lo, done, |blocks|, interval);
      ghost var piece := Piece(lo, done, segment, RST0 + nextRestartNum);
      CutPush(|blocks|, interval, ps, piece);
      PiecePushed(ps, piece);
      AddWritten(job, held, blocks, ps, piece);
      assert start + Joined(ps) + Stuff(segment) + [0xFF, piece.marker]
        == start + (Joined(ps) + Stuff(segment) + [0xFF, piece.marker]);
      restartsToGo := interval;
      nextRestartNum := (nextRestartNum + 1) % 8;
      prior, ps, lo, bs := writer.prior, ps + [piece], done, Blocks([], []);
    }

    // Emit a restart marker if one is due.
    method BeginMcu() returns (ok: bool)
      requires Valid() && done < |blocks|
      modifies this, writer
      ensures ok == AllHaveCodes(c, AtRestart(old(Emitted()), old(done), interval).symbols)
      ensures ok ==> Between() && Placed() && done == old(done) && bs == Part(band, held, blocks, lo, done)
      ensures ok ==> Emitted() == AtRestart(old(Emitted()), done, interval) && (interval > 0 ==> restartsToGo > 0)
    {
      hide AllHaveCodes, Known, ValidBand, Agree, Written, Faithful, Cuts, Joined, Counting, StartsSegment, Part,
           Sized, ScanCoded, Sharpened, AllWritten, ValidJob, AllKnown, Buffered;
      CountingRestart(lo, done, restartsToGo, interval);
      ok := true;
      if interval != 0 && restartsToGo == 0 {
        ok := EmitRestart();
        if ok {
          PartNone(band, held, blocks, done);
        }
      } else {
        assert AllHaveCodes(c, symbols) by { CodesListed(); }
      }
    }

    // encode_mcu_AC_refine. Fails exactly if a symbol has no code.
    method EncodeMcu(b: seq<int>) returns (ok: bool)
      requires Valid() && done < |blocks| && b == blocks[done]
      modifies this, writer, bitBuffer
      ensures ok == AllHaveCodes(c, ScanCoded(band, blocks, interval, old(done) + 1).symbols)
      ensures ok ==> Valid() && done == old(done) + 1
    {
      hide AllHaveCodes, Known, ValidBand, Agree, Written, Faithful, Cuts, Joined, Counting, StartsSegment, Part,
           Sized, BlockCoded, ScanCoded, Sharpened, AllWritten, ValidJob, AllKnown, Buffered, AtRestart, Between, Add,
           SegmentEnd, NextLo;
      BlockAt();
      ScanGoesOn(band, blocks, interval, done);
      ghost var before := AtRestart(Emitted(), done, interval);
      ok := BeginMcu();
      if !ok {
        BlockMissing(c, band, before, b);
        return;
      }
      PartPush(band, held, blocks, lo, done);
      CountingNext(lo, done, restartsToGo, interval, |blocks|);
      ok := EncodeBlock(held[done], b);
      if !ok {
        return;
      }
      if interval != 0 {
        restartsToGo := restartsToGo - 1;
      }
      done := done + 1;
    }

    lemma BlockAt()
      requires Between() && Placed() && done < |blocks|
      ensures ValidBand(band) && Bounded(Emitted()) && Sized(blocks) && |held| == |blocks|
      ensures |blocks[done]| == |held[done]| == BLOCK
    {
    }

    // finish_pass_huff. The whole scan fails exactly if one of its symbols has no code.
    method Finish(ghost marker: Byte) returns (ok: bool)
      requires Valid() && done == |blocks| && marker != 0 && marker != 0xFF
      modifies this, writer
      ensures ok == AllHaveCodes(c, ScanSymbols(band, blocks, interval))
      ensures ok ==> ValidJob(job) && job.band == band && AllKnown(band, held, blocks) && ps != []
      ensures ok ==> Cuts(|blocks|, interval, ps) && AllWritten(job, held, blocks, ps) && NextLo(ps) == |blocks|
      ensures ok ==> writer.output + [0xFF, marker] == start + Joined(ps)
    {
      hide AllHaveCodes, Known, ValidBand, Agree, Stuff, Written, Faithful, Cuts, Joined, Counting, StartsSegment, Part,
           Sized, ScanCoded;
      ok := CloseSegment();
      if !ok {
        return;
      }
      ghost var piece := Piece(lo, done, writer.data, marker);
      CutPush(|blocks|, interval, ps, piece);
      PiecePushed(ps, piece);
      AddWritten(job, held, blocks, ps, piece);
      assert start + Joined(ps) + Stuff(piece.data) + [0xFF, piece.marker]
        == start + (Joined(ps) + Stuff(piece.data) + [0xFF, piece.marker]);
      ps := ps + [piece];
    }

    // One more correction bit in the buffer.
    method Append(ghost a: seq<int>, ghost b: seq<int>, ghost from: nat, ghost k: nat, br: nat, bit: nat)
      requires ValidBand(job.band) && ValidBand(band) && |b| == BLOCK && Coding(a, b, from) && k <= band.se
      requires Waiting(b, from, k, be, br) && be + br < MAX_CORR_BITS && bit < 2
      requires Corrections(band, b, from, k + 1) == Corrections(band, b, from, k) + [Field(bit, 1)]
      requires NoneNew(band, b, from, k + 1)
      modifies bitBuffer
      ensures Coding(a, b, from) && Waiting(b, from, k + 1, be, br + 1)
    {
      hide Agree, Buffered, Faithful, Halfway, Known, Corrections, NoneNew, ValidBand;
      ghost var before := bitBuffer[..];
      bitBuffer[be + br] := bit;
      assert bitBuffer[..be] == before[..be];
      assert bitBuffer[be..be + br + 1] == before[be..be + br] + [bit];
      assert before[..be] == old(bitBuffer[..be]) && before[be..be + br] == old(bitBuffer[be..be + br]);
      BufferedPush(before[be..be + br], bit);
    }

    lemma NothingWaits(b: seq<int>, k: nat)
      requires ValidBand(band) && |b| == BLOCK && k <= band.se + 1 && be <= bitBuffer.Length
      ensures Waiting(b, k, k, be, 0) && Zeros(band, b, k, k) == 0
    {
      assert bitBuffer[be..be + 0] == [];
      BufferedNone();
    }
  }

  // What coefficient k adds to a stretch.
  lemma PassedOne(band: Band, b: seq<int>, lo: nat, k: nat)
    requires ValidBand(band) && |b| == BLOCK && lo <= k <= band.se
    ensures var m := At(band, b, k);
      && (m == 0 ==> Zeros(band, b, lo, k + 1) == Zeros(band, b, lo, k) + 1)
      && (m == 0 ==> Corrections(band, b, lo, k + 1) == Corrections(band, b, lo, k))
      && (m > 1 ==> Zeros(band, b, lo, k + 1) == Zeros(band, b, lo, k))
      && (m > 1 ==> Corrections(band, b, lo, k + 1) == Corrections(band, b, lo, k) + [Field(m % 2, 1)])
      && (m != 1 && NoneNew(band, b, lo, k) ==> NoneNew(band, b, lo, k + 1))
  {
    hide Magnitude;
  }

  lemma SixteenthStep(band: Band, b: seq<int>, lo: nat, z: nat, k: nat, eob: nat) returns (s: nat)
    requires ValidBand(band) && |b| == BLOCK && lo <= k <= band.se && At(band, b, k) == 0 && eob <= band.se
    requires k <= eob && Zeros(band, b, lo, k) > 15 ==> SixteenthZero(band, b, lo, z, k)
    ensures k + 1 <= eob && Zeros(band, b, lo, k) + 1 > 15 ==> SixteenthZero(band, b, lo, s, k + 1)
  {
    hide Magnitude, Zeros;
    s := if Zeros(band, b, lo, k) == 15 then k else z;
  }

  lemma ZerosLeft(band: Band, b: seq<int>, lo: nat, r: nat, br: nat, bits: seq<nat>)
    requires ValidBand(band) && |b| == BLOCK && lo <= band.se + 1 && r == Zeros(band, b, lo, band.se + 1)
    requires NoneNew(band, b, lo, band.se + 1) && |bits| == br
    requires Buffered(bits) == Corrections(band, b, lo, band.se + 1)
    ensures r > 0 || br > 0 <==> lo <= band.se
  {
    hide At, Zeros, Corrections, NoneNew;
    ZerosBound(band, b, lo, band.se + 1);
    BufferedLength(bits);
  }

  lemma {:induction false} BufferedLength(bits: seq<nat>)
    ensures Length(Buffered(bits)) == |bits|
  {
    if bits == [] {
      LengthNone();
    } else {
      BufferedLength(bits[..|bits| - 1]);
      PackPush(Buffered(bits[..|bits| - 1]), Field(bits[|bits| - 1], 1));
    }
  }

  lemma NewStep(job: Job, fields: seq<Field>, bs: Blocks, a: seq<int>, b: seq<int>, lo: nat, k: nat, r: nat,
                bits: seq<nat>)
    requires ValidJob(job) && Known(job.band, a, b) && job.band.ss <= lo <= k <= job.band.se
    requires Halfway(job, fields, bs, a, b, lo)
    requires NoneNew(job.band, b, lo, k) && At(job.band, b, k) == 1 && r == Zeros(job.band, b, lo, k) <= 15
    requires HasCode(job.c, 16 * r + 1) && Buffered(bits) == Corrections(job.band, b, lo, k)
    ensures Halfway(job, fields + CodeFields(job.c, 16 * r + 1, SignBit(b[job.band.order[k]]), bits), bs, a, b, k + 1)
  {
    hide Halfway, NoneNew, At, Zeros, HasCode, Corrections, Buffered, SignBit, Agree;
    CodeNew(job, fields, bs, a, b, lo, k);
    assert NewFields(job, b, lo, k) == CodeFields(job.c, 16 * r + 1, SignBit(b[job.band.order[k]]), bits);
  }

  lemma BandRange(band: Band)
    requires ValidBand(band)
    ensures 1 <= band.ss <= band.se < BLOCK
  {
  }

  lemma KnownSizes(band: Band, a: seq<int>, b: seq<int>)
    requires Known(band, a, b)
    ensures |a| == |b| == BLOCK
  {
  }

  lemma JoinBuffered(buffer: seq<nat>, be: nat, br: nat)
    requires be + br <= |buffer|
    ensures Buffered(buffer[..be + br]) == Buffered(buffer[..be]) + Buffered(buffer[be..be + br])
    ensures be == 0 ==> Buffered(buffer[..be + br]) == Buffered(buffer[be..be + br])
  {
    assert buffer[..be + br] == buffer[..be] + buffer[be..be + br];
    BufferedAppend(buffer[..be], buffer[be..be + br]);
    if be == 0 {
      assert buffer[..br] == buffer[0..br];
    }
  }

  lemma FinishedDecodes(job: Job, fields: seq<Field>, bs: Blocks, data: seq<Byte>)
    requires ValidJob(job) && Faithful(job, fields, 0, [], bs)
    requires Carries(data, 0, fields) && Length(fields) <= 8 * |data|
    ensures Decodes(job, data, bs, Position(Length(fields), 0))
  {
    hide Carries, Length, Decodes, Agree;
    assert Possible(job, 0, 0) && Pending(job, fields, 0, [], 0) == fields;
    assert Carrier(data, fields);
  }

  lemma OrderAt(band: Band, k: nat)
    requires ValidBand(band) && k <= band.se
    ensures k < |band.order| && band.order[k] < BLOCK
  {
  }

  lemma OneBit(bit: nat)
    requires bit < 2
    ensures bit % Pow2(1) == bit
  {
  }

  lemma ZrlStep(band: Band, b: seq<int>, lo: nat, z: nat, k: nat)
    requires ValidBand(band) && |b| == BLOCK && SixteenthZero(band, b, lo, z, k) && NoneNew(band, b, lo, k)
    ensures lo <= z < k <= band.se + 1
    ensures Zeros(band, b, lo, k) == 16 + Zeros(band, b, z + 1, k) && Zeros(band, b, lo, z) == 15
    ensures Corrections(band, b, lo, k) == Corrections(band, b, lo, z)
    ensures Corrections(band, b, z + 1, k) == []
    ensures Zeros(band, b, z + 1, k) > 15 ==> SixteenthZero(band, b, z + 1, z + 16, k)
    ensures NoneNew(band, b, z + 1, k) && NoneNew(band, b, lo, z) && At(band, b, z) == 0
  {
    hide At, Zeros, Corrections;
    AfterZrl(band, b, lo, z, k);
  }

  lemma StartFaithful(job: Job)
    requires ValidJob(job)
    ensures Faithful(job, [], 0, [], Blocks([], []))
  {
    LengthNone();
  }

  // ----- Which symbol is next -----

  lemma ZrlIsNext(band: Band, b: seq<int>, k: nat, r: nat)
    requires ValidBand(band) && |b| == BLOCK && band.ss <= k <= band.se
    requires At(band, b, k) != 0 && r > 15 && k <= Eob(band, b)
    ensures BandSymbols(band, b, k, r) == [ZRL] + BandSymbols(band, b, k, r - 16)
  {
    hide At, Eob;
  }

  lemma NewIsNext(band: Band, b: seq<int>, k: nat, r: nat)
    requires ValidBand(band) && |b| == BLOCK && band.ss <= k <= band.se && At(band, b, k) == 1 && r <= 15
    ensures BandSymbols(band, b, k, r) == [16 * r + 1] + BandSymbols(band, b, k + 1, 0)
  {
    hide At, Eob;
  }

  lemma CorrectionIsNext(band: Band, b: seq<int>, k: nat, r: nat)
    requires ValidBand(band) && |b| == BLOCK && band.ss <= k <= band.se
    requires At(band, b, k) > 1 && (r <= 15 || k > Eob(band, b))
    ensures BandSymbols(band, b, k, r) == BandSymbols(band, b, k + 1, r)
  {
    hide At, Eob;
  }

  lemma ZeroIsNext(band: Band, b: seq<int>, k: nat, r: nat)
    requires ValidBand(band) && |b| == BLOCK && band.ss <= k <= band.se && At(band, b, k) == 0
    ensures BandSymbols(band, b, k, r) == BandSymbols(band, b, k + 1, r + 1)
  {
    hide At, Eob;
  }

  lemma NothingNext(band: Band, b: seq<int>, r: nat, e: Emission)
    requires ValidBand(band) && |b| == BLOCK && e.run <= MAX_RUN
    ensures Continued(e, BandSymbols(band, b, band.se + 1, r)) == e
  {
  }

  lemma ClosedIs(e: Emission)
    requires e.run <= MAX_RUN
    ensures Closed(e) == Emission(Closed(e).symbols, 0, 0)
  {
  }

  lemma TailIs(band: Band, b: seq<int>)
    requires ValidBand(band) && |b| == BLOCK
    ensures var eob := Eob(band, b);
      && TailStart(band, b) == (if eob == 0 then band.ss else eob + 1)
      && (eob != 0 ==> band.ss <= eob <= band.se && At(band, b, eob) == 1)
  {
  }

  // ----- Missing codes -----

  lemma OneCode(c: CDerived, x: Byte)
    ensures AllHaveCodes(c, [x]) <==> HasCode(c, x)
  {
    hide HasCode;
    assert [x][0] == x;
  }

  lemma NoRun(c: CDerived, symbols: seq<Byte>)
    ensures AllHaveCodes(c, RunSymbols(0)) && symbols + RunSymbols(0) == symbols
  {
  }

  lemma OpenedMissing(c: CDerived, band: Band, e: Emission, b: seq<int>)
    requires ValidBand(band) && |b| == BLOCK && Bounded(e) && !AllHaveCodes(c, Opened(band, e, b).symbols)
    ensures !AllHaveCodes(c, BlockCoded(band, e, b).symbols)
  {
    hide AllHaveCodes, Opened, TailStart, Corrections;
    var f := BlockCoded(band, e, b).symbols;
    if AllHaveCodes(c, f) {
      CodesOfPrefix(c, Opened(band, e, b).symbols, f);
      assert false;
    }
  }

  lemma BlockMissing(c: CDerived, band: Band, e: Emission, b: seq<int>)
    requires ValidBand(band) && |b| == BLOCK && Bounded(e) && !AllHaveCodes(c, e.symbols)
    ensures !AllHaveCodes(c, BlockCoded(band, e, b).symbols)
  {
    hide AllHaveCodes, BlockCoded;
    BlockGrows(band, e, b);
    var f := BlockCoded(band, e, b).symbols;
    if AllHaveCodes(c, f) {
      CodesOfPrefix(c, e.symbols, f);
      assert false;
    }
  }

  lemma AddWritten(job: Job, held: seq<seq<int>>, blocks: seq<seq<int>>, ps: seq<Piece>, p: Piece)
    requires ValidJob(job) && AllKnown(job.band, held, blocks) && AllWritten(job, held, blocks, ps)
    requires p.lo <= p.hi <= |blocks| && Written(job, p.data, Part(job.band, held, blocks, p.lo, p.hi))
    ensures AllWritten(job, held, blocks, ps + [p])
  {
    hide Written, Part, Agree, ValidBand, Known;
  }

  lemma FaithfulBlocks(job: Job, fields: seq<Field>, bs: Blocks)
    requires ValidJob(job) && Faithful(job, fields, 0, [], bs)
    ensures ValidBlocks(bs)
  {
  }
}
