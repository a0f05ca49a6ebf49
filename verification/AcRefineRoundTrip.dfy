// An AC refinement scan, written and read back through bytes, restart markers and suspensions.

module AcRefineRoundTrip {
  import opened CodeBits
  import opened Coefficients
  import opened PointTransform
  import opened Segment
  import opened RestartSegments
  import opened RestartMarkers
  import opened HuffmanTree
  import opened HuffmanLengths
  import opened HuffmanGeneration
  import opened HuffmanTables
  import opened HuffmanFields
  import opened BitPacker
  import opened BitReader
  import opened BlockCoding
  import opened BlockStatistics
  import opened OptimizedTables
  import opened AcRefinement
  import opened AcRefineCoding
  import opened AcRefineRuns
  import opened AcRefineSymbols
  import opened AcRefineEncoder
  import opened AcRefineStatistics
  import opened AcRefineDecoder

  // Encode a scan. Fails exactly if a symbol of the scan has no code.
  method EncodeScan(band: Band, c: CDerived, ghost t: HuffTable, interval: nat, blocks: seq<seq<int>>,
                    ghost held: seq<seq<int>>, ghost marker: Byte)
    returns (ok: bool, output: seq<Byte>, ghost ps: seq<Piece>)
    requires ValidBand(band) && Agree(c, t) && AllKnown(band, held, blocks) && Sized(blocks)
    requires marker != 0 && marker != 0xFF
    ensures ok == AllHaveCodes(c, ScanSymbols(band, blocks, interval))
    ensures ok ==> ValidJob(Job(band, c, t)) && Coded(Job(band, c, t), interval, held, blocks, ps)
    ensures ok ==> output + [0xFF, marker] == Joined(ps)
  {
    hide Known, Sharpened, ValidBand, Agree, Cuts, AllWritten, AllHaveCodes, AllKnown, ScanCoded, Joined, Sized,
         ScanSymbols, RefineEncoder.Valid;
    assert Sized(held) by { KnownAre(band, held, blocks); }
    assert |c.ehufco| == |c.ehufsi| == 256 by { TableSizes(c, t); }
    ps := [];
    var w := new BitWriter();
    var e := new RefineEncoder(w, band, c, interval, t, held, blocks);
    for i := 0 to |blocks|
      invariant e.Valid() && e.writer == w && e.band == band && e.c == c && e.job == Job(band, c, t) && e.start == []
      invariant e.interval == interval && e.held == held && e.blocks == blocks && e.done == i
      invariant fresh(w) && fresh(e) && fresh(e.bitBuffer)
    {
      ok := e.EncodeMcu(blocks[i]);
      if !ok {
        StillMissing(c, band, blocks, interval, i + 1);
        return false, [], ps;
      }
    }
    ok := e.Finish(marker);
    output, ps := w.output, e.ps;
    assert [] + Joined(ps) == Joined(ps);
  }

  // The pieces code the whole scan.
  ghost predicate Coded(job: Job, interval: nat, held: seq<seq<int>>, blocks: seq<seq<int>>, ps: seq<Piece>)
    requires ValidJob(job)
  {
    && AllKnown(job.band, held, blocks) && Sized(held)
    && Cuts(|blocks|, interval, ps) && AllWritten(job, held, blocks, ps)
    && ps != [] && NextLo(ps) == |blocks|
  }

  lemma TableSizes(c: CDerived, t: HuffTable)
    requires Agree(c, t)
    ensures |c.ehufco| == |c.ehufsi| == 256
  {
  }

  lemma StillMissing(c: CDerived, band: Band, blocks: seq<seq<int>>, interval: nat, n: nat)
    requires ValidBand(band) && Sized(blocks) && n <= |blocks|
    requires !AllHaveCodes(c, ScanCoded(band, blocks, interval, n).symbols)
    ensures !AllHaveCodes(c, ScanSymbols(band, blocks, interval))
  {
    hide AllHaveCodes, ScanCoded, ScanSymbols;
    ScanOnlyGrows(band, blocks, interval, n, |blocks|);
    if AllHaveCodes(c, ScanSymbols(band, blocks, interval)) {
      CodesOfPrefix(c, ScanCoded(band, blocks, interval, n).symbols, ScanSymbols(band, blocks, interval));
      assert false;
    }
  }

  // ----- What a decoder makes of the pieces -----

  // Inside piece k, before block i.
  ghost function Expected(job: Job, interval: nat, held: seq<seq<int>>, ps: seq<Piece>, k: nat, i: nat)
    : (s: Situation<Position>)
    requires ValidJob(job) && Sized(held) && k < |ps| && ps[k].lo <= i <= ps[k].hi <= |held|
    requires interval > 0 ==> i - ps[k].lo <= interval
  {
    var p := ps[k];
    Situation(p.data, |Joined(ps[..k + 1])|, k % 8, if interval > 0 then interval - (i - p.lo) else 0,
              After(job.band, job.t, p.data, held[p.lo..p.hi], Position(0, 0), i - p.lo))
  }

  // What is known about piece k.
  lemma PieceFacts(job: Job, interval: nat, held: seq<seq<int>>, blocks: seq<seq<int>>, ps: seq<Piece>, k: nat)
    requires ValidJob(job) && Coded(job, interval, held, blocks, ps) && k < |ps|
    ensures |held| == |blocks| && ps[k].lo <= ps[k].hi <= |blocks|
    ensures ps[k].hi == SegmentEnd(ps[k].lo, |blocks|, interval)
    ensures interval > 0 ==> ps[k].hi - ps[k].lo <= interval
    ensures ps[k].hi < |blocks| ==> k + 1 < |ps| && ps[k + 1].lo == ps[k].hi && ps[k].hi == ps[k].lo + interval
    ensures ps[0].lo == 0 && Sized(held)
    ensures Written(job, ps[k].data, Part(job.band, held, blocks, ps[k].lo, ps[k].hi))
  {
    hide Cuts, Written, Part, Agree, Known, ValidBand;
    CutFacts(|blocks|, interval, ps, k);
    assert PieceWritten(job, held, blocks, ps[k]);
  }

  // A block inside a piece.
  lemma BlockInPiece(job: Job, interval: nat, held: seq<seq<int>>, blocks: seq<seq<int>>, ps: seq<Piece>, k: nat,
                     i: nat, input: seq<Byte>, s: Situation<Position>)
    requires ValidJob(job) && Coded(job, interval, held, blocks, ps) && k < |ps| && ps[k].lo <= i < ps[k].hi <= |held|
    requires s.end > 0 && |held| == |blocks| && Sized(held) && (interval > 0 ==> ps[k].hi - ps[k].lo <= interval)
    requires Ready(input, interval, s) == Expected(job, interval, held, ps, k, i)
    ensures NextSituation(job.band, job.t, input, interval, s, held[i]) == Expected(job, interval, held, ps, k, i + 1)
    ensures Outcome(job.band, NextStep(job.band, job.t, input, interval, s, held[i]))
      == Sharpened(job.band, held[i], blocks[i])
  {
    hide Ready, Cuts, AllWritten, Agree, Sharpened, Known, Step, Joined, Outcome, ValidBand;
    PieceFacts(job, interval, held, blocks, ps, k);
    var p := ps[k];
    var at: nat :| at <= 8 * |p.data| && Decodes(job, p.data, Part(job.band, held, blocks, p.lo, p.hi),
                                                 Position(at, 0));
    var part := held[p.lo..p.hi];
    var j := i - p.lo;
    assert part[j] == held[i];
    assert Refinement(job.band, job.t, p.data, part, Position(0, 0), j) == Sharpened(job.band, held[i], blocks[i]);
    assert After(job.band, job.t, p.data, part, Position(0, 0), j + 1) ==
      var f := Step(job.band, job.t, p.data, held[i], After(job.band, job.t, p.data, part, Position(0, 0), j));
      Position(f.at, f.eobrun);
  }

  // Behind a piece the decoder goes on with the next one.
  lemma NextPieceReady(job: Job, interval: nat, held: seq<seq<int>>, blocks: seq<seq<int>>, ps: seq<Piece>, k: nat,
                       tail: seq<Byte>)
    requires ValidJob(job) && Coded(job, interval, held, blocks, ps) && k + 1 < |ps|
    requires |held| == |blocks| && Sized(held) && ps[k].lo <= ps[k].hi == ps[k + 1].lo <= ps[k + 1].hi <= |held|
    requires interval > 0 && ps[k].hi == ps[k].lo + interval && ps[k].hi < |blocks|
    ensures var s := Expected(job, interval, held, ps, k, ps[k].hi);
      && s.end > 0
      && Ready(Joined(ps) + tail, interval, s) == Expected(job, interval, held, ps, k + 1, ps[k].hi)
  {
    hide Cuts, AllWritten, Agree, Known, Joined, LandingAt, StretchAt, After, ValidJob, Expected, AllKnown;
    NextPiece(|blocks|, interval, ps, k, tail);
    ExpectedEnds(job, interval, held, ps, k);
    ExpectedStarts(job, interval, held, ps, k + 1);
  }

  lemma ExpectedEnds(job: Job, interval: nat, held: seq<seq<int>>, ps: seq<Piece>, k: nat)
    requires ValidJob(job) && Sized(held) && k < |ps| && ps[k].lo <= ps[k].hi <= |held|
    requires interval > 0 && ps[k].hi - ps[k].lo == interval
    ensures var s := Expected(job, interval, held, ps, k, ps[k].hi);
      s.end == |Joined(ps[..k + 1])| && s.num == k % 8 && s.togo == 0
  {
    hide After, Joined, ValidJob;
  }

  lemma ExpectedStarts(job: Job, interval: nat, held: seq<seq<int>>, ps: seq<Piece>, k: nat)
    requires ValidJob(job) && Sized(held) && k < |ps| && ps[k].lo <= ps[k].hi <= |held|
    ensures Expected(job, interval, held, ps, k, ps[k].lo) ==
      Situation(ps[k].data, |Joined(ps[..k + 1])|, k % 8, interval, Position(0, 0))
  {
    hide After, Joined, ValidJob;
    var p := ps[k];
    AfterNone(job, p.data, held[p.lo..p.hi]);
  }

  lemma AfterNone(job: Job, data: seq<Byte>, bs: seq<seq<int>>)
    requires ValidJob(job) && Sized(bs)
    ensures After(job.band, job.t, data, bs, Position(0, 0), 0) == Position(0, 0)
  {
  }

  // Before block i the decoder is in the piece that codes it, or behind the one before.
  lemma {:induction false} Follows(job: Job, interval: nat, held: seq<seq<int>>, blocks: seq<seq<int>>, ps: seq<Piece>,
                                   tail: seq<Byte>, start: Situation<Position>, i: nat) returns (k: nat)
    requires ValidJob(job) && Coded(job, interval, held, blocks, ps) && i <= |blocks| == |held| && Sized(held)
    requires start.end > 0 && ps[0].lo == 0 <= ps[0].hi <= |held| && start == Expected(job, interval, held, ps, 0, 0)
    ensures k < |ps| && ps[k].lo <= i <= ps[k].hi <= |held| && (interval > 0 ==> ps[k].hi - ps[k].lo <= interval)
    ensures i > 0 ==> ps[k].lo < i
    ensures Sequel(job.band, job.t, Joined(ps) + tail, interval, start, held, i)
      == Expected(job, interval, held, ps, k, i)
    decreases i, 0
  {
    hide Cuts, AllWritten, Agree, Known, Step, Joined, NextSituation, Expected, ValidBand;
    if i == 0 {
      k := 0;
      PieceFacts(job, interval, held, blocks, ps, 0);
    } else {
      k := ReadyAt(job, interval, held, blocks, ps, tail, start, i - 1);
      var s := Sequel(job.band, job.t, Joined(ps) + tail, interval, start, held, i - 1);
      BlockInPiece(job, interval, held, blocks, ps, k, i - 1, Joined(ps) + tail, s);
    }
  }

  // Block i is decoded in the piece that codes it.
  lemma {:induction false} ReadyAt(job: Job, interval: nat, held: seq<seq<int>>, blocks: seq<seq<int>>, ps: seq<Piece>,
                                   tail: seq<Byte>, start: Situation<Position>, i: nat) returns (k: nat)
    requires ValidJob(job) && Coded(job, interval, held, blocks, ps) && i < |blocks| == |held| && Sized(held)
    requires start.end > 0 && ps[0].lo == 0 <= ps[0].hi <= |held| && start == Expected(job, interval, held, ps, 0, 0)
    ensures k < |ps| && ps[k].lo <= i < ps[k].hi <= |held| && (interval > 0 ==> ps[k].hi - ps[k].lo <= interval)
    ensures Ready(Joined(ps) + tail, interval, Sequel(job.band, job.t, Joined(ps) + tail, interval, start, held, i))
      == Expected(job, interval, held, ps, k, i)
    decreases i, 1
  {
    hide Cuts, AllWritten, Agree, Known, Step, Joined, NextSituation, ValidBand, Coded, Sequel;
    k := Follows(job, interval, held, blocks, ps, tail, start, i);
    PieceFacts(job, interval, held, blocks, ps, k);
    if i == ps[k].hi {
      PieceFacts(job, interval, held, blocks, ps, k + 1);
      NextPieceReady(job, interval, held, blocks, ps, k, tail);
      k := k + 1;
    }
  }

  // Where the piece with block i ends, nothing more is needed for it.
  lemma ReadyEnds(job: Job, interval: nat, held: seq<seq<int>>, blocks: seq<seq<int>>, ps: seq<Piece>,
                  tail: seq<Byte>, start: Situation<Position>, i: nat)
    requires ValidJob(job) && Coded(job, interval, held, blocks, ps) && i < |blocks| == |held| && Sized(held)
    requires start.end > 0 && ps[0].lo == 0 <= ps[0].hi <= |held| && start == Expected(job, interval, held, ps, 0, 0)
    ensures Ready(Joined(ps) + tail, interval, Sequel(job.band, job.t, Joined(ps) + tail, interval, start, held, i)).end
      <= |Joined(ps)|
  {
    hide Cuts, AllWritten, Agree, Known, Step, Joined, ValidBand, Coded, Sequel, Ready, After;
    var k := ReadyAt(job, interval, held, blocks, ps, tail, start, i);
    JoinedGrows(ps, k + 1);
  }

  lemma BlockReturns(job: Job, interval: nat, held: seq<seq<int>>, blocks: seq<seq<int>>, ps: seq<Piece>,
                     tail: seq<Byte>, start: Situation<Position>, i: nat)
    requires ValidJob(job) && Coded(job, interval, held, blocks, ps) && i < |blocks| == |held| && Sized(held)
    requires start.end > 0 && ps[0].lo == 0 <= ps[0].hi <= |held| && start == Expected(job, interval, held, ps, 0, 0)
    ensures var input := Joined(ps) + tail;
      var s := Sequel(job.band, job.t, input, interval, start, held, i);
      Outcome(job.band, NextStep(job.band, job.t, input, interval, s, held[i]))
        == Sharpened(job.band, held[i], blocks[i])
  {
    hide Cuts, AllWritten, Agree, Known, Step, Joined, ValidBand, Coded, Sequel, Ready, After, Outcome, NextStep,
         Sharpened, Expected;
    var input := Joined(ps) + tail;
    var k := ReadyAt(job, interval, held, blocks, ps, tail, start, i);
    BlockInPiece(job, interval, held, blocks, ps, k, i, input,
                 Sequel(job.band, job.t, input, interval, start, held, i));
  }

  // A decoder starts at the first piece.
  lemma FirstPiece(job: Job, interval: nat, held: seq<seq<int>>, blocks: seq<seq<int>>, ps: seq<Piece>, tail: seq<Byte>)
    requires ValidJob(job) && Coded(job, interval, held, blocks, ps)
    ensures |held| == |blocks| && ps[0].lo == 0 <= ps[0].hi <= |held|
    ensures var input := Joined(ps) + tail;
      Situation(Unstuff(input, 0), AfterMarker(input, 0), 0, interval, Position(0, 0))
        == Expected(job, interval, held, ps, 0, 0)
  {
    hide AllWritten, Agree, Known, Joined, Unstuff, AfterMarker, After, InputAt, Expected, Written, ValidJob, Cuts;
    PieceFacts(job, interval, held, blocks, ps, 0);
    PieceRead(|blocks|, interval, ps, 0, tail);
    ExpectedStarts(job, interval, held, ps, 0);
    NothingJoined();
    assert ps[..0] == [];
  }

  // ----- 16 bits are enough -----

  ghost predicate Narrow(b: seq<int>) {
    forall i :: 0 <= i < |b| ==> ToCoef(b[i]) == b[i]
  }

  lemma TruncatedIsNarrow(x: int, al: nat)
    requires ToCoef(x) == x
    ensures ToCoef(Truncate(x, al)) == Truncate(x, al)
  {
    hide Pow2;
    var q, w := Magnitude(x, al), Pow2(al);
    assert Abs(x) == q * w + Abs(x) % w;
  }

  // Coefficients of 16 bits are coefficients of 16 bits at every precision.
  lemma SharpenedIsNarrow(band: Band, a: seq<int>, b: seq<int>)
    requires Known(band, a, b) && Narrow(a) && Narrow(b)
    ensures Narrow(Sharpened(band, a, b))
  {
    hide Narrow, Target;
    TargetIsNarrow(band, a, b, band.se + 1);
  }

  lemma {:induction false} TargetIsNarrow(band: Band, a: seq<int>, b: seq<int>, k: nat)
    requires Known(band, a, b) && band.ss <= k <= band.se + 1 && Narrow(a) && Narrow(b)
    ensures Narrow(Target(band, a, b, k))
  {
    hide Truncate, ToCoef;
    if k > band.ss {
      TargetIsNarrow(band, a, b, k - 1);
      TruncatedIsNarrow(b[band.order[k - 1]], band.al);
    }
  }

  // ----- Main results -----

  // Decode a coded scan: whatever the cutting of the data into chunks and what follows the
  // last marker, every block that the decoder finishes has all its coefficients at the new
  // precision, and it finishes all of them once the last marker has arrived.
  method DecodePieces(job: Job, interval: nat, input: seq<Byte>, arrays: seq<array<int>>, chunks: seq<nat>,
                      ghost held: seq<seq<int>>, ghost blocks: seq<seq<int>>, ghost ps: seq<Piece>,
                      ghost tail: seq<Byte>)
    returns (done: nat)
    requires ValidJob(job) && GoodTable(job.t) && Coded(job, interval, held, blocks, ps) && input == Joined(ps) + tail
    requires |arrays| == |held|
    requires forall i | 0 <= i < |arrays| :: arrays[i].Length == BLOCK && arrays[i][..] == held[i]
    requires forall i, j | 0 <= i < j < |arrays| :: arrays[i] != arrays[j]
    modifies arrays
    ensures done <= |arrays| == |blocks| && AllKnown(job.band, held, blocks)
    ensures forall i | 0 <= i < done :: arrays[i][..] == Sharpened(job.band, held[i], blocks[i])
    ensures Arrived(chunks) >= |Joined(ps)| ==> done == |arrays|
  {
    hide Known, Sharpened, ValidBand, Agree, Unstuff, AfterMarker, GoodTable, Sequel, NextStep, Ready, Expected, Joined,
         Outcome, Reads, Cuts, AllWritten, RefineDecoder.Steady;
    FirstPiece(job, interval, held, blocks, ps, tail);
    var reader := new Reader(input, 0, 0);
    var decoder := new RefineDecoder(reader, job.band, job.t, interval);
    ghost var start := decoder.Here();
    done := decoder.DecodeScan(arrays, chunks, held);
    forall i | 0 <= i < done
      ensures arrays[i][..] == Sharpened(job.band, held[i], blocks[i])
    {
      BlockReturns(job, interval, held, blocks, ps, tail, start, i);
    }
    if done < |arrays| {
      ReadyEnds(job, interval, held, blocks, ps, tail, start, done);
    }
  }

  // Every symbol is listed in the table.
  ghost predicate Lists(bits: seq<Byte>, huffval: seq<Byte>, symbols: seq<Byte>)
    requires |bits| == 17 && Total(bits, 16) <= |huffval|
  {
    forall i :: 0 <= i < |symbols| ==> symbols[i] in ListedSymbols(bits, huffval)
  }

  lemma ListedHaveCodes(c: CDerived, bits: seq<Byte>, huffval: seq<Byte>, symbols: seq<Byte>)
    requires |bits| == 17 && EncodesTable(c, bits, huffval, Total(bits, 16))
    ensures AllHaveCodes(c, symbols) <==> Lists(bits, huffval, symbols)
  {
    hide HasLength, CodeOf, Total;
  }

  // Main result for a given table: coding fails exactly if the table is not legal or lacks a
  // symbol of the scan; otherwise all blocks come back.
  method CodeAndDecode(band: Band, bits: seq<Byte>, huffval: seq<Byte>, interval: nat, blocks: seq<seq<int>>,
                       arrays: seq<array<int>>, chunks: seq<nat>, marker: Byte, tail: seq<Byte>,
                       ghost held: seq<seq<int>>)
    returns (ok: bool, done: nat, length: nat)
    requires |bits| == 17 && |huffval| == 256 && AllKnown(band, held, blocks) && Sized(blocks)
    requires |arrays| == |blocks| && marker != 0 && marker != 0xFF
    requires forall i | 0 <= i < |arrays| :: arrays[i].Length == BLOCK && arrays[i][..] == held[i]
    requires forall i, j | 0 <= i < j < |arrays| :: arrays[i] != arrays[j]
    modifies arrays
    ensures ok <==> LegalTable(bits, huffval) && Lists(bits, huffval, ScanSymbols(band, blocks, interval))
    ensures ok ==> done <= |arrays|
    ensures ok ==> forall i | 0 <= i < done :: arrays[i][..] == Sharpened(band, held[i], blocks[i])
    ensures ok && Arrived(chunks) >= length ==> done == |arrays|
  {
    hide Known, Sharpened, ValidBand, Agree, Unstuff, AllHaveCodes, LegalTable, CountsLegal, Lists, GoodTable,
         LookEntry, EncodesTable, DecodesTable, Joined, Cuts, AllWritten, ScanSymbols, Coded, Sized;
    done, length := 0, 0;
    var c, d;
    ok, c := MakeCDerivedTbl(false, bits, huffval);
    AnySymbol(bits, huffval);
    if !ok {
      return;
    }
    ok, d := MakeDDerivedTbl(false, bits, huffval);
    var t := HuffTable(bits, huffval, d);
    DerivedIsGood(bits, huffval, d);
    TablesFit(c, t, false);
    ListedHaveCodes(c, bits, huffval, ScanSymbols(band, blocks, interval));
    ok, done, length := Transfer(Job(band, c, t), interval, blocks, arrays, chunks, marker, tail, held);
  }

  // A table of AC symbols may hold any byte.
  lemma AnySymbol(bits: seq<Byte>, huffval: seq<Byte>)
    requires |bits| == 17
    ensures LegalTable(bits, huffval) ==>
      CountsLegal(bits, huffval) && SymbolsBelow(ListedSymbols(bits, huffval), MaxSymbol(false))
  {
  }

  // Encoding and decoding with derived tables.
  method Transfer(job: Job, interval: nat, blocks: seq<seq<int>>, arrays: seq<array<int>>, chunks: seq<nat>,
                  marker: Byte, tail: seq<Byte>, ghost held: seq<seq<int>>)
    returns (ok: bool, done: nat, length: nat)
    requires ValidBand(job.band) && Agree(job.c, job.t) && GoodTable(job.t)
    requires AllKnown(job.band, held, blocks) && Sized(blocks)
    requires |arrays| == |blocks| && marker != 0 && marker != 0xFF
    requires forall i | 0 <= i < |arrays| :: arrays[i].Length == BLOCK && arrays[i][..] == held[i]
    requires forall i, j | 0 <= i < j < |arrays| :: arrays[i] != arrays[j]
    modifies arrays
    ensures ok == AllHaveCodes(job.c, ScanSymbols(job.band, blocks, interval))
    ensures ok ==> done <= |arrays|
    ensures ok ==> forall i | 0 <= i < done :: arrays[i][..] == Sharpened(job.band, held[i], blocks[i])
    ensures ok && Arrived(chunks) >= length ==> done == |arrays|
  {
    hide Known, Sharpened, ValidBand, Agree, Joined, Cuts, AllWritten, ScanSymbols, GoodTable, AllHaveCodes, Coded;
    done, length := 0, 0;
    var scan;
    ghost var ps;
    ok, scan, ps := EncodeScan(job.band, job.c, job.t, interval, blocks, held, marker);
    if ok {
      var input := scan + [0xFF, marker] + tail;
      assert input == Joined(ps) + tail;
      length := |scan| + 2;
      done := DecodePieces(job, interval, input, arrays, chunks, held, blocks, ps, tail);
    }
  }

  // Main result for generated tables: statistics, table, scan. Coding never meets a symbol
  // without a code, and fails exactly if a code would need more than 32 bits.
  method TwoPass(band: Band, interval: nat, blocks: seq<seq<int>>, arrays: seq<array<int>>, chunks: seq<nat>,
                 marker: Byte, tail: seq<Byte>, ghost held: seq<seq<int>>)
    returns (ok: bool, done: nat, length: nat)
    requires AllKnown(band, held, blocks) && Sized(blocks) && blocks != []
    requires |arrays| == |blocks| && marker != 0 && marker != 0xFF
    requires |ScanSymbols(band, blocks, interval)| < SENTINEL
    requires forall i | 0 <= i < |arrays| :: arrays[i].Length == BLOCK && arrays[i][..] == held[i]
    requires forall i, j | 0 <= i < j < |arrays| :: arrays[i] != arrays[j]
    modifies arrays
    ensures ok <==> ShortCodes(Tally(NoCounts(), AsTokens(ScanSymbols(band, blocks, interval), 0), false, 0))
    ensures |ScanSymbols(band, blocks, interval)| + 1 < LeastWeight(MAX_CLEN + 1) ==> ok
    ensures ok ==> done <= |arrays|
    ensures ok ==> forall i | 0 <= i < done :: arrays[i][..] == Sharpened(band, held[i], blocks[i])
    ensures ok && Arrived(chunks) >= length ==> done == |arrays|
  {
    hide Known, Sharpened, ValidBand, Agree, ScanSymbols, GoodTable, AllHaveCodes, LeastWeight, Tally, BaselineTokens,
         HasCode, RefineGatherer.Valid, AllKnown, Sized, ShortCodes;
    assert ValidBand(band) by { KnownAre(band, held, blocks); }
    done, length := 0, 0;
    ghost var symbols := ScanSymbols(band, blocks, interval);
    var counts := GatherScan(band, interval, blocks);
    RefineTokens(band, blocks, interval);
    var c, t;
    ok, c, t := OptimizeTable(counts, false, AsTokens(symbols, 0), 0);
    if !ok {
      return;
    }
    TokensHaveCodes(c, symbols);
    ok, done, length := Transfer(Job(band, c, t), interval, blocks, arrays, chunks, marker, tail, held);
  }

  // The statistics pass over a scan.
  method GatherScan(band: Band, interval: nat, blocks: seq<seq<int>>) returns (counts: array<nat>)
    requires ValidBand(band) && Sized(blocks)
    ensures fresh(counts) && counts.Length == SYMBOLS
    ensures counts[..] == Tally(NoCounts(), AsTokens(ScanSymbols(band, blocks, interval), 0), false, 0)
  {
    hide ValidBand, ScanSymbols, Tally, RefineGatherer.Valid, Sized;
    counts := new nat[SYMBOLS](_ => 0);
    assert counts[..] == NoCounts();
    var g := new RefineGatherer(band, interval, 0, counts, blocks);
    for i := 0 to |blocks|
      invariant g.Valid() && g.band == band && g.interval == interval && g.table == 0 && g.counts == counts
      invariant g.blocks == blocks && g.done == i && fresh(g)
    {
      g.GatherMcu(blocks[i]);
    }
    g.Finish();
  }

  lemma RefineTokens(band: Band, blocks: seq<seq<int>>, interval: nat)
    requires ValidBand(band) && Sized(blocks) && blocks != []
    ensures var tokens := AsTokens(ScanSymbols(band, blocks, interval), 0);
      BaselineTokens(tokens) && exists u :: u in tokens && Uses(u, false, 0)
  {
    hide ScanSymbols, ValidBand;
    var symbols := ScanSymbols(band, blocks, interval);
    var tokens := AsTokens(symbols, 0);
    ScanSymbolsAre(band, blocks, interval, |blocks|);
    ScanHasSymbols(band, blocks, interval);
    assert tokens[0] in tokens && Uses(tokens[0], false, 0);
    forall t | t in tokens
      ensures t.symbol % 16 <= MAX_COEF_BITS + 1 && !t.isDC
    {
      var i :| 0 <= i < |tokens| && tokens[i] == t;
      assert t.symbol == symbols[i];
    }
  }

  lemma TokensHaveCodes(c: CDerived, symbols: seq<Byte>)
    requires forall u :: u in AsTokens(symbols, 0) && Uses(u, false, 0) ==> HasCode(c, u.symbol)
    ensures AllHaveCodes(c, symbols)
  {
    hide HasCode;
    var tokens := AsTokens(symbols, 0);
    forall i | 0 <= i < |symbols|
      ensures HasCode(c, symbols[i])
    {
      assert tokens[i] in tokens && Uses(tokens[i], false, 0);
    }
  }
}
