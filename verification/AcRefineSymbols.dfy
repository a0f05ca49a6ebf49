// The symbols of an AC refinement scan (section G.1.2.3 of ITU-T T.81): zero-run codes, newly
// nonzero coefficients, and runs of ends of band that are forced out when the run or the
// buffer for their correction bits is full.

module AcRefineSymbols {
  import opened CodeBits
  import opened Coefficients
  import opened PointTransform
  import opened RestartSegments
  import opened HuffmanTables
  import opened HuffmanFields
  import opened AcRefinement
  import opened AcRefineCoding
  import opened AcRefineRuns

  const MAX_CORR_BITS := 1000
  const ZRL: Byte := 0xF0

  // ----- One block -----

  // Index of the last newly nonzero coefficient before hi, 0 if there is none.
  ghost function LastNew(band: Band, b: seq<int>, hi: nat): (eob: nat)
    requires ValidBand(band) && |b| == BLOCK && hi <= band.se + 1
    ensures eob != 0 ==> band.ss <= eob < hi && At(band, b, eob) == 1
    ensures NoneNew(band, b, if eob == 0 then band.ss else eob + 1, hi)
  {
    if hi <= band.ss then 0 else if At(band, b, hi - 1) == 1 then hi - 1 else LastNew(band, b, hi - 1)
  }

  ghost function Eob(band: Band, b: seq<int>): (eob: nat)
    requires ValidBand(band) && |b| == BLOCK
    ensures eob != 0 ==> band.ss <= eob <= band.se && At(band, b, eob) == 1
    ensures NoneNew(band, b, if eob == 0 then band.ss else eob + 1, band.se + 1)
  {
    LastNew(band, b, band.se + 1)
  }

  // Where the part of the band begins that no code but an end of band can cover.
  ghost function TailStart(band: Band, b: seq<int>): (lo: nat)
    requires ValidBand(band) && |b| == BLOCK
    ensures band.ss <= lo <= band.se + 1
  {
    if Eob(band, b) == 0 then band.ss else Eob(band, b) + 1
  }

  // The low four bits of a symbol say how large a new coefficient is: 1 here, or there is none.
  predicate SmallSizes(symbols: seq<Byte>) {
    forall i :: 0 <= i < |symbols| ==> symbols[i] % 16 <= 1
  }

  // The symbols for the coefficients from k on, when r zeros wait.
  ghost function BandSymbols(band: Band, b: seq<int>, k: nat, r: nat): (symbols: seq<Byte>)
    requires ValidBand(band) && |b| == BLOCK && band.ss <= k <= band.se + 1
    ensures SmallSizes(symbols)
    decreases band.se + 1 - k, r
  {
    if k > band.se then []
    else
      var m := At(band, b, k);
      if m == 0 then BandSymbols(band, b, k + 1, r + 1)
      else if r > 15 && k <= Eob(band, b) then [ZRL] + BandSymbols(band, b, k, r - 16)
      else if m == 1 then
        assert k <= Eob(band, b);
        [16 * r + 1] + BandSymbols(band, b, k + 1, 0)
      else BandSymbols(band, b, k + 1, r)
  }

  // Codes are written exactly up to the last newly nonzero coefficient.
  lemma {:induction false} SymbolsUntilEob(band: Band, b: seq<int>, k: nat, r: nat)
    requires ValidBand(band) && |b| == BLOCK && band.ss <= k <= band.se + 1
    ensures BandSymbols(band, b, k, r) == [] <==> k > Eob(band, b)
    decreases band.se + 1 - k, r
  {
    hide At, NoneNew;
    if k <= band.se {
      var m := At(band, b, k);
      if m == 1 {
        NewBeforeEob(band, b, k);
      }
      if m == 0 {
        SymbolsUntilEob(band, b, k + 1, r + 1);
      } else if m > 1 && (r <= 15 || k > Eob(band, b)) {
        SymbolsUntilEob(band, b, k + 1, r);
      }
    }
  }

  lemma NewBeforeEob(band: Band, b: seq<int>, k: nat)
    requires ValidBand(band) && |b| == BLOCK && band.ss <= k <= band.se && At(band, b, k) == 1
    ensures k <= Eob(band, b)
  {
    hide At, Eob;
  }

  // ----- Runs of ends of band -----

  // Symbols written so far, blocks in the pending run of ends of band, and the correction
  // bits that belong to it.
  datatype Emission = Emission(symbols: seq<Byte>, run: nat, bits: nat)

  // Between two blocks neither the run nor the buffer is full.
  predicate Bounded(e: Emission) {
    e.run < MAX_RUN && e.bits <= MAX_CORR_BITS - BLOCK + 1 && (e.run == 0 ==> e.bits == 0)
  }

  function RunSymbols(run: nat): (symbols: seq<Byte>)
    requires run <= MAX_RUN
    ensures SmallSizes(symbols)
    ensures symbols == [] <==> run == 0
  {
    if run == 0 then []
    else
      Log2OfRun(run);
      [16 * Log2(run)]
  }

  function Closed(e: Emission): Emission
    requires e.run <= MAX_RUN
  {
    Emission(e.symbols + RunSymbols(e.run), 0, 0)
  }

  // Before any other code the pending run has to be written.
  function Continued(e: Emission, rest: seq<Byte>): (f: Emission)
    requires e.run <= MAX_RUN
    ensures Bounded(e) ==> Bounded(f)
  {
    if rest == [] then e else Emission(Closed(e).symbols + rest, 0, 0)
  }

  // A run is forced out when the next block might overflow it or the buffer.
  function Forced(e: Emission): (f: Emission)
    requires e.run <= MAX_RUN && (e.run == 0 ==> e.bits == 0)
    ensures Bounded(f)
  {
    if e.run == MAX_RUN || e.bits > MAX_CORR_BITS - BLOCK + 1 then Closed(e) else e
  }

  // The codes of a block before its tail.
  ghost function Opened(band: Band, e: Emission, b: seq<int>): (f: Emission)
    requires ValidBand(band) && |b| == BLOCK && Bounded(e)
    ensures Bounded(f)
  {
    Continued(e, BandSymbols(band, b, band.ss, 0))
  }

  // One block, whose tail, if there is one, joins the pending run.
  ghost function BlockCoded(band: Band, e: Emission, b: seq<int>): (f: Emission)
    requires ValidBand(band) && |b| == BLOCK && Bounded(e)
    ensures Bounded(f)
  {
    var start, lo := Opened(band, e, b), TailStart(band, b);
    if lo > band.se then start
    else Forced(Emission(start.symbols, start.run + 1, start.bits + |Corrections(band, b, lo, band.se + 1)|))
  }

  // ----- A scan -----

  ghost predicate Sized(blocks: seq<seq<int>>) {
    forall i :: 0 <= i < |blocks| ==> |blocks[i]| == BLOCK
  }

  // At a restart marker the pending run is closed first.
  ghost function AtRestart(e: Emission, i: nat, interval: nat): (f: Emission)
    requires Bounded(e)
    ensures Bounded(f)
  {
    if i > 0 && StartsSegment(i, interval) then Closed(e) else e
  }

  // After the first n blocks.
  ghost function ScanCoded(band: Band, blocks: seq<seq<int>>, interval: nat, n: nat): (e: Emission)
    requires ValidBand(band) && Sized(blocks) && n <= |blocks|
    ensures Bounded(e)
  {
    if n == 0 then Emission([], 0, 0)
    else BlockCoded(band, AtRestart(ScanCoded(band, blocks, interval, n - 1), n - 1, interval), blocks[n - 1])
  }

  // Every symbol of a scan, in the order in which they are written.
  ghost function ScanSymbols(band: Band, blocks: seq<seq<int>>, interval: nat): seq<Byte>
    requires ValidBand(band) && Sized(blocks)
  {
    Closed(ScanCoded(band, blocks, interval, |blocks|)).symbols
  }

  lemma ScanStarts(band: Band, blocks: seq<seq<int>>, interval: nat)
    requires ValidBand(band) && Sized(blocks)
    ensures ScanCoded(band, blocks, interval, 0) == Emission([], 0, 0)
  {
  }

  lemma ScanGoesOn(band: Band, blocks: seq<seq<int>>, interval: nat, n: nat)
    requires ValidBand(band) && Sized(blocks) && n < |blocks|
    ensures ScanCoded(band, blocks, interval, n + 1) ==
      BlockCoded(band, AtRestart(ScanCoded(band, blocks, interval, n), n, interval), blocks[n])
  {
    hide BlockCoded, AtRestart;
  }

  // What has been written stays written.
  lemma {:induction false} ScanOnlyGrows(band: Band, blocks: seq<seq<int>>, interval: nat, i: nat, n: nat)
    requires ValidBand(band) && Sized(blocks) && i <= n <= |blocks|
    ensures ScanCoded(band, blocks, interval, i).symbols <= ScanCoded(band, blocks, interval, n).symbols
    ensures n == |blocks| ==> ScanCoded(band, blocks, interval, i).symbols <= ScanSymbols(band, blocks, interval)
  {
    hide BlockCoded, ScanCoded;
    if i < n {
      ScanOnlyGrows(band, blocks, interval, i, n - 1);
      ScanGoesOn(band, blocks, interval, n - 1);
      BlockGrows(band, AtRestart(ScanCoded(band, blocks, interval, n - 1), n - 1, interval), blocks[n - 1]);
    }
  }

  lemma BlockGrows(band: Band, e: Emission, b: seq<int>)
    requires ValidBand(band) && |b| == BLOCK && Bounded(e)
    ensures e.symbols <= BlockCoded(band, e, b).symbols
    ensures SmallSizes(e.symbols) ==> SmallSizes(BlockCoded(band, e, b).symbols)
  {
    hide BandSymbols, TailStart, Corrections;
  }

  lemma {:induction false} ScanSymbolsAre(band: Band, blocks: seq<seq<int>>, interval: nat, n: nat)
    requires ValidBand(band) && Sized(blocks) && n <= |blocks|
    ensures SmallSizes(ScanCoded(band, blocks, interval, n).symbols)
    ensures n == |blocks| ==> SmallSizes(ScanSymbols(band, blocks, interval))
  {
    hide BlockCoded, ScanCoded;
    if n == 0 {
      ScanStarts(band, blocks, interval);
    } else {
      ScanSymbolsAre(band, blocks, interval, n - 1);
      ScanGoesOn(band, blocks, interval, n - 1);
      BlockGrows(band, AtRestart(ScanCoded(band, blocks, interval, n - 1), n - 1, interval), blocks[n - 1]);
    }
  }

  // A block has a code of its own or is counted in a run of ends of band.
  lemma ScanHasSymbols(band: Band, blocks: seq<seq<int>>, interval: nat)
    requires ValidBand(band) && Sized(blocks) && blocks != []
    ensures ScanSymbols(band, blocks, interval) != []
  {
    hide BlockCoded, AtRestart, Bounded;
    var n := |blocks|;
    BlockLeavesTrace(band, AtRestart(ScanCoded(band, blocks, interval, n - 1), n - 1, interval), blocks[n - 1]);
  }

  lemma BlockLeavesTrace(band: Band, e: Emission, b: seq<int>)
    requires ValidBand(band) && |b| == BLOCK && Bounded(e)
    ensures Closed(BlockCoded(band, e, b)).symbols != []
  {
    hide Corrections, At, BandSymbols;
    SymbolsUntilEob(band, b, band.ss, 0);
  }

  // ----- Codes for the symbols -----

  // Every one of these symbols has a code.
  ghost predicate AllHaveCodes(c: CDerived, symbols: seq<Byte>) {
    forall i :: 0 <= i < |symbols| ==> HasCode(c, symbols[i])
  }

  lemma CodesOfBoth(c: CDerived, a: seq<Byte>, b: seq<Byte>)
    ensures AllHaveCodes(c, a + b) <==> AllHaveCodes(c, a) && AllHaveCodes(c, b)
  {
    hide HasCode;
    if AllHaveCodes(c, a + b) {
      forall i | 0 <= i < |a|
        ensures HasCode(c, a[i])
      {
        assert (a + b)[i] == a[i];
      }
      forall i | 0 <= i < |b|
        ensures HasCode(c, b[i])
      {
        assert (a + b)[|a| + i] == b[i];
      }
    }
  }

  lemma CodesOfPrefix(c: CDerived, a: seq<Byte>, b: seq<Byte>)
    requires a <= b && AllHaveCodes(c, b)
    ensures AllHaveCodes(c, a)
  {
    hide HasCode;
    forall i | 0 <= i < |a|
      ensures HasCode(c, a[i])
    {
      assert b[i] == a[i];
    }
  }

  // One more symbol.
  lemma ContinuedStep(c: CDerived, e: Emission, x: Byte, rest: seq<Byte>)
    requires e.run <= MAX_RUN
    ensures Continued(Emission(Closed(e).symbols + [x], 0, 0), rest) == Continued(e, [x] + rest)
    ensures !AllHaveCodes(c, RunSymbols(e.run)) || !HasCode(c, x) ==>
      !AllHaveCodes(c, Continued(e, [x] + rest).symbols)
  {
    hide HasCode;
    var all := Continued(e, [x] + rest).symbols;
    assert RunSymbols(0) == [] && Closed(e).symbols + [x] + rest == Closed(e).symbols + ([x] + rest);
    assert all == e.symbols + (RunSymbols(e.run) + ([x] + rest));
    CodesOfBoth(c, e.symbols, RunSymbols(e.run) + ([x] + rest));
    CodesOfBoth(c, RunSymbols(e.run), [x] + rest);
    assert ([x] + rest)[0] == x;
  }

  lemma ClosedCodes(c: CDerived, e: Emission)
    requires e.run <= MAX_RUN && AllHaveCodes(c, e.symbols)
    ensures AllHaveCodes(c, Closed(e).symbols) <==> AllHaveCodes(c, RunSymbols(e.run))
  {
    hide HasCode;
    CodesOfBoth(c, e.symbols, RunSymbols(e.run));
  }

  // ----- The pre-pass -----

  ghost predicate Magnitudes(band: Band, b: seq<int>, values: seq<nat>)
    requires ValidBand(band) && |b| == BLOCK
  {
    |values| == BLOCK && forall j :: band.ss <= j <= band.se ==> values[j] == At(band, b, j)
  }

  lemma MagnitudeAt(band: Band, b: seq<int>, values: seq<nat>, k: nat)
    requires ValidBand(band) && |b| == BLOCK && Magnitudes(band, b, values) && band.ss <= k <= band.se
    ensures |values| == BLOCK && values[k] == At(band, b, k)
  {
  }

  // Absolute values after the point transform, and the last newly nonzero one.
  method PrePass(band: Band, b: seq<int>) returns (absvalues: array<nat>, eob: nat)
    requires ValidBand(band) && |b| == BLOCK
    ensures fresh(absvalues) && absvalues.Length == BLOCK
    ensures Magnitudes(band, b, absvalues[..]) && eob == Eob(band, b)
  {
    hide Magnitude;
    absvalues := new nat[BLOCK];
    eob := 0;
    var k := band.ss;
    while k <= band.se
      invariant band.ss <= k <= band.se + 1 && eob == LastNew(band, b, k)
      invariant forall j :: band.ss <= j < k ==> absvalues[j] == At(band, b, j)
    {
      absvalues[k] := Magnitude(b[band.order[k]], band.al);
      if absvalues[k] == 1 {
        eob := k;
      }
      k := k + 1;
    }
  }
}
