// The statistics pass over an AC refinement scan: the same walk over the coefficients as the
// output pass, which counts the symbols instead of writing them.

module AcRefineStatistics {
  import opened CodeBits
  import opened Coefficients
  import opened RestartSegments
  import opened HuffmanTree
  import opened BlockCoding
  import opened BlockStatistics
  import opened AcRefinement
  import opened AcRefineCoding
  import opened AcRefineRuns
  import opened AcRefineSymbols
  import opened AcRefineEncoder

  // The symbols as tokens of one AC table.
  ghost function AsTokens(symbols: seq<Byte>, table: nat): (tokens: seq<Token>)
    ensures |tokens| == |symbols|
    ensures forall i :: 0 <= i < |symbols| ==> tokens[i].symbol == symbols[i] && Uses(tokens[i], false, table)
  {
    seq(|symbols|, i requires 0 <= i < |symbols| => Token(false, table, symbols[i], 0))
  }

  lemma AsTokensPush(symbols: seq<Byte>, x: Byte, table: nat)
    ensures AsTokens(symbols + [x], table) == AsTokens(symbols, table) + [Token(false, table, x, 0)]
  {
  }

  class RefineGatherer {
    const band: Band
    const interval: nat
    const table: nat
    const counts: array<nat>
    var eobrun: nat
    var be: nat
    var restartsToGo: nat
    ghost const blocks: seq<seq<int>>
    ghost var symbols: seq<Byte>  // what the output pass will have written
    ghost var done: nat
    ghost var lo: nat

    ghost predicate Counted()
      reads this`symbols, counts
    {
      counts.Length == SYMBOLS && counts[..] == Tally(NoCounts(), AsTokens(symbols, table), false, table)
    }

    ghost function Emitted(): Emission
      reads this`symbols, this`eobrun, this`be
    {
      Emission(symbols, eobrun, be)
    }

    ghost predicate Valid()
      reads this, counts
    {
      && Counted() && ValidBand(band) && Sized(blocks)
      && lo <= done <= |blocks| && (done == 0 || lo < done) && Counting(lo, done, restartsToGo, interval)
      && Emitted() == ScanCoded(band, blocks, interval, done)
    }

    constructor (b: Band, restartInterval: nat, tbl: nat, zeroed: array<nat>, ghost all: seq<seq<int>>)
      requires ValidBand(b) && Sized(all) && zeroed.Length == SYMBOLS && zeroed[..] == NoCounts()
      ensures Valid() && band == b && interval == restartInterval && table == tbl && counts == zeroed
      ensures blocks == all && done == 0
    {
      band, interval, table, counts := b, restartInterval, tbl, zeroed;
      eobrun, be, restartsToGo := 0, 0, restartInterval;
      blocks, symbols, done, lo := all, [], 0, 0;
      ScanStarts(b, all, restartInterval);
      CountingStart(restartInterval);
    }

    // emit_ac_symbol
    method EmitAcSymbol(sym: Byte)
      requires Counted()
      modifies this`symbols, counts
      ensures Counted() && symbols == old(symbols) + [sym]
    {
      hide Tally;
      AsTokensPush(symbols, sym, table);
      TallyPush(NoCounts(), AsTokens(symbols, table), Token(false, table, sym, 0), false, table);
      counts[sym] := counts[sym] + 1;
      symbols := symbols + [sym];
    }

    // emit_eobrun
    method EmitEobrun()
      requires Counted() && eobrun <= MAX_RUN && (eobrun == 0 ==> be == 0)
      modifies this`eobrun, this`be, this`symbols, counts
      ensures Counted() && Emitted() == Closed(old(Emitted()))
    {
      hide Log2;
      if eobrun > 0 {
        Log2OfRun(eobrun);
        var nbits := CountBits(eobrun);
        EmitAcSymbol(16 * nbits);
        eobrun := 0;
        be := 0;
      }
    }

    // Counting the symbols for the coefficients from k on leads to this goal.
    ghost predicate Heading(b: seq<int>, k: nat, r: nat, goal: Emission)
      requires ValidBand(band) && |b| == BLOCK && band.ss <= k <= band.se + 1
      reads this`symbols, this`eobrun, this`be
    {
      && eobrun <= MAX_RUN && (eobrun == 0 ==> be == 0)
      && Continued(Emitted(), BandSymbols(band, b, k, r)) == goal
    }

    // A symbol behind the pending run.
    method CountCode(sym: Byte, ghost rest: seq<Byte>, ghost goal: Emission)
      requires Counted() && eobrun <= MAX_RUN && (eobrun == 0 ==> be == 0)
      requires Continued(Emitted(), [sym] + rest) == goal
      modifies this`eobrun, this`be, this`symbols, counts
      ensures Counted() && eobrun == be == 0 && Continued(Emitted(), rest) == goal
    {
      hide Counted;
      ghost var e := Emitted();
      EmitEobrun();
      EmitAcSymbol(sym);
      assert Closed(e).symbols + ([sym] + rest) == Closed(e).symbols + [sym] + rest;
    }

    // Behind the last new coefficient the counters say how long the tail is so far.
    ghost predicate InTail(b: seq<int>, k: nat, r: nat, br: nat)
      requires ValidBand(band) && |b| == BLOCK && k <= band.se + 1
    {
      var tail := TailStart(band, b);
      tail <= k && r == Zeros(band, b, tail, k) && br == |Corrections(band, b, tail, k)|
    }

    lemma TailBegins(b: seq<int>)
      requires ValidBand(band) && |b| == BLOCK
      ensures InTail(b, TailStart(band, b), 0, 0)
    {
    }

    lemma TailGrows(b: seq<int>, k: nat, r: nat, br: nat)
      requires ValidBand(band) && |b| == BLOCK && k <= band.se && InTail(b, k, r, br)
      ensures At(band, b, k) == 0 ==> InTail(b, k + 1, r + 1, br)
      ensures At(band, b, k) > 1 ==> InTail(b, k + 1, r, br + 1)
    {
      hide Zeros, Corrections, TailStart, At;
      PassedOne(band, b, TailStart(band, b), k);
    }

    // A coefficient that is nonzero at the new precision.
    method GatherNonzero(b: seq<int>, k: nat, eob: nat, zeros: nat, count: nat, temp: nat, ghost goal: Emission)
      returns (r: nat, br: nat)
      requires Counted() && ValidBand(band) && |b| == BLOCK && band.ss <= k <= band.se && Heading(b, k, zeros, goal)
      requires eob == Eob(band, b) && temp == At(band, b, k) != 0 && (k > eob ==> InTail(b, k, zeros, count))
      modifies this`eobrun, this`be, this`symbols, counts
      ensures Counted() && Heading(b, k + 1, r, goal) && (k + 1 > eob ==> InTail(b, k + 1, r, br))
    {
      hide Counted, ValidBand, At, Eob, BandSymbols, Continued, InTail, TailStart;
      BandRange(band);
      TailIs(band, b);
      r, br := zeros, count;
      if temp == 1 {
        NewBeforeEob(band, b, k);
      } else if k > eob {
        TailGrows(b, k, r, br);
      }
      while r > 15 && k <= eob
        invariant Counted() && Heading(b, k, r, goal) && (k > eob ==> r == zeros && br == count)
        decreases r
      {
        ZrlIsNext(band, b, k, r);
        CountCode(ZRL, BandSymbols(band, b, k, r - 16), goal);
        r := r - 16;
        br := 0;
      }
      if temp > 1 {
        CorrectionIsNext(band, b, k, r);
        br := br + 1;
      } else {
        NewIsNext(band, b, k, r);
        CountCode(16 * r + 1, BandSymbols(band, b, k + 1, 0), goal);
        r, br := 0, 0;
        TailBegins(b);
      }
    }

    // The loop over the band.
    method GatherBand(b: seq<int>) returns (r: nat, br: nat)
      requires Counted() && ValidBand(band) && |b| == BLOCK && Bounded(Emitted())
      modifies this`eobrun, this`be, this`symbols, counts
      ensures Counted() && Emitted() == Opened(band, old(Emitted()), b)
      ensures r > 0 || br > 0 <==> TailStart(band, b) <= band.se
      ensures br == |Corrections(band, b, TailStart(band, b), band.se + 1)|
    {
      hide Counted, Magnitudes, ValidBand, At, Eob, BandSymbols, Continued, Corrections, Zeros, TailStart;
      BandRange(band);
      TailIs(band, b);
      ghost var goal := Opened(band, Emitted(), b);
      var absvalues, eob := PrePass(band, b);
      ghost var values := absvalues[..];
      var k := band.ss;
      r, br := 0, 0;
      TailBegins(b);
      while k <= band.se
        invariant Counted() && band.ss <= k <= band.se + 1 && Heading(b, k, r, goal) && absvalues[..] == values
        invariant k > eob ==> InTail(b, k, r, br)
      {
        MagnitudeAt(band, b, values, k);
        var temp := absvalues[k];
        assert temp == values[k];
        if temp == 0 {
          ZeroIsNext(band, b, k, r);
          if k > eob {
            TailGrows(b, k, r, br);
          }
          r := r + 1;
        } else {
          r, br := GatherNonzero(b, k, eob, r, br, temp, goal);
        }
        k := k + 1;
      }
      NothingNext(band, b, r, Emitted());
      TailIsThere(band, b);
    }

    // emit_restart_e, if a restart is due: the pending run is counted.
    method BeginMcu()
      requires Valid() && done < |blocks|
      modifies this`eobrun, this`be, this`symbols, this`restartsToGo, this`lo, counts
      ensures Counted() && Emitted() == AtRestart(old(Emitted()), done, interval)
      ensures lo <= done && Counting(lo, done, restartsToGo, interval) && (interval > 0 ==> restartsToGo > 0)
    {
      hide Counted, ValidBand, Sized, Counting, StartsSegment, ScanCoded;
      CountingRestart(lo, done, restartsToGo, interval);
      if interval != 0 && restartsToGo == 0 {
        EmitEobrun();
        restartsToGo := interval;
        lo := done;
      }
    }

    // One block.
    method GatherBlock(b: seq<int>)
      requires Counted() && ValidBand(band) && |b| == BLOCK && Bounded(Emitted())
      modifies this`eobrun, this`be, this`symbols, counts
      ensures Counted() && Emitted() == BlockCoded(band, old(Emitted()), b)
    {
      hide Counted, ValidBand, TailStart, Corrections, Opened;
      var r, br := GatherBand(b);
      if r > 0 || br > 0 {
        eobrun := eobrun + 1;
        be := be + br;
        if eobrun == MAX_RUN || be > MAX_CORR_BITS - BLOCK + 1 {
          EmitEobrun();
        }
      }
    }

    // encode_mcu_AC_refine while statistics are gathered.
    method GatherMcu(b: seq<int>)
      requires Valid() && done < |blocks| && b == blocks[done]
      modifies this, counts
      ensures Valid() && done == old(done) + 1
    {
      hide Counted, ValidBand, Counting, StartsSegment, ScanCoded, BlockCoded, AtRestart;
      ScanGoesOn(band, blocks, interval, done);
      BeginMcu();
      GatherBlock(b);
      CountingNext(lo, done, restartsToGo, interval, |blocks|);
      if interval != 0 {
        restartsToGo := restartsToGo - 1;
      }
      done := done + 1;
    }

    // The head of finish_pass_gather: what is counted is what the output pass writes.
    method Finish()
      requires Valid() && done == |blocks|
      modifies this, counts
      ensures counts.Length == SYMBOLS && ValidBand(band) && Sized(blocks)
      ensures counts[..] == Tally(NoCounts(), AsTokens(ScanSymbols(band, blocks, interval), table), false, table)
    {
      hide ValidBand, Sized, Counting, ScanCoded, Tally;
      EmitEobrun();
    }
  }

  // A coefficient behind the last new one is zero or has a correction bit.
  lemma TailIsThere(band: Band, b: seq<int>)
    requires ValidBand(band) && |b| == BLOCK
    ensures var lo := TailStart(band, b);
      Zeros(band, b, lo, band.se + 1) > 0 || |Corrections(band, b, lo, band.se + 1)| > 0 <==> lo <= band.se
  {
    hide At;
    var lo := TailStart(band, b);
    if lo <= band.se {
      assert At(band, b, band.se) != 1;
    }
  }
}
