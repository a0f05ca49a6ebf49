// Segments between restart markers, for arithmetic-coded scans of every kind: each MCU of a
// scan is a trace of decisions, and statistics and registers start over at each marker.

module ArithmeticSegments {
  import opened CodeBits
  import opened Segment
  import opened RestartSegments
  import opened RestartMarkers
  import opened ProbabilityTable
  import opened CodingInterval
  import opened ArithmeticEncoder
  import opened ArithmeticDecoder
  import opened ArithmeticBlock
  import opened ArithmeticMcuDecoder

  // ----- Statistics at the start of a segment -----

  function InitialBins(): (bins: seq<Bin>)
    ensures |bins| == ALL_BINS
    ensures forall i :: 0 <= i < ALL_BINS ==> bins[i] == if i == FIXED_BIN then FIXED_STATE else 0
  {
    seq(ALL_BINS, i => if i == FIXED_BIN then FIXED_STATE else 0)
  }

  lemma InitialValid()
    ensures ValidBins(InitialBins())
  {
  }

  method NewStatistics() returns (bins: array<Bin>)
    ensures fresh(bins) && bins[..] == InitialBins() && ValidBins(bins[..])
  {
    bins := new Bin[ALL_BINS](i => if i == FIXED_BIN then FIXED_STATE else 0);
    assert bins[..] == InitialBins();
    InitialValid();
  }

  // Zero all statistics; the fixed bin keeps its state.
  method ResetStatistics(bins: array<Bin>)
    requires bins.Length == ALL_BINS && bins[FIXED_BIN] == FIXED_STATE
    modifies bins
    ensures bins[..] == InitialBins() && ValidBins(bins[..])
  {
    for i := 0 to FIXED_BIN
      invariant bins[FIXED_BIN] == FIXED_STATE
      invariant forall k :: 0 <= k < i ==> bins[k] == 0
    {
      bins[i] := 0;
    }
    assert bins[..] == InitialBins();
    InitialValid();
  }

  // ----- Traces -----

  // One trace for each MCU of a scan.
  type Traces = seq<seq<Decision>>

  ghost predicate Usable(ts: Traces) {
    forall i :: 0 <= i < |ts| ==> InRange(ts[i], ALL_BINS)
  }

  // The decisions of the MCUs from lo up to hi.
  ghost function Span(ts: Traces, lo: nat, hi: nat): seq<Decision>
    requires lo <= hi <= |ts|
    decreases hi - lo
  {
    if lo == hi then [] else ts[lo] + Span(ts, lo + 1, hi)
  }

  lemma {:induction false} SpanInRange(ts: Traces, lo: nat, hi: nat)
    requires Usable(ts) && lo <= hi <= |ts|
    ensures InRange(Span(ts, lo, hi), ALL_BINS)
    decreases hi - lo
  {
    if lo < hi {
      SpanInRange(ts, lo + 1, hi);
    }
  }

  // The state that the coder of a segment ends in.
  ghost function Goal(ts: Traces, lo: nat, hi: nat): (s: Coder)
    requires Usable(ts) && lo <= hi <= |ts|
    ensures |s.bins| == ALL_BINS && s.bins[FIXED_BIN] == FIXED_STATE
  {
    InitialValid();
    SpanInRange(ts, lo, hi);
    FixedBinStays(Start(InitialBins()), Span(ts, lo, hi));
    EncodeAll(Start(InitialBins()), Span(ts, lo, hi))
  }

  // ----- Segments in a byte stream -----

  // From position pos on, the input holds segment after segment for the MCUs from lo on,
  // with restart markers of increasing number between them.
  ghost predicate Chain(ts: Traces, interval: nat, input: seq<Byte>, pos: nat, lo: nat, num: nat)
    requires Usable(ts) && lo <= |ts|
    decreases |ts| - lo
  {
    var hi := SegmentEnd(lo, |ts|, interval);
    && pos <= |input|
    && Codes(Unstuff(input, pos), Goal(ts, lo, hi))
    && (hi < |ts| ==>
          && InputAt(input, AfterMarker(input, pos) - 1) == 0xD0 + num
          && Chain(ts, interval, input, AfterMarker(input, pos), hi, (num + 1) % 8))
  }

  // What a chain of segments says about its first one and about the next.
  lemma ChainStep(ts: Traces, interval: nat, input: seq<Byte>, pos: nat, lo: nat, num: nat)
    requires Usable(ts) && lo <= |ts| && Chain(ts, interval, input, pos, lo, num)
    ensures var hi := SegmentEnd(lo, |ts|, interval);
      && pos <= |input|
      && Codes(Unstuff(input, pos), Goal(ts, lo, hi))
      && (hi < |ts| ==>
            && InputAt(input, AfterMarker(input, pos) - 1) == 0xD0 + num
            && Chain(ts, interval, input, AfterMarker(input, pos), hi, (num + 1) % 8))
  {
  }

  ghost predicate GoodPieces(ts: Traces, interval: nat, ps: seq<Piece>)
    requires Usable(ts)
  {
    && Cuts(|ts|, interval, ps)
    && forall k :: 0 <= k < |ps| ==> PieceCodes(ts, ps[k])
  }

  ghost predicate PieceCodes(ts: Traces, p: Piece)
    requires Usable(ts)
  {
    p.lo <= p.hi <= |ts| && Codes(p.data, Goal(ts, p.lo, p.hi))
  }

  // A decoder finds the pieces one after the other.
  lemma {:induction false} PiecesChain(ts: Traces, interval: nat, ps: seq<Piece>, k: nat, tail: seq<Byte>)
    requires Usable(ts) && GoodPieces(ts, interval, ps)
    requires k < |ps| && ps[|ps| - 1].hi == |ts|
    ensures Chain(ts, interval, Joined(ps) + tail, |Joined(ps[..k])|, ps[k].lo, k % 8)
    decreases |ps| - k
  {
    hide Codes, Stuff, Unstuff, AfterMarker, InputAt, Goal, Usable, Joined, Cuts;
    CutFacts(|ts|, interval, ps, k);
    assert PieceCodes(ts, ps[k]);
    PieceRead(|ts|, interval, ps, k, tail);
    if k + 1 < |ps| {
      PiecesChain(ts, interval, ps, k + 1, tail);
    }
  }

  lemma FirstPiece(ts: Traces, interval: nat, ps: seq<Piece>)
    requires Usable(ts) && GoodPieces(ts, interval, ps) && ps != []
    ensures ps[0].lo == 0 && Joined(ps[..0]) == []
  {
    hide Codes, Goal;
    assert ps[..0] == [];
  }

  lemma NoPieces(ts: Traces, interval: nat)
    requires Usable(ts)
    ensures GoodPieces(ts, interval, []) && Joined([]) == []
  {
  }

  lemma AddPiece(ts: Traces, interval: nat, ps: seq<Piece>, p: Piece)
    requires Usable(ts) && GoodPieces(ts, interval, ps)
    requires p.lo <= |ts| && p.hi == SegmentEnd(p.lo, |ts|, interval) && p.lo == NextLo(ps)
    requires Codes(p.data, Goal(ts, p.lo, p.hi))
    requires p.marker != 0 && p.marker != 0xFF && (p.hi < |ts| ==> p.marker == RST0 + |ps| % 8)
    ensures GoodPieces(ts, interval, ps + [p])
  {
    hide Codes, Goal, Usable, Cuts;
    CutPush(|ts|, interval, ps, p);
  }

  // What an encoder leaves behind when it codes these traces.
  ghost predicate Scanned(ts: Traces, interval: nat, output: seq<Byte>) {
    && Usable(ts)
    && forall marker: Byte, tail ::
      marker != 0 && marker != 0xFF ==> Chain(ts, interval, output + [0xFF, marker] + tail, 0, 0, 0)
  }

  // ----- The encoder's side -----

  class SegmentEncoder {
    const coder: Encoder
    const interval: nat         // MCUs between restart markers, 0 for none
    var restartsToGo: nat
    var nextRestartNum: nat
    ghost const ts: Traces      // what is to be coded
    ghost var done: nat         // MCUs begun
    ghost var lo: nat           // first MCU of the segment
    ghost var ps: seq<Piece>    // the segments before it

    ghost function Hi(): nat
      requires lo <= |ts|
      reads this
    {
      SegmentEnd(lo, |ts|, interval)
    }

    // Everything but what the coder still owes.
    ghost predicate Frame()
      reads this, coder`prior
    {
      && Usable(ts) && lo <= |ts| && done <= Hi() && lo == NextLo(ps)
      && GoodPieces(ts, interval, ps) && coder.prior == Joined(ps) && nextRestartNum == |ps| % 8
      && Counting(lo, done, restartsToGo, interval)
    }

    ghost function Rest(): seq<Decision>
      requires Frame()
      reads this, coder`prior
    {
      Span(ts, done, Hi())
    }

    ghost function Aim(): Coder
      requires Frame()
      reads this, coder`prior
    {
      Goal(ts, lo, Hi())
    }

    // Between two MCUs.
    ghost predicate Valid()
      reads this, coder, coder.bins
    {
      Frame() && (done == 0 || lo < done) && coder.Owes(Rest(), Aim())
    }

    constructor (e: Encoder, restartInterval: nat, ghost traces: Traces)
      requires Usable(traces) && e.prior == []
      requires e.Owes(Span(traces, 0, SegmentEnd(0, |traces|, restartInterval)),
                      Goal(traces, 0, SegmentEnd(0, |traces|, restartInterval)))
      ensures Valid() && coder == e && interval == restartInterval && ts == traces && done == 0
    {
      hide Encoder.Owes, Goal, Span, GoodPieces, Joined, Usable, Counting;
      coder, interval, restartsToGo, nextRestartNum := e, restartInterval, restartInterval, 0;
      ts, done, lo, ps := traces, 0, 0, [];
      NoPieces(traces, restartInterval);
      CountingStart(restartInterval);
    }

    // Emit a restart marker if one is due, and go on to the next MCU.
    method Begin() returns (restarted: bool)
      requires Valid() && done < |ts|
      modifies this, coder, coder.bins
      ensures Frame() && done == old(done) + 1 && lo < done
      ensures coder.Owes(ts[done - 1] + Rest(), Aim())
      ensures restarted <==> done > 1 && StartsSegment(done - 1, interval)
    {
      hide Encoder.Owes, Goal, Span, GoodPieces, Joined, Usable, Counting, StartsSegment;
      CountingRestart(lo, done, restartsToGo, interval);
      restarted := interval != 0 && restartsToGo == 0;
      if restarted {
        EmitRestart();
      }
      CountingNext(lo, done, restartsToGo, interval, |ts|);
      SpanStep(ts, done, Hi());
      if interval != 0 {
        restartsToGo := restartsToGo - 1;
      }
      done := done + 1;
    }

    // emit_restart, at the end of a segment.
    method EmitRestart()
      requires Valid() && done < |ts| && interval > 0 && restartsToGo == 0
      modifies this, coder, coder.bins
      ensures Frame() && done == old(done) == lo && restartsToGo == interval && coder.Owes(Rest(), Aim())
    {
      hide Encoder.Valid, Encoder.State, Encoder.Owes, Stuff, Codes, Goal, Span, GoodPieces, Joined, Usable, Counting,
           NextLo, StartsSegment;
      CountingRestart(lo, done, restartsToGo, interval);
      SegmentIsFull(lo, done, |ts|, interval);
      SpanNone(ts, done);
      ghost var hi, num := Hi(), nextRestartNum;
      ghost var segment := RestartCoder(coder, nextRestartNum, Aim());
      restartsToGo := interval;
      nextRestartNum := (nextRestartNum + 1) % 8;
      ghost var piece := Piece(lo, hi, segment, 0xD0 + num);
      AddPiece(ts, interval, ps, piece);
      PiecePushed(ps, piece);
      ps, lo := ps + [piece], done;
      Begins(coder, ts, lo, Hi());
    }

    // finish_pass: the last segment ends at the marker that somebody will write behind it.
    method Finish() returns (output: seq<Byte>)
      requires Valid() && done == |ts|
      modifies this, coder, coder.bins
      ensures Scanned(ts, interval, output)
    {
      hide Encoder.Valid, Encoder.State, Stuff, Codes, Goal, GoodPieces, Joined, Usable, Chain;
      SpanNone(ts, done);
      OwesNothing(coder, Aim());
      ghost var hi := Hi();
      coder.Finish();
      output := coder.output;
      forall marker: Byte, tail | marker != 0 && marker != 0xFF
        ensures Chain(ts, interval, output + [0xFF, marker] + tail, 0, 0, 0)
      {
        var piece := Piece(lo, hi, coder.data, marker);
        var all := ps + [piece];
        AddPiece(ts, interval, ps, piece);
        JoinedPush(ps, piece);
        PiecesChain(ts, interval, all, 0, tail);
        FirstPiece(ts, interval, all);
      }
    }
  }

  method NewSegmentEncoder(interval: nat, ghost ts: Traces) returns (e: SegmentEncoder)
    requires Usable(ts)
    ensures fresh(e) && fresh(e.coder) && fresh(e.coder.bins)
    ensures e.Valid() && e.interval == interval && e.ts == ts && e.done == 0
  {
    hide Encoder.Valid, Encoder.State, Goal, Span, Usable;
    var stats := NewStatistics();
    var coder := new Encoder(stats);
    Begins(coder, ts, 0, SegmentEnd(0, |ts|, interval));
    e := new SegmentEncoder(coder, interval, ts);
  }

  lemma SpanStep(ts: Traces, i: nat, hi: nat)
    requires i < hi <= |ts|
    ensures Span(ts, i, hi) == ts[i] + Span(ts, i + 1, hi)
  {
  }

  lemma SpanNone(ts: Traces, i: nat)
    requires i <= |ts|
    ensures Span(ts, i, i) == []
  {
  }

  // A coder at the start of a segment.
  lemma Begins(coder: Encoder, ts: Traces, lo: nat, hi: nat)
    requires Usable(ts) && lo <= hi <= |ts|
    requires coder.Valid() && coder.State() == Start(InitialBins())
    ensures coder.Owes(Span(ts, lo, hi), Goal(ts, lo, hi))
  {
    hide Span, EncodeAll, InRange, Usable, Ready;
    SpanInRange(ts, lo, hi);
  }

  lemma OwesNothing(coder: Encoder, goal: Coder)
    requires coder.Owes([], goal)
    ensures coder.Valid() && coder.State() == goal
  {
  }

  // Registers and statistics start over behind a restart marker.
  method RestartCoder(coder: Encoder, num: nat, ghost goal: Coder) returns (ghost segment: seq<Byte>)
    requires coder.Owes([], goal) && num < 8
    requires |goal.bins| == ALL_BINS && goal.bins[FIXED_BIN] == FIXED_STATE
    modifies coder, coder.bins
    ensures coder.Valid() && coder.State() == Start(InitialBins()) && Codes(segment, goal)
    ensures coder.prior == coder.output == old(coder.prior) + Stuff(segment) + [0xFF, 0xD0 + num]
  {
    hide Stuff, Codes, Ready, Low, Shifts, ValidBin;
    assert coder.State() == goal;
    segment := coder.Restart(num);
    ResetStatistics(coder.bins);
  }

  // ----- The decoder's side -----

  class SegmentDecoder {
    const coder: Decoder
    const interval: nat
    var restartsToGo: nat
    var nextRestartNum: nat
    var failed: bool            // ct is -1: an overflow was met in this segment
    ghost const ts: Traces      // what the input codes
    ghost var done: nat         // MCUs begun
    ghost var lo: nat           // first MCU of the segment
    ghost var start: nat        // position of the segment in the input

    ghost function Hi(): nat
      requires lo <= |ts|
      reads this`lo
    {
      SegmentEnd(lo, |ts|, interval)
    }

    // Where in the input the decoder is.
    ghost predicate Placed()
      reads this`lo, this`done, this`start, this`restartsToGo, this`nextRestartNum, coder`code, coder`after
    {
      && Usable(ts) && lo <= |ts| && done <= Hi() && nextRestartNum < 8
      && start <= |coder.input| && Chain(ts, interval, coder.input, start, lo, nextRestartNum)
      && coder.code == Unstuff(coder.input, start) && coder.after == AfterMarker(coder.input, start)
      && Counting(lo, done, restartsToGo, interval)
    }

    // Everything but what the segment goes on with.
    ghost predicate Frame()
      reads this, coder, coder.bins
    {
      Placed() && coder.Valid() && Fixed(coder)
    }

    ghost function Rest(): seq<Decision>
      requires Placed()
      reads this`lo, this`done, this`start, this`restartsToGo, this`nextRestartNum, coder`code, coder`after
    {
      Span(ts, done, Hi())
    }

    ghost function Aim(): Coder
      requires Placed()
      reads this`lo, this`done, this`start, this`restartsToGo, this`nextRestartNum, coder`code, coder`after
    {
      Goal(ts, lo, Hi())
    }

    // Between two MCUs.
    ghost predicate Valid()
      reads this, coder, coder.bins
    {
      Frame() && (done == 0 || lo < done) && (!failed ==> coder.Tracks(Rest(), Aim()))
    }

    constructor (d: Decoder, restartInterval: nat, ghost traces: Traces)
      requires Usable(traces) && d.Valid() && Fixed(d) && Chain(traces, restartInterval, d.input, 0, 0, 0)
      requires d.code == Unstuff(d.input, 0) && d.after == AfterMarker(d.input, 0)
      requires d.Tracks(Span(traces, 0, SegmentEnd(0, |traces|, restartInterval)),
                        Goal(traces, 0, SegmentEnd(0, |traces|, restartInterval)))
      ensures Valid() && coder == d && interval == restartInterval && ts == traces && done == 0 && !failed
    {
      hide Decoder.Valid, Decoder.Tracks, Fixed, Goal, Span, Chain, Usable, Counting, Unstuff, AfterMarker;
      coder, interval, restartsToGo, nextRestartNum := d, restartInterval, restartInterval, 0;
      ts, done, lo, start, failed := traces, 0, 0, 0, false;
      CountingStart(restartInterval);
    }

    // Process a restart marker if one is due, and go on to the next MCU. An overflow does no
    // harm beyond the next restart marker.
    method Begin() returns (restarted: bool)
      requires Valid() && done < |ts|
      modifies this, coder, coder.bins
      ensures Frame() && done == old(done) + 1 && lo < done
      ensures !failed ==> coder.Tracks(ts[done - 1] + Rest(), Aim())
      ensures restarted <==> done > 1 && StartsSegment(done - 1, interval)
      ensures failed == (!restarted && old(failed))
    {
      hide Decoder.Valid, Decoder.Tracks, Fixed, Goal, Span, Chain, Usable, Counting, StartsSegment, Unstuff,
           AfterMarker;
      CountingRestart(lo, done, restartsToGo, interval);
      restarted := interval != 0 && restartsToGo == 0;
      if restarted {
        ProcessRestart();
      }
      CountingNext(lo, done, restartsToGo, interval, |ts|);
      SpanStep(ts, done, Hi());
      if interval != 0 {
        restartsToGo := restartsToGo - 1;
      }
      done := done + 1;
    }

    // process_restart: statistics and registers start over behind the marker.
    method ProcessRestart()
      requires Valid() && done < |ts| && interval > 0 && restartsToGo == 0
      modifies this, coder, coder.bins
      ensures Frame() && done == old(done) == lo && restartsToGo == interval && !failed
      ensures coder.Tracks(Rest(), Aim())
    {
      hide Decoder.Valid, Decoder.State, Decoder.Tracks, Fixed, Goal, Span, Chain, Usable, Unstuff, AfterMarker,
           InputAt, Codes;
      CountingRestart(lo, done, restartsToGo, interval);
      SegmentIsFull(lo, done, |ts|, interval);
      ChainStep(ts, interval, coder.input, start, lo, nextRestartNum);
      start := AfterMarker(coder.input, start);
      ChainStep(ts, interval, coder.input, start, done, (nextRestartNum + 1) % 8);
      RestartDecoder(coder, nextRestartNum);
      failed := false;
      restartsToGo := interval;
      nextRestartNum := (nextRestartNum + 1) % 8;
      lo := done;
      DecoderBegins(coder, ts, lo, Hi());
    }
  }

  // Registers and statistics start over behind the expected restart marker.
  method RestartDecoder(coder: Decoder, num: nat)
    requires coder.Valid() && Fixed(coder) && num < 8
    requires InputAt(coder.input, coder.after - 1) == RST0 + num
    modifies coder, coder.bins
    ensures coder.Valid() && Fixed(coder) && coder.State() == Start(InitialBins())
    ensures old(coder.after) <= |coder.input| && coder.code == Unstuff(coder.input, old(coder.after))
    ensures coder.after == AfterMarker(coder.input, old(coder.after))
  {
    hide Unstuff, AfterMarker, InputAt, Running, Codes, Resync;
    ExpectedMarker(coder.input, RST0 + num, coder.after, num);
    LandingMarker(coder.input, RST0 + num, coder.after, num);
    coder.Restart(num);
    ResetStatistics(coder.bins);
  }

  // A decoder at the start of a segment.
  lemma DecoderBegins(coder: Decoder, ts: Traces, lo: nat, hi: nat)
    requires Usable(ts) && lo <= hi <= |ts|
    requires coder.Valid() && coder.State() == Start(InitialBins()) && Codes(coder.code, Goal(ts, lo, hi))
    ensures coder.Tracks(Span(ts, lo, hi), Goal(ts, lo, hi))
  {
    hide Span, EncodeAll, InRange, Usable, Running, Codes;
    SpanInRange(ts, lo, hi);
    assert coder.bins.Length == ALL_BINS by { BinsOfState(coder); }
  }

  lemma BinsOfState(coder: Decoder)
    requires coder.Valid()
    ensures |coder.State().bins| == coder.bins.Length
  {
  }

  method NewSegmentDecoder(input: seq<Byte>, interval: nat, ghost ts: Traces) returns (d: SegmentDecoder)
    requires Usable(ts) && Chain(ts, interval, input, 0, 0, 0)
    ensures fresh(d) && fresh(d.coder) && fresh(d.coder.bins)
    ensures d.Valid() && d.interval == interval && d.ts == ts && d.done == 0 && !d.failed
  {
    hide Decoder.Valid, Decoder.State, Goal, Span, Usable, Chain, Codes, Unstuff, AfterMarker;
    ChainStep(ts, interval, input, 0, 0, 0);
    var stats := NewStatistics();
    var coder := new Decoder(input, 0, stats);
    DecoderBegins(coder, ts, 0, SegmentEnd(0, |ts|, interval));
    d := new SegmentDecoder(coder, interval, ts);
  }
}
