// The Huffman decoder for AC refinement scans: coefficients are changed in place while the
// source may suspend at any bit and at every restart marker; newly nonzero coefficients are
// undone then, correction bits are not.

module AcRefineDecoder {
  import opened CodeBits
  import opened Coefficients
  import opened PointTransform
  import opened HuffmanTables
  import opened Segment
  import opened RestartMarkers
  import opened BitReader
  import opened AcRefinement

  // ----- Undoing -----

  // cur comes from c by correcting nonzero coefficients and by making those at newnz nonzero.
  ghost predicate Undoable(c: seq<int>, cur: seq<int>, newnz: seq<nat>, f: seq<int>) {
    && |c| == |cur| == |f| == BLOCK
    && forall p: nat | p < BLOCK ::
         if p in newnz then c[p] == 0 else cur[p] == c[p] || (c[p] != 0 && f[p] != 0 && cur[p] == f[p])
  }

  lemma UndoableWalk(c: seq<int>, cur: seq<int>, newnz: seq<nat>, next: seq<int>, f: seq<int>)
    requires Undoable(c, cur, newnz, f) && Mixed(cur, next, f)
    ensures Undoable(c, next, newnz, f)
  {
  }

  lemma UndoablePlace(c: seq<int>, cur: seq<int>, newnz: seq<nat>, f: seq<int>, pos: nat, v: int)
    requires Undoable(c, cur, newnz, f) && pos < BLOCK && cur[pos] == 0
    ensures Undoable(c, cur[pos := v], newnz + [pos], f)
  {
  }

  lemma UndoneIsMixed(c: seq<int>, cur: seq<int>, newnz: seq<nat>, f: seq<int>, undone: seq<int>)
    requires Undoable(c, cur, newnz, f) && |undone| == BLOCK
    requires forall p: nat | p < BLOCK :: undone[p] == if p in newnz then 0 else cur[p]
    ensures Mixed(c, undone, f)
  {
  }

  // Re-zero the coefficients that were made nonzero.
  method Undo(block: array<int>, newnz: array<nat>, count: nat)
    requires block.Length == BLOCK && count <= newnz.Length
    requires forall i | 0 <= i < count :: newnz[i] < BLOCK
    modifies block
    ensures forall p: nat | p < BLOCK :: block[p] == if p in newnz[..count] then 0 else old(block[p])
  {
    var n := count;
    while n > 0
      invariant 0 <= n <= count
      invariant forall p: nat | p < BLOCK :: block[p] == if p in newnz[n..count] then 0 else old(block[p])
    {
      n := n - 1;
      block[newnz[n]] := 0;
      assert newnz[n..count] == [newnz[n]] + newnz[n + 1..count];
    }
  }

  // What remains of an attempt that has to be repeated are correction bits.
  method BreakOff(block: array<int>, newnz: array<nat>, count: nat, ghost orig: seq<int>, ghost c: seq<int>,
                  ghost f: seq<int>)
    requires block.Length == BLOCK && count <= newnz.Length && forall i | 0 <= i < count :: newnz[i] < BLOCK
    requires Undoable(c, block[..], newnz[..count], f) && Mixed(orig, c, f)
    modifies block
    ensures Mixed(orig, block[..], f)
  {
    hide Mixed, Undoable;
    ghost var cur := block[..];
    assert |cur| == |c| == |f| == BLOCK by { UndoableSizes(c, cur, newnz[..count], f); }
    Undo(block, newnz, count);
    UndoneIsMixed(c, cur, newnz[..count], f, block[..]);
    MixedTransitive(orig, c, block[..], f);
  }

  lemma UndoableSizes(c: seq<int>, cur: seq<int>, newnz: seq<nat>, f: seq<int>)
    requires Undoable(c, cur, newnz, f)
    ensures |c| == |cur| == |f| == BLOCK
  {
  }

  // ----- Steps of the loop over the band -----

  // A walk inside a refinement with outcome f, up to a coefficient that is still zero.
  lemma WalkInside(band: Band, t: HuffTable, data: seq<Byte>, b: seq<int>, f: seq<int>,
                   k: nat, start: nat, r: nat, w: Walk, next: seq<int>)
    requires InBand(band, b, k) && k <= band.se && w == Advance(band, data, b, k, start, r) && |next| == |f| == BLOCK
    requires if w.k > band.se then f == w.b
             else f == RefineFrom(band, t, data, next, w.k + 1, w.at).b
                  && forall p | 0 <= p < BLOCK && p != band.order[w.k] :: next[p] == w.b[p]
    ensures Mixed(b, w.b, f)
  {
    hide Advance, RefineFrom, Mixed, Passed;
    if w.k > band.se {
      PassedAll(band, k, w);
    } else {
      PassedBefore(band, t, data, k, w, next);
    }
    AdvanceWithin(band, data, b, f, k, start, r);
  }

  lemma {:induction false} WalkStops(band: Band, data: seq<Byte>, b: seq<int>, k: nat, at: nat, r: nat)
    requires InBand(band, b, k)
    ensures var w := Advance(band, data, b, k, at, r); w.k <= band.se ==> w.b[band.order[w.k]] == 0
    decreases band.se + 1 - k
  {
    hide Correct, Window;
    if k <= band.se {
      var pos := band.order[k];
      if b[pos] != 0 {
        WalkStops(band, data, b[pos := Correct(b[pos], Window(data, at, 1), band.al)], k + 1, at + 1, r);
      } else if r != 0 {
        WalkStops(band, data, b, k + 1, at, r - 1);
      }
    }
  }

  lemma NothingToUndo(c: seq<int>, f: seq<int>)
    requires |c| == |f| == BLOCK
    ensures Undoable(c, c, [], f)
  {
  }

  // A symbol with the bits that belong to it: the number of zeros to skip, the new value if
  // there is one, and the length of the run of ends of band if it starts one.
  datatype Code = Code(r: nat, v: int, run: nat)

  ghost predicate CodeAt(t: HuffTable, data: seq<Byte>, at: nat, al: nat, code: Code, behind: nat) {
    var d := SymbolAt(t, data, at);
    && code.r == d.symbol / 16
    && (if d.symbol % 16 != 0 then
          code.v == NewValue(Window(data, at + d.size, 1), al) && code.run == 0 && behind == at + d.size + 1
        else
          && code.v == 0
          && behind == at + d.size + (if code.r == 15 then 0 else code.r)
          && code.run == if code.r == 15 then 0 else RunLength(data, at + d.size, code.r))
  }

  // One symbol that does not start a run, with the value v it places (0 if none).
  lemma WalkStep(band: Band, t: HuffTable, data: seq<Byte>, c: seq<int>, b: seq<int>, newnz: seq<nat>,
                 k: nat, at: nat, start: nat, r: nat, v: int, goal: Refined)
    requires InBand(band, b, k) && k <= band.se && goal == RefineFrom(band, t, data, b, k, at)
    requires Undoable(c, b, newnz, goal.b)
    requires CodeAt(t, data, at, band.al, Code(r, v, 0), start)
    ensures var w := Advance(band, data, b, k, start, r);
      && Mixed(b, w.b, goal.b)
      && Undoable(c, w.b, newnz, goal.b)
      && (if w.k > band.se then goal == Refined(w.b, w.at, 0, v)
          else if v == 0 then goal == RefineFrom(band, t, data, w.b, w.k + 1, w.at)
          else
            var next := w.b[band.order[w.k] := v];
            && goal == RefineFrom(band, t, data, next, w.k + 1, w.at)
            && Undoable(c, next, newnz + [band.order[w.k]], goal.b))
  {
    hide Advance, Window, SymbolAt, NewValue, Undoable, Mixed;
    var w := Advance(band, data, b, k, start, r);
    var next := if w.k > band.se || v == 0 then w.b else w.b[band.order[w.k] := v];
    WalkInside(band, t, data, b, goal.b, k, start, r, w, next);
    UndoableWalk(c, b, newnz, w.b, goal.b);
    WalkStops(band, data, b, k, start, r);
    if w.k <= band.se && v != 0 {
      UndoablePlace(c, w.b, newnz, goal.b, band.order[w.k], v);
    }
  }

  // ----- Restarts -----

  // Behind a restart marker there is no run of ends of band.
  ghost function Restarted(input: seq<Byte>, interval: nat, s: Situation<Position>): (r: Situation<Position>)
    requires s.end > 0
    ensures r.end > 0
  {
    var l := LandingAt(input, s.end, s.num);
    var stretch := StretchAt(input, l);
    var start := StartOfSegment(l.marker != 0, s.state.at > 8 * |s.data|);
    Situation(stretch.data, stretch.end, (s.num + 1) % 8, interval, Position(start, 0))
  }

  // Where the next block is decoded.
  ghost function Ready(input: seq<Byte>, interval: nat, s: Situation<Position>): (r: Situation<Position>)
    requires s.end > 0
    ensures r.end > 0 && (interval > 0 ==> r.togo > 0)
  {
    if interval > 0 && s.togo == 0 then Restarted(input, interval, s) else s
  }

  // What becomes of the next block, and the situation behind it.
  ghost function NextStep(band: Band, t: HuffTable, input: seq<Byte>, interval: nat, s: Situation<Position>,
                          b: seq<int>)
    : (f: Refined)
    requires ValidBand(band) && |b| == BLOCK && s.end > 0
    ensures |f.b| == BLOCK
  {
    var r := Ready(input, interval, s);
    Step(band, t, r.data, b, r.state)
  }

  ghost function NextSituation(band: Band, t: HuffTable, input: seq<Byte>, interval: nat, s: Situation<Position>,
                               b: seq<int>): (n: Situation<Position>)
    requires ValidBand(band) && |b| == BLOCK && s.end > 0
    ensures n.end > 0
  {
    var r, f := Ready(input, interval, s), NextStep(band, t, input, interval, s, b);
    r.(togo := if interval > 0 then r.togo - 1 else r.togo, state := Position(f.at, f.eobrun))
  }

  class RefineDecoder {
    const reader: Reader
    const band: Band
    const table: HuffTable
    const interval: nat          // MCUs between restart markers, 0 for none
    var saved: BitState
    var eobrun: nat
    var restartsToGo: nat
    ghost var savedAt: nat

    ghost predicate Steady()
      reads this`savedAt, this`saved, reader`nextRestartNum, reader`insufficientData, reader`code
    {
      && ValidBand(band) && GoodTable(table)
      && reader.nextRestartNum < 8 && 0 <= saved.getBuffer < WORD
      && reader.insufficientData == (savedAt > 8 * |reader.code|)
    }

    // A restart marker has to be dealt with before the next block.
    predicate Due()
      reads this`restartsToGo
    {
      interval != 0 && restartsToGo == 0
    }

    // Inside a segment.
    ghost predicate Resuming()
      reads this`savedAt, this`saved, reader
    {
      Steady() && reader.Resumable(saved, savedAt)
    }

    // Between blocks.
    ghost predicate Valid()
      reads this, reader
    {
      Steady() && if Due() then reader.Seeking(saved.pos) else reader.Resumable(saved, savedAt)
    }

    ghost function Inside(): Position
      reads this`savedAt, this`eobrun
    {
      Position(savedAt, eobrun)
    }

    ghost function Here(): Situation<Position>
      reads this`savedAt, this`eobrun, this`restartsToGo, reader
    {
      Situation(reader.code, reader.end, reader.nextRestartNum, restartsToGo, Inside())
    }

    // What decoding the next block of the segment makes of b.
    ghost function Goal(b: seq<int>): (f: Refined)
      requires ValidBand(band) && |b| == BLOCK
      reads this`savedAt, this`eobrun, reader`code
      ensures |f.b| == BLOCK
    {
      Step(band, table, reader.code, b, Inside())
    }

    ghost predicate Reading()
      reads this, reader
    {
      reader.Valid() && reader.insufficientData == (reader.at > 8 * |reader.code|)
    }

    constructor (r: Reader, b: Band, t: HuffTable, restartInterval: nat)
      requires r.Valid() && !r.insufficientData && r.at <= 8 * |r.code| && r.nextRestartNum < 8
      requires ValidBand(b) && GoodTable(t)
      ensures Valid() && reader == r && band == b && table == t && interval == restartInterval
      ensures Here() == Situation(r.code, r.end, r.nextRestartNum, restartInterval, Position(r.at, 0))
    {
      hide ValidBand, GoodTable, Reads, Resync, AfterMarker, InputAt;
      reader, band, table, interval := r, b, t, restartInterval;
      saved, eobrun, savedAt := BitState(r.getBuffer, r.bitsLeft, r.pos), 0, r.at;
      restartsToGo := restartInterval;
      BufferRange(r);
    }

    ghost function Corrected(b: seq<int>, pos: nat, at: nat): seq<int>
      requires |b| == BLOCK && pos < BLOCK
      reads this, reader
    {
      b[pos := Correct(b[pos], Window(reader.code, at, 1), band.al)]
    }

    // One correction bit, or none if the coefficient is still zero.
    method CorrectAt(block: array<int>, pos: nat) returns (ok: bool)
      requires Reading() && block.Length == BLOCK && pos < BLOCK && block[pos] != 0
      modifies block, reader`unreadMarker, reader`insufficientData, reader`getBuffer, reader`bitsLeft, reader`pos
      modifies reader`at
      ensures ok ==> Reading() && reader.at == old(reader.at) + 1
      ensures ok ==> block[..] == Corrected(old(block[..]), pos, old(reader.at))
      ensures !ok ==> block[..] == old(block[..]) && !reader.Complete()
      ensures !ok ==> reader.unreadMarker == old(reader.unreadMarker) == 0
      ensures !ok ==> reader.insufficientData == old(reader.insufficientData) == false
      ensures old(reader.unreadMarker) != 0 ==> reader.unreadMarker == old(reader.unreadMarker)
    {
      hide Reads, Window, Pow2;
      var bit;
      ok, bit := reader.ReadBits(1);
      if ok && bit != 0 && !HasBit(block[pos], band.al) {
        if block[pos] >= 0 {
          block[pos] := block[pos] + Pow2(band.al);
        } else {
          block[pos] := block[pos] - Pow2(band.al);
        }
      }
    }

    // Advance over nonzero coefficients, correcting them, and over r zero ones.
    method AdvanceOver(block: array<int>, start: nat, r: nat) returns (ok: bool, k: nat)
      requires Reading() && ValidBand(band) && block.Length == BLOCK && band.ss <= start <= band.se + 1
      modifies block, reader`unreadMarker, reader`insufficientData, reader`getBuffer, reader`bitsLeft, reader`pos
      modifies reader`at
      ensures ok ==> Reading()
      ensures ok ==>
        Walk(block[..], k, reader.at) == Advance(band, reader.code, old(block[..]), start, old(reader.at), r)
      ensures !ok ==>
        Mixed(old(block[..]), block[..], Advance(band, reader.code, old(block[..]), start, old(reader.at), r).b)
      ensures !ok ==> reader.unreadMarker == old(reader.unreadMarker) == 0 && !reader.Complete()
      ensures !ok ==> reader.insufficientData == old(reader.insufficientData) == false
      ensures old(reader.unreadMarker) != 0 ==> reader.unreadMarker == old(reader.unreadMarker)
    {
      hide Reads, Window, Pow2, Mixed, Correct;
      ghost var goal := Advance(band, reader.code, block[..], start, reader.at, r);
      var left := r;
      k := start;
      assert Mixed(old(block[..]), block[..], goal.b) by { MixedSame(block[..], goal.b); }
      while k <= band.se
        invariant Reading() && reader.at >= old(reader.at) && band.ss <= k <= band.se + 1
        invariant Advance(band, reader.code, block[..], k, reader.at, left) == goal
        invariant Mixed(old(block[..]), block[..], goal.b)
        invariant old(reader.unreadMarker) != 0 ==> reader.unreadMarker == old(reader.unreadMarker)
        decreases band.se + 1 - k
      {
        var pos := band.order[k];
        if block[pos] != 0 {
          ghost var before := block[..];
          ghost var from := reader.at;
          ok := CorrectAt(block, pos);
          if !ok {
            return;
          }
          CorrectTwice(before[pos], Window(reader.code, from, 1), band.al);
          NotAhead(band, k);
          AdvanceFrame(band, reader.code, block[..], k + 1, reader.at, left, pos);
          MixedSet(before, goal.b, pos);
          MixedTransitive(old(block[..]), before, block[..], goal.b);
        } else if left == 0 {
          break;
        } else {
          left := left - 1;
        }
        k := k + 1;
      }
      ok := true;
    }

    // Correct what is left of the band.
    method CorrectTail(block: array<int>, start: nat) returns (ok: bool)
      requires Reading() && ValidBand(band) && block.Length == BLOCK && band.ss <= start <= band.se + 1
      modifies block, reader`unreadMarker, reader`insufficientData, reader`getBuffer, reader`bitsLeft, reader`pos
      modifies reader`at
      ensures ok ==> Reading()
      ensures ok ==> block[..] == CorrectRest(band, reader.code, old(block[..]), start, old(reader.at)).b
      ensures ok ==> reader.at == CorrectRest(band, reader.code, old(block[..]), start, old(reader.at)).at
      ensures !ok ==>
        Mixed(old(block[..]), block[..], CorrectRest(band, reader.code, old(block[..]), start, old(reader.at)).b)
      ensures !ok ==> reader.unreadMarker == old(reader.unreadMarker) == 0 && !reader.Complete()
      ensures !ok ==> reader.insufficientData == old(reader.insufficientData) == false
      ensures old(reader.unreadMarker) != 0 ==> reader.unreadMarker == old(reader.unreadMarker)
    {
      hide Reads, Window, Pow2, Mixed, Correct;
      ghost var goal := CorrectRest(band, reader.code, block[..], start, reader.at);
      ghost var left: nat := BLOCK;
      var k := start;
      assert Mixed(old(block[..]), block[..], goal.b) by { MixedSame(block[..], goal.b); }
      while k <= band.se
        invariant Reading() && reader.at >= old(reader.at) && band.ss <= k <= band.se + 1 && left >= band.se + 1 - k
        invariant Advance(band, reader.code, block[..], k, reader.at, left) == goal
        invariant Mixed(old(block[..]), block[..], goal.b)
        invariant old(reader.unreadMarker) != 0 ==> reader.unreadMarker == old(reader.unreadMarker)
        decreases band.se + 1 - k
      {
        var pos := band.order[k];
        if block[pos] != 0 {
          ghost var before := block[..];
          ghost var from := reader.at;
          ok := CorrectAt(block, pos);
          if !ok {
            return;
          }
          CorrectTwice(before[pos], Window(reader.code, from, 1), band.al);
          NotAhead(band, k);
          AdvanceFrame(band, reader.code, block[..], k + 1, reader.at, left, pos);
          MixedSet(before, goal.b, pos);
          MixedTransitive(old(block[..]), before, block[..], goal.b);
        } else {
          left := left - 1;
        }
        k := k + 1;
      }
      ok := true;
    }

    // Outcome of a block outside a run of ends of band, and of its rest when a run begins.
    ghost function BandGoal(b: seq<int>, at: nat): (f: Refined)
      requires ValidBand(band) && |b| == BLOCK
      reads this, reader
      ensures |f.b| == BLOCK
    {
      RefineFrom(band, table, reader.code, b, band.ss, at)
    }

    ghost function RunGoal(b: seq<int>, k: nat, run: nat, at: nat): (f: Refined)
      requires InBand(band, b, k) && run > 0
      reads this, reader
    {
      var w := CorrectRest(band, reader.code, b, k, at);
      Refined(w.b, w.at, run - 1, 0)
    }

    ghost predicate BandDone(goal: Refined, b: seq<int>, at: nat)
      requires ValidBand(band) && |goal.b| == BLOCK
      reads this
    {
      b == Outcome(band, goal) && at == goal.at && goal.eobrun == 0
    }

    // A symbol and the bits behind it.
    method ReadCode() returns (ok: bool, code: Code)
      requires Reading() && GoodTable(table)
      modifies reader`unreadMarker, reader`insufficientData, reader`getBuffer, reader`bitsLeft, reader`pos, reader`at
      ensures ok ==> Reading() && reader.at >= old(reader.at)
      ensures ok ==> CodeAt(table, reader.code, old(reader.at), band.al, code, reader.at)
      ensures !ok ==> reader.unreadMarker == old(reader.unreadMarker) == 0 && !reader.Complete()
      ensures !ok ==> reader.insufficientData == old(reader.insufficientData) == false
      ensures old(reader.unreadMarker) != 0 ==> reader.unreadMarker == old(reader.unreadMarker)
    {
      hide Reads, Pow2, NewValue, SymbolAt, GoodTable;
      code := Code(0, 0, 0);
      var sym;
      ok, sym := reader.HuffDecode(table);
      if !ok {
        return;
      }
      code := Code(sym / 16, 0, 0);
      if sym % 16 != 0 {
        var bit;
        ok, bit := reader.ReadBits(1);
        if !ok {
          return;
        }
        code := code.(v := NewValue(bit, band.al));
      } else if code.r != 15 {
        code := code.(run := Pow2(code.r));
        if code.r != 0 {
          var more;
          ok, more := reader.ReadBits(code.r);
          if !ok {
            return;
          }
          code := code.(run := code.run + more);
        }
      }
    }

    // The part outside a run of ends of band; run > 0 says that one begins at k.
    method DecodeBand(block: array<int>, newnz: array<nat>) returns (ok: bool, count: nat, run: nat, k: nat)
      requires Reading() && ValidBand(band) && GoodTable(table) && block.Length == newnz.Length == BLOCK
      requires block as object != newnz as object
      modifies block, newnz
      modifies reader`unreadMarker, reader`insufficientData, reader`getBuffer, reader`bitsLeft, reader`pos, reader`at
      ensures ok ==> Reading() && reader.at >= old(reader.at)
      ensures count <= BLOCK && forall i | 0 <= i < count :: newnz[i] < BLOCK
      ensures ok && run == 0 ==> BandDone(BandGoal(old(block[..]), old(reader.at)), block[..], reader.at)
      ensures !ok || run > 0 ==>
        Undoable(old(block[..]), block[..], newnz[..count], BandGoal(old(block[..]), old(reader.at)).b)
      ensures ok && run > 0 ==> band.ss <= k <= band.se
      ensures ok && run > 0 ==> BandGoal(old(block[..]), old(reader.at)) == RunGoal(block[..], k, run, reader.at)
      ensures !ok ==> reader.unreadMarker == old(reader.unreadMarker) == 0 && !reader.Complete()
      ensures !ok ==> reader.insufficientData == old(reader.insufficientData) == false
      ensures old(reader.unreadMarker) != 0 ==> reader.unreadMarker == old(reader.unreadMarker)
    {
      hide Reads, Window, Pow2, Mixed, Correct, Advance, RefineFrom, CodeAt, GoodTable, Undoable;
      ghost var c, goal := block[..], BandGoal(block[..], reader.at);
      k, count, run := band.ss, 0, 0;
      NothingToUndo(c, goal.b);
      assert newnz[..count] == [];
      while k <= band.se
        invariant Reading() && reader.at >= old(reader.at)
        invariant band.ss <= k <= band.se + 2 && count <= k - band.ss && forall i | 0 <= i < count :: newnz[i] < BLOCK
        invariant k <= band.se + 1 ==> RefineFrom(band, table, reader.code, block[..], k, reader.at) == goal
        invariant k <= band.se + 1 ==> Undoable(c, block[..], newnz[..count], goal.b)
        invariant k == band.se + 2 ==> BandDone(goal, block[..], reader.at)
        invariant old(reader.unreadMarker) != 0 ==> reader.unreadMarker == old(reader.unreadMarker)
        decreases band.se + 2 - k
      {
        ghost var from := reader.at;
        var code;
        ok, code := ReadCode();
        if !ok {
          return;
        }
        if code.run > 0 {
          RunStarts(band, table, reader.code, block[..], k, from, code, reader.at);
          run := code.run;
          break;
        }
        ghost var before, start := block[..], reader.at;
        ghost var w := Advance(band, reader.code, before, k, start, code.r);
        WalkStep(band, table, reader.code, c, before, newnz[..count], k, from, start, code.r, code.v, goal);
        ok, k := AdvanceOver(block, k, code.r);
        if !ok {
          MixedThrough(before, block[..], w.b, goal.b);
          UndoableWalk(c, before, newnz[..count], block[..], goal.b);
          return;
        }
        if code.v != 0 {
          ghost var found := newnz[..count];
          block[band.order[k]] := code.v;
          newnz[count] := band.order[k];
          count := count + 1;
          assert newnz[..count] == found + [band.order[k]];
        }
        k := k + 1;
      }
      if k == band.se + 1 {
        BandEnd(band, table, reader.code, block[..], k, reader.at);
      }
      ok := true;
    }

    // decode_mcu_AC_refine inside a segment. The block may have been half changed by attempts
    // that had to suspend. A further suspension leaves the state alone and the block half
    // changed.
    method DecodeBlock(block: array<int>, ghost orig: seq<int>) returns (ok: bool)
      requires Resuming() && block.Length == |orig| == BLOCK && Mixed(orig, block[..], Goal(orig).b)
      modifies block, this`saved, this`eobrun, this`savedAt
      modifies reader`unreadMarker, reader`insufficientData, reader`getBuffer, reader`bitsLeft, reader`pos, reader`at
      ensures Resuming()
      ensures ok ==>
        block[..] == Outcome(band, old(Goal(orig))) && Inside() == Position(old(Goal(orig)).at, old(Goal(orig)).eobrun)
      ensures !ok ==> Inside() == old(Inside()) && Mixed(orig, block[..], Goal(orig).b) && !reader.Complete()
    {
      hide Reads, Mixed, RefineFrom, GoodTable, Undoable, Advance, AfterMarker, InputAt, Reader.Located;
      ghost var c, goal := block[..], Goal(orig);
      StepTwice(band, table, reader.code, orig, c, Inside());
      if reader.insufficientData {
        return true;
      }
      reader.Load(saved, savedAt);
      var newnz := new nat[BLOCK];
      var count, run, k := 0, eobrun, band.ss;
      NothingToUndo(c, goal.b);
      assert newnz[..count] == [];
      if run == 0 {
        ok, count, run, k := DecodeBand(block, newnz);
        if !ok {
          BreakOff(block, newnz, count, orig, c, goal.b);
          return;
        }
      }
      if run > 0 {
        ghost var cur := block[..];
        ok := CorrectTail(block, k);
        if !ok {
          UndoableWalk(c, cur, newnz[..count], block[..], goal.b);
          BreakOff(block, newnz, count, orig, c, goal.b);
          return;
        }
        run := run - 1;
      }
      saved, eobrun, savedAt := BitState(reader.getBuffer, reader.bitsLeft, reader.pos), run, reader.at;
      BufferRange(reader);
      ok := true;
    }

    // process_restart. Suspending in the middle loses nothing.
    method ProcessRestart() returns (ok: bool)
      requires Valid() && Due()
      modifies this`saved, this`eobrun, this`savedAt, this`restartsToGo
      modifies reader`unreadMarker, reader`insufficientData, reader`nextRestartNum, reader`code, reader`end
      ensures ok ==> Resuming() && Here() == old(Restarted(reader.input, interval, Here()))
      ensures !ok ==> Valid() && Here() == old(Here())
      ensures !ok ==> !reader.HasArrived(LandingAt(reader.input, reader.end, reader.nextRestartNum).pos)
    {
      hide ValidBand, GoodTable, Resync, Reads, AfterMarker, InputAt, Unstuff;
      var t;
      ghost var p;
      ok, t, p := reader.ProcessRestart(saved);
      saved := t;
      if !ok {
        return;
      }
      BufferOf(reader, saved, p);
      eobrun := 0;
      savedAt := p;
      restartsToGo := interval;
    }

    // decode_mcu_AC_refine. How often it had to suspend before has no influence on the block.
    method DecodeMcu(block: array<int>, ghost orig: seq<int>) returns (ok: bool)
      requires Valid() && block.Length == |orig| == BLOCK
      requires Mixed(orig, block[..], NextStep(band, table, reader.input, interval, Here(), orig).b)
      modifies block, this`saved, this`eobrun, this`savedAt, this`restartsToGo
      modifies reader`unreadMarker, reader`insufficientData, reader`getBuffer, reader`bitsLeft, reader`pos, reader`at
      modifies reader`nextRestartNum, reader`code, reader`end
      ensures Valid() && reader.end > 0
      ensures ok ==> block[..] == Outcome(band, old(NextStep(band, table, reader.input, interval, Here(), orig)))
      ensures ok ==> Here() == old(NextSituation(band, table, reader.input, interval, Here(), orig))
      ensures !ok ==> Ready(reader.input, interval, Here()) == old(Ready(reader.input, interval, Here()))
      ensures !ok ==> Mixed(orig, block[..], NextStep(band, table, reader.input, interval, Here(), orig).b)
      ensures !ok ==> !reader.HasArrived(Ready(reader.input, interval, Here()).end)
    {
      hide ValidBand, GoodTable, Resync, Reads, AfterMarker, InputAt, Unstuff, Mixed, Step, LandingAt, Outcome;
      if interval != 0 && restartsToGo == 0 {
        ok := ProcessRestart();
        if !ok {
          return;
        }
      }
      ok := DecodeBlock(block, orig);
      if ok {
        if interval != 0 {
          restartsToGo := restartsToGo - 1;
        }
        reader.ResumableSeeks(saved, savedAt);
      }
    }

    // A whole scan while the source delivers chunk after chunk: how the data is cut into
    // chunks has no influence on any block, and nothing waits for more than the segment.
    method DecodeScan(blocks: seq<array<int>>, chunks: seq<nat>, ghost orig: seq<seq<int>>) returns (done: nat)
      requires Valid() && |orig| == |blocks|
      requires forall i | 0 <= i < |blocks| :: blocks[i].Length == |orig[i]| == BLOCK && blocks[i][..] == orig[i]
      requires forall i, j | 0 <= i < j < |blocks| :: blocks[i] != blocks[j]
      modifies blocks, reader, this`saved, this`eobrun, this`savedAt, this`restartsToGo
      ensures Valid() && done <= |blocks| && old(Here()).end > 0
      ensures Here().end > 0 && (done == |blocks| ==> Here() == ScanAfter(old(Here()), orig, done))
      ensures forall i | 0 <= i < done :: blocks[i][..] == ScanBlock(old(Here()), orig, i)
      ensures forall i | done < i < |blocks| :: blocks[i][..] == orig[i]
      ensures done < |blocks| ==> reader.avail == old(reader.avail) + Arrived(chunks)
      ensures done < |blocks| ==>
        !reader.HasArrived(Ready(reader.input, interval, ScanAfter(old(Here()), orig, done)).end)
    {
      hide Mixed, NextStep, NextSituation, Ready, Outcome, Reads, GoodTable, AfterMarker, InputAt, ValidBand, ScanAfter,
           ScanBlock, Resync;
      EndIsThere();
      ghost var start := Here();
      var c := 0;
      done := 0;
      NoneDone(start, orig);
      if |blocks| > 0 {
        MixedSame(orig[0], NextStep(band, table, reader.input, interval, Here(), orig[0]).b);
      }
      while done < |blocks|
        invariant Valid() && done <= |blocks| && c <= |chunks| && Here().end > 0
        invariant reader.avail == old(reader.avail) + Arrived(chunks[..c])
        invariant done < |blocks| ==>
          Ready(reader.input, interval, Here()) == Ready(reader.input, interval, ScanAfter(start, orig, done))
        invariant done == |blocks| ==> Here() == ScanAfter(start, orig, done)
        invariant forall i | 0 <= i < done :: blocks[i][..] == ScanBlock(start, orig, i)
        invariant done < |blocks| ==>
          Mixed(orig[done], blocks[done][..], NextStep(band, table, reader.input, interval, Here(), orig[done]).b)
        invariant forall i | done < i < |blocks| :: blocks[i][..] == orig[i]
        decreases |blocks| - done, |chunks| - c
      {
        ghost var here := Here();
        var ok := DecodeMcu(blocks[done], orig[done]);
        if ok {
          Continue(start, orig, done, here);
          done := done + 1;
          if done < |blocks| {
            MixedSame(orig[done], NextStep(band, table, reader.input, interval, Here(), orig[done]).b);
          }
        } else if c < |chunks| {
          assert chunks[..c + 1][..c] == chunks[..c];
          reader.avail := reader.avail + chunks[c];
          c := c + 1;
        } else {
          assert chunks[..c] == chunks;
          return;
        }
      }
    }

    // The situation before block i of a scan, and what block i becomes.
    ghost function ScanAfter(start: Situation<Position>, orig: seq<seq<int>>, i: nat): (s: Situation<Position>)
      requires ValidBand(band) && start.end > 0 && i <= |orig| && forall j | 0 <= j < |orig| :: |orig[j]| == BLOCK
      ensures s.end > 0
    {
      Sequel(band, table, reader.input, interval, start, orig, i)
    }

    ghost function ScanBlock(start: Situation<Position>, orig: seq<seq<int>>, i: nat): seq<int>
      requires ValidBand(band) && start.end > 0 && i < |orig| && forall j | 0 <= j < |orig| :: |orig[j]| == BLOCK
    {
      Outcome(band, NextStep(band, table, reader.input, interval, ScanAfter(start, orig, i), orig[i]))
    }

    lemma EndIsThere()
      requires Valid()
      ensures reader.end > 0 && ValidBand(band)
    {
    }

    lemma NoneDone(start: Situation<Position>, orig: seq<seq<int>>)
      requires ValidBand(band) && start.end > 0 && forall j | 0 <= j < |orig| :: |orig[j]| == BLOCK
      ensures ScanAfter(start, orig, 0) == start
    {
    }

    // The situation behind a block depends on where it is decoded only.
    lemma Continue(start: Situation<Position>, orig: seq<seq<int>>, i: nat, here: Situation<Position>)
      requires ValidBand(band) && start.end > 0 && i < |orig| && forall j | 0 <= j < |orig| :: |orig[j]| == BLOCK
      requires here.end > 0
      requires Ready(reader.input, interval, here) == Ready(reader.input, interval, ScanAfter(start, orig, i))
      ensures NextSituation(band, table, reader.input, interval, here, orig[i]) == ScanAfter(start, orig, i + 1)
      ensures Outcome(band, NextStep(band, table, reader.input, interval, here, orig[i])) == ScanBlock(start, orig, i)
    {
      hide Ready, Step, Outcome;
    }
  }

  // The situation before block i when the blocks before it have been decoded.
  ghost function Sequel(band: Band, t: HuffTable, input: seq<Byte>, interval: nat, start: Situation<Position>,
                        orig: seq<seq<int>>, i: nat): (s: Situation<Position>)
    requires ValidBand(band) && start.end > 0 && i <= |orig| && forall j | 0 <= j < |orig| :: |orig[j]| == BLOCK
    ensures s.end > 0
  {
    if i == 0 then start
    else NextSituation(band, t, input, interval, Sequel(band, t, input, interval, start, orig, i - 1), orig[i - 1])
  }

  lemma BandEnd(band: Band, t: HuffTable, data: seq<Byte>, b: seq<int>, k: nat, at: nat)
    requires InBand(band, b, k) && k == band.se + 1
    ensures RefineFrom(band, t, data, b, k, at) == Refined(b, at, 0, 0)
  {
  }

  lemma MixedSame(b: seq<int>, f: seq<int>)
    requires |b| == |f| == BLOCK
    ensures Mixed(b, b, f)
  {
  }

  lemma MixedSet(b: seq<int>, f: seq<int>, pos: nat)
    requires |b| == |f| == BLOCK && pos < BLOCK && b[pos] != 0 && f[pos] != 0
    ensures Mixed(b, b[pos := f[pos]], f)
  {
  }

  // A symbol that starts a run of ends of band.
  lemma RunStarts(band: Band, t: HuffTable, data: seq<Byte>, b: seq<int>, k: nat, at: nat, code: Code, behind: nat)
    requires InBand(band, b, k) && k <= band.se && CodeAt(t, data, at, band.al, code, behind) && code.run > 0
    ensures var w := CorrectRest(band, data, b, k, behind);
      RefineFrom(band, t, data, b, k, at) == Refined(w.b, w.at, code.run - 1, 0)
  {
    hide Advance, Window, SymbolAt;
  }
}
