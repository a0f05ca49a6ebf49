// Successive-approximation refinement of AC coefficients as a Huffman decoder does it
// (section G.2.3 of ITU-T T.81), stated on the bits of a segment, and why a refinement that
// was broken off may be repeated on a block it has already half changed.

module AcRefinement {
  import opened CodeBits
  import opened Coefficients
  import opened PointTransform
  import opened HuffmanTables

  // Spectral band, bit position, and where the coefficients sit in the block. The entry
  // behind the band is where a corrupt run would put its coefficient.
  datatype Band = Band(ss: nat, se: nat, al: nat, order: seq<nat>)

  ghost predicate ValidBand(band: Band) {
    && 1 <= band.ss <= band.se < BLOCK
    && |band.order| >= band.se + 2
    && (forall k :: 0 <= k < |band.order| ==> band.order[k] < BLOCK)
    && (forall j, k :: 0 <= j < k <= band.se ==> band.order[j] != band.order[k])
  }

  // ----- Correction bits -----

  // Append a correction bit to a nonzero coefficient, unless that was done already.
  function Correct(x: int, bit: nat, al: nat): int {
    if bit != 0 && !HasBit(x, al) then (if x >= 0 then x + Pow2(al) else x - Pow2(al)) else x
  }

  lemma DivideShifted(x: int, w: int, k: int)
    requires w > 0
    ensures (x + k * w) / w == x / w + k
  {
    var q, r := x / w, x % w;
    assert x == q * w + r;
    assert (q + k) * w == q * w + k * w;
    DivideSigned(q + k, w, r);
  }

  // Repeating a correction changes nothing, and corrected coefficients stay nonzero.
  lemma CorrectTwice(x: int, bit: nat, al: nat)
    requires x != 0
    ensures Correct(Correct(x, bit, al), bit, al) == Correct(x, bit, al)
    ensures Correct(x, bit, al) != 0
  {
    DivideShifted(x, Pow2(al), 1);
    DivideShifted(x, Pow2(al), -1);
  }

  // ----- One walk over the band -----

  datatype Walk = Walk(b: seq<int>, k: nat, at: nat)

  ghost predicate InBand(band: Band, b: seq<int>, k: nat) {
    ValidBand(band) && |b| == BLOCK && band.ss <= k <= band.se + 1
  }

  // Advance over already-nonzero coefficients, correcting each, and over r still-zero ones.
  ghost function Advance(band: Band, data: seq<Byte>, b: seq<int>, k: nat, at: nat, r: nat): (w: Walk)
    requires InBand(band, b, k)
    ensures |w.b| == BLOCK && k <= w.k <= band.se + 1 && w.at >= at
    decreases band.se + 1 - k
  {
    if k > band.se then Walk(b, k, at)
    else
      var pos := band.order[k];
      if b[pos] != 0 then
        Advance(band, data, b[pos := Correct(b[pos], Window(data, at, 1), band.al)], k + 1, at + 1, r)
      else if r == 0 then Walk(b, k, at)
      else Advance(band, data, b, k + 1, at, r - 1)
  }

  // Correct every nonzero coefficient from k to the end of the band: an advance over more
  // zeros than there are.
  ghost function CorrectRest(band: Band, data: seq<Byte>, b: seq<int>, k: nat, at: nat): (w: Walk)
    requires InBand(band, b, k)
    ensures |w.b| == BLOCK && w.at >= at
  {
    Advance(band, data, b, k, at, BLOCK)
  }

  // Result of one block: the coefficients, the bit position, the rest of the run of ends of
  // band, and a coefficient that a corrupt code places behind the band (0 if none).
  datatype Refined = Refined(b: seq<int>, at: nat, eobrun: nat, stray: int)

  // Length of a run of ends of band: 2^r plus r appended bits.
  ghost function RunLength(data: seq<Byte>, at: nat, r: nat): nat {
    Pow2(r) + Window(data, at, r)
  }

  // The value of a newly nonzero coefficient.
  function NewValue(bit: nat, al: nat): (v: int)
    ensures v != 0
  {
    var v: int := Pow2(al);
    if bit != 0 then v else -v
  }

  // Decode codes from coefficient k on, outside a run of ends of band.
  ghost function RefineFrom(band: Band, t: HuffTable, data: seq<Byte>, b: seq<int>, k: nat, at: nat): (f: Refined)
    requires InBand(band, b, k)
    ensures |f.b| == BLOCK
    decreases band.se + 1 - k
  {
    if k > band.se then Refined(b, at, 0, 0)
    else
      var d := SymbolAt(t, data, at);
      var r, s, here := d.symbol / 16, d.symbol % 16, at + d.size;
      if s == 0 && r != 15 then
        var w := CorrectRest(band, data, b, k, here + r);
        Refined(w.b, w.at, RunLength(data, here, r) - 1, 0)
      else if s == 0 then
        var w := Advance(band, data, b, k, here, r);
        if w.k > band.se then Refined(w.b, w.at, 0, 0)
        else RefineFrom(band, t, data, w.b, w.k + 1, w.at)
      else
        var v := NewValue(Window(data, here, 1), band.al);
        var w := Advance(band, data, b, k, here + 1, r);
        if w.k > band.se then Refined(w.b, w.at, 0, v)
        else RefineFrom(band, t, data, w.b[band.order[w.k] := v], w.k + 1, w.at)
  }

  // One block, in or outside a run of ends of band.
  ghost function RefineBlock(band: Band, t: HuffTable, data: seq<Byte>, b: seq<int>, at: nat, eobrun: nat): (f: Refined)
    requires ValidBand(band) && |b| == BLOCK
    ensures |f.b| == BLOCK
  {
    if eobrun == 0 then RefineFrom(band, t, data, b, band.ss, at)
    else
      var w := CorrectRest(band, data, b, band.ss, at);
      Refined(w.b, w.at, eobrun - 1, 0)
  }

  // Bit position and run of ends of band between two blocks.
  datatype Position = Position(at: nat, eobrun: nat)

  // The next block, which is left alone behind the end of the data.
  ghost function Step(band: Band, t: HuffTable, data: seq<Byte>, b: seq<int>, p: Position): (f: Refined)
    requires ValidBand(band) && |b| == BLOCK
    ensures |f.b| == BLOCK
  {
    if p.at > 8 * |data| then Refined(b, p.at, p.eobrun, 0) else RefineBlock(band, t, data, b, p.at, p.eobrun)
  }

  // The position after i blocks.
  ghost function After(band: Band, t: HuffTable, data: seq<Byte>, bs: seq<seq<int>>, p: Position, i: nat): Position
    requires ValidBand(band) && i <= |bs| && forall j | 0 <= j < |bs| :: |bs[j]| == BLOCK
  {
    if i == 0 then p
    else
      var f := Step(band, t, data, bs[i - 1], After(band, t, data, bs, p, i - 1));
      Position(f.at, f.eobrun)
  }

  ghost function Outcome(band: Band, f: Refined): seq<int>
    requires ValidBand(band) && |f.b| == BLOCK
  {
    if f.stray != 0 then f.b[band.order[band.se + 1] := f.stray] else f.b
  }

  // Block i at the end of the scan.
  ghost function Refinement(band: Band, t: HuffTable, data: seq<Byte>, bs: seq<seq<int>>, p: Position, i: nat): seq<int>
    requires ValidBand(band) && i < |bs| && forall j | 0 <= j < |bs| :: |bs[j]| == BLOCK
  {
    Outcome(band, Step(band, t, data, bs[i], After(band, t, data, bs, p, i)))
  }

  // ----- What a walk leaves alone -----

  // Position p is that of a coefficient of the band from k on.
  ghost predicate Ahead(band: Band, k: nat, p: nat)
    requires ValidBand(band)
  {
    exists j :: k <= j <= band.se && band.order[j] == p
  }

  lemma NotAhead(band: Band, k: nat)
    requires ValidBand(band) && k <= band.se
    ensures !Ahead(band, k + 1, band.order[k])
    ensures forall p: nat :: !Ahead(band, k, p) ==> !Ahead(band, k + 1, p) && p != band.order[k]
  {
  }

  lemma {:induction false} AdvanceFrame(band: Band, data: seq<Byte>, b: seq<int>, k: nat, at: nat, r: nat, p: nat)
    requires InBand(band, b, k) && p < BLOCK && !Ahead(band, k, p)
    ensures Advance(band, data, b, k, at, r).b[p] == b[p]
    decreases band.se + 1 - k
  {
    hide Correct, Window;
    if k <= band.se {
      NotAhead(band, k);
      var pos := band.order[k];
      if b[pos] != 0 {
        AdvanceFrame(band, data, b[pos := Correct(b[pos], Window(data, at, 1), band.al)], k + 1, at + 1, r, p);
      } else if r != 0 {
        AdvanceFrame(band, data, b, k + 1, at, r - 1, p);
      }
    }
  }

  lemma AheadLater(band: Band, k: nat, l: nat, p: nat)
    requires ValidBand(band) && k <= l && !Ahead(band, k, p)
    ensures !Ahead(band, l, p)
  {
  }

  lemma {:induction false} RefineFrame(band: Band, t: HuffTable, data: seq<Byte>, b: seq<int>, k: nat, at: nat, p: nat)
    requires InBand(band, b, k) && p < BLOCK && !Ahead(band, k, p)
    ensures RefineFrom(band, t, data, b, k, at).b[p] == b[p]
    decreases band.se + 1 - k
  {
    hide Advance, Window, SymbolAt, Ahead, RunLength, NewValue;
    if k <= band.se {
      var d := SymbolAt(t, data, at);
      var r, s, here := d.symbol / 16, d.symbol % 16, at + d.size;
      if s == 0 && r != 15 {
        AdvanceFrame(band, data, b, k, here + r, BLOCK, p);
      } else {
        var start := if s == 0 then here else here + 1;
        var w := Advance(band, data, b, k, start, r);
        AdvanceFrame(band, data, b, k, start, r, p);
        if w.k <= band.se {
          AheadLater(band, k, w.k, p);
          NotAhead(band, w.k);
          var c := if s == 0 then w.b else w.b[band.order[w.k] := NewValue(Window(data, here, 1), band.al)];
          RefineFrame(band, t, data, c, w.k + 1, w.at, p);
        }
      }
    }
  }

  // ----- Repeating on a half-changed block -----

  // c is b with some of its nonzero coefficients already in their final form f.
  ghost predicate Mixed(b: seq<int>, c: seq<int>, f: seq<int>) {
    && |b| == |c| == |f| == BLOCK
    && forall p :: 0 <= p < BLOCK ==> c[p] == b[p] || (b[p] != 0 && f[p] != 0 && c[p] == f[p])
  }

  lemma MixedTransitive(a: seq<int>, b: seq<int>, c: seq<int>, f: seq<int>)
    requires Mixed(a, b, f) && Mixed(b, c, f)
    ensures Mixed(a, c, f)
  {
  }

  lemma MixedThrough(b: seq<int>, c: seq<int>, w: seq<int>, f: seq<int>)
    requires Mixed(b, c, w) && Mixed(b, w, f)
    ensures Mixed(b, c, f)
  {
  }

  lemma MixedDone(c: seq<int>, f: seq<int>)
    requires Mixed(f, c, f)
    ensures c == f
  {
  }

  // f has the coefficients that the walk w passes from k on as the walk leaves them.
  ghost predicate Passed(band: Band, k: nat, w: Walk, f: seq<int>)
    requires ValidBand(band) && |w.b| == |f| == BLOCK && w.k <= band.se + 1
  {
    forall j | k <= j < w.k :: f[band.order[j]] == w.b[band.order[j]]
  }

  // A walk only brings nonzero coefficients to their final form.
  lemma {:induction false} AdvanceWithin(band: Band, data: seq<Byte>, b: seq<int>, f: seq<int>, k: nat, at: nat, r: nat)
    requires InBand(band, b, k) && |f| == BLOCK && Passed(band, k, Advance(band, data, b, k, at, r), f)
    ensures Mixed(b, Advance(band, data, b, k, at, r).b, f)
    decreases band.se + 1 - k
  {
    hide Correct, Window;
    if k <= band.se {
      var pos := band.order[k];
      if b[pos] != 0 {
        var x := Correct(b[pos], Window(data, at, 1), band.al);
        CorrectTwice(b[pos], Window(data, at, 1), band.al);
        NotAhead(band, k);
        AdvanceFrame(band, data, b[pos := x], k + 1, at + 1, r, pos);
        AdvanceWithin(band, data, b[pos := x], f, k + 1, at + 1, r);
      } else if r != 0 {
        AdvanceWithin(band, data, b, f, k + 1, at, r - 1);
      }
    }
  }

  // A walk on the half-changed block goes the same way.
  lemma {:induction false} AdvanceMixed(band: Band, data: seq<Byte>, b: seq<int>, c: seq<int>, f: seq<int>,
                                        k: nat, at: nat, r: nat)
    requires InBand(band, b, k) && Mixed(b, c, f) && Passed(band, k, Advance(band, data, b, k, at, r), f)
    ensures var v, w := Advance(band, data, b, k, at, r), Advance(band, data, c, k, at, r);
      v.k == w.k && v.at == w.at && Mixed(v.b, w.b, f)
    decreases band.se + 1 - k
  {
    hide Correct, Window;
    if k <= band.se {
      var pos := band.order[k];
      if b[pos] != 0 {
        var bit := Window(data, at, 1);
        var x := Correct(b[pos], bit, band.al);
        CorrectTwice(b[pos], bit, band.al);
        NotAhead(band, k);
        AdvanceFrame(band, data, b[pos := x], k + 1, at + 1, r, pos);
        assert f[pos] == x;
        AdvanceMixed(band, data, b[pos := x], c[pos := x], f, k + 1, at + 1, r);
      } else if r != 0 {
        AdvanceMixed(band, data, b, c, f, k + 1, at, r - 1);
      }
    }
  }

  // Refining a half-changed block gives the same as refining the untouched one.
  lemma {:induction false} RefineMixed(band: Band, t: HuffTable, data: seq<Byte>, b: seq<int>, c: seq<int>,
                                       k: nat, at: nat)
    requires InBand(band, b, k) && |c| == BLOCK && Mixed(b, c, RefineFrom(band, t, data, b, k, at).b)
    ensures RefineFrom(band, t, data, c, k, at) == RefineFrom(band, t, data, b, k, at)
    decreases band.se + 1 - k
  {
    hide Advance, Window, SymbolAt, RunLength, NewValue, Mixed, Passed;
    var f := RefineFrom(band, t, data, b, k, at).b;
    if k > band.se {
      MixedDone(c, f);
    } else {
      var d := SymbolAt(t, data, at);
      var r, s, here := d.symbol / 16, d.symbol % 16, at + d.size;
      if s == 0 && r != 15 {
        RestMixed(band, data, b, c, k, here + r);
      } else {
        var start := if s == 0 then here else here + 1;
        var v, w := Advance(band, data, b, k, start, r), Advance(band, data, c, k, start, r);
        if v.k > band.se {
          PassedAll(band, k, v);
          AdvanceMixed(band, data, b, c, f, k, start, r);
          MixedDone(w.b, f);
        } else {
          var x := NewValue(Window(data, here, 1), band.al);
          var next := if s == 0 then v.b else v.b[band.order[v.k] := x];
          var also := if s == 0 then w.b else w.b[band.order[v.k] := x];
          PassedBefore(band, t, data, k, v, next);
          AdvanceMixed(band, data, b, c, f, k, start, r);
          MixedUpdate(v.b, w.b, f, band.order[v.k], x);
          RefineMixed(band, t, data, next, also, v.k + 1, v.at);
        }
      }
    }
  }

  lemma MixedUpdate(b: seq<int>, c: seq<int>, f: seq<int>, pos: nat, x: int)
    requires Mixed(b, c, f) && pos < BLOCK
    ensures Mixed(b[pos := x], c[pos := x], f)
  {
  }

  lemma PassedAll(band: Band, k: nat, w: Walk)
    requires ValidBand(band) && |w.b| == BLOCK && w.k <= band.se + 1
    ensures Passed(band, k, w, w.b)
  {
  }

  lemma PassedBefore(band: Band, t: HuffTable, data: seq<Byte>, k: nat, w: Walk, next: seq<int>)
    requires ValidBand(band) && |w.b| == |next| == BLOCK && band.ss <= k <= w.k <= band.se
    requires forall p | 0 <= p < BLOCK && p != band.order[w.k] :: next[p] == w.b[p]
    ensures Passed(band, k, w, RefineFrom(band, t, data, next, w.k + 1, w.at).b)
  {
    hide RefineFrom;
    forall j | k <= j < w.k
      ensures RefineFrom(band, t, data, next, w.k + 1, w.at).b[band.order[j]] == w.b[band.order[j]]
    {
      RefineFrame(band, t, data, next, w.k + 1, w.at, band.order[j]);
    }
  }

  // The tail of a block, or a whole block inside a run of ends of band.
  lemma RestMixed(band: Band, data: seq<Byte>, b: seq<int>, c: seq<int>, k: nat, at: nat)
    requires InBand(band, b, k) && |c| == BLOCK && Mixed(b, c, CorrectRest(band, data, b, k, at).b)
    ensures CorrectRest(band, data, c, k, at) == CorrectRest(band, data, b, k, at)
  {
    hide Mixed, Passed, Advance;
    var v, w := CorrectRest(band, data, b, k, at), CorrectRest(band, data, c, k, at);
    PassedAll(band, k, v);
    AdvanceMixed(band, data, b, c, v.b, k, at, BLOCK);
    MixedDone(w.b, v.b);
  }

  // Main result: a suspended refinement can be repeated.
  lemma StepTwice(band: Band, t: HuffTable, data: seq<Byte>, b: seq<int>, c: seq<int>, p: Position)
    requires ValidBand(band) && |b| == |c| == BLOCK && Mixed(b, c, Step(band, t, data, b, p).b)
    ensures Step(band, t, data, c, p) == Step(band, t, data, b, p)
  {
    hide Mixed, RefineFrom, CorrectRest;
    if p.at > 8 * |data| {
      MixedDone(c, b);
    } else if p.eobrun == 0 {
      RefineMixed(band, t, data, b, c, band.ss, p.at);
    } else {
      RestMixed(band, data, b, c, band.ss, p.at);
    }
  }
}
