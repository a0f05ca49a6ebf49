// What an AC refinement encoder has promised at each moment: the fields written so far,
// completed by the pending run of ends of band however long it gets, make any decoder
// reproduce all blocks coded so far.

module AcRefineRuns {
  import opened CodeBits
  import opened Coefficients
  import opened HuffmanTables
  import opened BitPacker
  import opened HuffmanFields
  import opened AcRefinement
  import opened AcRefineCoding

  // ----- Runs of ends of band -----

  const MAX_RUN := 0x7FFF

  // Position of the leading one bit.
  function Log2(n: nat): (l: nat)
    requires n >= 1
  {
    if n == 1 then 0 else Log2(n / 2) + 1
  }

  lemma {:induction false} Log2Bounds(n: nat)
    requires n >= 1
    ensures Pow2(Log2(n)) <= n < 2 * Pow2(Log2(n))
  {
    if n > 1 {
      Log2Bounds(n / 2);
    }
  }

  lemma Log2OfRun(n: nat)
    requires 1 <= n <= MAX_RUN
    ensures Log2(n) <= 14 && n == Pow2(Log2(n)) + n % Pow2(Log2(n)) && n % Pow2(Log2(n)) < Pow2(Log2(n))
  {
    hide Pow2, Log2;
    Log2Bounds(n);
    var l := Log2(n);
    assert Pow2(15) == 0x8000 by { Pow2Constants(); }
    if l >= 15 {
      Pow2Monotone(15, l);
    }
    DivideExactly(1, Pow2(l), n - Pow2(l));
  }

  // EOBn symbol and the low bits of the run length.
  function RunFields(c: CDerived, n: nat): (fields: seq<Field>)
    requires |c.ehufco| == |c.ehufsi| == 256 && 1 <= n <= MAX_RUN
  {
    Log2OfRun(n);
    var l := Log2(n);
    [SymbolField(c, 16 * l)] + if l == 0 then [] else [Field(n % Pow2(l), l)]
  }

  ghost predicate RunHasCode(c: CDerived, n: nat)
    requires 1 <= n <= MAX_RUN
  {
    Log2OfRun(n);
    HasCode(c, 16 * Log2(n))
  }

  lemma RunRead(c: CDerived, t: HuffTable, n: nat, data: seq<Byte>, at: nat, rest: seq<Field>)
    requires Agree(c, t) && 1 <= n <= MAX_RUN && RunHasCode(c, n)
    requires |c.ehufco| == |c.ehufsi| == 256
    requires Carries(data, at, RunFields(c, n) + rest)
    ensures var d := SymbolAt(t, data, at);
      && d.symbol % 16 == 0 && d.symbol / 16 != 15
      && RunLength(data, at + d.size, d.symbol / 16) == n
      && Length(RunFields(c, n)) == d.size + d.symbol / 16
      && Carries(data, at + Length(RunFields(c, n)), rest)
  {
    hide Pow2, Log2, Window, Carries, Length, Agree, SymbolAt;
    Log2OfRun(n);
    var l := Log2(n);
    var f, g := SymbolField(c, 16 * l), Field(n % Pow2(l), l);
    CarriesAppend(data, at, RunFields(c, n), rest);
    var low := if l == 0 then [] else [g];
    CarriesOne(data, at, f, low);
    SymbolRead(c, t, 16 * l, data, at);
    LengthAppend([f], low);
    LengthOne(f);
    if l == 0 {
      LengthNone();
      assert Pow2(0) == 1 by { Pow2Zero(); }
      WindowBound(data, at + f.size, 0);
      assert Window(data, at + f.size, 0) == 0;
    } else {
      LengthOne(g);
      assert low == [g] + [];
      CarriesOne(data, at + f.size, g, []);
    }
  }

  lemma Pow2Zero()
    ensures Pow2(0) == 1
  {
  }

  // ----- The promise between blocks -----

  // Band of the scan, encoder table, decoder table.
  datatype Job = Job(band: Band, c: CDerived, t: HuffTable)

  ghost predicate ValidJob(job: Job) {
    ValidBand(job.band) && Agree(job.c, job.t) && |job.c.ehufco| == |job.c.ehufsi| == 256
  }

  // Blocks the decoder holds before the scan, and what they must become.
  datatype Blocks = Blocks(held: seq<seq<int>>, final: seq<seq<int>>)

  ghost predicate ValidBlocks(bs: Blocks) {
    |bs.held| == |bs.final| && forall j :: 0 <= j < |bs.held| ==> |bs.held[j]| == BLOCK
  }

  function Add(bs: Blocks, a: seq<int>, b: seq<int>): Blocks {
    Blocks(bs.held + [a], bs.final + [b])
  }

  ghost function Reached(job: Job, data: seq<Byte>, bs: Blocks): Position
    requires ValidJob(job) && ValidBlocks(bs)
  {
    After(job.band, job.t, data, bs.held, Position(0, 0), |bs.held|)
  }

  // Decoding the data from its start gives every block its final value and ends at p.
  ghost predicate Decodes(job: Job, data: seq<Byte>, bs: Blocks, p: Position)
    requires ValidJob(job) && ValidBlocks(bs)
  {
    && Reached(job, data, bs) == p
    && forall j :: 0 <= j < |bs.held| ==>
         Refinement(job.band, job.t, data, bs.held, Position(0, 0), j) == bs.final[j]
  }

  lemma {:induction false} AfterPrefix(band: Band, t: HuffTable, data: seq<Byte>, held: seq<seq<int>>, a: seq<int>,
                                       p: Position, i: nat)
    requires ValidBand(band) && |a| == BLOCK && i <= |held| && forall j :: 0 <= j < |held| ==> |held[j]| == BLOCK
    ensures After(band, t, data, held + [a], p, i) == After(band, t, data, held, p, i)
  {
    hide Step;
    if i > 0 {
      AfterPrefix(band, t, data, held, a, p, i - 1);
    }
  }

  lemma DecodesPush(job: Job, data: seq<Byte>, bs: Blocks, p: Position, a: seq<int>, f: Refined)
    requires ValidJob(job) && ValidBlocks(bs) && Decodes(job, data, bs, p) && |a| == |f.b| == BLOCK
    requires Step(job.band, job.t, data, a, p) == f && f.stray == 0
    ensures ValidBlocks(Add(bs, a, f.b)) && Decodes(job, data, Add(bs, a, f.b), Position(f.at, f.eobrun))
  {
    hide Step;
    var held, start, n := bs.held, Position(0, 0), |bs.held|;
    AfterPrefix(job.band, job.t, data, held, a, start, n);
    var more := Add(bs, a, f.b);
    forall j | 0 <= j < |more.held|
      ensures Refinement(job.band, job.t, data, more.held, start, j) == more.final[j]
    {
      if j < n {
        AfterPrefix(job.band, job.t, data, held, a, start, j);
        assert Refinement(job.band, job.t, data, held, start, j) == bs.final[j];
      }
    }
  }

  // The fields so far, when the pending run of e blocks is extended by m more.
  ghost function Pending(job: Job, fields: seq<Field>, e: nat, bits: seq<Field>, m: nat): seq<Field>
    requires ValidJob(job) && (e > 0 ==> e + m <= MAX_RUN)
  {
    if e == 0 then fields else fields + (RunFields(job.c, e + m) + bits)
  }

  ghost predicate Possible(job: Job, e: nat, m: nat)
    requires ValidJob(job)
  {
    if e == 0 then m == 0 else e + m <= MAX_RUN && RunHasCode(job.c, e + m)
  }

  ghost predicate Faithful(job: Job, fields: seq<Field>, e: nat, bits: seq<Field>, bs: Blocks)
    requires ValidJob(job)
  {
    && ValidBlocks(bs)
    && forall data: seq<Byte>, m: nat :: Possible(job, e, m) && Carrier(data, Pending(job, fields, e, bits, m)) ==>
         Decodes(job, data, bs, Position(Length(Pending(job, fields, e, bits, m)), m))
  }

  // ----- The promise inside a block -----

  ghost predicate Midway(job: Job, data: seq<Byte>, fields: seq<Field>, bs: Blocks, a: seq<int>, b: seq<int>, k: nat)
    requires ValidJob(job) && ValidBlocks(bs) && Known(job.band, a, b) && job.band.ss <= k <= job.band.se + 1
  {
    var p := Reached(job, data, bs);
    && Decodes(job, data, bs, p) && p.eobrun == 0 && p.at <= 8 * |data|
    && RefineFrom(job.band, job.t, data, a, job.band.ss, p.at) ==
       RefineFrom(job.band, job.t, data, Target(job.band, a, b, k), k, Length(fields))
  }

  ghost predicate Halfway(job: Job, fields: seq<Field>, bs: Blocks, a: seq<int>, b: seq<int>, k: nat)
    requires ValidJob(job) && Known(job.band, a, b) && job.band.ss <= k <= job.band.se + 1
  {
    ValidBlocks(bs) && forall data: seq<Byte> :: Carrier(data, fields) ==> Midway(job, data, fields, bs, a, b, k)
  }

  lemma Begin(job: Job, fields: seq<Field>, bs: Blocks, a: seq<int>, b: seq<int>)
    requires ValidJob(job) && Known(job.band, a, b) && Faithful(job, fields, 0, [], bs)
    ensures Halfway(job, fields, bs, a, b, job.band.ss)
  {
    hide Carrier, RefineFrom, Length, Known, Agree, After, Refinement;
    forall data: seq<Byte> | Carrier(data, fields)
      ensures Midway(job, data, fields, bs, a, b, job.band.ss)
    {
      assert Possible(job, 0, 0) && Pending(job, fields, 0, [], 0) == fields;
      assert Length(fields) <= 8 * |data| by { CarrierEnds(data, fields); }
    }
  }

  lemma CarrierEnds(data: seq<Byte>, fields: seq<Field>)
    requires Carrier(data, fields)
    ensures Length(fields) <= 8 * |data|
  {
  }

  // A newly nonzero coefficient at k is coded after a run of zeros from lo.
  ghost function NewFields(job: Job, b: seq<int>, lo: nat, k: nat): seq<Field>
    requires ValidJob(job) && |b| == BLOCK && k <= job.band.se && Zeros(job.band, b, lo, k) <= 15
  {
    [SymbolField(job.c, 16 * Zeros(job.band, b, lo, k) + 1)]
    + ([Field(SignBit(b[job.band.order[k]]), 1)] + Corrections(job.band, b, lo, k))
  }

  lemma CodeNew(job: Job, fields: seq<Field>, bs: Blocks, a: seq<int>, b: seq<int>, lo: nat, k: nat)
    requires ValidJob(job) && Known(job.band, a, b) && job.band.ss <= lo <= k <= job.band.se
    requires Halfway(job, fields, bs, a, b, lo)
    requires NoneNew(job.band, b, lo, k) && At(job.band, b, k) == 1 && Zeros(job.band, b, lo, k) <= 15
    requires HasCode(job.c, 16 * Zeros(job.band, b, lo, k) + 1)
    ensures Halfway(job, fields + NewFields(job, b, lo, k), bs, a, b, k + 1)
  {
    hide Carrier, Carries, RefineFrom, Length, Agree, Reached, Decodes, Target, Window, NoneNew, At, Zeros,
         Corrections, SymbolAt;
    var f := SymbolField(job.c, 16 * Zeros(job.band, b, lo, k) + 1);
    var g := Field(SignBit(b[job.band.order[k]]), 1);
    var more, rest := NewFields(job, b, lo, k), Corrections(job.band, b, lo, k);
    forall data: seq<Byte> | Carrier(data, fields + more)
      ensures Midway(job, data, fields + more, bs, a, b, k + 1)
    {
      CarrierParts(data, fields, more);
      assert Midway(job, data, fields, bs, a, b, lo);
      var at := Length(fields);
      CarriesOne(data, at, f, [g] + rest);
      CarriesOne(data, at + f.size, g, rest);
      LengthAppend([f], [g] + rest);
      LengthAppend([g], rest);
      LengthOne(f);
      LengthOne(g);
      SymbolRead(job.c, job.t, 16 * Zeros(job.band, b, lo, k) + 1, data, at);
      NewCoefficient(job.band, job.t, data, a, b, lo, k, at, f.size);
    }
  }

  // Sixteen zeros, the last at z, are coded.
  ghost function ZrlFields(job: Job, b: seq<int>, lo: nat, z: nat): seq<Field>
    requires ValidJob(job) && |b| == BLOCK && z <= job.band.se
  {
    [SymbolField(job.c, 0xF0)] + Corrections(job.band, b, lo, z)
  }

  lemma CodeZrl(job: Job, fields: seq<Field>, bs: Blocks, a: seq<int>, b: seq<int>, lo: nat, z: nat)
    requires ValidJob(job) && Known(job.band, a, b) && job.band.ss <= lo <= z <= job.band.se
    requires Halfway(job, fields, bs, a, b, lo)
    requires NoneNew(job.band, b, lo, z) && At(job.band, b, z) == 0 && Zeros(job.band, b, lo, z) == 15
    requires HasCode(job.c, 0xF0)
    ensures Halfway(job, fields + ZrlFields(job, b, lo, z), bs, a, b, z + 1)
  {
    hide Carrier, Carries, RefineFrom, Length, Agree, Reached, Decodes, Target, Window, NoneNew, At, Zeros,
         Corrections, SymbolAt;
    var f, more, rest := SymbolField(job.c, 0xF0), ZrlFields(job, b, lo, z), Corrections(job.band, b, lo, z);
    forall data: seq<Byte> | Carrier(data, fields + more)
      ensures Midway(job, data, fields + more, bs, a, b, z + 1)
    {
      CarrierParts(data, fields, more);
      assert Midway(job, data, fields, bs, a, b, lo);
      var at := Length(fields);
      CarriesOne(data, at, f, rest);
      LengthAppend([f], rest);
      LengthOne(f);
      SymbolRead(job.c, job.t, 0xF0, data, at);
      ZeroRun(job.band, job.t, data, a, b, lo, z, at, f.size);
    }
  }

  // ----- Ends of blocks -----

  // The band is used up.
  lemma EndExactly(job: Job, fields: seq<Field>, bs: Blocks, a: seq<int>, b: seq<int>)
    requires ValidJob(job) && Known(job.band, a, b) && Halfway(job, fields, bs, a, b, job.band.se + 1)
    ensures Faithful(job, fields, 0, [], Add(bs, a, Sharpened(job.band, a, b)))
  {
    hide Carrier, Length, Agree, Reached, Decodes, Target, RefineFrom, NoneNew;
    var more := Add(bs, a, Sharpened(job.band, a, b));
    forall data: seq<Byte>, m: nat | Possible(job, 0, m) && Carrier(data, Pending(job, fields, 0, [], m))
      ensures Decodes(job, data, more, Position(Length(Pending(job, fields, 0, [], m)), m))
    {
      assert Midway(job, data, fields, bs, a, b, job.band.se + 1);
      BandEndsAt(job.band, job.t, data, Sharpened(job.band, a, b), Length(fields));
      DecodesPush(job, data, bs, Reached(job, data, bs), a, Refined(Sharpened(job.band, a, b), Length(fields), 0, 0));
    }
  }

  lemma BandEndsAt(band: Band, t: HuffTable, data: seq<Byte>, b: seq<int>, at: nat)
    requires InBand(band, b, band.se + 1)
    ensures RefineFrom(band, t, data, b, band.se + 1, at) == Refined(b, at, 0, 0)
  {
  }

  // The rest of the band begins a run of ends of band.
  lemma EndWithRun(job: Job, fields: seq<Field>, bs: Blocks, a: seq<int>, b: seq<int>, lo: nat)
    requires ValidJob(job) && Known(job.band, a, b) && job.band.ss <= lo <= job.band.se
    requires Halfway(job, fields, bs, a, b, lo) && NoneNew(job.band, b, lo, job.band.se + 1)
    ensures Faithful(job, fields, 1, Corrections(job.band, b, lo, job.band.se + 1),
                     Add(bs, a, Sharpened(job.band, a, b)))
  {
    hide Carrier, Carries, Length, Agree, Reached, Decodes, Target, NoneNew, Corrections, RunFields, SymbolAt,
         RunLength, CorrectRest;
    var band, final := job.band, Sharpened(job.band, a, b);
    var bits := Corrections(band, b, lo, band.se + 1);
    forall data: seq<Byte>, m: nat | Possible(job, 1, m) && Carrier(data, Pending(job, fields, 1, bits, m))
      ensures Decodes(job, data, Add(bs, a, final), Position(Length(Pending(job, fields, 1, bits, m)), m))
    {
      var run, at := RunFields(job.c, 1 + m), Length(fields);
      CarrierParts(data, fields, run + bits);
      assert Midway(job, data, fields, bs, a, b, lo);
      RunRead(job.c, job.t, 1 + m, data, at, bits);
      LengthAppend(run, bits);
      Tail(band, data, a, b, lo, at + Length(run));
      DecodesPush(job, data, bs, Reached(job, data, bs), a, Refined(final, at + Length(run + bits), m, 0));
    }
  }

  // The whole block joins the pending run.
  lemma JoinRun(job: Job, fields: seq<Field>, e: nat, bits: seq<Field>, bs: Blocks, a: seq<int>, b: seq<int>)
    requires ValidJob(job) && Known(job.band, a, b) && NoneNew(job.band, b, job.band.ss, job.band.se + 1)
    requires Faithful(job, fields, e, bits, bs) && e > 0
    ensures Faithful(job, fields, e + 1, bits + Corrections(job.band, b, job.band.ss, job.band.se + 1),
                     Add(bs, a, Sharpened(job.band, a, b)))
  {
    hide Carrier, Carries, Length, Agree, Reached, Decodes, NoneNew, Corrections, RunFields,
         RunHasCode, CorrectRest;
    var band, final := job.band, Sharpened(job.band, a, b);
    var more := Corrections(band, b, band.ss, band.se + 1);
    var longer, all := e + 1, bits + more;
    forall data: seq<Byte>, m: nat | Possible(job, longer, m) && Carrier(data, Pending(job, fields, longer, all, m))
      ensures Decodes(job, data, Add(bs, a, final), Position(Length(Pending(job, fields, longer, all, m)), m))
    {
      var front := Pending(job, fields, e, bits, m + 1);
      assert Pending(job, fields, longer, all, m) == front + more;
      assert Possible(job, e, m + 1);
      CarrierParts(data, front, more);
      var at := Length(front);
      assert at <= 8 * |data| by { CarrierEnds(data, front); }
      assert Target(band, a, b, band.ss) == a;
      Tail(band, data, a, b, band.ss, at);
      DecodesPush(job, data, bs, Position(at, m + 1), a, Refined(final, at + Length(more), m, 0));
    }
  }

  // The pending run is written.
  lemma WriteRun(job: Job, fields: seq<Field>, e: nat, bits: seq<Field>, bs: Blocks)
    requires ValidJob(job) && Faithful(job, fields, e, bits, bs) && 1 <= e <= MAX_RUN && RunHasCode(job.c, e)
    ensures Faithful(job, fields + (RunFields(job.c, e) + bits), 0, [], bs)
  {
    hide Carrier, Length, Agree, Decodes, RunFields, RunHasCode;
    var more := fields + (RunFields(job.c, e) + bits);
    forall data: seq<Byte>, m: nat | Possible(job, 0, m) && Carrier(data, Pending(job, more, 0, [], m))
      ensures Decodes(job, data, bs, Position(Length(Pending(job, more, 0, [], m)), m))
    {
      assert Possible(job, e, 0) && Pending(job, fields, e, bits, 0) == more;
    }
  }
}
