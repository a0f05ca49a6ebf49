// Two-pass sequential Huffman coding: gather statistics, generate the tables, write the scan,
// and read it back.

module BlockRoundTrip {
  import opened CodeBits
  import opened Coefficients
  import opened Segment
  import opened RestartSegments
  import opened RestartMarkers
  import opened HuffmanTree
  import opened HuffmanLengths
  import opened HuffmanGeneration
  import opened HuffmanTables
  import opened HuffmanFields
  import opened BitPacker
  import opened BitReader
  import opened BlockCoding
  import opened BlockScan
  import opened BlockEncoder
  import opened BlockStatistics
  import opened OptimizedTables
  import opened BlockDecoder

  // ----- The tokens of a scan -----

  lemma {:induction false} AcTokensNonempty(order: seq<nat>, table: nat, b: seq<int>, k: nat, r: nat)
    requires ValidOrder(order) && |b| == BLOCK && 1 <= k <= BLOCK && (k < BLOCK || r > 0)
    requires forall j :: k <= j < BLOCK ==> BitLength(Abs(b[order[j]])) <= MAX_COEF_BITS
    ensures AcTokens(order, table, b, k, r) != []
    ensures Uses(AcTokens(order, table, b, k, r)[0], false, table)
    decreases BLOCK - k
  {
    hide BitLength, ValidOrder;
    Entries(order);
    if k < BLOCK && b[order[k]] == 0 {
      AcTokensNonempty(order, table, b, k + 1, r + 1);
    }
  }

  // Tables of the blocks of a layout.
  function TableOf(slot: Slot, isDC: bool): nat {
    if isDC then slot.dc else slot.ac
  }

  ghost predicate Has(tokens: seq<Token>, isDC: bool, table: nat) {
    exists t :: t in tokens && Uses(t, isDC, table)
  }

  // Every token belongs to one of the first n blocks of the layout, and all of their tables
  // are used.
  ghost predicate Covers(tokens: seq<Token>, layout: seq<Slot>, n: nat)
    requires n <= |layout|
  {
    && (forall t :: t in tokens ==> OneOf(t, layout, n))
    && forall i :: 0 <= i < n ==> Has(tokens, true, layout[i].dc) && Has(tokens, false, layout[i].ac)
  }

  ghost predicate OneOf(t: Token, layout: seq<Slot>, n: nat)
    requires n <= |layout|
  {
    exists i :: 0 <= i < n && BelongsTo(t, layout[i])
  }

  lemma HasAppend(a: seq<Token>, b: seq<Token>, isDC: bool, table: nat)
    ensures Has(a, isDC, table) || Has(b, isDC, table) ==> Has(a + b, isDC, table)
  {
    if Has(a, isDC, table) {
      var t :| t in a && Uses(t, isDC, table);
      assert t in a + b;
    } else if Has(b, isDC, table) {
      var t :| t in b && Uses(t, isDC, table);
      assert t in a + b;
    }
  }

  lemma CoversMore(a: seq<Token>, b: seq<Token>, layout: seq<Slot>, n: nat)
    requires n < |layout| && Covers(a, layout, n)
    requires forall t :: t in b ==> BelongsTo(t, layout[n])
    requires Has(b, true, layout[n].dc) && Has(b, false, layout[n].ac)
    ensures Covers(a + b, layout, n + 1)
  {
    hide Has, BelongsTo;
    forall t | t in a + b
      ensures OneOf(t, layout, n + 1)
    {
      if t in a {
        assert OneOf(t, layout, n);
      }
    }
    forall i | 0 <= i < n + 1
      ensures Has(a + b, true, layout[i].dc) && Has(a + b, false, layout[i].ac)
    {
      HasAppend(a, b, true, layout[i].dc);
      HasAppend(a, b, false, layout[i].ac);
    }
  }

  lemma CoversBoth(a: seq<Token>, b: seq<Token>, layout: seq<Slot>)
    requires forall t :: t in a ==> OneOf(t, layout, |layout|)
    requires Covers(b, layout, |layout|)
    ensures Covers(a + b, layout, |layout|)
  {
    hide Has, OneOf;
    forall i | 0 <= i < |layout|
      ensures Has(a + b, true, layout[i].dc) && Has(a + b, false, layout[i].ac)
    {
      HasAppend(a, b, true, layout[i].dc);
      HasAppend(a, b, false, layout[i].ac);
    }
  }

  lemma {:induction false} McuTokensAre(plan: Plan, mcu: Mcu, last: seq<int>, n: nat)
    requires ValidSlots(plan) && ValidMcu(plan, mcu) && |last| == plan.comps && n <= |mcu|
    requires forall i :: 0 <= i < n ==> BlockInRange(plan, mcu, last, i)
    ensures Covers(McuTokens(plan, mcu, last, n), plan.layout, n)
  {
    hide InRange, ValidOrder, BlockTokens, LastAfter, BelongsTo, BlockInRange, Has;
    if n > 0 {
      McuTokensAre(plan, mcu, last, n - 1);
      TokensNext(plan, mcu, last, n - 1);
      var slot, l := plan.layout[n - 1], LastAfter(plan, mcu, last, n - 1);
      BlockTokensBelong(plan.order, slot, mcu[n - 1], l[slot.ci]);
      BlockUsesBoth(plan.order, slot, mcu[n - 1], l[slot.ci]);
      CoversMore(McuTokens(plan, mcu, last, n - 1), BlockTokens(plan.order, slot, mcu[n - 1], l[slot.ci]), plan.layout,
                 n - 1);
    }
  }

  lemma BlockUsesBoth(order: seq<nat>, slot: Slot, b: seq<int>, last: int)
    requires ValidOrder(order) && |b| == BLOCK && InRange(order, b, last)
    ensures Has(BlockTokens(order, slot, b, last), true, slot.dc)
    ensures Has(BlockTokens(order, slot, b, last), false, slot.ac)
  {
    hide BitLength, ValidOrder, AcTokens;
    AcTokensNonempty(order, slot.ac, b, 1, 0);
    var ts := BlockTokens(order, slot, b, last);
    assert ts[0] in ts && Uses(ts[0], true, slot.dc);
    assert ts[1] in ts && Uses(ts[1], false, slot.ac);
  }

  lemma {:induction false} ScanTokensAre(plan: Plan, mcus: seq<Mcu>, interval: nat, n: nat)
    requires ValidSlots(plan) && ValidMcus(plan, mcus) && n <= |mcus| && ScanInRange(plan, mcus, interval, n)
    ensures n > 0 ==> Covers(ScanTokens(plan, mcus, interval, n), plan.layout, |plan.layout|)
  {
    hide ValidOrder, McuTokens, BelongsTo, ScanLast, BlockInRange, Has, OneOf, McuInRange, Before, SpanTokens;
    if n > 0 {
      assert ScanInRange(plan, mcus, interval, n - 1);
      ScanTokensAre(plan, mcus, interval, n - 1);
      var last := Before(plan, mcus, interval, n - 1);
      InRangeMcu(plan, mcus, interval, n - 1, n);
      McuTokensAre(plan, mcus[n - 1], last, |plan.layout|);
      SpanGoesOn(plan, mcus, interval, 0, n - 1);
      if n == 1 {
        ScanStarts(plan, mcus, interval);
      }
      CoversBoth(ScanTokens(plan, mcus, interval, n - 1), McuTokens(plan, mcus[n - 1], last, |plan.layout|),
                 plan.layout);
    }
  }

  lemma InRangeMcu(plan: Plan, mcus: seq<Mcu>, interval: nat, i: nat, n: nat)
    requires ValidSlots(plan) && ValidMcus(plan, mcus) && i < n <= |mcus| && ScanInRange(plan, mcus, interval, n)
    ensures ValidMcu(plan, mcus[i]) && |mcus[i]| == |plan.layout|
    ensures McuInRange(plan, mcus[i], Before(plan, mcus, interval, i))
    ensures forall j :: 0 <= j < |plan.layout| ==> BlockInRange(plan, mcus[i], Before(plan, mcus, interval, i), j)
  {
    hide BlockInRange;
  }

  lemma ScanIsBaseline(plan: Plan, mcus: seq<Mcu>, interval: nat, n: nat)
    requires ValidSlots(plan) && ValidMcus(plan, mcus) && n <= |mcus| && ScanInRange(plan, mcus, interval, n)
    ensures BaselineTokens(ScanTokens(plan, mcus, interval, n))
  {
    hide ValidOrder, ScanTokens;
    if n == 0 {
      ScanStarts(plan, mcus, interval);
    } else {
      ScanTokensAre(plan, mcus, interval, n);
      forall t | t in ScanTokens(plan, mcus, interval, n)
        ensures t.symbol % 16 <= MAX_COEF_BITS + 1 && (t.isDC ==> t.symbol <= 15)
      {
        assert OneOf(t, plan.layout, |plan.layout|);
      }
    }
  }

  // ----- The passes -----

  method NewCounts(n: nat) returns (counts: seq<array<nat>>)
    ensures |counts| == n && forall i :: 0 <= i < n ==> fresh(counts[i])
    ensures forall i :: 0 <= i < n ==> counts[i].Length == SYMBOLS && counts[i][..] == NoCounts()
    ensures forall i, j :: 0 <= i < j < n ==> counts[i] != counts[j]
  {
    counts := [];
    for k := 0 to n
      invariant |counts| == k && forall i :: 0 <= i < k ==> fresh(counts[i])
      invariant forall i :: 0 <= i < k ==> counts[i].Length == SYMBOLS && counts[i][..] == NoCounts()
      invariant forall i, j :: 0 <= i < j < k ==> counts[i] != counts[j]
    {
      var a := new nat[SYMBOLS](_ => 0);
      assert a[..] == NoCounts();
      counts := counts + [a];
    }
  }

  // The table numbers of the layout are those of the tables that the scan uses.
  ghost predicate TablesUsed(plan: Plan, nDc: nat, nAc: nat) {
    && (forall i :: 0 <= i < |plan.layout| ==> plan.layout[i].dc < nDc && plan.layout[i].ac < nAc)
    && (forall k :: 0 <= k < nDc ==> TableUsed(plan.layout, true, k))
    && (forall k :: 0 <= k < nAc ==> TableUsed(plan.layout, false, k))
  }

  ghost predicate TableUsed(layout: seq<Slot>, isDC: bool, k: nat) {
    exists i :: 0 <= i < |layout| && TableOf(layout[i], isDC) == k
  }

  // The statistics pass over a scan.
  method GatherScan(plan: Plan, nDc: nat, nAc: nat, interval: nat, mcus: seq<Mcu>)
    returns (ok: bool, dc: seq<array<nat>>, ac: seq<array<nat>>)
    requires ValidSlots(plan) && TablesUsed(plan, nDc, nAc) && ValidMcus(plan, mcus)
    ensures ok == ScanInRange(plan, mcus, interval, |mcus|)
    ensures |dc| == nDc && |ac| == nAc
    ensures forall i :: 0 <= i < nDc ==> fresh(dc[i]) && dc[i].Length == SYMBOLS
    ensures forall i :: 0 <= i < nAc ==> fresh(ac[i]) && ac[i].Length == SYMBOLS
    ensures forall i, j :: 0 <= i < j < nDc ==> dc[i] != dc[j]
    ensures forall i, j :: 0 <= i < j < nAc ==> ac[i] != ac[j]
    ensures forall i, j :: 0 <= i < nDc && 0 <= j < nAc ==> dc[i] != ac[j]
    ensures ok ==> forall i :: 0 <= i < nDc ==>
      dc[i][..] == Tally(NoCounts(), ScanTokens(plan, mcus, interval, |mcus|), true, i)
    ensures ok ==> forall i :: 0 <= i < nAc ==>
      ac[i][..] == Tally(NoCounts(), ScanTokens(plan, mcus, interval, |mcus|), false, i)
  {
    hide ValidOrder, McuTokens, LastAfter, McuInRange, Tally, SpanTokens, ScanLast, ValidMcu, Before;
    dc := NewCounts(nDc);
    ac := NewCounts(nAc);
    var g := new StatisticsGatherer(plan, dc, ac, interval, mcus);
    for i := 0 to |mcus|
      invariant g.plan == plan && g.dcCounts == dc && g.acCounts == ac && fresh(g) && g.Valid()
      invariant g.interval == interval && g.mcus == mcus && g.done == i
    {
      ScanGoesOn(plan, mcus, interval, i);
      ok := g.GatherMcu(mcus[i]);
      if !ok {
        return;
      }
    }
    ok := true;
  }

  // Tables that code all tokens of their kind.
  ghost predicate TablesCover(cs: seq<CDerived>, ts: seq<HuffTable>, tokens: seq<Token>, isDC: bool) {
    && |cs| == |ts|
    && (forall i :: 0 <= i < |cs| ==> Agree(cs[i], ts[i]) && GoodTable(ts[i]) && (isDC ==> SmallSymbols(ts[i])))
    && forall i, u :: 0 <= i < |cs| && u in tokens && Uses(u, isDC, i) ==> HasCode(cs[i], u.symbol)
  }

  // No table of the first n needs a code of more than 32 bits.
  ghost predicate AllShort(tokens: seq<Token>, isDC: bool, n: nat) {
    forall i :: 0 <= i < n ==> ShortCodes(Tally(NoCounts(), tokens, isDC, i))
  }

  method OptimizeAll(counts: seq<array<nat>>, isDC: bool, ghost tokens: seq<Token>)
    returns (ok: bool, cs: seq<CDerived>, ts: seq<HuffTable>)
    requires forall i :: 0 <= i < |counts| ==> counts[i].Length == SYMBOLS
    requires forall i, j :: 0 <= i < j < |counts| ==> counts[i] != counts[j]
    requires forall i :: 0 <= i < |counts| ==> counts[i][..] == Tally(NoCounts(), tokens, isDC, i)
    requires forall i :: 0 <= i < |counts| ==> Has(tokens, isDC, i)
    requires BaselineTokens(tokens) && |tokens| < SENTINEL
    modifies counts
    ensures ok == AllShort(tokens, isDC, |counts|)
    ensures |tokens| + 1 < LeastWeight(MAX_CLEN + 1) ==> ok
    ensures ok ==> |cs| == |counts| && TablesCover(cs, ts, tokens, isDC)
  {
    hide LeastWeight, Tally, Agree, GoodTable, SmallSymbols, HasCode, BaselineTokens, ShortCodes;
    cs, ts := [], [];
    for k := 0 to |counts|
      invariant AllShort(tokens, isDC, k) && |cs| == k && TablesCover(cs, ts, tokens, isDC)
      invariant forall i :: k <= i < |counts| ==> counts[i][..] == Tally(NoCounts(), tokens, isDC, i)
    {
      assert Has(tokens, isDC, k);
      var c, t;
      ok, c, t := OptimizeTable(counts[k], isDC, tokens, k);
      if !ok {
        return;
      }
      cs, ts := cs + [c], ts + [t];
    }
    ok := true;
  }

  // The pieces code the whole scan.
  ghost predicate ScanCoded(plan: Plan, ts: Tables, mcus: seq<Mcu>, interval: nat, ps: seq<Piece>) {
    && ValidSlots(plan) && ValidMcus(plan, mcus) && ScanInRange(plan, mcus, interval, |mcus|)
    && ps != [] && NextLo(ps) == |mcus| && Cuts(|mcus|, interval, ps)
    && AllCarried(plan, ts, mcus, interval, ps)
  }

  // The output pass over a scan.
  method EncodeScan(plan: Plan, ts: Tables, interval: nat, mcus: seq<Mcu>, ghost marker: Byte)
    returns (ok: bool, output: seq<Byte>, ghost ps: seq<Piece>)
    requires ValidPlan(plan, ts) && ValidSlots(plan) && ValidMcus(plan, mcus)
    requires ScanInRange(plan, mcus, interval, |mcus|) && marker != 0 && marker != 0xFF
    ensures ok == AllCoded(ts, ScanTokens(plan, mcus, interval, |mcus|))
    ensures ok ==> ScanCoded(plan, ts, mcus, interval, ps) && output + [0xFF, marker] == Joined(ps)
  {
    hide ValidOrder, McuTokens, LastAfter, McuInRange, SpanTokens, ScanLast, ValidMcu, FieldsOf, AllCoded, Agree,
         Carrier, Stuff, SequentialEncoder.Valid, Cuts, AllCarried, Joined, ValidSlots, ValidMcus, Before, ScanInRange,
         ValidPlan;
    output, ps := [], [];
    var w := new BitWriter();
    var e := new SequentialEncoder(w, plan, ts, interval, mcus);
    ScanStarts(plan, mcus, interval);
    assert AllCoded(ts, []) by { NoFields(ts); }
    for i := 0 to |mcus|
      invariant e.Valid() && e.writer == w && e.plan == plan && e.ts == ts && e.start == []
      invariant e.interval == interval && e.mcus == mcus && e.done == i && fresh(w) && fresh(e)
      invariant ScanInRange(plan, mcus, interval, i) && AllCoded(ts, ScanTokens(plan, mcus, interval, i))
    {
      NextInRange(plan, mcus, interval, i);
      SpanGoesOn(plan, mcus, interval, 0, i);
      ok := e.EncodeMcu(mcus[i]);
      if !ok {
        NotScanCoded(plan, ts, mcus, interval, i);
        return;
      }
      MoreCoded(plan, ts, mcus, interval, i);
    }
    e.Finish(marker);
    output, ps, ok := w.output, e.ps, true;
    assert [] + Joined(ps) == Joined(ps);
  }

  lemma NextInRange(plan: Plan, mcus: seq<Mcu>, interval: nat, i: nat)
    requires ValidSlots(plan) && ValidMcus(plan, mcus) && i < |mcus| && ScanInRange(plan, mcus, interval, |mcus|)
    ensures ScanInRange(plan, mcus, interval, i) && ScanInRange(plan, mcus, interval, i + 1)
  {
    hide McuInRange, ValidSlots, ValidMcus, Before;
  }

  lemma MoreCoded(plan: Plan, ts: Tables, mcus: seq<Mcu>, interval: nat, i: nat)
    requires ValidPlan(plan, ts) && ValidSlots(plan) && ValidMcus(plan, mcus) && i < |mcus|
    requires ScanInRange(plan, mcus, interval, i + 1) && ScanInRange(plan, mcus, interval, i) && ValidMcu(plan, mcus[i])
    requires McuCodable(ts, plan, mcus[i], Before(plan, mcus, interval, i), |mcus[i]|)
    requires AllCoded(ts, ScanTokens(plan, mcus, interval, i))
    ensures AllCoded(ts, ScanTokens(plan, mcus, interval, i + 1))
  {
    hide ValidOrder, McuTokens, FieldsOf, AllCoded, Agree, SpanTokens, BlockInRange, Before;
    InRangeMcu(plan, mcus, interval, i, i + 1);
    SpanGoesOn(plan, mcus, interval, 0, i);
    AllCodedAppend(ts, ScanTokens(plan, mcus, interval, i),
                   McuTokens(plan, mcus[i], Before(plan, mcus, interval, i), |plan.layout|));
  }

  lemma NotScanCoded(plan: Plan, ts: Tables, mcus: seq<Mcu>, interval: nat, i: nat)
    requires ValidPlan(plan, ts) && ValidSlots(plan) && ValidMcus(plan, mcus)
    requires ScanInRange(plan, mcus, interval, |mcus|) && i < |mcus| && ValidMcu(plan, mcus[i])
    requires !McuCodable(ts, plan, mcus[i], Before(plan, mcus, interval, i), |mcus[i]|)
    ensures !AllCoded(ts, ScanTokens(plan, mcus, interval, |mcus|))
  {
    hide ValidOrder, McuTokens, FieldsOf, AllCoded, Agree, ScanTokens, BlockInRange, Before;
    InRangeMcu(plan, mcus, interval, i, |mcus|);
    ScanHasMcu(plan, ts, mcus, interval, i, |mcus|);
  }

  lemma {:induction false} ScanHasMcu(plan: Plan, ts: Tables, mcus: seq<Mcu>, interval: nat, i: nat, n: nat)
    requires ValidPlan(plan, ts) && ValidSlots(plan) && ValidMcus(plan, mcus) && i < n <= |mcus|
    requires ScanInRange(plan, mcus, interval, n) && ValidMcu(plan, mcus[i]) && |mcus[i]| == |plan.layout|
    requires McuInRange(plan, mcus[i], Before(plan, mcus, interval, i))
    ensures AllCoded(ts, ScanTokens(plan, mcus, interval, n)) ==>
      AllCoded(ts, McuTokens(plan, mcus[i], Before(plan, mcus, interval, i), |plan.layout|))
  {
    hide ValidOrder, McuTokens, Before, AllCoded, Agree, McuInRange, ValidMcu, SpanTokens, LastAfter;
    InRangeMcu(plan, mcus, interval, n - 1, n);
    assert ScanInRange(plan, mcus, interval, n - 1);
    SpanGoesOn(plan, mcus, interval, 0, n - 1);
    AllCodedAppend(ts, ScanTokens(plan, mcus, interval, n - 1),
                   McuTokens(plan, mcus[n - 1], Before(plan, mcus, interval, n - 1), |plan.layout|));
    if i < n - 1 {
      ScanHasMcu(plan, ts, mcus, interval, i, n - 1);
    }
  }

  ghost predicate TablesShort(tokens: seq<Token>, nDc: nat, nAc: nat) {
    AllShort(tokens, true, nDc) && AllShort(tokens, false, nAc)
  }

  datatype Status = Done | BadCoefficient | CodeTooLong

  // Statistics, tables, output. The output pass never meets a symbol without a code.
  method TwoPass(plan: Plan, nDc: nat, nAc: nat, interval: nat, mcus: seq<Mcu>, ghost marker: Byte)
    returns (status: Status, output: seq<Byte>, ts: Tables, ghost ps: seq<Piece>)
    requires ValidSlots(plan) && TablesUsed(plan, nDc, nAc) && ValidMcus(plan, mcus) && |mcus| > 0
    requires marker != 0 && marker != 0xFF
    requires ScanInRange(plan, mcus, interval, |mcus|) ==> |ScanTokens(plan, mcus, interval, |mcus|)| < SENTINEL
    ensures status == BadCoefficient <==> !ScanInRange(plan, mcus, interval, |mcus|)
    ensures status == CodeTooLong <==>
      ScanInRange(plan, mcus, interval, |mcus|) && !TablesShort(ScanTokens(plan, mcus, interval, |mcus|), nDc, nAc)
    ensures status == CodeTooLong ==> |ScanTokens(plan, mcus, interval, |mcus|)| + 1 >= LeastWeight(MAX_CLEN + 1)
    ensures status == Done ==> ValidPlan(plan, ts) && GoodDecoders(ts) && ScanCoded(plan, ts, mcus, interval, ps)
    ensures status == Done ==> output + [0xFF, marker] == Joined(ps)
  {
    hide ValidOrder, ScanInRange, ScanTokens, AllCoded, Agree, ScanCoded, Joined, Tally, GoodTable, SmallSymbols,
         HasCode, BaselineTokens, Has, ValidMcus, ValidPlan, GoodDecoders, LeastWeight, AllShort;
    output, ps, ts := [], [], Tables([], [], [], []);
    var ok, dc, ac := GatherScan(plan, nDc, nAc, interval, mcus);
    if !ok {
      return BadCoefficient, output, ts, ps;
    }
    ghost var tokens := ScanTokens(plan, mcus, interval, |mcus|);
    ScanIsBaseline(plan, mcus, interval, |mcus|);
    ScanUsesTables(plan, nDc, nAc, interval, mcus);
    var dcEnc, acEnc, dcDec, acDec;
    ok, dcEnc, dcDec := OptimizeAll(dc, true, tokens);
    if !ok {
      return CodeTooLong, output, ts, ps;
    }
    ok, acEnc, acDec := OptimizeAll(ac, false, tokens);
    if !ok {
      return CodeTooLong, output, ts, ps;
    }
    ts := Tables(dcEnc, acEnc, dcDec, acDec);
    TablesServe(plan, nDc, nAc, interval, ts, mcus);
    ok, output, ps := EncodeScan(plan, ts, interval, mcus, marker);
    status := Done;
  }

  lemma ScanUsesTables(plan: Plan, nDc: nat, nAc: nat, interval: nat, mcus: seq<Mcu>)
    requires ValidSlots(plan) && TablesUsed(plan, nDc, nAc) && ValidMcus(plan, mcus) && |mcus| > 0
    requires ScanInRange(plan, mcus, interval, |mcus|)
    ensures forall k :: 0 <= k < nDc ==> Has(ScanTokens(plan, mcus, interval, |mcus|), true, k)
    ensures forall k :: 0 <= k < nAc ==> Has(ScanTokens(plan, mcus, interval, |mcus|), false, k)
  {
    hide Has, ScanTokens, ValidOrder, OneOf;
    ScanTokensAre(plan, mcus, interval, |mcus|);
    forall k | 0 <= k < nDc
      ensures Has(ScanTokens(plan, mcus, interval, |mcus|), true, k)
    {
      assert TableUsed(plan.layout, true, k);
    }
    forall k | 0 <= k < nAc
      ensures Has(ScanTokens(plan, mcus, interval, |mcus|), false, k)
    {
      assert TableUsed(plan.layout, false, k);
    }
  }

  // The generated tables suit the scan.
  lemma TablesServe(plan: Plan, nDc: nat, nAc: nat, interval: nat, ts: Tables, mcus: seq<Mcu>)
    requires ValidSlots(plan) && TablesUsed(plan, nDc, nAc) && ValidMcus(plan, mcus) && |mcus| > 0
    requires ScanInRange(plan, mcus, interval, |mcus|)
    requires |ts.dcEnc| == nDc && |ts.acEnc| == nAc
    requires TablesCover(ts.dcEnc, ts.dcDec, ScanTokens(plan, mcus, interval, |mcus|), true)
    requires TablesCover(ts.acEnc, ts.acDec, ScanTokens(plan, mcus, interval, |mcus|), false)
    ensures ValidPlan(plan, ts) && GoodDecoders(ts)
    ensures AllCoded(ts, ScanTokens(plan, mcus, interval, |mcus|))
  {
    hide HasCode, ScanTokens, ValidOrder, Agree, GoodTable, SmallSymbols, Has;
    var tokens := ScanTokens(plan, mcus, interval, |mcus|);
    ScanTokensAre(plan, mcus, interval, |mcus|);
    forall i | 0 <= i < |tokens|
      ensures Coded(ts, tokens[i])
    {
      var t := tokens[i];
      assert t in tokens && OneOf(t, plan.layout, |plan.layout|);
      assert Uses(t, t.isDC, t.table);
    }
  }

  // ----- Reading the scan back -----

  // The situation before MCU n when every MCU is decoded into zeros.
  ghost function ScanAt(plan: Plan, ts: Tables, input: seq<Byte>, interval: nat, n: nat): (s: Situation<State>)
    requires ValidPlan(plan, ts)
    ensures ValidSituation(plan, ts, s)
  {
    if n == 0 then Situation(Unstuff(input, 0), AfterMarker(input, 0), 0, interval, State(0, Zeros(plan.comps)))
    else NextSituation(plan, ts, input, interval, ScanAt(plan, ts, input, interval, n - 1), ZeroMcu(|plan.layout|))
  }

  ghost function McuAt(plan: Plan, ts: Tables, input: seq<Byte>, interval: nat, n: nat): Mcu
    requires ValidPlan(plan, ts)
  {
    NextMcu(plan, ts, input, interval, ScanAt(plan, ts, input, interval, n), ZeroMcu(|plan.layout|))
  }

  // Where the segment with MCU n ends.
  ghost function EndAt(plan: Plan, ts: Tables, input: seq<Byte>, interval: nat, n: nat): nat
    requires ValidPlan(plan, ts)
  {
    Ready(plan, input, interval, ScanAt(plan, ts, input, interval, n)).end
  }

  // Decode up to count MCUs while the source delivers chunk after chunk. How the data is cut
  // into chunks has no influence on any MCU.
  method DecodeScan(plan: Plan, ts: Tables, interval: nat, input: seq<Byte>, chunks: seq<nat>, count: nat)
    returns (mcus: seq<Mcu>)
    requires ValidPlan(plan, ts) && GoodDecoders(ts)
    ensures |mcus| <= count
    ensures forall i :: 0 <= i < |mcus| ==> mcus[i] == McuAt(plan, ts, input, interval, i)
    ensures |mcus| < count ==>
      Arrived(chunks) < EndAt(plan, ts, input, interval, |mcus|) || |input| < EndAt(plan, ts, input, interval, |mcus|)
  {
    hide ValidPlan, GoodDecoders, Unstuff, NextMcu, NextSituation, Contents, PartialMcu, Reads, ScanAt, AfterMarker,
         Ready, SequentialDecoder.Valid;
    ScanBegins(plan, ts, input, interval);
    var reader := new Reader(input, 0, 0);
    var decoder := new SequentialDecoder(reader, plan, ts, interval);
    mcus := [];
    var c := 0;
    while |mcus| < count
      invariant |mcus| <= count && c <= |chunks| && fresh(reader) && fresh(decoder)
      invariant decoder.Valid() && decoder.reader == reader && decoder.plan == plan && decoder.ts == ts
      invariant decoder.interval == interval && reader.input == input
      invariant reader.avail == Arrived(chunks[..c])
      invariant decoder.Here() == ScanAt(plan, ts, input, interval, |mcus|)
      invariant forall i :: 0 <= i < |mcus| ==> mcus[i] == McuAt(plan, ts, input, interval, i)
      decreases count - |mcus|
    {
      ScanSteps(plan, ts, input, interval, |mcus|);
      var blocks := NewBlocks(|plan.layout|);
      var ok: bool;
      ok, c := DecodeNext(decoder, blocks, chunks, c);
      if !ok {
        return;
      }
      var mcu := ReadOut(blocks);
      mcus := mcus + [mcu];
    }
  }

  lemma ScanBegins(plan: Plan, ts: Tables, input: seq<Byte>, interval: nat)
    requires ValidPlan(plan, ts)
    ensures ScanAt(plan, ts, input, interval, 0)
      == Situation(Unstuff(input, 0), AfterMarker(input, 0), 0, interval, State(0, Zeros(plan.comps)))
  {
  }

  lemma ScanSteps(plan: Plan, ts: Tables, input: seq<Byte>, interval: nat, n: nat)
    requires ValidPlan(plan, ts)
    ensures ScanAt(plan, ts, input, interval, n + 1) ==
      NextSituation(plan, ts, input, interval, ScanAt(plan, ts, input, interval, n), ZeroMcu(|plan.layout|))
  {
    hide NextSituation;
  }

  // Decode one MCU, waiting for more data as often as necessary.
  method DecodeNext(decoder: SequentialDecoder, blocks: seq<array<int>>, chunks: seq<nat>, used: nat)
    returns (ok: bool, c: nat)
    requires decoder.Valid() && ValidSituation(decoder.plan, decoder.ts, decoder.Here())
    requires |blocks| == |decoder.plan.layout| && used <= |chunks|
    requires forall i :: 0 <= i < |blocks| ==> blocks[i].Length == BLOCK
    requires forall i, j :: 0 <= i < j < |blocks| ==> blocks[i] != blocks[j]
    requires Contents(blocks) == ZeroMcu(|blocks|) && decoder.reader.avail == Arrived(chunks[..used])
    modifies blocks, decoder, decoder.reader
    ensures decoder.Valid() && used <= c <= |chunks| && decoder.reader.avail == Arrived(chunks[..c])
    ensures ok ==> Contents(blocks) == old(NextMcu(decoder.plan, decoder.ts, decoder.reader.input, decoder.interval,
                                                   decoder.Here(), ZeroMcu(|blocks|)))
    ensures ok ==> decoder.Here() == old(NextSituation(decoder.plan, decoder.ts, decoder.reader.input, decoder.interval,
                                                       decoder.Here(), ZeroMcu(|blocks|)))
    ensures !ok ==> decoder.reader.avail == Arrived(chunks)
    ensures !ok ==> !decoder.reader.HasArrived(
      old(Ready(decoder.plan, decoder.reader.input, decoder.interval, decoder.Here())).end)
  {
    hide ValidPlan, GoodDecoders, Contents, PartialMcu, Reads, McuAfter, StateAfterMcu, Ready;
    ghost var zero, s := ZeroMcu(|blocks|), decoder.Here();
    ghost var plan, ts, input, interval := decoder.plan, decoder.ts, decoder.reader.input, decoder.interval;
    c, ok := used, false;
    StartPartial(zero, NextMcu(plan, ts, input, interval, s, zero));
    while !ok
      invariant used <= c <= |chunks| && decoder.reader.avail == Arrived(chunks[..c])
      invariant decoder.Valid() && ValidSituation(plan, ts, decoder.Here())
      invariant !ok ==> Ready(plan, input, interval, decoder.Here()) == Ready(plan, input, interval, s)
      invariant !ok ==> PartialMcu(zero, Contents(blocks), NextMcu(plan, ts, input, interval, s, zero))
      invariant ok ==> Contents(blocks) == NextMcu(plan, ts, input, interval, s, zero)
      invariant ok ==> decoder.Here() == NextSituation(plan, ts, input, interval, s, zero)
      decreases !ok, |chunks| - c
    {
      ok := decoder.DecodeMcu(blocks, zero);
      if !ok {
        if c == |chunks| {
          assert chunks[..c] == chunks;
          return;
        }
        assert chunks[..c + 1][..c] == chunks[..c];
        decoder.reader.avail := decoder.reader.avail + chunks[c];
        c := c + 1;
      }
    }
  }

  lemma StartPartial(bs: Mcu, fs: Mcu)
    requires |bs| == |fs| && forall i :: 0 <= i < |bs| ==> |bs[i]| == |fs[i]| == BLOCK
    ensures PartialMcu(bs, bs, fs)
  {
  }

  // ----- What a decoder makes of the pieces -----

  // Inside piece k, before MCU i.
  ghost function Expected(plan: Plan, ts: Tables, interval: nat, ps: seq<Piece>, k: nat, i: nat): (s: Situation<State>)
    requires ValidPlan(plan, ts) && k < |ps| && ps[k].lo <= i && (interval > 0 ==> i - ps[k].lo <= interval)
  {
    var p := ps[k];
    Situation(p.data, |Joined(ps[..k + 1])|, k % 8, if interval > 0 then interval - (i - p.lo) else 0,
              ScanState(plan, ts, p.data, i - p.lo))
  }

  // What is known about piece k.
  lemma PieceFacts(plan: Plan, ts: Tables, mcus: seq<Mcu>, interval: nat, ps: seq<Piece>, k: nat)
    requires ScanCoded(plan, ts, mcus, interval, ps) && k < |ps|
    ensures ps[k].lo <= ps[k].hi <= |mcus| && ps[k].hi == SegmentEnd(ps[k].lo, |mcus|, interval)
    ensures interval > 0 ==> ps[k].hi - ps[k].lo <= interval
    ensures ps[k].hi < |mcus| ==>
      interval > 0 && k + 1 < |ps| && ps[k + 1].lo == ps[k].hi && ps[k].hi == ps[k].lo + interval
    ensures ps[0].lo == 0 && PieceCarries(plan, ts, mcus, interval, ps[k])
  {
    hide Cuts, PieceCarries, ValidSlots, ValidMcus, ScanInRange;
    CutFacts(|mcus|, interval, ps, k);
  }

  // An MCU inside a piece.
  lemma McuInPiece(plan: Plan, ts: Tables, mcus: seq<Mcu>, interval: nat, ps: seq<Piece>, k: nat, i: nat,
                   input: seq<Byte>, s: Situation<State>)
    requires ValidSituation(plan, ts, s) && ScanCoded(plan, ts, mcus, interval, ps)
    requires k < |ps| && ps[k].lo <= i < ps[k].hi <= |mcus| && (interval > 0 ==> ps[k].hi - ps[k].lo <= interval)
    requires Ready(plan, input, interval, s) == Expected(plan, ts, interval, ps, k, i)
    ensures NextSituation(plan, ts, input, interval, s, ZeroMcu(|plan.layout|))
      == Expected(plan, ts, interval, ps, k, i + 1)
    ensures NextMcu(plan, ts, input, interval, s, ZeroMcu(|plan.layout|)) == mcus[i]
  {
    hide Cuts, ValidSlots, ValidMcus, ScanInRange, Ready, SpanTokens, FieldsOf, AllCoded, Carrier, ValidPlan,
         AllCarried, Joined, McuAfter, StateAfterMcu, StartsSegment, ScanLast;
    PieceFacts(plan, ts, mcus, interval, ps, k);
    PieceIsSegment(|mcus|, interval, ps, k);
    var p := ps[k];
    SpanInverts(plan, ts, p.data, mcus, interval, p.lo, p.hi);
  }

  lemma ExpectedStarts(plan: Plan, ts: Tables, interval: nat, ps: seq<Piece>, k: nat)
    requires ValidPlan(plan, ts) && k < |ps|
    ensures Expected(plan, ts, interval, ps, k, ps[k].lo) ==
      Situation(ps[k].data, |Joined(ps[..k + 1])|, k % 8, interval, State(0, Zeros(plan.comps)))
  {
    hide Joined, ValidPlan;
  }

  lemma ExpectedEnds(plan: Plan, ts: Tables, interval: nat, ps: seq<Piece>, k: nat)
    requires ValidPlan(plan, ts) && k < |ps| && interval > 0 && ps[k].hi == ps[k].lo + interval
    ensures var s := Expected(plan, ts, interval, ps, k, ps[k].hi);
      s.end == |Joined(ps[..k + 1])| && s.num == k % 8 && s.togo == 0
  {
    hide Joined, ValidPlan, ScanState;
  }

  // Behind a piece the decoder goes on with the next one.
  lemma NextPieceReady(plan: Plan, ts: Tables, n: nat, interval: nat, ps: seq<Piece>, k: nat, tail: seq<Byte>)
    requires ValidPlan(plan, ts) && Cuts(n, interval, ps) && k + 1 < |ps|
    requires interval > 0 && ps[k].hi == ps[k].lo + interval == ps[k + 1].lo && ps[k].hi < n
    ensures var s := Expected(plan, ts, interval, ps, k, ps[k].hi);
      && s.end > 0
      && Ready(plan, Joined(ps) + tail, interval, s) == Expected(plan, ts, interval, ps, k + 1, ps[k].hi)
  {
    hide Cuts, Joined, LandingAt, StretchAt, ValidPlan, Expected, Zeros;
    NextPiece(n, interval, ps, k, tail);
    ExpectedEnds(plan, ts, interval, ps, k);
    ExpectedStarts(plan, ts, interval, ps, k + 1);
  }

  // A decoder starts at the first piece.
  lemma FirstPiece(plan: Plan, ts: Tables, mcus: seq<Mcu>, interval: nat, ps: seq<Piece>, tail: seq<Byte>)
    requires ValidPlan(plan, ts) && ScanCoded(plan, ts, mcus, interval, ps)
    ensures ps[0].lo == 0 && ScanAt(plan, ts, Joined(ps) + tail, interval, 0) == Expected(plan, ts, interval, ps, 0, 0)
  {
    hide Cuts, AllCarried, Joined, Unstuff, AfterMarker, InputAt, ValidPlan, ScanInRange, ValidSlots, ValidMcus;
    PieceFacts(plan, ts, mcus, interval, ps, 0);
    PieceRead(|mcus|, interval, ps, 0, tail);
    ExpectedStarts(plan, ts, interval, ps, 0);
    assert ps[..0] == [] && |Joined([])| == 0 by { NothingJoined(); }
  }

  // Before MCU i the decoder is in the piece that codes it, or behind the one before.
  lemma {:induction false} Follows(plan: Plan, ts: Tables, mcus: seq<Mcu>, interval: nat, ps: seq<Piece>,
                                   tail: seq<Byte>, i: nat) returns (k: nat)
    requires ValidPlan(plan, ts) && ScanCoded(plan, ts, mcus, interval, ps) && i <= |mcus|
    ensures k < |ps| && ps[k].lo <= i <= ps[k].hi <= |mcus| && (interval > 0 ==> ps[k].hi - ps[k].lo <= interval)
    ensures ScanAt(plan, ts, Joined(ps) + tail, interval, i) == Expected(plan, ts, interval, ps, k, i)
    decreases i, 0
  {
    hide Cuts, AllCarried, Joined, ValidPlan, ScanInRange, ValidSlots, ValidMcus, Expected, NextSituation, ScanAt;
    if i == 0 {
      k := 0;
      PieceFacts(plan, ts, mcus, interval, ps, 0);
      FirstPiece(plan, ts, mcus, interval, ps, tail);
    } else {
      var input := Joined(ps) + tail;
      k := ReadyAt(plan, ts, mcus, interval, ps, tail, i - 1);
      McuInPiece(plan, ts, mcus, interval, ps, k, i - 1, input, ScanAt(plan, ts, input, interval, i - 1));
      ScanSteps(plan, ts, input, interval, i - 1);
    }
  }

  // MCU i is decoded in the piece that codes it.
  lemma {:induction false} ReadyAt(plan: Plan, ts: Tables, mcus: seq<Mcu>, interval: nat, ps: seq<Piece>,
                                   tail: seq<Byte>, i: nat) returns (k: nat)
    requires ValidPlan(plan, ts) && ScanCoded(plan, ts, mcus, interval, ps) && i < |mcus|
    ensures k < |ps| && ps[k].lo <= i < ps[k].hi <= |mcus| && (interval > 0 ==> ps[k].hi - ps[k].lo <= interval)
    ensures Ready(plan, Joined(ps) + tail, interval, ScanAt(plan, ts, Joined(ps) + tail, interval, i))
      == Expected(plan, ts, interval, ps, k, i)
    decreases i, 1
  {
    hide Cuts, AllCarried, Joined, ValidPlan, ScanInRange, ValidSlots, ValidMcus, NextSituation, ScanAt, ScanState;
    k := Follows(plan, ts, mcus, interval, ps, tail, i);
    PieceFacts(plan, ts, mcus, interval, ps, k);
    if i == ps[k].hi {
      PieceFacts(plan, ts, mcus, interval, ps, k + 1);
      NextPieceReady(plan, ts, |mcus|, interval, ps, k, tail);
      k := k + 1;
    }
  }

  // Every MCU of a coded scan is read back, from a segment that ends before the scan does.
  lemma ScanInverts(plan: Plan, ts: Tables, mcus: seq<Mcu>, interval: nat, ps: seq<Piece>, tail: seq<Byte>, i: nat)
    requires ValidPlan(plan, ts) && ScanCoded(plan, ts, mcus, interval, ps) && i < |mcus|
    ensures McuAt(plan, ts, Joined(ps) + tail, interval, i) == mcus[i]
    ensures EndAt(plan, ts, Joined(ps) + tail, interval, i) <= |Joined(ps)|
  {
    hide AllCarried, Joined, ValidPlan, ScanInRange, ValidSlots, ValidMcus, NextMcu, ScanAt, ScanState, Cuts, Ready;
    var k := ReadyAt(plan, ts, mcus, interval, ps, tail, i);
    var input := Joined(ps) + tail;
    McuInPiece(plan, ts, mcus, interval, ps, k, i, input, ScanAt(plan, ts, input, interval, i));
    JoinedGrows(ps, k + 1);
  }

  // Main result: unless a coefficient is out of range or a code would be too long, every MCU
  // decoded is the MCU that was coded, and once the whole scan has arrived all are.
  method CodeAndDecode(plan: Plan, nDc: nat, nAc: nat, interval: nat, mcus: seq<Mcu>, chunks: seq<nat>, marker: Byte,
                       tail: seq<Byte>)
    returns (status: Status, decoded: seq<Mcu>, length: nat)
    requires ValidSlots(plan) && TablesUsed(plan, nDc, nAc) && ValidMcus(plan, mcus) && |mcus| > 0
    requires ScanInRange(plan, mcus, interval, |mcus|) ==> |ScanTokens(plan, mcus, interval, |mcus|)| < SENTINEL
    requires marker != 0 && marker != 0xFF
    ensures status == BadCoefficient <==> !ScanInRange(plan, mcus, interval, |mcus|)
    ensures status == CodeTooLong <==>
      ScanInRange(plan, mcus, interval, |mcus|) && !TablesShort(ScanTokens(plan, mcus, interval, |mcus|), nDc, nAc)
    ensures status == CodeTooLong ==> |ScanTokens(plan, mcus, interval, |mcus|)| + 1 >= LeastWeight(MAX_CLEN + 1)
    ensures status == Done ==> |decoded| <= |mcus| && forall i :: 0 <= i < |decoded| ==> decoded[i] == mcus[i]
    ensures status == Done && Arrived(chunks) >= length ==> decoded == mcus
  {
    hide ValidOrder, ScanInRange, ScanTokens, Joined, ValidPlan, GoodDecoders, ValidMcus, TablesUsed, McuAt, EndAt,
         ScanCoded, TablesShort, LeastWeight;
    decoded, length := [], 0;
    var scan, ts;
    ghost var ps;
    status, scan, ts, ps := TwoPass(plan, nDc, nAc, interval, mcus, marker);
    if status == Done {
      var input := scan + [0xFF, marker] + tail;
      assert input == Joined(ps) + tail;
      length := |scan| + 2;
      decoded := DecodeScan(plan, ts, interval, input, chunks, |mcus|);
      forall i | 0 <= i < |mcus|
        ensures McuAt(plan, ts, input, interval, i) == mcus[i] && EndAt(plan, ts, input, interval, i) <= length
      {
        ScanInverts(plan, ts, mcus, interval, ps, tail, i);
      }
    }
  }
}
