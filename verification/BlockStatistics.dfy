// The statistics pass of the sequential Huffman encoder: what it counts, and that this is
// what the output pass needs.

module BlockStatistics {
  import opened CodeBits
  import opened Coefficients
  import opened OptimalCode
  import opened HuffmanTree
  import opened RestartSegments
  import opened BlockCoding
  import opened BlockScan
  import opened BlockEncoder

  predicate Uses(t: Token, isDC: bool, table: nat) {
    t.isDC == isDC && t.table == table
  }

  // The counts of one table after these tokens have been counted one by one.
  function Tally(counts: seq<nat>, tokens: seq<Token>, isDC: bool, table: nat): (c: seq<nat>)
    requires |counts| == SYMBOLS
    ensures |c| == SYMBOLS
  {
    if tokens == [] then counts
    else
      var c, t := Tally(counts, tokens[..|tokens| - 1], isDC, table), tokens[|tokens| - 1];
      if Uses(t, isDC, table) then c[t.symbol := c[t.symbol] + 1] else c
  }

  lemma TallyPush(counts: seq<nat>, tokens: seq<Token>, t: Token, isDC: bool, table: nat)
    requires |counts| == SYMBOLS
    ensures var c := Tally(counts, tokens, isDC, table);
      Tally(counts, tokens + [t], isDC, table) == if Uses(t, isDC, table) then c[t.symbol := c[t.symbol] + 1] else c
  {
    assert (tokens + [t])[..|tokens|] == tokens;
  }

  lemma {:induction false} TallyAppend(counts: seq<nat>, a: seq<Token>, b: seq<Token>, isDC: bool, table: nat)
    requires |counts| == SYMBOLS
    ensures Tally(counts, a + b, isDC, table) == Tally(Tally(counts, a, isDC, table), b, isDC, table)
  {
    if b == [] {
      assert a + b == a;
    } else {
      var front, t := b[..|b| - 1], b[|b| - 1];
      TallyAppend(counts, a, front, isDC, table);
      assert a + b == (a + front) + [t];
      TallyPush(counts, a + front, t, isDC, table);
    }
  }

  // The symbols of one table among the tokens.
  function SymbolsOfTable(tokens: seq<Token>, isDC: bool, table: nat): multiset<Byte> {
    if tokens == [] then multiset{}
    else
      var t := tokens[|tokens| - 1];
      SymbolsOfTable(tokens[..|tokens| - 1], isDC, table)
      + if Uses(t, isDC, table) then multiset{t.symbol} else multiset{}
  }

  // Main result on the counts: each is the number of times that its symbol occurs.
  lemma {:induction false} TallyCounts(tokens: seq<Token>, isDC: bool, table: nat, s: Byte)
    ensures Tally(NoCounts(), tokens, isDC, table)[s] == SymbolsOfTable(tokens, isDC, table)[s]
  {
    if tokens != [] {
      TallyCounts(tokens[..|tokens| - 1], isDC, table, s);
    }
  }

  function NoCounts(): (c: seq<nat>)
    ensures |c| == SYMBOLS
  {
    seq(SYMBOLS, _ => 0)
  }

  lemma {:induction false} TallyHas(tokens: seq<Token>, t: Token)
    requires t in tokens
    ensures Tally(NoCounts(), tokens, t.isDC, t.table)[t.symbol] > 0
  {
    var front := tokens[..|tokens| - 1];
    if tokens[|tokens| - 1] != t {
      assert tokens == front + [tokens[|tokens| - 1]];
      TallyHas(front, t);
    }
  }

  lemma {:induction false} TallySum(tokens: seq<Token>, isDC: bool, table: nat)
    ensures Sum(Tally(NoCounts(), tokens, isDC, table)) <= |tokens|
    ensures Tally(NoCounts(), tokens, isDC, table)[256] == 0
  {
    hide Sum;
    if tokens == [] {
      SumZero(NoCounts());
    } else {
      TallySum(tokens[..|tokens| - 1], isDC, table);
      var t, c := tokens[|tokens| - 1], Tally(NoCounts(), tokens[..|tokens| - 1], isDC, table);
      SumUpdate(c, t.symbol, c[t.symbol] + 1);
    }
  }

  lemma {:induction false} TallyUnused(tokens: seq<Token>, isDC: bool, table: nat, s: Byte)
    requires forall i :: 0 <= i < |tokens| ==> tokens[i].symbol != s
    ensures Tally(NoCounts(), tokens, isDC, table)[s] == 0
  {
    if tokens != [] {
      TallyUnused(tokens[..|tokens| - 1], isDC, table, s);
    }
  }

  lemma {:induction false} TallyOther(counts: seq<nat>, tokens: seq<Token>, isDC: bool, table: nat)
    requires |counts| == SYMBOLS && forall i :: 0 <= i < |tokens| ==> !Uses(tokens[i], isDC, table)
    ensures Tally(counts, tokens, isDC, table) == counts
  {
    if tokens != [] {
      TallyOther(counts, tokens[..|tokens| - 1], isDC, table);
    }
  }

  // ----- The tokens of a block -----

  // A token of this block's tables with a symbol that baseline coding can produce.
  predicate BelongsTo(t: Token, slot: Slot) {
    && t.table == (if t.isDC then slot.dc else slot.ac)
    && if t.isDC then t.symbol <= MAX_COEF_BITS + 1 else t.symbol % 16 <= MAX_COEF_BITS
  }

  lemma {:induction false} AcTokensBelong(order: seq<nat>, slot: Slot, b: seq<int>, k: nat, r: nat)
    requires ValidOrder(order) && |b| == BLOCK && 1 <= k <= BLOCK
    requires forall j :: k <= j < BLOCK ==> BitLength(Abs(b[order[j]])) <= MAX_COEF_BITS
    ensures forall t :: t in AcTokens(order, slot.ac, b, k, r) ==> BelongsTo(t, slot)
    decreases BLOCK - k, r
  {
    hide BitLength, ValidOrder;
    Entries(order);
    if k < BLOCK {
      var v := b[order[k]];
      if v == 0 {
        AcTokensBelong(order, slot, b, k + 1, r + 1);
      } else if r > 15 {
        AcTokensBelong(order, slot, b, k, r - 16);
      } else {
        AcTokensBelong(order, slot, b, k + 1, 0);
        assert (16 * r + BitLength(Abs(v))) % 16 == BitLength(Abs(v));
      }
    }
  }

  lemma BlockTokensBelong(order: seq<nat>, slot: Slot, b: seq<int>, last: int)
    requires ValidOrder(order) && |b| == BLOCK && InRange(order, b, last)
    ensures forall t :: t in BlockTokens(order, slot, b, last) ==> BelongsTo(t, slot)
  {
    hide BitLength, ValidOrder, AcTokens;
    AcTokensBelong(order, slot, b, 1, 0);
  }

  // Count one more symbol.
  method Count(counts: array<nat>, symbol: Byte, ghost from: seq<nat>, ghost done: seq<Token>, ghost t: Token)
    requires counts.Length == SYMBOLS == |from| && t.symbol == symbol
    requires counts[..] == Tally(from, done, t.isDC, t.table)
    modifies counts
    ensures counts[..] == Tally(from, done + [t], t.isDC, t.table)
  {
    TallyPush(from, done, t, t.isDC, t.table);
    counts[symbol] := counts[symbol] + 1;
  }

  // htest_one_block: counts exactly the symbols that encode_one_block writes.
  method HtestOneBlock(order: seq<nat>, b: seq<int>, last: int, slot: Slot, dcCounts: array<nat>, acCounts: array<nat>)
    returns (ok: bool)
    requires ValidOrder(order) && |b| == BLOCK
    requires dcCounts.Length == acCounts.Length == SYMBOLS && dcCounts != acCounts
    modifies dcCounts, acCounts
    ensures ok == InRange(order, b, last)
    ensures ok ==> dcCounts[..] == Tally(old(dcCounts[..]), BlockTokens(order, slot, b, last), true, slot.dc)
    ensures ok ==> acCounts[..] == Tally(old(acCounts[..]), BlockTokens(order, slot, b, last), false, slot.ac)
  {
    hide BitLength, ValidOrder, InRange, BlockTokens, AcTokens, Underway, Tally;
    Entries(order);
    ghost var dc0, ac0 := dcCounts[..], acCounts[..];
    var temp := b[0] - last;
    var nbits := BlockEncoder.CountBits(Abs(temp));
    if nbits > MAX_COEF_BITS + 1 {
      DcOutOfRange(order, b, last);
      return false;
    }
    BlockStarts(order, slot, b, last);
    ghost var done := [DcToken(slot.dc, temp)];
    TallyNone(dc0, true, slot.dc);
    TallyNone(ac0, false, slot.ac);
    TallyPush(ac0, [], done[0], false, slot.ac);
    assert [] + done == done;
    Count(dcCounts, nbits, dc0, [], done[0]);
    var r: nat, k: nat := 0, 1;
    while k < BLOCK
      invariant 1 <= k <= BLOCK && Underway(order, slot, b, last, done, k, r)
      invariant dcCounts[..] == Tally(dc0, done, true, slot.dc)
      invariant acCounts[..] == Tally(ac0, done, false, slot.ac)
    {
      if b[order[k]] == 0 {
        PassZero(order, slot, b, last, done, k, r);
        r := r + 1;
      } else {
        while r > 15
          invariant Underway(order, slot, b, last, done, k, r)
          invariant dcCounts[..] == Tally(dc0, done, true, slot.dc)
          invariant acCounts[..] == Tally(ac0, done, false, slot.ac)
          decreases r
        {
          NextZrl(order, slot, b, last, done, k, r);
          ghost var t := Token(false, slot.ac, 0xF0, 0);
          TallyPush(dc0, done, t, true, slot.dc);
          Count(acCounts, 0xF0, ac0, done, t);
          done := done + [t];
          r := r - 16;
        }
        nbits := BlockEncoder.CountBits(Abs(b[order[k]]));
        if nbits > MAX_COEF_BITS {
          OutOfRange(order, b, last, k);
          return false;
        }
        NextCoef(order, slot, b, last, done, k, r);
        ghost var t := CoefToken(slot.ac, r, b[order[k]]);
        TallyPush(dc0, done, t, true, slot.dc);
        Count(acCounts, 16 * r + nbits, ac0, done, t);
        done := done + [t];
        r := 0;
      }
      k := k + 1;
    }
    BlockEnds(order, slot, b, last, done, r);
    if r > 0 {
      ghost var t := Token(false, slot.ac, 0, 0);
      TallyPush(dc0, done, t, true, slot.dc);
      Count(acCounts, 0, ac0, done, t);
    }
    ok := true;
  }

  lemma TallyNone(counts: seq<nat>, isDC: bool, table: nat)
    requires |counts| == SYMBOLS
    ensures Tally(counts, [], isDC, table) == counts
  {
  }

  // The counts after a block, for its own tables and for the others.
  lemma TallyBlock(counts: seq<nat>, tokens: seq<Token>, order: seq<nat>, slot: Slot, b: seq<int>, last: int,
                   isDC: bool, table: nat)
    requires ValidOrder(order) && |b| == BLOCK && InRange(order, b, last) && |counts| == SYMBOLS
    requires counts == Tally(NoCounts(), tokens, isDC, table)
    ensures Tally(NoCounts(), tokens + BlockTokens(order, slot, b, last), isDC, table) ==
      if table == (if isDC then slot.dc else slot.ac) then Tally(counts, BlockTokens(order, slot, b, last), isDC, table)
      else counts
  {
    hide BlockTokens, InRange, ValidOrder, Tally;
    var more := BlockTokens(order, slot, b, last);
    TallyAppend(NoCounts(), tokens, more, isDC, table);
    if table != if isDC then slot.dc else slot.ac {
      BlockTokensBelong(order, slot, b, last);
      forall i | 0 <= i < |more|
        ensures !Uses(more[i], isDC, table)
      {
        assert more[i] in more;
      }
      TallyOther(counts, more, isDC, table);
    }
  }

  class StatisticsGatherer {
    const plan: Plan
    const interval: nat             // MCUs between restart markers, 0 for none
    const dcCounts: seq<array<nat>>
    const acCounts: seq<array<nat>>
    var lastDc: seq<int>
    var restartsToGo: nat
    ghost const mcus: seq<Mcu>      // the scan
    ghost var tokens: seq<Token>    // what the output pass will write
    ghost var done: nat
    ghost var lo: nat

    ghost predicate Distinct()
    {
      && (forall i, j :: 0 <= i < j < |dcCounts| ==> dcCounts[i] != dcCounts[j])
      && (forall i, j :: 0 <= i < j < |acCounts| ==> acCounts[i] != acCounts[j])
      && (forall i, j :: 0 <= i < |dcCounts| && 0 <= j < |acCounts| ==> dcCounts[i] != acCounts[j])
      && (forall i :: 0 <= i < |dcCounts| ==> dcCounts[i].Length == SYMBOLS)
      && (forall i :: 0 <= i < |acCounts| ==> acCounts[i].Length == SYMBOLS)
    }

    ghost predicate Counted()
      reads this`lastDc, this`tokens, dcCounts, acCounts
    {
      && ValidSlots(plan) && |lastDc| == plan.comps
      && (forall i :: 0 <= i < |plan.layout| ==> plan.layout[i].dc < |dcCounts| && plan.layout[i].ac < |acCounts|)
      && Distinct()
      && (forall i :: 0 <= i < |dcCounts| ==> dcCounts[i][..] == Tally(NoCounts(), tokens, true, i))
      && (forall i :: 0 <= i < |acCounts| ==> acCounts[i][..] == Tally(NoCounts(), tokens, false, i))
    }

    // How far the scan has come.
    ghost predicate Placed()
      reads this`done, this`lo, this`restartsToGo
    {
      && ValidSlots(plan) && ValidMcus(plan, mcus) && lo <= done <= |mcus|
      && Counting(lo, done, restartsToGo, interval) && ScanInRange(plan, mcus, interval, done)
    }

    ghost predicate Valid()
      reads this, dcCounts, acCounts
    {
      && Counted() && Placed() && (done == 0 || lo < done)
      && tokens == ScanTokens(plan, mcus, interval, done) && lastDc == ScanLast(plan, mcus, interval, done)
    }

    constructor (p: Plan, dc: seq<array<nat>>, ac: seq<array<nat>>, restartInterval: nat, ghost all: seq<Mcu>)
      requires ValidSlots(p) && ValidMcus(p, all)
      requires forall i :: 0 <= i < |p.layout| ==> p.layout[i].dc < |dc| && p.layout[i].ac < |ac|
      requires forall i, j :: 0 <= i < j < |dc| ==> dc[i] != dc[j]
      requires forall i, j :: 0 <= i < j < |ac| ==> ac[i] != ac[j]
      requires forall i, j :: 0 <= i < |dc| && 0 <= j < |ac| ==> dc[i] != ac[j]
      requires forall i :: 0 <= i < |dc| ==> dc[i].Length == SYMBOLS && dc[i][..] == NoCounts()
      requires forall i :: 0 <= i < |ac| ==> ac[i].Length == SYMBOLS && ac[i][..] == NoCounts()
      ensures Valid() && plan == p && dcCounts == dc && acCounts == ac && interval == restartInterval && mcus == all
      ensures done == 0
    {
      hide ValidSlots, ValidMcus, ValidMcu;
      plan, interval, dcCounts, acCounts, lastDc := p, restartInterval, dc, ac, Zeros(p.comps);
      restartsToGo, mcus, tokens, done, lo := restartInterval, all, [], 0, 0;
      ScanStarts(p, all, restartInterval);
      CountingStart(restartInterval);
    }

    // One block of an MCU.
    method GatherBlock(b: seq<int>, last: int, slot: Slot) returns (ok: bool)
      requires Counted() && |b| == BLOCK && slot.dc < |dcCounts| && slot.ac < |acCounts|
      modifies dcCounts, acCounts, this`tokens
      ensures ok == InRange(plan.order, b, last)
      ensures ok ==> Counted() && tokens == old(tokens) + BlockTokens(plan.order, slot, b, last)
    {
      hide ValidOrder, InRange, BlockTokens, Tally;
      ghost var before := tokens;
      ok := HtestOneBlock(plan.order, b, last, slot, dcCounts[slot.dc], acCounts[slot.ac]);
      if ok {
        ghost var more := BlockTokens(plan.order, slot, b, last);
        tokens := tokens + more;
        forall i | 0 <= i < |dcCounts|
          ensures dcCounts[i][..] == Tally(NoCounts(), before + more, true, i)
        {
          TallyBlock(old(dcCounts[i][..]), before, plan.order, slot, b, last, true, i);
        }
        forall i | 0 <= i < |acCounts|
          ensures acCounts[i][..] == Tally(NoCounts(), before + more, false, i)
        {
          TallyBlock(old(acCounts[i][..]), before, plan.order, slot, b, last, false, i);
        }
      }
    }

    // The blocks of an MCU.
    method GatherBlocks(mcu: Mcu) returns (ok: bool)
      requires Counted() && ValidMcu(plan, mcu)
      modifies dcCounts, acCounts, this`tokens, this`lastDc
      ensures ok == McuInRange(plan, mcu, old(lastDc))
      ensures ok ==> Counted() && tokens == old(tokens) + McuTokens(plan, mcu, old(lastDc), |mcu|)
      ensures ok ==> lastDc == LastAfter(plan, mcu, old(lastDc), |mcu|)
    {
      hide ValidOrder, InRange, BlockTokens, Tally, LastAfter, McuTokens, BlockInRange, Distinct;
      ghost var start, first := tokens, lastDc;
      NoMcuTokens(plan, mcu, first);
      assert start + [] == start;
      for i := 0 to |mcu|
        invariant Counted() && lastDc == LastAfter(plan, mcu, first, i)
        invariant forall j :: 0 <= j < i ==> BlockInRange(plan, mcu, first, j)
        invariant tokens == start + McuTokens(plan, mcu, first, i)
      {
        LastNext(plan, mcu, first, i);
        var slot := plan.layout[i];
        ok := GatherBlock(mcu[i], lastDc[slot.ci], slot);
        if !ok {
          return;
        }
        TokensNext(plan, mcu, first, i);
        assert start + McuTokens(plan, mcu, first, i) + BlockTokens(plan.order, slot, mcu[i], lastDc[slot.ci])
          == start + (McuTokens(plan, mcu, first, i) + BlockTokens(plan.order, slot, mcu[i], lastDc[slot.ci]));
        lastDc := lastDc[slot.ci := mcu[i][0]];
      }
      ok := true;
    }

    // encode_mcu_gather: at a restart only the predictions start over.
    method GatherMcu(mcu: Mcu) returns (ok: bool)
      requires Valid() && done < |mcus| && mcu == mcus[done] && ValidMcu(plan, mcu)
      modifies dcCounts, acCounts, this
      ensures ok == McuInRange(plan, mcu, Before(plan, mcus, interval, old(done)))
      ensures ok ==> Valid() && done == old(done) + 1
    {
      hide ValidSlots, ValidMcus, ValidMcu, ScanInRange, Counting, StartsSegment, Tally, ScanLast, LastAfter, McuTokens,
           Distinct, SpanTokens, McuInRange;
      CountingRestart(lo, done, restartsToGo, interval);
      ScanStarts(plan, mcus, interval);
      ScanGoesOn(plan, mcus, interval, done);
      if interval != 0 {
        if restartsToGo == 0 {
          lastDc := Zeros(plan.comps);
          restartsToGo := interval;
          lo := done;
        }
        CountingNext(lo, done, restartsToGo, interval, |mcus|);
        restartsToGo := restartsToGo - 1;
      } else {
        CountingNext(lo, done, restartsToGo, interval, |mcus|);
      }
      ok := GatherBlocks(mcu);
      if !ok {
        return;
      }
      SpanGoesOn(plan, mcus, interval, 0, done);
      done := done + 1;
    }
  }

  lemma NoMcuTokens(plan: Plan, mcu: Mcu, last: seq<int>)
    requires ValidSlots(plan) && ValidMcu(plan, mcu) && |last| == plan.comps
    ensures McuTokens(plan, mcu, last, 0) == [] && LastAfter(plan, mcu, last, 0) == last
  {
  }
}
