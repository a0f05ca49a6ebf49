// finish_pass_gather for one table: from the counts of a statistics pass to derived tables
// that have a code for every symbol counted.

module OptimizedTables {
  import opened CodeBits
  import opened OptimalCode
  import opened HuffmanTree
  import opened HuffmanLengths
  import opened HuffmanGeneration
  import opened HuffmanTables
  import opened HuffmanFields
  import opened BlockCoding
  import opened BlockStatistics
  import opened BlockDecoder

  ghost predicate BaselineTokens(tokens: seq<Token>) {
    forall t :: t in tokens ==> t.symbol % 16 <= MAX_COEF_BITS + 1 && (t.isDC ==> t.symbol <= 15)
  }

  lemma {:induction false} TallyPositive(tokens: seq<Token>, isDC: bool, table: nat, s: Byte) returns (t: Token)
    requires Tally(NoCounts(), tokens, isDC, table)[s] > 0
    ensures t in tokens && Uses(t, isDC, table) && t.symbol == s
  {
    var n := |tokens| - 1;
    if Uses(tokens[n], isDC, table) && tokens[n].symbol == s {
      t := tokens[n];
    } else {
      t := TallyPositive(tokens[..n], isDC, table, s);
    }
  }

  lemma {:induction false} PositivesBound(f: seq<nat>, i: nat, j: nat)
    requires i < j && (i < |f| ==> f[i] == 0) && (j < |f| ==> f[j] == 0)
    ensures Positives(f) <= |f|
    ensures i < |f| ==> Positives(f) <= |f| - 1
    ensures j < |f| ==> Positives(f) <= |f| - 2
  {
    if f != [] {
      PositivesBound(f[..|f| - 1], i, j);
    }
  }

  lemma CountsAreGood(tokens: seq<Token>, isDC: bool, table: nat, t: Token)
    requires BaselineTokens(tokens) && |tokens| < SENTINEL && t in tokens && Uses(t, isDC, table)
    ensures GoodCounts(Tally(NoCounts(), tokens, isDC, table))
    ensures Sum(WithPseudo(Tally(NoCounts(), tokens, isDC, table))) <= |tokens| + 1
  {
    hide Sum, Tally, Positives;
    var f := Tally(NoCounts(), tokens, isDC, table);
    TallyHas(tokens, t);
    TallySum(tokens, isDC, table);
    SumUpdate(f, 256, 1);
    forall i | 0 <= i < |tokens|
      ensures tokens[i].symbol != 13 && tokens[i].symbol != 14
    {
      assert tokens[i] in tokens;
    }
    TallyUnused(tokens, isDC, table, 13);
    TallyUnused(tokens, isDC, table, 14);
    PositivesBound(f[..256], 13, 14);
  }

  // finish_pass_gather for one table: a table with a code for every symbol that was counted.
  // Fails exactly if Huffman's algorithm needs more than 32 bits for some symbol, which takes
  // millions of symbols.
  method OptimizeTable(counts: array<nat>, isDC: bool, ghost tokens: seq<Token>, ghost table: nat)
    returns (ok: bool, c: CDerived, t: HuffTable)
    requires counts.Length == SYMBOLS && counts[..] == Tally(NoCounts(), tokens, isDC, table)
    requires BaselineTokens(tokens) && |tokens| < SENTINEL && exists u :: u in tokens && Uses(u, isDC, table)
    modifies counts
    ensures ok == ShortCodes(Tally(NoCounts(), tokens, isDC, table))
    ensures |tokens| + 1 < LeastWeight(MAX_CLEN + 1) ==> ok
    ensures ok ==> Agree(c, t) && GoodTable(t) && (isDC ==> SmallSymbols(t))
    ensures ok ==> forall u :: u in tokens && Uses(u, isDC, table) ==> HasCode(c, u.symbol)
  {
    hide Tally, Sum, Positives, LegalTable, EncodesTable, CountsLegal, DecodesTable, LookEntry, CompleteCode, IsCode,
         Cost, GoodCounts, Agree, GoodTable, SmallSymbols, HasCode, Listed, LeastWeight, ShortCodes, KeepsSizes;
    ghost var f := counts[..];
    ghost var u :| u in tokens && Uses(u, isDC, table);
    CountsAreGood(tokens, isDC, table, u);
    var bits, huffval := new Byte[17](_ => 0), new Byte[256](_ => 0);
    ghost var cs;
    ok, cs := GenOptimalTable(counts, bits, huffval);
    t := HuffTable(bits[..], huffval[..], DDerived([], [], [], []));
    c := CDerived([], []);
    if !ok {
      return;
    }
    LegalCounts(bits[..], huffval[..]);
    ListedAreSmall(tokens, isDC, table, bits[..], huffval[..]);
    var okC, okD, d;
    okC, c := MakeCDerivedTbl(isDC, bits[..], huffval[..]);
    okD, d := MakeDDerivedTbl(isDC, bits[..], huffval[..]);
    t := HuffTable(bits[..], huffval[..], d);
    DerivedIsGood(bits[..], huffval[..], d);
    TablesFit(c, t, isDC);
    forall v | v in tokens && Uses(v, isDC, table)
      ensures HasCode(c, v.symbol)
    {
      TallyHas(tokens, v);
      ListedHasCode(c, t, v.symbol);
    }
  }

  lemma ListedAreSmall(tokens: seq<Token>, isDC: bool, table: nat, bits: seq<Byte>, huffval: seq<Byte>)
    requires BaselineTokens(tokens) && |bits| == 17 && Total(bits, 16) <= |huffval|
    requires forall s: Byte :: s in ListedSymbols(bits, huffval) <==> Tally(NoCounts(), tokens, isDC, table)[s] > 0
    ensures SymbolsBelow(ListedSymbols(bits, huffval), MaxSymbol(isDC))
    ensures isDC ==> SymbolsBelow(ListedSymbols(bits, huffval), 15)
  {
    hide Tally;
    var l := ListedSymbols(bits, huffval);
    forall i | 0 <= i < |l|
      ensures l[i] <= MaxSymbol(isDC)
    {
      assert l[i] in l;
      var t := TallyPositive(tokens, isDC, table, l[i]);
    }
  }

  lemma LegalCounts(bits: seq<Byte>, huffval: seq<Byte>)
    requires LegalTable(bits, huffval)
    ensures CountsLegal(bits, huffval) && |bits| == 17 && Total(bits, 16) <= 256
  {
  }

  lemma TablesFit(c: CDerived, t: HuffTable, isDC: bool)
    requires LegalTable(t.bits, t.huffval) && EncodesTable(c, t.bits, t.huffval, Total(t.bits, 16))
    ensures Agree(c, t)
    ensures isDC && SymbolsBelow(ListedSymbols(t.bits, t.huffval), 15) ==> SmallSymbols(t)
  {
    hide EncodesTable;
  }

  lemma ListedHasCode(c: CDerived, t: HuffTable, s: Byte)
    requires Agree(c, t) && s in ListedSymbols(t.bits, t.huffval)
    ensures HasCode(c, s)
  {
    hide HasLength, CodesFit;
  }
}
