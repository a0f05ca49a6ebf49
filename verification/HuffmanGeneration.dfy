// jpeg_gen_optimal_table as a whole: from symbol counts to the BITS and HUFFVAL lists of a
// table that the table builders of encoder and decoder accept.

module HuffmanGeneration {
  import opened CodeBits
  import opened OptimalCode
  import opened HuffmanTree
  import opened HuffmanLengths
  import opened HuffmanTables

  // ----- Listing the symbols -----

  // The symbols below n that have code size k, in increasing order.
  function SymbolsOf(cs: seq<nat>, n: nat, k: nat): (r: seq<Byte>)
    requires n <= |cs| && n <= 256
    ensures forall s :: s in r <==> 0 <= s < n && cs[s] == k
  {
    if n == 0 then [] else SymbolsOf(cs, n - 1, k) + if cs[n - 1] == k then [n - 1] else []
  }

  // The real symbols of code sizes 1..k, shorter codes first.
  function Listed(cs: seq<nat>, k: nat): (r: seq<Byte>)
    requires |cs| == SYMBOLS
    ensures forall s :: s in r <==> 0 <= s < 256 && 1 <= cs[s] <= k
  {
    if k == 0 then [] else Listed(cs, k - 1) + SymbolsOf(cs, 256, k)
  }

  lemma {:induction false} SymbolsOfDistinct(cs: seq<nat>, n: nat, k: nat)
    requires n <= |cs| && n <= 256
    ensures Distinct(SymbolsOf(cs, n, k))
  {
    if n > 0 {
      SymbolsOfDistinct(cs, n - 1, k);
    }
  }

  lemma {:induction false} ListedDistinct(cs: seq<nat>, k: nat)
    requires |cs| == SYMBOLS
    ensures Distinct(Listed(cs, k))
  {
    if k > 0 {
      ListedDistinct(cs, k - 1);
      SymbolsOfDistinct(cs, 256, k);
      DistinctAppend(Listed(cs, k - 1), SymbolsOf(cs, 256, k));
    }
  }

  lemma DistinctAppend(a: seq<Byte>, b: seq<Byte>)
    requires Distinct(a) && Distinct(b) && forall x :: x in a ==> x !in b
    ensures Distinct(a + b)
  {
    forall i, j | 0 <= i < j < |a + b|
      ensures (a + b)[i] != (a + b)[j]
    {
      if i < |a| <= j {
        assert a[i] in a && b[j - |a|] in b;
      }
    }
  }

  // Symbols are listed by increasing code size.
  lemma {:induction false} ListedSorted(cs: seq<nat>, k: nat, i: nat, j: nat)
    requires |cs| == SYMBOLS && i <= j < |Listed(cs, k)|
    ensures cs[Listed(cs, k)[i]] <= cs[Listed(cs, k)[j]]
  {
    if k > 0 {
      var a, b := Listed(cs, k - 1), SymbolsOf(cs, 256, k);
      if j < |a| {
        ListedSorted(cs, k - 1, i, j);
      } else {
        assert b[j - |a|] in b;
        assert Listed(cs, k)[i] in Listed(cs, k);
      }
    }
  }

  // The list holds every coded symbol once, so its length is the number of coded symbols.
  lemma {:induction false} ListedLength(cs: seq<nat>, k: nat)
    requires |cs| == SYMBOLS
    ensures |Listed(cs, k)| == UsedUpTo(cs[..256], k)
  {
    if k > 0 {
      ListedLength(cs, k - 1);
      SymbolsOfLength(cs, 256, k);
      UsedUpToStep(cs[..256], k);
    } else {
      UsedUpToZero(cs[..256]);
    }
  }

  function UsedUpTo(cs: seq<nat>, k: nat): nat {
    if |cs| == 0 then 0
    else UsedUpTo(cs[..|cs| - 1], k) + if 1 <= cs[|cs| - 1] <= k then 1 else 0
  }

  lemma {:induction false} UsedUpToZero(cs: seq<nat>)
    ensures UsedUpTo(cs, 0) == 0
  {
    if |cs| > 0 {
      UsedUpToZero(cs[..|cs| - 1]);
    }
  }

  lemma {:induction false} UsedUpToStep(cs: seq<nat>, k: nat)
    requires k > 0
    ensures UsedUpTo(cs, k) == UsedUpTo(cs, k - 1) + CountOf(cs, k)
  {
    if |cs| > 0 {
      UsedUpToStep(cs[..|cs| - 1], k);
    }
  }

  lemma {:induction false} SymbolsOfLength(cs: seq<nat>, n: nat, k: nat)
    requires n <= |cs| && n <= 256
    ensures |SymbolsOf(cs, n, k)| == CountOf(cs[..n], k)
  {
    if n > 0 {
      SymbolsOfLength(cs, n - 1, k);
      assert cs[..n][..n - 1] == cs[..n - 1];
    }
  }

  lemma {:induction false} UsedUpToAll(cs: seq<nat>)
    requires forall s :: 0 <= s < |cs| ==> cs[s] <= MAX_CLEN
    ensures UsedUpTo(cs, MAX_CLEN) == Used(cs)
  {
    if |cs| > 0 {
      UsedUpToAll(cs[..|cs| - 1]);
    }
  }

  // All code sizes at most 32: the list holds all coded real symbols.
  lemma ListedIsUsed(cs: seq<nat>)
    requires |cs| == SYMBOLS && cs[256] > 0 && forall s :: 0 <= s < SYMBOLS ==> cs[s] <= MAX_CLEN
    ensures |Listed(cs, MAX_CLEN)| == Used(cs) - 1
  {
    ListedLength(cs, MAX_CLEN);
    UsedUpToAll(cs[..256]);
    assert cs[..|cs| - 1] == cs[..256];
  }

  lemma SymbolsStep(cs: seq<nat>, n: nat, k: nat)
    requires n <= |cs| && n <= 256
    ensures n == 0 ==> SymbolsOf(cs, n, k) == []
    ensures n > 0 ==> SymbolsOf(cs, n, k) == SymbolsOf(cs, n - 1, k) + if cs[n - 1] == k then [n - 1] else []
  {
  }

  // Append the symbols of one code size.
  method ListLength(codesize: array<nat>, huffval: array<Byte>, i: nat, start: nat) returns (p: nat)
    requires codesize.Length == SYMBOLS && huffval.Length == 256
    requires codesize as object != huffval as object
    requires start + |SymbolsOf(codesize[..], 256, i)| <= 256
    modifies huffval
    ensures p == start + |SymbolsOf(codesize[..], 256, i)|
    ensures huffval[..p] == old(huffval[..start]) + SymbolsOf(codesize[..], 256, i)
  {
    hide SymbolsOf;
    ghost var cs, before := codesize[..], huffval[..start];
    SymbolsStep(cs, 0, i);
    p := start;
    for j := 0 to 256
      invariant codesize[..] == cs
      invariant p == start + |SymbolsOf(cs, j, i)| && p <= start + |SymbolsOf(cs, 256, i)|
      invariant huffval[..p] == before + SymbolsOf(cs, j, i)
    {
      SymbolsOfGrows(cs, j + 1, 256, i);
      SymbolsStep(cs, j + 1, i);
      assert codesize[j] == cs[j];
      if codesize[j] == i {
        huffval[p] := j;
        p := p + 1;
        assert huffval[..p] == huffval[..p - 1] + [j];
      }
    }
  }

  // Return a list of the symbols sorted by code length.
  method ListSymbols(codesize: array<nat>, huffval: array<Byte>) returns (p: nat)
    requires codesize.Length == SYMBOLS && huffval.Length == 256
    requires codesize as object != huffval as object
    requires |Listed(codesize[..], MAX_CLEN)| <= 256
    modifies huffval
    ensures p == |Listed(codesize[..], MAX_CLEN)| && huffval[..p] == Listed(codesize[..], MAX_CLEN)
  {
    hide SymbolsOf;
    ghost var cs := codesize[..];
    p := 0;
    for i := 1 to MAX_CLEN + 1
      invariant codesize[..] == cs
      invariant p == |Listed(cs, i - 1)| <= 256 && huffval[..p] == Listed(cs, i - 1)
    {
      ListedGrows(cs, i, MAX_CLEN);
      p := ListLength(codesize, huffval, i, p);
    }
  }

  lemma {:induction false} ListedGrows(cs: seq<nat>, k: nat, l: nat)
    requires |cs| == SYMBOLS && k <= l
    ensures |Listed(cs, k)| <= |Listed(cs, l)|
  {
    if k < l {
      ListedGrows(cs, k, l - 1);
    }
  }

  lemma {:induction false} SymbolsOfGrows(cs: seq<nat>, m: nat, n: nat, k: nat)
    requires m <= n <= |cs| && n <= 256
    ensures |SymbolsOf(cs, m, k)| <= |SymbolsOf(cs, n, k)|
  {
    if m < n {
      SymbolsOfGrows(cs, m, n - 1, k);
    }
  }

  // ----- Removing the pseudo-symbol -----

  // Remove the count for the pseudo-symbol from the largest code length, which leaves room
  // for the all-ones code.
  method RemovePseudo(bits: array<int>)
    requires bits.Length == MAX_CLEN + 1 && FullUpTo(bits[..], 16)
    modifies bits
    ensures Sum(bits[..]) == old(Sum(bits[..])) - 1
    ensures bits[0] == 0 && forall k :: 0 <= k <= MAX_CLEN ==> 0 <= bits[k] <= 255
    ensures Horner(bits[..], 16) < Pow2(16)
    ensures exists i :: 1 <= i <= 16 && old(bits[i]) > 0 && bits[..] == old(bits[..])[i := old(bits[i]) - 1]
                        && forall k :: i < k <= 16 ==> old(bits[k]) == 0
  {
    hide FullUpTo, Sum, Horner, Pow2;
    ghost var b := bits[..];
    FullInBytes(b, 16);
    FullIsPositive(b);
    var i := 16;
    while bits[i] == 0
      invariant 1 <= i <= 16 && bits[..] == b
      invariant forall k :: i < k <= 16 ==> b[k] == 0
      decreases i
    {
      i := i - 1;
    }
    bits[i] := (bits[i] - 1) % 256;
    assert bits[..] == b[i := b[i] - 1];
    SumUpdate(b, i, b[i] - 1);
    HornerUpdate(b, 16, i, b[i] - 1);
  }

  lemma FullIsPositive(bits: seq<int>)
    requires FullUpTo(bits, 16)
    ensures exists k :: 1 <= k <= 16 && bits[k] > 0
    ensures bits[0] == 0 && Horner(bits, 16) == Pow2(16)
  {
    HornerNonzero(bits, 16);
  }

  // ----- The whole routine -----

  lemma UsedAfterMerging(f0: seq<nat>, cs: seq<nat>)
    requires |f0| == |cs| && forall s :: 0 <= s < |cs| ==> (f0[s] > 0 <==> cs[s] > 0)
    ensures Used(cs) == Positives(f0)
  {
    if |cs| > 0 {
      UsedAfterMerging(f0[..|f0| - 1], cs[..|cs| - 1]);
    }
  }

  // How many symbols were counted.
  function Positives(f: seq<nat>): nat {
    if |f| == 0 then 0 else Positives(f[..|f| - 1]) + if f[|f| - 1] > 0 then 1 else 0
  }

  // The counts handed to the routine, with the pseudo-symbol in place.
  function WithPseudo(f: seq<nat>): (r: seq<nat>)
    requires |f| == SYMBOLS
    ensures |r| == SYMBOLS
  {
    f[256 := 1]
  }

  // What the routine needs of its counts: some symbol occurs, the total stays below the
  // search sentinel, and the byte counters cannot wrap.
  ghost predicate GoodCounts(f: seq<nat>) {
    && |f| == SYMBOLS
    && (exists s :: 0 <= s < 256 && f[s] > 0)
    && Sum(WithPseudo(f)) <= SENTINEL
    && Positives(f[..256]) <= 254
  }

  lemma MergingIsOptimal(f0: seq<nat>, cs: seq<nat>)
    requires |f0| == |cs| && Cost(f0, cs) == MergeCost(f0)
    ensures forall l :: IsCode(f0, l) ==> Cost(f0, cs) <= Cost(f0, l)
  {
    hide Cost, MergeCost;
    forall l | IsCode(f0, l)
      ensures Cost(f0, cs) <= Cost(f0, l)
    {
      MergeCostIsLeast(f0, l);
    }
  }

  lemma CompleteFacts(f0: seq<nat>, cs: seq<nat>)
    requires CompleteCode(f0, cs) && Positives(f0[..256]) <= 254 && f0[256] == 1
    ensures |cs| == SYMBOLS && cs[256] > 0 && Used(cs) <= 255
    ensures forall s :: 0 <= s < SYMBOLS ==> (f0[s] > 0 <==> cs[s] > 0)
  {
    UsedAfterMerging(f0, cs);
    assert f0[..|f0| - 1] == f0[..256];
  }

  lemma CountedIsFull(f0: seq<nat>, cs: seq<nat>, bits: seq<int>)
    requires CompleteCode(f0, cs) && Counted(bits, cs) && Used(cs) <= 255
    ensures FullUpTo(bits, MAX_CLEN)
    ensures Sum(bits) == Used(cs)
  {
    hide Horner, Sum, Pow2, Contributions, CountOf, Used;
    CompleteIsFull(f0, cs);
  }

  lemma {:induction false} TotalIsSum(b: seq<int>, tableBits: seq<Byte>, l: nat)
    requires l <= 16 && |b| == MAX_CLEN + 1 && tableBits == b[..17] && b[0] == 0
    ensures Total(tableBits, l) == Sum(b[..l + 1])
  {
    if l == 0 {
      assert b[..1] == [0];
    } else {
      TotalIsSum(b, tableBits, l - 1);
      SumPush(b[..l], b[l]);
      assert b[..l + 1] == b[..l] + [b[l]];
    }
  }

  lemma {:induction false} SumIgnoresZeros(b: seq<int>, l: nat)
    requires 17 <= l <= |b| && forall k :: 17 <= k < |b| ==> b[k] == 0
    ensures Sum(b[..l]) == Sum(b[..17])
  {
    if l > 17 {
      SumIgnoresZeros(b, l - 1);
      SumPush(b[..l - 1], b[l - 1]);
      assert b[..l] == b[..l - 1] + [b[l - 1]];
    }
  }

  lemma {:induction false} HornerIsNextCode(b: seq<int>, t: seq<Byte>, l: nat)
    requires l < |b| && l < |t| && b[0] == 0 && forall k :: 1 <= k <= l ==> b[k] == t[k]
    ensures Horner(b, l) == NextCode(t, l)
  {
    if l > 0 {
      HornerIsNextCode(b, t, l - 1);
    }
  }

  lemma KraftBelow(b: seq<int>, l: nat)
    requires |b| == MAX_CLEN + 1 && l <= 16 && forall k :: 0 <= k < |b| ==> b[k] >= 0
    requires Horner(b, 16) < Pow2(16)
    ensures Horner(b, l) < Pow2(l)
  {
    hide Horner, Pow2;
    HornerScale(b, l, 16);
    Pow2Add(l, 16 - l);
    if Horner(b, l) >= Pow2(l) {
      MulMonotone(Pow2(l), Horner(b, l), Pow2(16 - l));
    }
  }

  // The finished lists make a legal table for the symbols that have a code size.
  lemma TableIsLegal(b: seq<int>, cs: seq<nat>, tableBits: seq<Byte>, huffval: seq<Byte>)
    requires |b| == MAX_CLEN + 1 && b[0] == 0 && forall k :: 0 <= k <= MAX_CLEN ==> b[k] >= 0
    requires forall k :: 17 <= k <= MAX_CLEN ==> b[k] == 0
    requires |cs| == SYMBOLS && Horner(b, 16) < Pow2(16) && Sum(b) == |Listed(cs, MAX_CLEN)| <= 256
    requires tableBits == b[..17] && |huffval| == 256
    requires huffval[..|Listed(cs, MAX_CLEN)|] == Listed(cs, MAX_CLEN)
    ensures LegalTable(tableBits, huffval)
    ensures ListedSymbols(tableBits, huffval) == Listed(cs, MAX_CLEN)
  {
    hide Horner, Sum, Pow2, Listed;
    TotalIsSum(b, tableBits, 16);
    SumIgnoresZeros(b, |b|);
    assert b[..|b|] == b;
    forall l | 0 <= l <= 16
      ensures NextCode(tableBits, l) < Pow2(l)
    {
      HornerIsNextCode(b, tableBits, l);
      KraftBelow(b, l);
    }
    ListedDistinct(cs, MAX_CLEN);
  }

  // ----- Lengths kept -----

  lemma {:induction false} CountAbove(cs: seq<nat>, k: nat)
    requires forall s :: 0 <= s < |cs| ==> cs[s] < k
    ensures CountOf(cs, k) == 0
  {
    if |cs| > 0 {
      CountAbove(cs[..|cs| - 1], k);
    }
  }

  // No code is longer than that of the pseudo-symbol, so that is the one given up.
  lemma PseudoGivenUp(cs: seq<nat>, bits: seq<int>, i: nat, k: nat)
    requires |cs| == SYMBOLS && |bits| == MAX_CLEN + 1 && 1 <= i <= 16 && 1 <= k <= 16
    requires forall s :: 0 <= s < SYMBOLS ==> cs[s] <= cs[256] <= 16
    requires cs[256] > 0 && forall j :: 1 <= j <= MAX_CLEN ==> bits[j] == CountOf(cs, j)
    requires bits[i] > 0 && forall j :: i < j <= 16 ==> bits[j] == 0
    ensures i == cs[256]
    ensures bits[i := bits[i] - 1][k] == CountOf(cs[..256], k)
  {
    assert cs[..|cs| - 1] == cs[..256];
    assert CountOf(cs, cs[256]) > 0;
    if i > cs[256] {
      CountAbove(cs, i);
    }
  }

  lemma {:induction false} TotalIsListed(cs: seq<nat>, tableBits: seq<Byte>, l: nat)
    requires |cs| == SYMBOLS && |tableBits| == 17 && l <= 16
    requires forall k :: 1 <= k <= 16 ==> tableBits[k] == CountOf(cs[..256], k)
    ensures Total(tableBits, l) == |Listed(cs, l)|
  {
    if l > 0 {
      TotalIsListed(cs, tableBits, l - 1);
      SymbolsOfLength(cs, 256, l);
    }
  }

  lemma {:induction false} ListedPrefix(cs: seq<nat>, l: nat, m: nat)
    requires |cs| == SYMBOLS && l <= m
    ensures Listed(cs, l) <= Listed(cs, m)
  {
    if l < m {
      ListedPrefix(cs, l, m - 1);
    }
  }

  // Then every symbol gets a code of its own size.
  lemma LengthIsSize(cs: seq<nat>, tableBits: seq<Byte>, huffval: seq<Byte>, p: nat, l: nat)
    requires |cs| == SYMBOLS && |tableBits| == 17
    requires forall k :: 1 <= k <= 16 ==> tableBits[k] == CountOf(cs[..256], k)
    requires |Listed(cs, MAX_CLEN)| <= |huffval| && huffval[..|Listed(cs, MAX_CLEN)|] == Listed(cs, MAX_CLEN)
    requires HasLength(tableBits, p, l)
    ensures p < |huffval| && cs[huffval[p]] == l
  {
    hide CountOf, SymbolsOf;
    TotalIsListed(cs, tableBits, l - 1);
    TotalIsListed(cs, tableBits, l);
    ListedPrefix(cs, l, MAX_CLEN);
    var a, b := Listed(cs, l - 1), SymbolsOf(cs, 256, l);
    assert Listed(cs, l) == a + b;
    assert huffval[p] == Listed(cs, MAX_CLEN)[p] == b[p - |a|];
    assert b[p - |a|] in b;
  }

  // Every listed symbol has a code of its size.
  ghost predicate KeepsSizes(tableBits: seq<Byte>, huffval: seq<Byte>, cs: seq<nat>)
    requires |huffval| == 256 && |cs| == SYMBOLS
  {
    forall p, l :: 0 <= p < 256 && HasLength(tableBits, p, l) ==> cs[huffval[p]] == l
  }

  ghost predicate NoLonger(cs: seq<nat>, limit: nat) {
    forall s :: 0 <= s < |cs| ==> cs[s] <= limit
  }

  // When no code has more than 16 bits, the counts of lengths stay what they are.
  lemma CountsKept(cs: seq<nat>, counted: seq<int>, limited: seq<int>)
    requires |cs| == SYMBOLS && Counted(counted, cs) && NoLonger(cs, 16)
    requires (forall k :: 16 < k <= MAX_CLEN ==> counted[k] == 0) ==> limited == counted
    ensures limited == counted
  {
    forall k | 16 < k <= MAX_CLEN
      ensures counted[k] == 0
    {
      CountAbove(cs, k);
    }
  }

  lemma GivenUp(cs: seq<nat>, bits: seq<int>, i: nat, fewer: seq<int>)
    requires |cs| == SYMBOLS && Counted(bits, cs) && 1 <= i <= 16
    requires NoLonger(cs, 16) && NoLonger(cs, cs[256]) && cs[256] > 0
    requires bits[i] > 0 && forall j :: i < j <= 16 ==> bits[j] == 0
    requires fewer == bits[i := bits[i] - 1]
    ensures GivesUp(cs, fewer)
  {
    hide CountOf, Sum, Horner, Contributions, Used;
    forall k | 1 <= k <= 16
      ensures fewer[k] == CountOf(cs[..256], k)
    {
      PseudoGivenUp(cs, bits, i, k);
    }
  }

  lemma SizesKept(cs: seq<nat>, bits: seq<int>, tableBits: seq<Byte>, huffval: seq<Byte>)
    requires |cs| == SYMBOLS && |huffval| == 256 && |bits| == MAX_CLEN + 1 && GivesUp(cs, bits)
    requires tableBits == bits[..17]
    requires |Listed(cs, MAX_CLEN)| <= 256 && huffval[..|Listed(cs, MAX_CLEN)|] == Listed(cs, MAX_CLEN)
    ensures KeepsSizes(tableBits, huffval, cs)
  {
    hide CountOf, Listed, HasLength;
    forall p, l | 0 <= p < 256 && HasLength(tableBits, p, l)
      ensures cs[huffval[p]] == l
    {
      LengthTable(tableBits, p, l);
      LengthIsSize(cs, tableBits, huffval, p, l);
    }
  }

  lemma LengthTable(tableBits: seq<Byte>, p: nat, l: nat)
    requires HasLength(tableBits, p, l)
    ensures |tableBits| == 17
  {
  }

  // The number of codes of each length: counted, limited to 16 bits, and without the code of
  // the pseudo-symbol.
  method MakeBits(codesize: array<nat>, ghost f0: seq<nat>) returns (ok: bool, bits: array<int>)
    requires codesize.Length == SYMBOLS && CompleteCode(f0, codesize[..]) && Used(codesize[..]) <= 255
    requires NoLonger(codesize[..], codesize[256]) && codesize[256] > 0
    ensures ok <==> NoLonger(codesize[..], MAX_CLEN)
    ensures fresh(bits) && bits.Length == MAX_CLEN + 1
    ensures ok ==> bits[0] == 0 && forall k :: 0 <= k <= MAX_CLEN ==> 0 <= bits[k] <= 255
    ensures ok ==> forall k :: 17 <= k <= MAX_CLEN ==> bits[k] == 0
    ensures ok ==> Horner(bits[..], 16) < Pow2(16) && Sum(bits[..]) == Used(codesize[..]) - 1
    ensures ok && NoLonger(codesize[..], 16) ==> GivesUp(codesize[..], bits[..])
  {
    hide FullUpTo, Counted, CompleteCode, Used, Sum, Horner, Pow2, GivesUp;
    ghost var cs := codesize[..];
    bits := new int[MAX_CLEN + 1](_ => 0);
    ok := CountLengths(codesize, bits);
    if ok {
      CountedIsFull(f0, cs, bits[..]);
      ghost var counted := bits[..];
      LimitLengths(bits);
      ghost var limited := bits[..];
      FullInBytes(bits[..], 16);
      RemovePseudo(bits);
      ghost var i: nat :| 1 <= i <= 16 && limited[i] > 0 && bits[..] == limited[i := limited[i] - 1]
                          && forall k :: i < k <= 16 ==> limited[k] == 0;
      if NoLonger(cs, 16) {
        CountsKept(cs, counted, limited);
        GivenUp(cs, counted, i, bits[..]);
      }
    }
  }

  // Every length keeps its real symbols; only the pseudo-symbol is gone.
  ghost predicate GivesUp(cs: seq<nat>, bits: seq<int>)
    requires |cs| == SYMBOLS && |bits| == MAX_CLEN + 1
  {
    forall k :: 1 <= k <= 16 ==> bits[k] == CountOf(cs[..256], k)
  }

  // From code sizes to the finished table.
  method FinishTable(codesize: array<nat>, tableBits: array<Byte>, huffval: array<Byte>, ghost f0: seq<nat>)
      returns (ok: bool)
    requires codesize.Length == SYMBOLS && tableBits.Length == 17 && huffval.Length == 256
    requires tableBits != huffval
    requires codesize as object != tableBits as object && codesize as object != huffval as object
    requires CompleteCode(f0, codesize[..]) && codesize[256] > 0 && Used(codesize[..]) <= 255
    requires NoLonger(codesize[..], codesize[256])
    modifies tableBits, huffval
    ensures ok <==> NoLonger(codesize[..], MAX_CLEN)
    ensures ok && NoLonger(codesize[..], 16) ==> KeepsSizes(tableBits[..], huffval[..], codesize[..])
    ensures ok ==> LegalTable(tableBits[..], huffval[..])
    ensures ok ==> ListedSymbols(tableBits[..], huffval[..]) == Listed(codesize[..], MAX_CLEN)
  {
    hide CompleteCode, Listed, Used, Sum, Horner, Pow2, KeepsSizes, GivesUp;
    ghost var cs := codesize[..];
    var bits;
    ok, bits := MakeBits(codesize, f0);
    if ok {
      ghost var b := bits[..];
      for k := 0 to 17
        invariant bits[..] == b && tableBits[..k] == b[..k]
      {
        tableBits[k] := bits[k];
      }
      assert tableBits[..] == b[..17];
      ListedIsUsed(cs);
      var p := ListSymbols(codesize, huffval);
      TableIsLegal(b, cs, tableBits[..], huffval[..]);
      if NoLonger(cs, 16) {
        SizesKept(cs, b, tableBits[..], huffval[..]);
      }
    }
  }

  // Codewords of more than 32 bits need a great many symbols.
  lemma ShortEnough(f0: seq<nat>, cs: seq<nat>)
    requires |cs| == SYMBOLS && forall s :: 0 <= s < SYMBOLS ==> cs[s] == 0 || Sum(f0) >= LeastWeight(cs[s])
    ensures Sum(f0) < LeastWeight(MAX_CLEN + 1) ==> NoLonger(cs, MAX_CLEN)
  {
    hide Sum, LeastWeight;
    forall s | 0 <= s < SYMBOLS && cs[s] > MAX_CLEN
      ensures Sum(f0) >= LeastWeight(MAX_CLEN + 1)
    {
      LeastWeightGrows(MAX_CLEN + 1, cs[s]);
    }
  }

  // How many that are.
  lemma ManySymbols()
    ensures LeastWeight(MAX_CLEN + 1) == 9_227_465
  {
    assert LeastWeight(6) == 21 && LeastWeight(7) == 34;
    assert LeastWeight(11) == 233 && LeastWeight(12) == 377;
    assert LeastWeight(16) == 2_584 && LeastWeight(17) == 4_181;
    assert LeastWeight(21) == 28_657 && LeastWeight(22) == 46_368;
    assert LeastWeight(26) == 317_811 && LeastWeight(27) == 514_229;
    assert LeastWeight(31) == 3_524_578 && LeastWeight(32) == 5_702_887;
  }

  // No code for these counts has more than 32 bits.
  ghost predicate ShortCodes(f: seq<nat>)
    requires |f| == SYMBOLS
  {
    NoLonger(CodeSizes(WithPseudo(f)), MAX_CLEN)
  }

  // jpeg_gen_optimal_table. It fails exactly if Huffman's algorithm needs more than 32 bits
  // for some symbol. Otherwise the table is legal, holds exactly the symbols counted, and
  // lists them by increasing length in a code of least possible cost for the counts; if no
  // code has more than 16 bits, the table has these very lengths.
  method GenOptimalTable(freq: array<nat>, tableBits: array<Byte>, huffval: array<Byte>)
      returns (ok: bool, ghost cs: seq<nat>)
    requires freq.Length == SYMBOLS && tableBits.Length == 17 && huffval.Length == 256
    requires tableBits != huffval && freq as object != tableBits as object && freq as object != huffval as object
    requires GoodCounts(freq[..])
    modifies freq, tableBits, huffval
    ensures cs == CodeSizes(WithPseudo(old(freq[..]))) && CompleteCode(WithPseudo(old(freq[..])), cs)
    ensures forall l :: IsCode(WithPseudo(old(freq[..])), l)
              ==> Cost(WithPseudo(old(freq[..])), cs) <= Cost(WithPseudo(old(freq[..])), l)
    ensures ok <==> ShortCodes(old(freq[..]))
    ensures Sum(WithPseudo(old(freq[..]))) < LeastWeight(MAX_CLEN + 1) ==> ok
    ensures ok ==> LegalTable(tableBits[..], huffval[..])
    ensures ok ==> ListedSymbols(tableBits[..], huffval[..]) == Listed(cs, MAX_CLEN)
    ensures ok ==> forall s: Byte :: s in ListedSymbols(tableBits[..], huffval[..]) <==> old(freq[..])[s] > 0
    ensures ok && NoLonger(cs, 16) ==> KeepsSizes(tableBits[..], huffval[..], cs)
  {
    hide CompleteCode, IsCode, LegalTable, Used, Sum, Positives, MergeCost, Cost, SymbolsOf, LeastWeight, CodeSizes,
         KeepsSizes;
    var codesize, others := new nat[SYMBOLS](_ => 0), new int[SYMBOLS](_ => -1);
    freq[256] := 1;
    ghost var f0 := freq[..];
    assert f0 == WithPseudo(old(freq[..]));
    assert f0[..256] == old(freq[..])[..256];
    ghost var s :| 0 <= s < 256 && f0[s] > 0 && f0[256] > 0;
    BuildTree(freq, codesize, others);
    cs := codesize[..];
    CompleteFacts(f0, cs);
    MergingIsOptimal(f0, cs);
    ShortEnough(f0, cs);
    ok := FinishTable(codesize, tableBits, huffval, f0);
  }
}
