// Canonical Huffman tables: what makes a BITS/HUFFVAL pair legal, the codes it assigns
// (Annex C of ITU-T T.81), and the derived tables of the encoder and the decoder.

module HuffmanTables {
  import opened CodeBits

  predicate Distinct(s: seq<Byte>) {
    forall i, j :: 0 <= i < j < |s| ==> s[i] != s[j]
  }

  // Number of symbols with codes of at most l bits.
  function Total(bits: seq<Byte>, l: nat): nat
    requires l < |bits|
  {
    if l == 0 then 0 else Total(bits, l - 1) + bits[l]
  }

  // The value that follows the last code of length l.
  function NextCode(bits: seq<Byte>, l: nat): nat
    requires l < |bits|
  {
    if l == 0 then 0 else 2 * NextCode(bits, l - 1) + bits[l]
  }

  // Symbol number p has a code of length l.
  predicate HasLength(bits: seq<Byte>, p: nat, l: nat) {
    && |bits| == 17
    && 1 <= l <= 16
    && Total(bits, l - 1) <= p < Total(bits, l)
  }

  // The code of symbol number p.
  function CodeOf(bits: seq<Byte>, p: nat, l: nat): (code: nat)
    requires HasLength(bits, p, l)
    ensures 2 * NextCode(bits, l - 1) <= code < NextCode(bits, l)
  {
    2 * NextCode(bits, l - 1) + (p - Total(bits, l - 1))
  }

  // No code of any length is all ones, so that the codes fit.
  ghost predicate CodesFit(bits: seq<Byte>) {
    |bits| == 17 && forall l :: 0 <= l <= 16 ==> NextCode(bits, l) < Pow2(l)
  }

  // The symbols of a table, in order of increasing code.
  function ListedSymbols(bits: seq<Byte>, huffval: seq<Byte>): seq<Byte>
    requires |bits| == 17 && Total(bits, 16) <= |huffval|
  {
    huffval[..Total(bits, 16)]
  }

  // What the decoder checks of a table, apart from the symbol range of DC tables.
  ghost predicate CountsLegal(bits: seq<Byte>, huffval: seq<Byte>) {
    && |bits| == 17 && |huffval| == 256
    && Total(bits, 16) <= 256
    && CodesFit(bits)
  }

  // What the encoder checks in addition: no symbol twice.
  ghost predicate LegalTable(bits: seq<Byte>, huffval: seq<Byte>) {
    CountsLegal(bits, huffval) && Distinct(ListedSymbols(bits, huffval))
  }

  predicate SymbolsBelow(s: seq<Byte>, limit: int) {
    forall i :: 0 <= i < |s| ==> s[i] <= limit
  }

  function MaxSymbol(isDC: bool): int { if isDC then 15 else 255 }

  // ----- Facts about the canonical code -----

  lemma {:induction false} TotalMonotone(bits: seq<Byte>, k: nat, l: nat)
    requires k <= l < |bits|
    ensures Total(bits, k) <= Total(bits, l)
  {
    if k < l {
      TotalMonotone(bits, k, l - 1);
    }
  }

  lemma {:induction false} NextCodeMonotone(bits: seq<Byte>, k: nat, l: nat)
    requires k <= l < |bits|
    ensures NextCode(bits, k) * Pow2(l - k) <= NextCode(bits, l)
  {
    if k < l {
      NextCodeMonotone(bits, k, l - 1);
      MulTwice(NextCode(bits, k), Pow2(l - 1 - k));
    }
  }

  lemma {:induction false} LengthExists(bits: seq<Byte>, p: nat, l: nat) returns (k: nat)
    requires |bits| == 17 && l <= 16 && p < Total(bits, l)
    ensures HasLength(bits, p, k) && k <= l
  {
    if p < Total(bits, l - 1) {
      k := LengthExists(bits, p, l - 1);
    } else {
      k := l;
    }
  }

  lemma LengthUnique(bits: seq<Byte>, p: nat, k: nat, l: nat)
    requires HasLength(bits, p, k) && HasLength(bits, p, l)
    ensures k == l
  {
    if k < l {
      TotalMonotone(bits, k, l - 1);
    } else if l < k {
      TotalMonotone(bits, l, k - 1);
    }
  }

  // A code is above every shorter code's range: its leading k bits are at least NextCode(k).
  lemma LeadingBits(bits: seq<Byte>, p: nat, l: nat, k: nat)
    requires HasLength(bits, p, l) && k < l
    ensures CodeOf(bits, p, l) / Pow2(l - k) >= NextCode(bits, k)
  {
    hide NextCode;
    NextCodeMonotone(bits, k, l - 1);
    NextCodeMonotone(bits, l - 1, l);
    MulTwice(NextCode(bits, k), Pow2(l - 1 - k));
    QuotientAtLeast(CodeOf(bits, p, l), Pow2(l - k), NextCode(bits, k));
  }

  lemma QuotientAtLeast(n: nat, w: nat, q: nat)
    requires w > 0 && n >= q * w
    ensures n / w >= q
  {
    assert n == (n / w) * w + n % w;
    if n / w < q {
      MulMonotone(n / w + 1, q, w);
    }
  }

  // The codes of a table are prefix-free: a symbol's code is not the beginning of the code
  // of a later symbol.
  lemma CodesArePrefixFree(bits: seq<Byte>, p: nat, k: nat, q: nat, l: nat)
    requires HasLength(bits, p, k) && HasLength(bits, q, l) && p < q
    ensures k <= l && CodeOf(bits, q, l) / Pow2(l - k) != CodeOf(bits, p, k)
  {
    hide NextCode;
    if l < k {
      TotalMonotone(bits, l, k - 1);
    } else if k < l {
      LeadingBits(bits, q, l, k);
    }
  }

  // ----- Building the tables -----

  // Code lengths in order of the symbols (figure C.1).
  function Sizes(bits: seq<Byte>, l: nat): (s: seq<nat>)
    requires l < |bits|
    ensures |s| == Total(bits, l)
  {
    if l == 0 then [] else Sizes(bits, l - 1) + seq(bits[l], _ => l)
  }

  lemma {:induction false} SizesAt(bits: seq<Byte>, p: nat, k: nat, l: nat)
    requires HasLength(bits, p, k) && k <= l <= 16
    ensures p < Total(bits, l) && Sizes(bits, l)[p] == k
  {
    TotalMonotone(bits, k, l);
    if k < l {
      TotalMonotone(bits, k, l - 1);
      SizesAt(bits, p, k, l - 1);
    }
  }

  // Figure C.1: make table of Huffman code length for each symbol.
  method MakeSizes(bits: seq<Byte>) returns (ok: bool, huffsize: seq<nat>)
    requires |bits| == 17
    ensures ok <==> Total(bits, 16) <= 256
    ensures ok ==> huffsize == Sizes(bits, 16)
  {
    huffsize := [];
    for l := 1 to 17
      invariant huffsize == Sizes(bits, l - 1) && |huffsize| <= 256
    {
      var i := bits[l];
      if |huffsize| + i > 256 {
        TotalMonotone(bits, l, 16);
        return false, [];
      }
      ghost var before := huffsize;
      while i > 0
        invariant 0 <= i <= bits[l] && huffsize == before + seq(bits[l] - i, _ => l)
      {
        huffsize := huffsize + [l];
        i := i - 1;
      }
    }
    ok := true;
  }

  // Position p of the length list holds l exactly when symbol p has length l.
  lemma SizeIsLength(bits: seq<Byte>, p: nat, l: nat)
    requires |bits| == 17 && p < Total(bits, 16)
    ensures Sizes(bits, 16)[p] == l <==> HasLength(bits, p, l)
  {
    var k := LengthExists(bits, p, 16);
    SizesAt(bits, p, k, 16);
    if HasLength(bits, p, l) {
      LengthUnique(bits, p, k, l);
    }
  }

  // Without symbols of length up to l, no code space is used up to l.
  lemma {:induction false} ZeroTotal(bits: seq<Byte>, l: nat)
    requires l < |bits| && Total(bits, l) == 0
    ensures NextCode(bits, l) == 0
  {
    if l > 0 {
      ZeroTotal(bits, l - 1);
    }
  }

  // Lengths without symbols add no constraint.
  lemma {:induction false} RestFits(bits: seq<Byte>, l: nat, m: nat)
    requires |bits| == 17 && l <= m <= 16 && Total(bits, l) == Total(bits, 16)
    requires forall k :: 0 <= k <= l ==> NextCode(bits, k) < Pow2(k)
    ensures forall k :: 0 <= k <= m ==> NextCode(bits, k) < Pow2(k)
  {
    if l < m {
      RestFits(bits, l, m - 1);
      TotalMonotone(bits, l, m - 1);
      TotalMonotone(bits, m - 1, m);
      TotalMonotone(bits, m, 16);
      assert bits[m] == 0;
    }
  }

  lemma FirstLength(bits: seq<Byte>) returns (l: nat)
    requires |bits| == 17 && Total(bits, 16) > 0
    ensures Sizes(bits, 16)[0] == l && 1 <= l <= 16
    ensures Total(bits, l - 1) == 0 && forall k :: 0 <= k < l ==> NextCode(bits, k) == 0
  {
    l := LengthExists(bits, 0, 16);
    SizeIsLength(bits, 0, l);
    forall k | 0 <= k < l
      ensures NextCode(bits, k) == 0
    {
      TotalMonotone(bits, k, l - 1);
      ZeroTotal(bits, k);
    }
  }

  // The codes of the first p symbols.
  ghost predicate CodesSoFar(bits: seq<Byte>, huffcode: seq<nat>) {
    && |bits| == 17
    && forall p, l :: 0 <= p < |huffcode| && HasLength(bits, p, l) ==> huffcode[p] == CodeOf(bits, p, l)
  }

  lemma PushCode(bits: seq<Byte>, huffcode: seq<nat>, l: nat)
    requires CodesSoFar(bits, huffcode) && HasLength(bits, |huffcode|, l)
    ensures CodesSoFar(bits, huffcode + [CodeOf(bits, |huffcode|, l)])
  {
    hide HasLength, CodeOf;
    var c := huffcode + [CodeOf(bits, |huffcode|, l)];
    forall p, k | 0 <= p < |c| && HasLength(bits, p, k)
      ensures c[p] == CodeOf(bits, p, k)
    {
      if p == |huffcode| {
        LengthUnique(bits, p, k, l);
      }
    }
  }

  // Figure C.2: generate the codes themselves, and check that they fit.
  method MakeCodes(bits: seq<Byte>, huffsize: seq<nat>) returns (ok: bool, huffcode: seq<nat>)
    requires |bits| == 17 && huffsize == Sizes(bits, 16)
    ensures ok <==> CodesFit(bits)
    ensures ok ==> |huffcode| == Total(bits, 16) && CodesSoFar(bits, huffcode)
  {
    hide Sizes, CodesSoFar, Pow2;
    huffcode := [];
    assert CodesSoFar(bits, huffcode) by { NoCodes(bits); }
    Pow2Constants();
    ghost var total := Total(bits, 16);
    if huffsize == [] {
      RestFits(bits, 0, 16);
      return true, [];
    }
    var code, si := 0, huffsize[0];
    var _ := FirstLength(bits);
    assert forall l :: 0 <= l < si ==> NextCode(bits, l) < Pow2(l);
    while |huffcode| < |huffsize|
      invariant 1 <= si <= 17
      invariant |huffcode| == Total(bits, si - 1) <= total && code == 2 * NextCode(bits, si - 1)
      invariant CodesSoFar(bits, huffcode)
      invariant forall l :: 0 <= l < si ==> NextCode(bits, l) < Pow2(l)
      decreases 17 - si
    {
      TotalMonotone(bits, si, 16);
      while |huffcode| < |huffsize| && huffsize[|huffcode|] == si
        invariant Total(bits, si - 1) <= |huffcode| <= Total(bits, si)
        invariant code == 2 * NextCode(bits, si - 1) + (|huffcode| - Total(bits, si - 1))
        invariant CodesSoFar(bits, huffcode)
        decreases |huffsize| - |huffcode|
      {
        SizeIsLength(bits, |huffcode|, si);
        PushCode(bits, huffcode, si);
        huffcode := huffcode + [code];
        code := code + 1;
      }
      if |huffcode| < |huffsize| {
        SizeIsLength(bits, |huffcode|, si);
      }
      if code >= Pow2(si) {
        return false, [];
      }
      code := 2 * code;
      si := si + 1;
    }
    RestFits(bits, si - 1, 16);
    ok := true;
  }

  lemma NoCodes(bits: seq<Byte>)
    requires |bits| == 17
    ensures CodesSoFar(bits, [])
  {
  }

  // ----- The encoder's derived table -----

  // Code and length of each symbol; length 0 for a symbol without a code.
  datatype CDerived = CDerived(ehufco: seq<nat>, ehufsi: seq<nat>)

  ghost predicate EncodesTable(t: CDerived, bits: seq<Byte>, huffval: seq<Byte>, n: nat) {
    && |t.ehufco| == |t.ehufsi| == 256
    && |bits| == 17 && |huffval| == 256 && n <= 256
    && (forall p, l :: 0 <= p < n && HasLength(bits, p, l) ==>
          t.ehufsi[huffval[p]] == l && t.ehufco[huffval[p]] == CodeOf(bits, p, l))
    && (forall s: Byte :: t.ehufsi[s] != 0 <==> s in huffval[..n])
  }

  lemma AddSymbol(t: CDerived, bits: seq<Byte>, huffval: seq<Byte>, n: nat, l: nat)
    requires EncodesTable(t, bits, huffval, n) && n < 256 && HasLength(bits, n, l)
    requires t.ehufsi[huffval[n]] == 0 && huffval[n] !in huffval[..n]
    ensures EncodesTable(CDerived(t.ehufco[huffval[n] := CodeOf(bits, n, l)], t.ehufsi[huffval[n] := l]),
                         bits, huffval, n + 1)
  {
    hide CodeOf;
    var i := huffval[n];
    var u := CDerived(t.ehufco[i := CodeOf(bits, n, l)], t.ehufsi[i := l]);
    assert huffval[..n + 1] == huffval[..n] + [i];
    forall p, k | 0 <= p < n + 1 && HasLength(bits, p, k)
      ensures u.ehufsi[huffval[p]] == k && u.ehufco[huffval[p]] == CodeOf(bits, p, k)
    {
      if p == n {
        LengthUnique(bits, n, k, l);
      } else {
        assert huffval[p] in huffval[..n];
      }
    }
  }

  // jpeg_make_c_derived_tbl: succeeds exactly on legal tables with symbols in range, and
  // then gives every listed symbol its canonical code.
  method MakeCDerivedTbl(isDC: bool, bits: seq<Byte>, huffval: seq<Byte>) returns (ok: bool, t: CDerived)
    requires |bits| == 17 && |huffval| == 256
    ensures ok <==> LegalTable(bits, huffval) && SymbolsBelow(ListedSymbols(bits, huffval), MaxSymbol(isDC))
    ensures ok ==> EncodesTable(t, bits, huffval, Total(bits, 16))
  {
    hide EncodesTable, CodesFit, Sizes, CodesSoFar, HasLength;
    var zeros: seq<nat> := seq(256, _ => 0);
    t := CDerived(zeros, zeros);
    var sized, huffsize := MakeSizes(bits);
    if !sized {
      return false, t;
    }
    var coded, huffcode := MakeCodes(bits, huffsize);
    if !coded {
      return false, t;
    }
    NothingEncoded(t, bits, huffval);
    ghost var listed := ListedSymbols(bits, huffval);
    for p := 0 to |huffsize|
      invariant EncodesTable(t, bits, huffval, p)
      invariant Distinct(listed[..p]) && SymbolsBelow(listed[..p], MaxSymbol(isDC))
    {
      ghost var l := LengthExists(bits, p, 16);
      SizesAt(bits, p, l, 16);
      var i := huffval[p];
      EncodedSizes(t, bits, huffval, p, i);
      assert listed[..p] == huffval[..p] && listed[..p + 1] == listed[..p] + [i];
      if i > MaxSymbol(isDC) || t.ehufsi[i] != 0 {
        assert listed[p] == i;
        return false, t;
      }
      CodeIs(bits, huffcode, p, l);
      AddSymbol(t, bits, huffval, p, l);
      t := CDerived(t.ehufco[i := huffcode[p]], t.ehufsi[i := huffsize[p]]);
    }
    assert listed[..|huffsize|] == listed;
    ok := true;
  }

  lemma CodeIs(bits: seq<Byte>, huffcode: seq<nat>, p: nat, l: nat)
    requires CodesSoFar(bits, huffcode) && p < |huffcode| && HasLength(bits, p, l)
    ensures huffcode[p] == CodeOf(bits, p, l)
  {
  }

  lemma NothingEncoded(t: CDerived, bits: seq<Byte>, huffval: seq<Byte>)
    requires |bits| == 17 && |huffval| == 256 && |t.ehufco| == |t.ehufsi| == 256
    requires forall i :: 0 <= i < 256 ==> t.ehufsi[i] == 0
    ensures EncodesTable(t, bits, huffval, 0)
  {
  }

  lemma EncodedSizes(t: CDerived, bits: seq<Byte>, huffval: seq<Byte>, n: nat, s: Byte)
    requires EncodesTable(t, bits, huffval, n)
    ensures |t.ehufco| == |t.ehufsi| == 256 && (t.ehufsi[s] != 0 <==> s in huffval[..n])
  {
  }

  // ----- The decoder's derived table -----

  // Largest code of each length (-1 if none) and offset from code to symbol number, with
  // the lookahead tables for codes of at most 8 bits.
  datatype DDerived = DDerived(maxcode: seq<int>, valoffset: seq<int>, lookNbits: seq<nat>, lookSym: seq<Byte>)

  const HUFF_LOOKAHEAD := 8
  const TERMINATOR := 0xFFFFF

  ghost predicate DecodesTable(t: DDerived, bits: seq<Byte>) {
    && |t.maxcode| == 18 && |t.valoffset| == 17 && |bits| == 17
    && (forall l :: 1 <= l <= 16 ==>
          && t.maxcode[l] == (if bits[l] > 0 then NextCode(bits, l) - 1 else -1)
          && (bits[l] > 0 ==> t.valoffset[l] == Total(bits, l - 1) - 2 * NextCode(bits, l - 1)))
    && t.maxcode[17] == TERMINATOR
  }

  // Symbol number of a code of length l.
  function SymbolNumber(bits: seq<Byte>, code: int, l: nat): int
    requires |bits| == 17 && 1 <= l <= 16
  {
    code - 2 * NextCode(bits, l - 1) + Total(bits, l - 1)
  }

  // Length of the code that an 8-bit pattern starts with, or 0 if it is longer than 8 bits;
  // codes of fewer than l bits have been ruled out.
  function LookLength(bits: seq<Byte>, pattern: nat, l: nat): (n: nat)
    requires |bits| == 17 && 1 <= l <= 9
    ensures n == 0 || l <= n <= 8
    decreases 9 - l
  {
    if l == 9 then 0
    else if pattern / Pow2(8 - l) < NextCode(bits, l) then l
    else LookLength(bits, pattern, l + 1)
  }

  // A lookahead entry: length and symbol of the code that the pattern starts with.
  ghost predicate LookEntry(bits: seq<Byte>, huffval: seq<Byte>, pattern: nat, nbits: nat, sym: Byte)
    requires |bits| == 17
  {
    && nbits == LookLength(bits, pattern, 1)
    && (nbits > 0 ==>
          var p := SymbolNumber(bits, pattern / Pow2(8 - nbits), nbits);
          0 <= p < |huffval| && sym == huffval[p])
  }

  lemma {:induction false} LookLengthIs(bits: seq<Byte>, pattern: nat, m: nat, l: nat)
    requires |bits| == 17 && 1 <= m <= l <= 9
    requires forall k :: m <= k < l ==> pattern / Pow2(8 - k) >= NextCode(bits, k)
    requires l < 9 ==> pattern / Pow2(8 - l) < NextCode(bits, l)
    ensures LookLength(bits, pattern, m) == if l < 9 then l else 0
    decreases l - m
  {
    hide NextCode, Pow2;
    if m < l {
      LookLengthIs(bits, pattern, m + 1, l);
    }
  }

  // Patterns at or above the frontier of length l start with no code of that length or less.
  lemma AboveFrontier(bits: seq<Byte>, pattern: nat, l: nat)
    requires |bits| == 17 && l <= 8 && pattern >= NextCode(bits, l) * Pow2(8 - l)
    ensures forall k :: 1 <= k <= l ==> pattern / Pow2(8 - k) >= NextCode(bits, k)
  {
    hide NextCode, Pow2;
    forall k | 1 <= k <= l
      ensures pattern / Pow2(8 - k) >= NextCode(bits, k)
    {
      NextCodeMonotone(bits, k, l);
      Pow2Add(l - k, 8 - l);
      MulMonotone(NextCode(bits, k) * Pow2(l - k), NextCode(bits, l), Pow2(8 - l));
      Reassociate(NextCode(bits, k), Pow2(l - k), Pow2(8 - l));
      QuotientAtLeast(pattern, Pow2(8 - k), NextCode(bits, k));
    }
  }

  lemma Reassociate(x: int, y: int, z: int)
    ensures (x * y) * z == x * (y * z)
  {
  }

  // All patterns that start with the code of symbol p.
  lemma EntryOfCode(bits: seq<Byte>, huffval: seq<Byte>, p: nat, l: nat, pattern: nat)
    requires HasLength(bits, p, l) && l <= 8 && p < |huffval|
    requires CodeOf(bits, p, l) * Pow2(8 - l) <= pattern < (CodeOf(bits, p, l) + 1) * Pow2(8 - l)
    ensures LookEntry(bits, huffval, pattern, l, huffval[p])
  {
    hide NextCode, Total, Pow2, LookLength;
    var c, w := CodeOf(bits, p, l), Pow2(8 - l);
    assert (c + 1) * w == c * w + w;
    DivideExactly(c, w, pattern - c * w);
    assert pattern / w == c;
    assert NextCode(bits, l - 1) * Pow2(9 - l) <= pattern by {
      MulTwice(NextCode(bits, l - 1), w);
      Doubled(8 - l);
      MulMonotone(2 * NextCode(bits, l - 1), c, w);
      Reassociate(2, NextCode(bits, l - 1), w);
    }
    AboveFrontier(bits, pattern, l - 1);
    LookLengthIs(bits, pattern, 1, l);
  }

  lemma Doubled(k: nat)
    ensures Pow2(k + 1) == 2 * Pow2(k)
  {
  }

  ghost predicate LookFilled(bits: seq<Byte>, huffval: seq<Byte>, nbits: seq<nat>, sym: seq<Byte>, frontier: nat) {
    && |nbits| == |sym| == 256 && |bits| == 17
    && (forall v :: 0 <= v < frontier && v < 256 ==> LookEntry(bits, huffval, v, nbits[v], sym[v]))
    && (forall v :: frontier <= v < 256 ==> nbits[v] == 0)
  }

  // Compute lookahead tables: fill in all the entries that start with a short enough code.
  method FillLookahead(bits: seq<Byte>, huffval: seq<Byte>, huffcode: seq<nat>)
      returns (nbits: seq<nat>, sym: seq<Byte>)
    requires CountsLegal(bits, huffval) && |huffcode| == Total(bits, 16) && CodesSoFar(bits, huffcode)
    ensures |nbits| == |sym| == 256
    ensures forall v :: 0 <= v < 256 ==> LookEntry(bits, huffval, v, nbits[v], sym[v])
  {
    hide LookEntry, NextCode, Total, Pow2, CodesSoFar, CodeOf, HasLength;
    var lookNbits, lookSym := new nat[256](_ => 0), new Byte[256](_ => 0);
    var p := 0;
    FrontierStart(bits);
    for l := 1 to 9
      invariant p == Total(bits, l - 1)
      invariant LookFilled(bits, huffval, lookNbits[..], lookSym[..], NextCode(bits, l - 1) * Pow2(9 - l))
    {
      p := FillLength(bits, huffval, huffcode, lookNbits, lookSym, l, p);
    }
    nbits, sym := lookNbits[..], lookSym[..];
    forall v | 0 <= v < 256
      ensures LookEntry(bits, huffval, v, nbits[v], sym[v])
    {
      FrontierEnd(bits, huffval, nbits, sym, v);
    }
  }

  lemma FrontierStart(bits: seq<Byte>)
    requires |bits| == 17
    ensures Total(bits, 0) == 0 && NextCode(bits, 0) * Pow2(8) == 0
  {
  }

  lemma FrontierEnd(bits: seq<Byte>, huffval: seq<Byte>, nbits: seq<nat>, sym: seq<Byte>, v: nat)
    requires |bits| == 17 && v < 256
    requires LookFilled(bits, huffval, nbits, sym, NextCode(bits, 8) * Pow2(0))
    ensures LookEntry(bits, huffval, v, nbits[v], sym[v])
  {
    hide NextCode;
    if v >= NextCode(bits, 8) {
      AboveFrontier(bits, v, 8);
      LookLengthIs(bits, v, 1, 9);
    }
  }

  // The entries for all codes of length l.
  method FillLength(bits: seq<Byte>, huffval: seq<Byte>, huffcode: seq<nat>,
                    lookNbits: array<nat>, lookSym: array<Byte>, l: nat, start: nat) returns (p: nat)
    requires CountsLegal(bits, huffval) && |huffcode| == Total(bits, 16) && CodesSoFar(bits, huffcode)
    requires 1 <= l <= 8 && start == Total(bits, l - 1)
    requires lookNbits.Length == lookSym.Length == 256 && lookNbits as object != lookSym as object
    requires LookFilled(bits, huffval, lookNbits[..], lookSym[..], NextCode(bits, l - 1) * Pow2(9 - l))
    modifies lookNbits, lookSym
    ensures p == Total(bits, l)
    ensures LookFilled(bits, huffval, lookNbits[..], lookSym[..], NextCode(bits, l) * Pow2(8 - l))
  {
    hide LookFilled, NextCode, Total, Pow2, CodesSoFar;
    var count: nat := bits[l];
    p := start;
    LengthFrontier(bits, l);
    TotalStep(bits, l);
    for i := 1 to count + 1
      invariant p == start + i - 1
      invariant LookFilled(bits, huffval, lookNbits[..], lookSym[..],
                           (2 * NextCode(bits, l - 1) + (p - start)) * Pow2(8 - l))
    {
      CodeIs(bits, huffcode, p, l);
      FillCode(bits, huffval, huffcode[p], lookNbits, lookSym, p, l);
      p := p + 1;
    }
  }

  lemma TotalStep(bits: seq<Byte>, l: nat)
    requires |bits| == 17 && 1 <= l <= 16
    ensures Total(bits, l) == Total(bits, l - 1) + bits[l] <= Total(bits, 16)
    ensures NextCode(bits, l) == 2 * NextCode(bits, l - 1) + bits[l]
  {
    TotalMonotone(bits, l, 16);
  }

  lemma LengthFrontier(bits: seq<Byte>, l: nat)
    requires |bits| == 17 && 1 <= l <= 8
    ensures NextCode(bits, l - 1) * Pow2(9 - l) == (2 * NextCode(bits, l - 1) + 0) * Pow2(8 - l)
  {
    hide NextCode, Pow2;
    Doubled(8 - l);
    MulTwice(NextCode(bits, l - 1), Pow2(8 - l));
    Reassociate(2, NextCode(bits, l - 1), Pow2(8 - l));
  }

  // Left-justified code followed by all possible bit sequences.
  method FillCode(bits: seq<Byte>, huffval: seq<Byte>, code: nat,
                  lookNbits: array<nat>, lookSym: array<Byte>, p: nat, l: nat)
    requires CountsLegal(bits, huffval) && HasLength(bits, p, l) && l <= 8 && code == CodeOf(bits, p, l) && p < 256
    requires lookNbits.Length == lookSym.Length == 256 && lookNbits as object != lookSym as object
    requires LookFilled(bits, huffval, lookNbits[..], lookSym[..], code * Pow2(8 - l))
    modifies lookNbits, lookSym
    ensures LookFilled(bits, huffval, lookNbits[..], lookSym[..], (code + 1) * Pow2(8 - l))
  {
    hide LookEntry, NextCode, Total, Pow2, CodeOf;
    CodeInTable(bits, p, l);
    assert (code + 1) * Pow2(8 - l) == code * Pow2(8 - l) + Pow2(8 - l);
    var lookbits := code * Pow2(8 - l);
    var ctr := Pow2(8 - l);
    while ctr > 0
      invariant 0 <= ctr <= Pow2(8 - l) && lookbits + ctr == (code + 1) * Pow2(8 - l)
      invariant LookFilled(bits, huffval, lookNbits[..], lookSym[..], lookbits)
    {
      EntryOfCode(bits, huffval, p, l, lookbits);
      lookNbits[lookbits] := l;
      lookSym[lookbits] := huffval[p];
      lookbits := lookbits + 1;
      ctr := ctr - 1;
    }
  }

  lemma CodeInTable(bits: seq<Byte>, p: nat, l: nat)
    requires CodesFit(bits) && HasLength(bits, p, l) && l <= 8
    ensures (CodeOf(bits, p, l) + 1) * Pow2(8 - l) <= 256
  {
    hide NextCode, Pow2;
    var c := CodeOf(bits, p, l);
    MulMonotone(c + 1, Pow2(l), Pow2(8 - l));
    Pow2Add(l, 8 - l);
    Pow2Constants();
  }

  // jpeg_make_d_derived_tbl: accepts exactly the tables whose counts are legal and, for DC,
  // whose symbols are in range.
  method MakeDDerivedTbl(isDC: bool, bits: seq<Byte>, huffval: seq<Byte>) returns (ok: bool, t: DDerived)
    requires |bits| == 17 && |huffval| == 256
    ensures ok <==> CountsLegal(bits, huffval) && (isDC ==> SymbolsBelow(ListedSymbols(bits, huffval), 15))
    ensures ok ==> DecodesTable(t, bits)
    ensures ok ==> |t.lookNbits| == |t.lookSym| == 256
                   && forall v :: 0 <= v < 256 ==> LookEntry(bits, huffval, v, t.lookNbits[v], t.lookSym[v])
  {
    hide LookEntry, Sizes, CodesSoFar, HasLength, CodeOf, CodesFit;
    t := DDerived([], [], [], []);
    var sized, huffsize := MakeSizes(bits);
    if !sized {
      return false, t;
    }
    var coded, huffcode := MakeCodes(bits, huffsize);
    if !coded {
      return false, t;
    }
    var maxcode, valoffset := MakeDecoding(bits, huffcode);
    var nbits, sym := FillLookahead(bits, huffval, huffcode);
    t := DDerived(maxcode, valoffset, nbits, sym);
    if isDC {
      for i := 0 to |huffsize|
        invariant forall k :: 0 <= k < i ==> huffval[k] <= 15
      {
        if huffval[i] > 15 {
          assert ListedSymbols(bits, huffval)[i] > 15;
          return false, t;
        }
      }
    }
    ok := true;
  }

  // Figure F.15: generate decoding tables for bit-sequential decoding.
  method MakeDecoding(bits: seq<Byte>, huffcode: seq<nat>) returns (maxcode: seq<int>, valoffset: seq<int>)
    requires |bits| == 17 && |huffcode| == Total(bits, 16) && CodesSoFar(bits, huffcode)
    ensures DecodesTable(DDerived(maxcode, valoffset, [], []), bits)
  {
    hide Total, NextCode, CodesSoFar;
    maxcode, valoffset := [0], [0];
    var p: nat := 0;
    FrontierStart(bits);
    for l := 1 to 17
      invariant p == Total(bits, l - 1) && |maxcode| == |valoffset| == l
      invariant forall k :: 1 <= k < l ==>
        && maxcode[k] == (if bits[k] > 0 then NextCode(bits, k) - 1 else -1)
        && (bits[k] > 0 ==> valoffset[k] == Total(bits, k - 1) - 2 * NextCode(bits, k - 1))
    {
      TotalStep(bits, l);
      if bits[l] > 0 {
        CodeIs(bits, huffcode, p, l);
        CodeIs(bits, huffcode, p + bits[l] - 1, l);
        valoffset := valoffset + [p - huffcode[p]];
        var count: nat := bits[l];
        p := p + count;
        maxcode := maxcode + [huffcode[p - 1]];
      } else {
        valoffset := valoffset + [0];
        maxcode := maxcode + [-1];
      }
    }
    maxcode := maxcode + [TERMINATOR];
  }

  // ----- Decoding -----

  // A decoded symbol and the number of bits it took.
  datatype Decoded = Decoded(symbol: Byte, size: nat)

  // No code of fewer than l bits starts at this position.
  ghost predicate RuledOut(bits: seq<Byte>, data: seq<Byte>, pos: nat, l: nat) {
    && |bits| == 17 && 1 <= l <= 17
    && forall k :: 0 <= k < l ==> Window(data, pos, k) >= NextCode(bits, k)
  }

  // Decoding by the definition of the code: the first length at which the bits read form a
  // code; zero after 17 bits if there is none (section F.2.2.3).
  ghost function DecodeSymbol(bits: seq<Byte>, huffval: seq<Byte>, data: seq<Byte>, pos: nat, l: nat): (d: Decoded)
    requires CountsLegal(bits, huffval) && RuledOut(bits, data, pos, l)
    ensures 1 <= d.size <= 17
    decreases 17 - l
  {
    if l == 17 then Decoded(0, 17)
    else
      var w := Window(data, pos, l);
      if w < NextCode(bits, l) then
        SymbolInRange(bits, data, pos, l);
        Decoded(huffval[SymbolNumber(bits, w, l)], l)
      else
        DecodeSymbol(bits, huffval, data, pos, l + 1)
  }

  lemma SymbolInRange(bits: seq<Byte>, data: seq<Byte>, pos: nat, l: nat)
    requires RuledOut(bits, data, pos, l) && l <= 16 && Total(bits, 16) <= 256
    requires Window(data, pos, l) < NextCode(bits, l)
    ensures HasLength(bits, SymbolNumber(bits, Window(data, pos, l), l), l)
    ensures SymbolNumber(bits, Window(data, pos, l), l) < 256
  {
    hide BitAt;
    TotalStep(bits, l);
    assert Window(data, pos, l) == 2 * Window(data, pos, l - 1) + BitAt(data, pos + l - 1);
  }

  // Nothing is ruled out at the start.
  lemma StartDecoding(bits: seq<Byte>, data: seq<Byte>, pos: nat)
    requires |bits| == 17
    ensures RuledOut(bits, data, pos, 1)
  {
  }

  // Inverse tables: the code of a symbol, followed by any bits, decodes to that symbol and
  // takes exactly its length.
  lemma DecodeInvertsCode(bits: seq<Byte>, huffval: seq<Byte>, data: seq<Byte>, pos: nat, p: nat, l: nat)
    requires CountsLegal(bits, huffval) && HasLength(bits, p, l)
    requires Window(data, pos, l) == CodeOf(bits, p, l)
    ensures p < 256 && RuledOut(bits, data, pos, 1)
    ensures DecodeSymbol(bits, huffval, data, pos, 1) == Decoded(huffval[p], l)
  {
    hide NextCode, Window, Total;
    TotalStep(bits, l);
    StartDecoding(bits, data, pos);
    forall k | 0 <= k < l
      ensures Window(data, pos, k) >= NextCode(bits, k)
    {
      LeadingBits(bits, p, l, k);
      WindowShorten(data, pos, k, l - k);
    }
    SkipTo(bits, huffval, data, pos, 1, l);
  }

  lemma {:induction false} SkipTo(bits: seq<Byte>, huffval: seq<Byte>, data: seq<Byte>, pos: nat, k: nat, l: nat)
    requires CountsLegal(bits, huffval) && 1 <= k <= l && RuledOut(bits, data, pos, l)
    ensures RuledOut(bits, data, pos, k)
    ensures DecodeSymbol(bits, huffval, data, pos, k) == DecodeSymbol(bits, huffval, data, pos, l)
    decreases l - k
  {
    if k < l {
      SkipTo(bits, huffval, data, pos, k + 1, l);
    }
  }

  // The lookahead table refines bit-by-bit decoding on every bit string, garbage included.
  lemma LookaheadRefines(bits: seq<Byte>, huffval: seq<Byte>, data: seq<Byte>, pos: nat, nbits: nat, sym: Byte)
    requires CountsLegal(bits, huffval)
    requires LookEntry(bits, huffval, Window(data, pos, 8), nbits, sym)
    ensures RuledOut(bits, data, pos, 1)
    ensures if nbits != 0 then
              DecodeSymbol(bits, huffval, data, pos, 1) == Decoded(sym, nbits)
            else
              RuledOut(bits, data, pos, 9)
              && DecodeSymbol(bits, huffval, data, pos, 1) == DecodeSymbol(bits, huffval, data, pos, 9)
  {
    hide NextCode, Window, Total;
    StartDecoding(bits, data, pos);
    var stop := if nbits == 0 then 9 else nbits;
    forall k | 0 <= k < stop
      ensures Window(data, pos, k) >= NextCode(bits, k)
    {
      if k > 0 {
        LookRulesOut(bits, Window(data, pos, 8), 1, k);
        WindowShorten(data, pos, k, 8 - k);
      } else {
        assert RuledOut(bits, data, pos, 1);
      }
    }
    SkipTo(bits, huffval, data, pos, 1, stop);
    if nbits != 0 {
      LookHits(bits, Window(data, pos, 8), 1);
      WindowShorten(data, pos, nbits, 8 - nbits);
    }
  }

  lemma {:induction false} LookRulesOut(bits: seq<Byte>, pattern: nat, m: nat, k: nat)
    requires |bits| == 17 && 1 <= m <= k <= 8
    requires LookLength(bits, pattern, m) == 0 || k < LookLength(bits, pattern, m)
    ensures pattern / Pow2(8 - k) >= NextCode(bits, k)
    decreases k - m
  {
    if m < k {
      LookRulesOut(bits, pattern, m + 1, k);
    }
  }

  lemma {:induction false} LookHits(bits: seq<Byte>, pattern: nat, m: nat)
    requires |bits| == 17 && 1 <= m <= 9 && LookLength(bits, pattern, m) != 0
    ensures var n := LookLength(bits, pattern, m); pattern / Pow2(8 - n) < NextCode(bits, n)
    decreases 9 - m
  {
    if pattern / Pow2(8 - m) >= NextCode(bits, m) {
      LookHits(bits, pattern, m + 1);
    }
  }

  // ----- A decoder's table with everything derived from it -----

  datatype HuffTable = HuffTable(bits: seq<Byte>, huffval: seq<Byte>, derived: DDerived)

  ghost predicate GoodTable(t: HuffTable) {
    && CountsLegal(t.bits, t.huffval)
    && DecodesTable(t.derived, t.bits)
    && |t.derived.lookNbits| == |t.derived.lookSym| == 256
    && forall v :: 0 <= v < 256 ==>
         LookEntry(t.bits, t.huffval, v, t.derived.lookNbits[v], t.derived.lookSym[v])
  }

  lemma DerivedIsGood(bits: seq<Byte>, huffval: seq<Byte>, d: DDerived)
    requires CountsLegal(bits, huffval) && DecodesTable(d, bits) && |d.lookNbits| == |d.lookSym| == 256
    requires forall v :: 0 <= v < 256 ==> LookEntry(bits, huffval, v, d.lookNbits[v], d.lookSym[v])
    ensures GoodTable(HuffTable(bits, huffval, d))
  {
    hide LookEntry;
  }

  // The symbol whose code is found at a bit position.
  ghost function SymbolAt(t: HuffTable, data: seq<Byte>, pos: nat): (d: Decoded)
    ensures 1 <= d.size <= 17
  {
    if CountsLegal(t.bits, t.huffval) then
      StartDecoding(t.bits, data, pos);
      DecodeSymbol(t.bits, t.huffval, data, pos, 1)
    else Decoded(0, 1)
  }

  // Codes of fewer than l bits have been ruled out for the symbol at this position.
  ghost predicate DecodingFrom(t: HuffTable, data: seq<Byte>, pos: nat, l: nat) {
    && CountsLegal(t.bits, t.huffval)
    && RuledOut(t.bits, data, pos, l)
    && SymbolAt(t, data, pos) == DecodeSymbol(t.bits, t.huffval, data, pos, l)
  }

  // Deciding at length l with the derived table.
  lemma DecideLength(t: HuffTable, data: seq<Byte>, pos: nat, l: nat)
    requires GoodTable(t) && DecodingFrom(t, data, pos, l)
    ensures |t.derived.maxcode| == 18 && |t.derived.valoffset| == 17 && l <= 17
    ensures Window(data, pos, l) > t.derived.maxcode[l] ==> l <= 16 && DecodingFrom(t, data, pos, l + 1)
    ensures Window(data, pos, l) <= t.derived.maxcode[l] && l <= 16 ==>
              && 0 <= Window(data, pos, l) + t.derived.valoffset[l] < |t.huffval|
              && SymbolAt(t, data, pos)
                 == Decoded(t.huffval[Window(data, pos, l) + t.derived.valoffset[l]], l)
    ensures l == 17 ==> SymbolAt(t, data, pos) == Decoded(0, 17)
  {
    hide LookEntry, Pow2, Window, Total, CodesFit;
    if l == 17 {
      WindowBound(data, pos, 17);
      assert Pow2(17) <= TERMINATOR by { Pow2Constants(); Pow2Add(16, 1); }
    } else {
      TotalStep(t.bits, l);
      WindowGrows(data, pos, l);
      if Window(data, pos, l) < NextCode(t.bits, l) {
        SymbolInRange(t.bits, data, pos, l);
      }
    }
  }

  lemma WindowGrows(data: seq<Byte>, pos: nat, l: nat)
    requires l > 0
    ensures Window(data, pos, l) >= 2 * Window(data, pos, l - 1)
  {
    hide BitAt;
  }

  lemma LookaheadDecides(t: HuffTable, data: seq<Byte>, pos: nat)
    requires GoodTable(t)
    ensures Window(data, pos, 8) < 256
    ensures var nb := t.derived.lookNbits[Window(data, pos, 8)];
            if nb != 0 then
              nb <= 8 && SymbolAt(t, data, pos) == Decoded(t.derived.lookSym[Window(data, pos, 8)], nb)
            else DecodingFrom(t, data, pos, 9)
  {
    hide Pow2, Window, CodesFit, DecodesTable;
    WindowBound(data, pos, 8);
    assert Pow2(8) == 256 by { Pow2Constants(); }
    var look := Window(data, pos, 8);
    LookaheadRefines(t.bits, t.huffval, data, pos, t.derived.lookNbits[look], t.derived.lookSym[look]);
  }

  lemma DecodingStarts(t: HuffTable, data: seq<Byte>, pos: nat)
    requires GoodTable(t)
    ensures DecodingFrom(t, data, pos, 1)
  {
    StartDecoding(t.bits, data, pos);
  }
}
