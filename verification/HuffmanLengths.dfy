// The second half of jpeg_gen_optimal_table: counting code lengths, limiting them to 16
// bits, removing the pseudo-symbol, and listing the symbols (section K.2 of ITU-T T.81).

module HuffmanLengths {
  import opened CodeBits
  import opened OptimalCode
  import opened HuffmanTree

  const MAX_CLEN := 32

  // Number of codes of length at most i that a complete tree of depth i would leave
  // unused is 2^i minus this: the Kraft sum of bits[0..i] in units of 2^-i.
  function Horner(bits: seq<int>, i: nat): int
    requires i < |bits|
  {
    if i == 0 then bits[0] else 2 * Horner(bits, i - 1) + bits[i]
  }

  lemma {:induction false} HornerUpdate(bits: seq<int>, i: nat, k: nat, v: int)
    requires i < |bits| && k < |bits|
    ensures Horner(bits[k := v], i) == Horner(bits, i) + if k <= i then (v - bits[k]) * Pow2(i - k) else 0
  {
    if i > 0 {
      HornerUpdate(bits, i - 1, k, v);
      if k < i {
        MulTwice(v - bits[k], Pow2(i - 1 - k));
      }
    }
  }

  lemma {:induction false} HornerZero(bits: seq<int>, i: nat)
    requires i < |bits| && forall k :: 0 <= k <= i ==> bits[k] == 0
    ensures Horner(bits, i) == 0
  {
    if i > 0 {
      HornerZero(bits, i - 1);
    }
  }

  lemma {:induction false} HornerScale(bits: seq<int>, i: nat, j: nat)
    requires i <= j < |bits| && forall k :: 0 <= k < |bits| ==> bits[k] >= 0
    ensures Horner(bits, j) >= Horner(bits, i) * Pow2(j - i)
  {
    if i < j {
      HornerScale(bits, i, j - 1);
      MulTwice(Horner(bits, i), Pow2(j - 1 - i));
    }
  }

  // ----- Counting -----

  // What symbol s contributes to the Kraft sum in units of 2^-32.
  function Contribution(c: nat): int
    requires c <= MAX_CLEN
  {
    if c > 0 then Pow2(MAX_CLEN - c) else 0
  }

  function Contributions(cs: seq<nat>): (r: seq<int>)
    requires forall s :: 0 <= s < |cs| ==> cs[s] <= MAX_CLEN
    ensures |r| == |cs| && forall s :: 0 <= s < |cs| ==> r[s] == Contribution(cs[s])
  {
    seq(|cs|, s requires 0 <= s < |cs| => Contribution(cs[s]))
  }

  // How many symbols have code size k.
  function CountOf(cs: seq<nat>, k: nat): nat {
    if |cs| == 0 then 0 else CountOf(cs[..|cs| - 1], k) + if cs[|cs| - 1] == k then 1 else 0
  }

  // How many symbols have a code.
  function Used(cs: seq<nat>): nat {
    if |cs| == 0 then 0 else Used(cs[..|cs| - 1]) + if cs[|cs| - 1] > 0 then 1 else 0
  }

  lemma {:induction false} SumPush(s: seq<int>, v: int)
    ensures Sum(s + [v]) == Sum(s) + v
  {
    if |s| == 0 {
      assert s + [v] == [v];
    } else {
      assert (s + [v])[1..] == s[1..] + [v];
      SumPush(s[1..], v);
    }
  }

  function Times(x: int, y: int): int { x * y }

  lemma SameShare(f: nat, c: nat, m: nat)
    requires f > 0 <==> c > 0
    requires c <= MAX_CLEN && (c > 0 ==> c <= m)
    ensures Times(Pow2(m), Contribution(c)) == Times(Pow2(MAX_CLEN), if f > 0 then Pow2(m - c) else 0)
  {
    hide Pow2;
    if f > 0 {
      Pow2Add(MAX_CLEN - c, m);
      Pow2Add(m - c, MAX_CLEN);
      assert MAX_CLEN - c + m == m - c + MAX_CLEN;
    }
  }

  lemma {:induction false} SumProportional(s: seq<int>, a: int, t: seq<int>, b: int)
    requires |s| == |t| && forall i :: 0 <= i < |s| ==> Times(a, s[i]) == Times(b, t[i])
    ensures a * Sum(s) == b * Sum(t)
  {
    if |s| > 0 {
      SumProportional(s[1..], a, t[1..], b);
      assert Times(a, s[0]) == Times(b, t[0]);
      assert a * (s[0] + Sum(s[1..])) == a * s[0] + a * Sum(s[1..]);
      assert b * (t[0] + Sum(t[1..])) == b * t[0] + b * Sum(t[1..]);
    }
  }

  lemma ContributionsAreShares(f0: seq<nat>, cs: seq<nat>, m: nat)
    requires |f0| == |cs| && Fits(f0, cs, m)
    requires forall s :: 0 <= s < |cs| ==> cs[s] <= MAX_CLEN && (f0[s] > 0 <==> cs[s] > 0)
    ensures Pow2(m) * Sum(Contributions(cs)) == Pow2(MAX_CLEN) * Sum(Shares(f0, cs, m))
  {
    hide Sum, Pow2, Contribution, Times;
    var k, s := Contributions(cs), Shares(f0, cs, m);
    forall i | 0 <= i < |f0|
      ensures Times(Pow2(m), k[i]) == Times(Pow2(MAX_CLEN), s[i])
    {
      SameShare(f0[i], cs[i], m);
      if f0[i] > 0 {
        assert s[i] == Pow2(m - cs[i]);
      } else {
        assert s[i] == 0;
      }
    }
    SumProportional(k, Pow2(m), s, Pow2(MAX_CLEN));
  }

  // Any complete code of depth at most 32 has the full Kraft sum in 32-bit units.
  lemma CompleteIsFull(f0: seq<nat>, cs: seq<nat>)
    requires CompleteCode(f0, cs) && forall s :: 0 <= s < SYMBOLS ==> cs[s] <= MAX_CLEN
    ensures Sum(Contributions(cs)) == Pow2(MAX_CLEN)
  {
    hide Sum, Pow2, Contributions, Shares;
    var m :| Fits(f0, cs, m) && Kraft(f0, cs, m) == Pow2(m);
    ContributionsAreShares(f0, cs, m);
    CancelPower(Sum(Contributions(cs)), Pow2(MAX_CLEN), Pow2(m));
  }

  lemma CancelPower(x: int, y: int, w: int)
    requires w > 0 && w * x == y * w
    ensures x == y
  {
  }

  // The number of symbols counted in all.
  lemma CountWithin(bits: seq<int>, k: nat)
    requires k < |bits| && forall i :: 0 <= i < |bits| ==> bits[i] >= 0
    ensures bits[k] <= Sum(bits)
  {
    var z := seq(|bits|, _ => 0);
    SumUpdate(bits, k, 0);
    SumZero(z);
    SumMonotone(z, bits[k := 0]);
  }

  // What counting the first symbols has put into bits.
  ghost predicate Counted(bits: seq<int>, cs: seq<nat>) {
    && |bits| == MAX_CLEN + 1
    && (forall s :: 0 <= s < |cs| ==> cs[s] <= MAX_CLEN)
    && bits[0] == 0
    && (forall k :: 1 <= k <= MAX_CLEN ==> bits[k] == CountOf(cs, k))
    && Horner(bits, MAX_CLEN) == Sum(Contributions(cs))
    && Sum(bits) == Used(cs)
  }

  lemma CountedStart(bits: seq<int>)
    requires |bits| == MAX_CLEN + 1 && forall k :: 0 <= k <= MAX_CLEN ==> bits[k] == 0
    ensures Counted(bits, [])
  {
    HornerZero(bits, MAX_CLEN);
    SumZero(bits);
  }

  lemma CountedStep(bits: seq<int>, cs: seq<nat>, c: nat)
    requires Counted(bits, cs) && c <= MAX_CLEN
    ensures Counted(if c > 0 then bits[c := bits[c] + 1] else bits, cs + [c])
  {
    hide Sum, Horner;
    assert (cs + [c])[..|cs|] == cs;
    SumPush(Contributions(cs), Contribution(c));
    assert Contributions(cs + [c]) == Contributions(cs) + [Contribution(c)];
    if c > 0 {
      SumUpdate(bits, c, bits[c] + 1);
      HornerUpdate(bits, MAX_CLEN, c, bits[c] + 1);
    }
  }

  lemma {:induction false} UsedPrefix(cs: seq<nat>, i: nat)
    requires i <= |cs|
    ensures Used(cs[..i]) <= Used(cs)
    decreases |cs|
  {
    if i < |cs| {
      UsedPrefix(cs[..|cs| - 1], i);
      assert cs[..|cs| - 1][..i] == cs[..i];
    } else {
      assert cs[..i] == cs;
    }
  }

  // Count the number of symbols of each code length; fails on a code of more than 32 bits.
  // The counters are bytes.
  method CountLengths(codesize: array<nat>, bits: array<int>) returns (ok: bool)
    requires codesize.Length == SYMBOLS && bits.Length == MAX_CLEN + 1
    requires codesize as object != bits as object
    requires forall k :: 0 <= k <= MAX_CLEN ==> bits[k] == 0
    requires Used(codesize[..]) <= 255
    modifies bits
    ensures ok <==> forall s :: 0 <= s < SYMBOLS ==> codesize[s] <= MAX_CLEN
    ensures ok ==> Counted(bits[..], codesize[..])
  {
    hide Counted;
    ghost var cs := codesize[..];
    CountedStart(bits[..]);
    for i := 0 to SYMBOLS
      invariant codesize[..] == cs
      invariant Counted(bits[..], cs[..i]) && forall s :: 0 <= s < i ==> codesize[s] <= MAX_CLEN
    {
      var c := codesize[i];
      assert cs[..i + 1] == cs[..i] + [c];
      UsedPrefix(cs, i + 1);
      if c != 0 {
        if c > MAX_CLEN {
          return false;
        }
        CountedBelow(bits[..], cs[..i], c);
        CountedStep(bits[..], cs[..i], c);
        bits[c] := (bits[c] + 1) % 256;
      } else {
        CountedStep(bits[..], cs[..i], 0);
      }
    }
    assert cs[..SYMBOLS] == cs;
    ok := true;
  }

  lemma CountedBelow(bits: seq<int>, cs: seq<nat>, c: nat)
    requires Counted(bits, cs) && 0 < c <= MAX_CLEN && Used(cs + [c]) <= 255
    ensures |bits| == MAX_CLEN + 1 && 0 <= bits[c] < 255
  {
    hide Sum, Horner;
    assert (cs + [c])[..|cs|] == cs;
    CountWithin(bits, c);
  }

  // ----- Limiting the lengths -----

  // Counters of a complete code with no length above i.
  ghost predicate FullUpTo(bits: seq<int>, i: nat) {
    && |bits| == MAX_CLEN + 1 && i <= MAX_CLEN
    && bits[0] == 0
    && (forall k :: 0 <= k <= MAX_CLEN ==> bits[k] >= 0)
    && (forall k :: i < k <= MAX_CLEN ==> bits[k] == 0)
    && Horner(bits, i) == Pow2(i)
    && Sum(bits) <= 255
  }

  lemma {:induction false} HornerNonzero(bits: seq<int>, i: nat)
    requires i < |bits| && Horner(bits, i) != 0
    ensures exists k :: 0 <= k <= i && bits[k] != 0
  {
    if i > 0 && bits[i] == 0 {
      HornerNonzero(bits, i - 1);
    } else {
      assert bits[i] != 0;
    }
  }

  // With few symbols, a code deeper than 16 has a codeword two or more levels up, and its
  // longest codewords come in pairs.
  lemma ShorterWordExists(bits: seq<int>, i: nat)
    requires FullUpTo(bits, i) && i > 16 && bits[i] > 0
    ensures exists j :: 1 <= j <= i - 2 && bits[j] > 0
    ensures bits[i] >= 2
  {
    hide Sum, Pow2;
    DoublePower(i);
    CountWithin(bits, i);
    CountWithin(bits, i - 1);
    Pow2Monotone(16, i);
    Pow2Constants();
    assert Horner(bits, i - 1) == 2 * Horner(bits, i - 2) + bits[i - 1];
    HornerNonzero(bits, i - 2);
  }

  lemma DoublePower(i: nat)
    requires i > 0
    ensures Pow2(i) == 2 * Pow2(i - 1)
  {
  }

  function Add(bits: seq<int>, k: nat, v: int): (r: seq<int>)
    requires k < |bits|
    ensures |r| == |bits|
  {
    bits[k := bits[k] + v]
  }

  lemma AddSum(bits: seq<int>, k: nat, v: int)
    requires k < |bits|
    ensures Sum(Add(bits, k, v)) == Sum(bits) + v
  {
    hide Sum;
    SumUpdate(bits, k, bits[k] + v);
  }

  lemma AddHorner(bits: seq<int>, i: nat, k: nat, v: int)
    requires k <= i < |bits|
    ensures Horner(Add(bits, k, v), i) == Horner(bits, i) + v * Pow2(i - k)
  {
    hide Horner, Pow2;
    HornerUpdate(bits, i, k, bits[k] + v);
  }

  // The counters after one adjustment for the pair of longest codewords.
  function Adjust(bits: seq<int>, i: nat, j: nat): (r: seq<int>)
    requires |bits| == MAX_CLEN + 1 && 1 <= j <= i - 2 && i <= MAX_CLEN
    ensures |r| == |bits|
  {
    Add(Add(Add(Add(bits, i, -2), i - 1, 1), j + 1, 2), j, -1)
  }

  lemma AdjustSums(bits: seq<int>, i: nat, j: nat)
    requires |bits| == MAX_CLEN + 1 && 1 <= j <= i - 2 && i <= MAX_CLEN
    ensures Sum(Adjust(bits, i, j)) == Sum(bits)
    ensures Horner(Adjust(bits, i, j), i) == Horner(bits, i)
  {
    hide Sum, Horner, Add;
    var b1 := Add(bits, i, -2);
    var b2 := Add(b1, i - 1, 1);
    var b3 := Add(b2, j + 1, 2);
    AddSum(bits, i, -2);
    AddSum(b1, i - 1, 1);
    AddSum(b2, j + 1, 2);
    AddSum(b3, j, -1);
    AddHorner(bits, i, i, -2);
    AddHorner(b1, i, i - 1, 1);
    AddHorner(b2, i, j + 1, 2);
    AddHorner(b3, i, j, -1);
    DoublePower(i - j);
  }

  // An adjustment keeps the number of symbols and the Kraft sum.
  lemma AdjustKeepsCode(bits: seq<int>, i: nat, j: nat)
    requires FullUpTo(bits, i) && i > 16 && bits[i] >= 2 && 1 <= j <= i - 2 && bits[j] > 0
    ensures FullUpTo(Adjust(bits, i, j), i) && Sum(Adjust(bits, i, j)) == Sum(bits)
    ensures Adjust(bits, i, j)[i] == bits[i] - 2
  {
    hide Sum, Horner;
    AdjustSums(bits, i, j);
  }

  // A level that has become empty can be dropped.
  lemma DropLevel(bits: seq<int>, i: nat)
    requires FullUpTo(bits, i) && i > 0 && bits[i] == 0
    ensures FullUpTo(bits, i - 1)
  {
    DoublePower(i);
  }

  // Remove symbols in pairs from every length above 16. The search for j always succeeds,
  // and no counter ever leaves the range of a byte.
  method LimitLengths(bits: array<int>)
    requires bits.Length == MAX_CLEN + 1 && FullUpTo(bits[..], MAX_CLEN)
    modifies bits
    ensures FullUpTo(bits[..], 16) && Sum(bits[..]) == old(Sum(bits[..]))
    ensures (forall k :: 16 < k <= MAX_CLEN ==> old(bits[k]) == 0) ==> bits[..] == old(bits[..])
  {
    hide FullUpTo, Sum;
    ghost var b0 := bits[..];
    var i := MAX_CLEN;
    while i > 16
      invariant 16 <= i <= MAX_CLEN
      invariant FullUpTo(bits[..], i) && Sum(bits[..]) == Sum(b0)
      invariant (forall k :: 16 < k <= MAX_CLEN ==> b0[k] == 0) ==> bits[..] == b0
    {
      while bits[i] > 0
        invariant FullUpTo(bits[..], i) && Sum(bits[..]) == Sum(b0)
        invariant (forall k :: 16 < k <= MAX_CLEN ==> b0[k] == 0) ==> bits[..] == b0
        decreases bits[i]
      {
        ghost var b := bits[..];
        ShorterWordExists(b, i);
        FullNonnegative(b, i);
        var j := i - 2;
        while bits[j] == 0
          invariant 1 <= j <= i - 2 && bits[..] == b
          invariant forall k :: j < k <= i - 2 ==> b[k] == 0
          decreases j
        {
          j := j - 1;
        }
        AdjustKeepsCode(b, i, j);
        FullInBytes(b, i);
        FullInBytes(Adjust(b, i, j), i);
        bits[i] := (bits[i] - 2) % 256;
        bits[i - 1] := (bits[i - 1] + 1) % 256;
        bits[j + 1] := (bits[j + 1] + 2) % 256;
        bits[j] := (bits[j] - 1) % 256;
        assert bits[..] == Adjust(b, i, j);
      }
      FullNonnegative(bits[..], i);
      DropLevel(bits[..], i);
      i := i - 1;
    }
  }

  lemma FullNonnegative(bits: seq<int>, i: nat)
    requires FullUpTo(bits, i)
    ensures |bits| == MAX_CLEN + 1 && forall k :: 0 <= k <= MAX_CLEN ==> bits[k] >= 0
  {
  }

  lemma FullInBytes(bits: seq<int>, i: nat)
    requires FullUpTo(bits, i)
    ensures |bits| == MAX_CLEN + 1 && forall k :: 0 <= k <= MAX_CLEN ==> 0 <= bits[k] <= 255
    ensures forall k :: i < k <= MAX_CLEN ==> bits[k] == 0
  {
    forall k | 0 <= k <= MAX_CLEN
      ensures bits[k] <= 255
    {
      CountWithin(bits, k);
    }
  }
}
