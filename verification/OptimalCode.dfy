// Optimal code lengths: what any prefix code must pay for given symbol counts, and the
// cost of Huffman's merging procedure (section K.2 of ITU-T T.81 without the length limit).
// A count of zero means that the symbol is absent.

module OptimalCode {
  import opened CodeBits

  // ----- Finite sums -----

  function Sum(s: seq<int>): int {
    if |s| == 0 then 0 else s[0] + Sum(s[1..])
  }

  lemma {:induction false} SumUpdate(s: seq<int>, i: nat, v: int)
    requires i < |s|
    ensures Sum(s[i := v]) == Sum(s) - s[i] + v
  {
    if i == 0 {
      assert s[i := v][1..] == s[1..];
    } else {
      assert s[i := v][1..] == s[1..][i - 1 := v];
      SumUpdate(s[1..], i - 1, v);
    }
  }

  // Pointwise linear combinations carry over to sums.
  lemma {:induction false} SumLinear(s: seq<int>, a: int, t: seq<int>, b: int, u: seq<int>)
    requires |s| == |t| == |u|
    requires forall i :: 0 <= i < |s| ==> u[i] == a * s[i] + b * t[i]
    ensures Sum(u) == a * Sum(s) + b * Sum(t)
  {
    if |s| > 0 {
      SumLinear(s[1..], a, t[1..], b, u[1..]);
    }
  }

  lemma {:induction false} SumMonotone(s: seq<int>, t: seq<int>)
    requires |s| == |t| && forall i :: 0 <= i < |s| ==> s[i] <= t[i]
    ensures Sum(s) <= Sum(t)
  {
    if |s| > 0 {
      SumMonotone(s[1..], t[1..]);
    }
  }

  lemma {:induction false} SumZero(s: seq<int>)
    requires forall i :: 0 <= i < |s| ==> s[i] == 0
    ensures Sum(s) == 0
  {
    if |s| > 0 {
      SumZero(s[1..]);
    }
  }

  // Two nonnegative terms never exceed the sum.
  lemma SumAtLeastTwo(s: seq<int>, i: nat, j: nat)
    requires i < |s| && j < |s| && i != j
    requires forall k :: 0 <= k < |s| ==> s[k] >= 0
    ensures Sum(s) >= s[i] + s[j]
  {
    SumUpdate(s, i, 0);
    SumUpdate(s[i := 0], j, 0);
    var z := seq(|s|, _ => 0);
    SumZero(z);
    SumMonotone(z, s[i := 0][j := 0]);
  }

  // ----- Code lengths -----

  function Products(f: seq<nat>, l: seq<nat>): (p: seq<int>)
    requires |f| == |l|
    ensures |p| == |f| && forall i :: 0 <= i < |f| ==> p[i] == f[i] * l[i]
  {
    seq(|f|, i requires 0 <= i < |f| => f[i] * l[i])
  }

  // Total number of bits spent on the symbols.
  function Cost(f: seq<nat>, l: seq<nat>): int
    requires |f| == |l|
  {
    Sum(Products(f, l))
  }

  ghost predicate Fits(f: seq<nat>, l: seq<nat>, m: nat) {
    |f| == |l| && forall i :: 0 <= i < |f| && f[i] > 0 ==> l[i] <= m
  }

  function Shares(f: seq<nat>, l: seq<nat>, m: nat): (s: seq<int>)
    requires Fits(f, l, m)
    ensures |s| == |f|
    ensures forall i :: 0 <= i < |f| ==> s[i] == if f[i] > 0 then Pow2(m - l[i]) else 0
  {
    seq(|f|, i requires 0 <= i < |f| => if f[i] > 0 then Pow2(m - l[i]) else 0)
  }

  // The Kraft sum of the symbols present, in units of 2^-m.
  function Kraft(f: seq<nat>, l: seq<nat>, m: nat): int
    requires Fits(f, l, m)
  {
    Sum(Shares(f, l, m))
  }

  ghost predicate KraftAt(f: seq<nat>, l: seq<nat>, m: nat) {
    Fits(f, l, m) && Kraft(f, l, m) <= Pow2(m)
  }

  // Lengths that satisfy Kraft's inequality.
  ghost predicate IsCode(f: seq<nat>, l: seq<nat>) {
    exists m: nat :: KraftAt(f, l, m)
  }

  // ----- Prefix codes satisfy Kraft's inequality -----

  ghost predicate PrefixFree(f: seq<nat>, words: seq<seq<bool>>) {
    && |words| == |f|
    && forall i, j :: 0 <= i < |f| && 0 <= j < |f| && i != j && f[i] > 0 && f[j] > 0 ==> !(words[i] <= words[j])
  }

  function Lengths(words: seq<seq<bool>>): (l: seq<nat>)
    ensures |l| == |words| && forall i :: 0 <= i < |l| ==> l[i] == |words[i]|
  {
    seq(|words|, i requires 0 <= i < |words| => |words[i]|)
  }

  // The symbols whose word starts with a given bit, and the words without that bit.
  ghost function Branch(f: seq<nat>, words: seq<seq<bool>>, bit: bool): (g: seq<nat>)
    requires |words| == |f|
    ensures |g| == |f|
    ensures forall i :: 0 <= i < |f| ==> g[i] == if words[i] != [] && words[i][0] == bit then f[i] else 0
  {
    seq(|f|, i requires 0 <= i < |f| => if words[i] != [] && words[i][0] == bit then f[i] else 0)
  }

  function Tails(words: seq<seq<bool>>): (t: seq<seq<bool>>)
    ensures |t| == |words|
    ensures forall i :: 0 <= i < |t| ==> t[i] == if words[i] == [] then [] else words[i][1..]
  {
    seq(|words|, i requires 0 <= i < |words| => if words[i] == [] then [] else words[i][1..])
  }

  lemma BranchPrefixFree(f: seq<nat>, words: seq<seq<bool>>, bit: bool)
    requires PrefixFree(f, words)
    ensures PrefixFree(Branch(f, words, bit), Tails(words))
  {
    var g, t := Branch(f, words, bit), Tails(words);
    forall i, j | 0 <= i < |f| && 0 <= j < |f| && i != j && g[i] > 0 && g[j] > 0
      ensures !(t[i] <= t[j])
    {
      TailPrefix(words[i], words[j]);
    }
  }

  lemma TailPrefix(v: seq<bool>, w: seq<bool>)
    requires v != [] && w != [] && v[0] == w[0]
    ensures v[1..] <= w[1..] ==> v <= w
  {
    assert v == [v[0]] + v[1..] && w == [w[0]] + w[1..];
  }

  lemma EmptyWordExcludes(f: seq<nat>, words: seq<seq<bool>>, e: nat, j: nat)
    requires PrefixFree(f, words) && e < |f| && j < |f| && e != j && f[e] > 0 && words[e] == []
    ensures f[j] == 0
  {
    assert words[e] <= words[j];
  }

  // A symbol with the empty word is alone.
  lemma EmptyWordIsAlone(f: seq<nat>, words: seq<seq<bool>>, m: nat, e: nat)
    requires PrefixFree(f, words) && Fits(f, Lengths(words), m)
    requires e < |f| && f[e] > 0 && words[e] == []
    ensures Kraft(f, Lengths(words), m) == Pow2(m)
  {
    hide PrefixFree, Sum, Pow2;
    var s := Shares(f, Lengths(words), m);
    forall j | 0 <= j < |f| && j != e
      ensures s[j] == 0
    {
      EmptyWordExcludes(f, words, e, j);
    }
    SumUpdate(s, e, 0);
    SumZero(s[e := 0]);
  }

  lemma BranchShares(f: seq<nat>, words: seq<seq<bool>>, m: nat)
    requires |words| == |f| && Fits(f, Lengths(words), m)
    requires forall i :: 0 <= i < |f| && f[i] > 0 ==> words[i] != []
    requires m > 0
    ensures Fits(Branch(f, words, false), Lengths(Tails(words)), m - 1)
    ensures Fits(Branch(f, words, true), Lengths(Tails(words)), m - 1)
    ensures Kraft(f, Lengths(words), m)
         == Kraft(Branch(f, words, false), Lengths(Tails(words)), m - 1)
          + Kraft(Branch(f, words, true), Lengths(Tails(words)), m - 1)
  {
    var k := Lengths(Tails(words));
    var s := Shares(f, Lengths(words), m);
    var s0, s1 := Shares(Branch(f, words, false), k, m - 1), Shares(Branch(f, words, true), k, m - 1);
    forall i | 0 <= i < |f|
      ensures s[i] == 1 * s0[i] + 1 * s1[i]
    {
      if f[i] > 0 {
        assert m - 1 - k[i] == m - |words[i]|;
      }
    }
    SumLinear(s0, 1, s1, 1, s);
  }

  lemma {:induction false} PrefixFreeKraft(f: seq<nat>, words: seq<seq<bool>>, m: nat)
    requires PrefixFree(f, words) && Fits(f, Lengths(words), m)
    ensures Kraft(f, Lengths(words), m) <= Pow2(m)
    decreases m
  {
    hide PrefixFree;
    if e: nat :| e < |f| && f[e] > 0 && words[e] == [] {
      EmptyWordIsAlone(f, words, m, e);
    } else if m == 0 {
      SumZero(Shares(f, Lengths(words), m));
    } else {
      BranchShares(f, words, m);
      BranchPrefixFree(f, words, false);
      BranchPrefixFree(f, words, true);
      PrefixFreeKraft(Branch(f, words, false), Tails(words), m - 1);
      PrefixFreeKraft(Branch(f, words, true), Tails(words), m - 1);
    }
  }

  lemma PrefixFreeIsCode(f: seq<nat>, words: seq<seq<bool>>)
    requires PrefixFree(f, words)
    ensures IsCode(f, Lengths(words))
  {
    var m := LongestWord(words);
    PrefixFreeKraft(f, words, m);
    assert KraftAt(f, Lengths(words), m);
  }

  ghost function LongestWord(words: seq<seq<bool>>): (m: nat)
    ensures forall i :: 0 <= i < |words| ==> |words[i]| <= m
  {
    if |words| == 0 then 0
    else
      var k := LongestWord(words[1..]);
      assert forall i :: 1 <= i < |words| ==> words[i] == words[1..][i - 1];
      if |words[0]| > k then |words[0]| else k
  }

  // ----- Huffman's procedure -----

  // The smallest nonzero count other than that of `skip`; ties go to the larger symbol.
  ghost predicate IsLeast(f: seq<nat>, skip: int, c: int) {
    && 0 <= c < |f| && c != skip && f[c] > 0
    && forall i :: 0 <= i < |f| && i != skip && f[i] > 0 ==> f[c] < f[i] || (f[c] == f[i] && i <= c)
  }

  ghost predicate TwoLeast(f: seq<nat>, c1: int, c2: int) {
    IsLeast(f, -1, c1) && IsLeast(f, c1, c2)
  }

  function Merge(f: seq<nat>, c1: nat, c2: nat): (g: seq<nat>)
    requires c1 < |f| && c2 < |f|
    ensures |g| == |f|
  {
    f[c1 := f[c1] + f[c2]][c2 := 0]
  }

  function Positive(f: seq<nat>): nat {
    if |f| == 0 then 0 else (if f[0] > 0 then 1 else 0) + Positive(f[1..])
  }

  lemma {:induction false} PositiveUpdate(f: seq<nat>, i: nat, v: nat)
    requires i < |f|
    ensures Positive(f[i := v]) == Positive(f) - (if f[i] > 0 then 1 else 0) + (if v > 0 then 1 else 0)
  {
    if i == 0 {
      assert f[i := v][1..] == f[1..];
    } else {
      assert f[i := v][1..] == f[1..][i - 1 := v];
      PositiveUpdate(f[1..], i - 1, v);
    }
  }

  lemma MergePositive(f: seq<nat>, c1: nat, c2: nat)
    requires c1 < |f| && c2 < |f| && c1 != c2 && f[c1] > 0 && f[c2] > 0
    ensures Positive(Merge(f, c1, c2)) == Positive(f) - 1
  {
    PositiveUpdate(f, c1, f[c1] + f[c2]);
    PositiveUpdate(f[c1 := f[c1] + f[c2]], c2, 0);
  }

  ghost predicate Mergeable(f: seq<nat>) {
    exists c1: nat, c2: nat :: TwoLeast(f, c1, c2)
  }

  lemma MergeKeepsSum(f: seq<nat>, c1: nat, c2: nat)
    requires c1 < |f| && c2 < |f| && c1 != c2
    ensures Sum(Merge(f, c1, c2)) == Sum(f)
  {
    hide Sum, Merge;
    MoveKeepsSum(f, c1, c2);
    assert Merge(f, c1, c2) == f[c1 := f[c1] + f[c2]][c2 := 0] by { MergeIs(f, c1, c2); }
  }

  lemma MergeIs(f: seq<nat>, c1: nat, c2: nat)
    requires c1 < |f| && c2 < |f|
    ensures Merge(f, c1, c2) == f[c1 := f[c1] + f[c2]][c2 := 0]
  {
  }

  lemma MoveKeepsSum(f: seq<int>, c1: nat, c2: nat)
    requires c1 < |f| && c2 < |f| && c1 != c2
    ensures Sum(f[c1 := f[c1] + f[c2]][c2 := 0]) == Sum(f)
  {
    hide Sum;
    var h := f[c1] + f[c2];
    SumUpdate(f, c1, h);
    SumUpdate(f[c1 := h], c2, 0);
  }

  // The cost of the code that repeated merging of the two least counts builds.
  ghost function MergeCost(f: seq<nat>): nat
    decreases Positive(f)
  {
    if Mergeable(f) then
      var c1: nat, c2: nat :| TwoLeast(f, c1, c2);
      MergePositive(f, c1, c2);
      f[c1] + f[c2] + MergeCost(Merge(f, c1, c2))
    else 0
  }

  lemma MergeCostStep(f: seq<nat>, c1: nat, c2: nat)
    requires TwoLeast(f, c1, c2)
    ensures MergeCost(f) == f[c1] + f[c2] + MergeCost(Merge(f, c1, c2))
  {
    assert forall d1: nat, d2: nat :: TwoLeast(f, d1, d2) ==> d1 == c1 && d2 == c2;
  }

  // ----- Every code costs at least as much -----

  lemma CostChange(f: seq<nat>, l: seq<nat>, i: nat, v: nat)
    requires |f| == |l| && i < |f|
    ensures Cost(f, l[i := v]) == Cost(f, l) - f[i] * l[i] + f[i] * v
  {
    SumUpdate(Products(f, l), i, f[i] * v);
    assert Products(f, l[i := v]) == Products(f, l)[i := f[i] * v];
  }

  lemma KraftChange(f: seq<nat>, l: seq<nat>, m: nat, i: nat, v: nat)
    requires Fits(f, l, m) && i < |f| && f[i] > 0 && v <= m
    ensures Fits(f, l[i := v], m)
    ensures Kraft(f, l[i := v], m) == Kraft(f, l, m) - Pow2(m - l[i]) + Pow2(m - v)
  {
    SumUpdate(Shares(f, l, m), i, Pow2(m - v));
    assert Shares(f, l[i := v], m) == Shares(f, l, m)[i := Pow2(m - v)];
  }

  lemma KraftHalf(f: seq<nat>, l: seq<nat>, m: nat)
    requires Fits(f, l, m) && m > 0 && Fits(f, l, m - 1)
    ensures Kraft(f, l, m) == 2 * Kraft(f, l, m - 1)
  {
    var s, t := Shares(f, l, m), Shares(f, l, m - 1);
    SumLinear(t, 2, t, 0, s);
  }

  // Some code that is no dearer gives its greatest length to two symbols.
  lemma {:induction false} Tighten(f: seq<nat>, l: seq<nat>, m: nat, a: nat, b: nat)
      returns (l': seq<nat>, m': nat, i: nat, j: nat)
    requires KraftAt(f, l, m) && a < |f| && b < |f| && a != b && f[a] > 0 && f[b] > 0
    ensures KraftAt(f, l', m') && Cost(f, l') <= Cost(f, l)
    ensures i < |f| && j < |f| && i != j && f[i] > 0 && f[j] > 0 && l'[i] == l'[j] == m' > 0
    decreases m
  {
    hide Cost, Kraft;
    TwoWordsNeedBits(f, l, m, a, b);
    if Fits(f, l, m - 1) {
      KraftHalf(f, l, m);
      l', m', i, j := Tighten(f, l, m - 1, a, b);
    } else {
      i :| 0 <= i < |f| && f[i] > 0 && l[i] == m;
      if j0: nat :| j0 < |f| && j0 != i && f[j0] > 0 && l[j0] == m {
        l', m', j := l, m, j0;
      } else {
        CostChange(f, l, i, m - 1);
        KraftChange(f, l, m, i, m - 1);
        var k := l[i := m - 1];
        KraftHalf(f, k, m);
        assert f[i] * m == f[i] * (m - 1) + f[i];
        l', m', i, j := Tighten(f, k, m - 1, a, b);
      }
    }
  }

  lemma TwoWordsNeedBits(f: seq<nat>, l: seq<nat>, m: nat, a: nat, b: nat)
    requires KraftAt(f, l, m) && a < |f| && b < |f| && a != b && f[a] > 0 && f[b] > 0
    ensures m > 0
  {
    SumAtLeastTwo(Shares(f, l, m), a, b);
  }

  // Giving the greatest length to a symbol of smaller count, in exchange.
  lemma Exchange(f: seq<nat>, l: seq<nat>, m: nat, c: nat, i: nat) returns (l': seq<nat>)
    requires KraftAt(f, l, m) && c < |f| && i < |f| && 0 < f[c] <= f[i] && l[i] == m
    ensures l' == l[c := m][i := l[c]]
    ensures KraftAt(f, l', m) && Cost(f, l') <= Cost(f, l)
  {
    hide Cost, Kraft;
    if c == i {
      l' := l;
    } else {
      var k := l[c := m];
      l' := k[i := l[c]];
      CostChange(f, l, c, m);
      CostChange(f, k, i, l[c]);
      KraftChange(f, l, m, c, m);
      KraftChange(f, k, m, i, l[c]);
      ExchangePays(f[c], f[i], l[c], m);
    }
  }

  lemma ExchangePays(x: nat, y: nat, short: nat, long: nat)
    requires x <= y && short <= long
    ensures x * long + y * short <= x * short + y * long
  {
    assert (y - x) * short <= (y - x) * long by { MulMonotone(short, long, y - x); }
  }

  // A code for the merged counts, cheaper by the two counts merged.
  lemma MergedCode(f: seq<nat>, l: seq<nat>, m: nat, c1: nat, c2: nat)
    requires KraftAt(f, l, m) && c1 < |f| && c2 < |f| && c1 != c2 && f[c1] > 0 && f[c2] > 0
    requires l[c1] == l[c2] == m > 0
    ensures IsCode(Merge(f, c1, c2), l[c1 := m - 1])
    ensures Cost(Merge(f, c1, c2), l[c1 := m - 1]) + f[c1] + f[c2] == Cost(f, l)
  {
    var g, k := Merge(f, c1, c2), l[c1 := m - 1];
    var p, s := Products(f, l), Shares(f, l, m);
    SumUpdate(p, c1, (f[c1] + f[c2]) * (m - 1));
    SumUpdate(p[c1 := (f[c1] + f[c2]) * (m - 1)], c2, 0);
    assert Products(g, k) == p[c1 := (f[c1] + f[c2]) * (m - 1)][c2 := 0];
    assert f[c1] * m + f[c2] * m == (f[c1] + f[c2]) * (m - 1) + f[c1] + f[c2];
    SumUpdate(s, c1, 2);
    SumUpdate(s[c1 := 2], c2, 0);
    assert Shares(g, k, m) == s[c1 := 2][c2 := 0];
    assert KraftAt(g, k, m);
  }

  // Any code can be turned into one for the merged counts that saves what merging adds.
  lemma MergeSaves(f: seq<nat>, l: seq<nat>, c1: nat, c2: nat) returns (k: seq<nat>)
    requires IsCode(f, l) && TwoLeast(f, c1, c2)
    ensures IsCode(Merge(f, c1, c2), k)
    ensures Cost(Merge(f, c1, c2), k) + f[c1] + f[c2] <= Cost(f, l)
  {
    hide Cost, Kraft, Merge;
    var m :| KraftAt(f, l, m);
    var l0, m0, i, j := Tighten(f, l, m, c1, c2);
    var l1 := Exchange(f, l0, m0, c1, i);
    var j1 := if j == c1 then i else j;
    var l2 := Exchange(f, l1, m0, c2, j1);
    MergedCode(f, l2, m0, c1, c2);
    k := l2[c1 := m0 - 1];
  }

  lemma {:induction false} MergeCostIsLeast(f: seq<nat>, l: seq<nat>)
    requires IsCode(f, l)
    ensures MergeCost(f) <= Cost(f, l)
    decreases Positive(f)
  {
    hide Cost;
    if Mergeable(f) {
      var c1: nat, c2: nat :| TwoLeast(f, c1, c2);
      MergeCostStep(f, c1, c2);
      MergePositive(f, c1, c2);
      var k := MergeSaves(f, l, c1, c2);
      MergeCostIsLeast(Merge(f, c1, c2), k);
    } else {
      CostNonnegative(f, l);
    }
  }

  // In particular no prefix code is cheaper.
  lemma NoPrefixCodeIsCheaper(f: seq<nat>, words: seq<seq<bool>>)
    requires Positive(f) >= 1 && PrefixFree(f, words)
    ensures MergeCost(f) <= Cost(f, Lengths(words))
  {
    hide PrefixFree, IsCode, MergeCost;
    PrefixFreeIsCode(f, words);
    MergeCostIsLeast(f, Lengths(words));
  }

  lemma CostNonnegative(f: seq<nat>, l: seq<nat>)
    requires |f| == |l|
    ensures Cost(f, l) >= 0
  {
    var z := seq(|f|, _ => 0);
    SumZero(z);
    SumMonotone(z, Products(f, l));
  }
}
