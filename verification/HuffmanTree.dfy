// The merging phase of jpeg_gen_optimal_table: repeated search for the two least counts,
// and branches of the tree chained through others[].

module HuffmanTree {
  import opened CodeBits
  import opened OptimalCode

  // 256 real symbols and the pseudo-symbol that reserves the all-ones code.
  const SYMBOLS := 257

  // Counts above this are never found by the search.
  const SENTINEL := 1_000_000_000

  // ----- Branches -----

  // The branch of each root c is the list chains[c], linked through others[]; owner and
  // index say where a symbol sits.
  ghost predicate Linked(others: seq<int>, chains: seq<seq<nat>>, owner: seq<int>, index: seq<nat>) {
    && |others| == |chains| == |owner| == |index| == SYMBOLS
    && (forall c, k :: 0 <= c < SYMBOLS && 0 <= k < |chains[c]| ==>
          && 0 <= chains[c][k] < SYMBOLS
          && owner[chains[c][k]] == c
          && index[chains[c][k]] == k
          && others[chains[c][k]] == if k + 1 < |chains[c]| then chains[c][k + 1] else -1)
    && (forall s :: 0 <= s < SYMBOLS && owner[s] != -1 ==>
          && 0 <= owner[s] < SYMBOLS
          && index[s] < |chains[owner[s]]|
          && chains[owner[s]][index[s]] == s)
  }

  // Exactly the roots have a nonzero count, and each heads its own branch.
  ghost predicate Rooted(freq: seq<nat>, chains: seq<seq<nat>>) {
    && |freq| == |chains| == SYMBOLS
    && forall c :: 0 <= c < SYMBOLS ==>
         && (freq[c] > 0 <==> chains[c] != [])
         && (chains[c] != [] ==> chains[c][0] == c)
  }

  function JoinChains(chains: seq<seq<nat>>, c1: nat, c2: nat): (r: seq<seq<nat>>)
    requires c1 < |chains| && c2 < |chains|
    ensures |r| == |chains|
  {
    chains[c1 := chains[c1] + chains[c2]][c2 := []]
  }

  function JoinOwner(owner: seq<int>, c1: int, c2: int): (r: seq<int>)
    ensures |r| == |owner|
    ensures forall s :: 0 <= s < |owner| ==> r[s] == if owner[s] == c2 then c1 else owner[s]
  {
    seq(|owner|, s requires 0 <= s < |owner| => if owner[s] == c2 then c1 else owner[s])
  }

  function JoinIndex(owner: seq<int>, index: seq<nat>, c2: int, shift: nat): (r: seq<nat>)
    requires |index| == |owner|
    ensures |r| == |owner|
    ensures forall s :: 0 <= s < |owner| ==> r[s] == if owner[s] == c2 then index[s] + shift else index[s]
  {
    seq(|owner|, s requires 0 <= s < |owner| => if owner[s] == c2 then index[s] + shift else index[s])
  }

  lemma JoinLinked(others: seq<int>, chains: seq<seq<nat>>, owner: seq<int>, index: seq<nat>, c1: nat, c2: nat)
    requires Linked(others, chains, owner, index)
    requires c1 < SYMBOLS && c2 < SYMBOLS && c1 != c2 && chains[c1] != [] && chains[c2] != []
    requires chains[c2][0] == c2
    ensures var last := chains[c1][|chains[c1]| - 1];
            last < SYMBOLS
            && Linked(others[last := c2], JoinChains(chains, c1, c2), JoinOwner(owner, c1, c2),
                      JoinIndex(owner, index, c2, |chains[c1]|))
  {
  }

  // ----- Sums over one branch -----

  function Owned(v: seq<int>, owner: seq<int>, c: int): (r: seq<int>)
    requires |v| == |owner|
    ensures |r| == |v|
    ensures forall s :: 0 <= s < |v| ==> r[s] == if owner[s] == c then v[s] else 0
  {
    seq(|v|, s requires 0 <= s < |v| => if owner[s] == c then v[s] else 0)
  }

  // The weight of a branch in units of 2^-m.
  function Scaled(cs: seq<nat>, m: nat): (r: seq<int>)
    requires forall s :: 0 <= s < |cs| ==> cs[s] <= m
    ensures |r| == |cs| && forall s :: 0 <= s < |cs| ==> r[s] == Pow2(m - cs[s])
  {
    seq(|cs|, s requires 0 <= s < |cs| => Pow2(m - cs[s]))
  }

  // The count at a root is the total count of its branch.
  ghost predicate Weighed(f0: seq<nat>, freq: seq<nat>, owner: seq<int>) {
    && |f0| == |freq| == |owner| == SYMBOLS
    && forall c :: 0 <= c < SYMBOLS ==> freq[c] == Sum(Owned(f0, owner, c))
  }

  // Each branch is a complete code tree: its Kraft sum is one.
  ghost predicate Complete(cs: seq<nat>, freq: seq<nat>, owner: seq<int>, m: nat) {
    && |cs| == |freq| == |owner| == SYMBOLS
    && (forall s :: 0 <= s < SYMBOLS ==> cs[s] <= m)
    && forall c :: 0 <= c < SYMBOLS && freq[c] > 0 ==> Sum(Owned(Scaled(cs, m), owner, c)) == Pow2(m)
  }

  // Code sizes after both branches moved down by one.
  function Deepen(cs: seq<nat>, owner: seq<int>, c1: int, c2: int): (r: seq<nat>)
    requires |cs| == |owner|
    ensures |r| == |cs|
    ensures forall s :: 0 <= s < |cs| ==> r[s] == if owner[s] == c1 || owner[s] == c2 then cs[s] + 1 else cs[s]
  {
    seq(|cs|, s requires 0 <= s < |cs| => if owner[s] == c1 || owner[s] == c2 then cs[s] + 1 else cs[s])
  }

  lemma JoinWeighed(f0: seq<nat>, freq: seq<nat>, owner: seq<int>, c1: nat, c2: nat)
    requires Weighed(f0, freq, owner) && c1 < SYMBOLS && c2 < SYMBOLS && c1 != c2
    ensures Weighed(f0, Merge(freq, c1, c2), JoinOwner(owner, c1, c2))
  {
    var joined := JoinOwner(owner, c1, c2);
    forall c | 0 <= c < SYMBOLS
      ensures Merge(freq, c1, c2)[c] == Sum(Owned(f0, joined, c))
    {
      if c == c1 {
        SumLinear(Owned(f0, owner, c1), 1, Owned(f0, owner, c2), 1, Owned(f0, joined, c));
      } else if c == c2 {
        SumZero(Owned(f0, joined, c));
      } else {
        assert Owned(f0, joined, c) == Owned(f0, owner, c);
      }
    }
  }

  lemma JoinComplete(cs: seq<nat>, freq: seq<nat>, owner: seq<int>, m: nat, c1: nat, c2: nat)
    requires Complete(cs, freq, owner, m)
    requires c1 < SYMBOLS && c2 < SYMBOLS && c1 != c2 && freq[c1] > 0 && freq[c2] > 0
    ensures Complete(Deepen(cs, owner, c1, c2), Merge(freq, c1, c2), JoinOwner(owner, c1, c2), m + 1)
  {
    var cs', joined := Deepen(cs, owner, c1, c2), JoinOwner(owner, c1, c2);
    var old', new' := Scaled(cs, m), Scaled(cs', m + 1);
    forall s | 0 <= s < SYMBOLS
      ensures new'[s] == if owner[s] == c1 || owner[s] == c2 then old'[s] else 2 * old'[s]
    {
      assert Pow2(m + 1 - cs[s]) == 2 * Pow2(m - cs[s]);
    }
    forall c | 0 <= c < SYMBOLS && Merge(freq, c1, c2)[c] > 0
      ensures Sum(Owned(new', joined, c)) == Pow2(m + 1)
    {
      if c == c1 {
        SumLinear(Owned(old', owner, c1), 1, Owned(old', owner, c2), 1, Owned(new', joined, c));
      } else {
        SumLinear(Owned(old', owner, c), 2, Owned(old', owner, c), 0, Owned(new', joined, c));
      }
    }
  }

  // Moving two branches down costs their total count.
  lemma DeepenCost(f0: seq<nat>, freq: seq<nat>, cs: seq<nat>, owner: seq<int>, c1: nat, c2: nat)
    requires Weighed(f0, freq, owner) && |cs| == SYMBOLS && c1 < SYMBOLS && c2 < SYMBOLS && c1 != c2
    ensures Cost(f0, Deepen(cs, owner, c1, c2)) == Cost(f0, cs) + freq[c1] + freq[c2]
  {
    var p, q := Products(f0, cs), Products(f0, Deepen(cs, owner, c1, c2));
    var w1, w2 := Owned(f0, owner, c1), Owned(f0, owner, c2);
    var w := seq(SYMBOLS, s requires 0 <= s < SYMBOLS => w1[s] + w2[s]);
    SumLinear(w1, 1, w2, 1, w);
    forall s | 0 <= s < SYMBOLS
      ensures q[s] == 1 * p[s] + 1 * w[s]
    {
      assert f0[s] * (cs[s] + 1) == f0[s] * cs[s] + f0[s];
    }
    SumLinear(p, 1, w, 1, q);
  }

  lemma BoundedBySum(f: seq<nat>)
    requires Sum(f) <= SENTINEL
    ensures forall i :: 0 <= i < |f| ==> f[i] <= SENTINEL
  {
    forall i | 0 <= i < |f|
      ensures f[i] <= SENTINEL
    {
      SumBoundsTerm(f, i);
    }
  }

  lemma SumBoundsTerm(f: seq<nat>, i: nat)
    requires i < |f|
    ensures f[i] <= Sum(f)
  {
    SumUpdate(f, i, 0);
    var z := seq(|f|, _ => 0);
    SumZero(z);
    SumMonotone(z, f[i := 0]);
  }

  // ----- How deep a tree can get -----

  // The least count of a tree of depth d: Fibonacci numbers.
  function LeastWeight(d: nat): (w: nat)
    ensures w >= 1
  {
    if d == 0 then 1 else if d == 1 then 2 else LeastWeight(d - 1) + LeastWeight(d - 2)
  }

  lemma {:induction false} LeastWeightGrows(d: nat, e: nat)
    requires d <= e
    ensures LeastWeight(d) <= LeastWeight(e)
  {
    if d < e {
      LeastWeightGrows(d, e - 1);
    }
  }

  // depth bounds the tree of each root, and child is the count of the heavier of the two trees
  // it was merged from; no root is lighter than that.
  ghost predicate Grown(freq: seq<nat>, cs: seq<nat>, owner: seq<int>, depth: seq<nat>, child: seq<nat>) {
    && |freq| == |cs| == |owner| == |depth| == |child| == SYMBOLS
    && (forall s :: 0 <= s < SYMBOLS && 0 <= owner[s] < SYMBOLS ==> cs[s] <= depth[owner[s]])
    && (forall c :: 0 <= c < SYMBOLS && freq[c] > 0 ==> GrownRoot(freq[c], depth[c], child[c]))
    && (forall c, e :: 0 <= c < SYMBOLS && 0 <= e < SYMBOLS && freq[c] > 0 && freq[e] > 0 ==> freq[e] >= child[c])
  }

  predicate GrownRoot(weight: nat, depth: nat, child: nat) {
    weight >= LeastWeight(depth) && (depth > 0 ==> child >= LeastWeight(depth - 1))
  }

  function Deeper(d: nat, e: nat): nat {
    (if d >= e then d else e) + 1
  }

  // Two trees, of which neither is lighter than the heavier part of the other.
  lemma MergedRoot(w1: nat, d1: nat, x1: nat, w2: nat, d2: nat, x2: nat)
    requires GrownRoot(w1, d1, x1) && GrownRoot(w2, d2, x2) && w1 <= w2 && w1 >= x2 && w2 >= x1
    ensures GrownRoot(w1 + w2, Deeper(d1, d2), w2)
  {
    var d := if d1 >= d2 then d1 else d2;
    if d > 0 {
      assert LeastWeight(d + 1) == LeastWeight(d) + LeastWeight(d - 1);
    }
  }

  lemma GrownJoin(freq: seq<nat>, cs: seq<nat>, owner: seq<int>, depth: seq<nat>, child: seq<nat>, c1: nat, c2: nat)
    requires Grown(freq, cs, owner, depth, child) && TwoLeast(freq, c1, c2)
    ensures Grown(Merge(freq, c1, c2), Deepen(cs, owner, c1, c2), JoinOwner(owner, c1, c2),
                  depth[c1 := Deeper(depth[c1], depth[c2])], child[c1 := freq[c2]])
  {
    hide GrownRoot;
    MergedRoot(freq[c1], depth[c1], child[c1], freq[c2], depth[c2], child[c2]);
  }

  lemma GrownStart(freq: seq<nat>, owner: seq<int>)
    requires |freq| == |owner| == SYMBOLS
    ensures Grown(freq, seq(SYMBOLS, _ => 0), owner, seq(SYMBOLS, _ => 0), seq(SYMBOLS, _ => 0))
  {
  }

  // In the end a long code means a great count.
  lemma GrownEnd(f0: seq<nat>, freq: seq<nat>, cs: seq<nat>, owner: seq<int>, depth: seq<nat>, child: seq<nat>, c: nat)
    requires Grown(freq, cs, owner, depth, child) && c < SYMBOLS && freq[c] > 0
    requires forall i :: 0 <= i < SYMBOLS && i != c ==> freq[i] == 0
    requires Sum(freq) == Sum(f0) && |f0| == SYMBOLS
    requires forall s :: 0 <= s < SYMBOLS && cs[s] > 0 ==> owner[s] == c
    ensures forall s :: 0 <= s < SYMBOLS ==> cs[s] == 0 || Sum(f0) >= LeastWeight(cs[s])
  {
    hide Sum, LeastWeight;
    SumOfOne(freq, c);
    forall s | 0 <= s < SYMBOLS && cs[s] > 0
      ensures Sum(f0) >= LeastWeight(cs[s])
    {
      LeastWeightGrows(cs[s], depth[c]);
    }
  }

  // ----- The sizes as a function of the counts -----

  // Code sizes when merging goes on from here. Ties are broken by the symbol number, so there
  // is only one way to go on.
  ghost function SizesFrom(freq: seq<nat>, owner: seq<int>, cs: seq<nat>): (r: seq<nat>)
    requires |freq| == |owner| == |cs|
    ensures |r| == |cs|
    decreases Positive(freq)
  {
    if Mergeable(freq) then
      var c1: nat, c2: nat :| TwoLeast(freq, c1, c2);
      MergePositive(freq, c1, c2);
      SizesFrom(Merge(freq, c1, c2), JoinOwner(owner, c1, c2), Deepen(cs, owner, c1, c2))
    else cs
  }

  lemma SizesStep(freq: seq<nat>, owner: seq<int>, cs: seq<nat>, c1: nat, c2: nat)
    requires |freq| == |owner| == |cs| && TwoLeast(freq, c1, c2)
    ensures SizesFrom(freq, owner, cs)
      == SizesFrom(Merge(freq, c1, c2), JoinOwner(owner, c1, c2), Deepen(cs, owner, c1, c2))
  {
    assert forall d1: nat, d2: nat :: TwoLeast(freq, d1, d2) ==> d1 == c1 && d2 == c2;
  }

  function StartOwner(f: seq<nat>): (owner: seq<int>)
    ensures |owner| == |f|
  {
    seq(|f|, i requires 0 <= i < |f| => if f[i] > 0 then i else -1)
  }

  // The code sizes of Huffman's algorithm for these counts.
  ghost function CodeSizes(f: seq<nat>): (cs: seq<nat>)
    ensures |cs| == |f|
  {
    SizesFrom(f, StartOwner(f), seq(|f|, _ => 0))
  }

  lemma SizesEnd(freq: seq<nat>, owner: seq<int>, cs: seq<nat>, c: nat)
    requires |freq| == |owner| == |cs| && c < |freq| && forall i :: 0 <= i < |freq| && i != c ==> freq[i] == 0
    ensures SizesFrom(freq, owner, cs) == cs
  {
  }

  // ----- No code is longer than that of the pseudo-symbol -----

  // Root u is found before root v.
  predicate Earlier(freq: seq<nat>, u: nat, v: nat)
    requires u < |freq| && v < |freq|
  {
    freq[u] < freq[v] || (freq[u] == freq[v] && v < u)
  }

  // The tree at t holds the pseudo-symbol at its greatest depth. No other tree is deeper, and
  // one as deep is found later. When the tree was merged, the later of its two parts had count
  // x and root i; all other roots come after that part.
  ghost predicate Leads(freq: seq<nat>, cs: seq<nat>, owner: seq<int>, depth: seq<nat>, t: nat, x: nat, i: nat) {
    && |freq| == |cs| == |owner| == |depth| == SYMBOLS
    && t < SYMBOLS && freq[t] > 0 && owner[256] == t && cs[256] == depth[t]
    && (forall u :: 0 <= u < SYMBOLS && u != t && freq[u] > 0 ==>
          depth[u] <= depth[t] && (depth[u] == depth[t] ==> Earlier(freq, t, u)))
    && (depth[t] > 0 ==>
          && freq[t] <= 2 * x && (freq[t] == 2 * x ==> i < t)
          && forall u :: 0 <= u < SYMBOLS && u != t && freq[u] > 0 ==> freq[u] > x || (freq[u] == x && u < i))
  }

  lemma LeadsStart(f0: seq<nat>)
    requires |f0| == SYMBOLS && f0[256] == 1
    ensures Leads(f0, seq(SYMBOLS, _ => 0), StartOwner(f0), seq(SYMBOLS, _ => 0), 256, 0, 0)
  {
  }

  lemma LeadsJoin(freq: seq<nat>, cs: seq<nat>, owner: seq<int>, depth: seq<nat>, t: nat, x: nat, i: nat,
                  c1: nat, c2: nat) returns (t': nat, x': nat, i': nat)
    requires Leads(freq, cs, owner, depth, t, x, i) && TwoLeast(freq, c1, c2)
    ensures Leads(Merge(freq, c1, c2), Deepen(cs, owner, c1, c2), JoinOwner(owner, c1, c2),
                  depth[c1 := Deeper(depth[c1], depth[c2])], t', x', i')
  {
    if t == c1 || t == c2 {
      t', x', i' := c1, freq[c2], c2;
    } else {
      t', x', i' := t, x, i;
      assert Earlier(freq, c1, t) && Earlier(freq, c2, t);
    }
  }

  lemma LeadsEnd(freq: seq<nat>, cs: seq<nat>, owner: seq<int>, depth: seq<nat>, child: seq<nat>, t: nat, x: nat,
                 i: nat, c: nat)
    requires Leads(freq, cs, owner, depth, t, x, i) && Grown(freq, cs, owner, depth, child)
    requires c < SYMBOLS && forall k :: 0 <= k < SYMBOLS && k != c ==> freq[k] == 0
    requires forall s :: 0 <= s < SYMBOLS && cs[s] > 0 ==> owner[s] == c
    ensures forall s :: 0 <= s < SYMBOLS ==> cs[s] <= cs[256]
  {
  }

  // ----- The algorithm -----

  // Find the smallest nonzero count other than that of c1; in case of ties, take the
  // larger symbol number. -1 if there is none.
  method FindLeast(freq: array<nat>, c1: int) returns (c: int)
    requires freq.Length == SYMBOLS
    requires forall i :: 0 <= i < SYMBOLS ==> freq[i] <= SENTINEL
    ensures c == -1 ==> forall i :: 0 <= i < SYMBOLS && i != c1 ==> freq[i] == 0
    ensures c != -1 ==> IsLeast(freq[..], c1, c)
  {
    c := -1;
    var v := SENTINEL;
    for i := 0 to SYMBOLS
      invariant -1 <= c < i
      invariant c == -1 ==> v == SENTINEL && forall k :: 0 <= k < i && k != c1 ==> freq[k] == 0
      invariant c != -1 ==> v == freq[c] && c != c1 && v > 0
      invariant c != -1 ==> forall k :: 0 <= k < i && k != c1 && freq[k] > 0
                                        ==> v < freq[k] || (v == freq[k] && k <= c)
    {
      if freq[i] != 0 && freq[i] <= v && i != c1 {
        v := freq[i];
        c := i;
      }
    }
  }

  ghost predicate IsBranch(links: seq<int>, chain: seq<nat>) {
    && |links| == SYMBOLS
    && chain != []
    && (forall k :: 0 <= k < |chain| ==> 0 <= chain[k] < SYMBOLS)
    && (forall k :: 0 <= k < |chain| ==> links[chain[k]] == if k + 1 < |chain| then chain[k + 1] else -1)
    && (forall j, k :: 0 <= j < k < |chain| ==> chain[j] != chain[k])
  }

  lemma BranchStep(links: seq<int>, chain: seq<nat>, k: nat)
    requires IsBranch(links, chain) && k < |chain|
    ensures links[chain[k]] >= 0 <==> k + 1 < |chain|
    ensures k + 1 < |chain| ==> links[chain[k]] == chain[k + 1] < SYMBOLS && chain[k + 1] !in chain[..k + 1]
  {
    var next := k + 1;
    if next < |chain| {
      assert 0 <= chain[next] < SYMBOLS;
    }
  }

  // Increment the code size of everything in the branch of c; the last symbol is returned.
  method DeepenBranch(codesize: array<nat>, others: array<int>, c: nat, ghost chain: seq<nat>) returns (last: nat)
    requires codesize.Length == SYMBOLS && codesize as object != others as object
    requires others.Length == SYMBOLS && IsBranch(others[..], chain) && chain[0] == c
    modifies codesize
    ensures last == chain[|chain| - 1]
    ensures forall s :: 0 <= s < SYMBOLS ==> codesize[s] == old(codesize[s]) + if s in chain then 1 else 0
  {
    hide IsBranch;
    ghost var links, k := others[..], 0;
    BranchStart(links, chain);
    last := c;
    codesize[last] := codesize[last] + 1;
    while others[last] >= 0
      invariant 0 <= k < |chain| && last == chain[k] < SYMBOLS && others[..] == links
      invariant forall s :: 0 <= s < SYMBOLS ==> codesize[s] == old(codesize[s]) + if s in chain[..k + 1] then 1 else 0
      decreases |chain| - k
    {
      BranchStep(links, chain, k);
      assert others[last] == links[last];
      last := others[last];
      k := k + 1;
      assert chain[..k + 1] == chain[..k] + [last];
      codesize[last] := codesize[last] + 1;
    }
    BranchStep(links, chain, k);
    assert others[last] == links[last];
    assert chain[..k + 1] == chain;
  }

  lemma BranchStart(links: seq<int>, chain: seq<nat>)
    requires IsBranch(links, chain)
    ensures chain != [] && chain[0] < SYMBOLS && chain[..1] == [chain[0]]
  {
  }

  // Everything known about a forest in the middle of merging.
  ghost predicate Forest(f0: seq<nat>, freq: seq<nat>, cs: seq<nat>, others: seq<int>,
                         chains: seq<seq<nat>>, owner: seq<int>, index: seq<nat>, m: nat)
  {
    && |f0| == |freq| == |cs| == SYMBOLS
    && Linked(others, chains, owner, index)
    && Rooted(freq, chains)
    && Weighed(f0, freq, owner)
    && Complete(cs, freq, owner, m)
    && (forall s :: 0 <= s < SYMBOLS ==> (f0[s] > 0 <==> owner[s] != -1))
    && (forall s :: 0 <= s < SYMBOLS && f0[s] == 0 ==> cs[s] == 0)
    && (forall s :: 0 <= s < SYMBOLS && f0[s] > 0 && cs[s] == 0 ==> |chains[owner[s]]| == 1)
    && Cost(f0, cs) + MergeCost(freq) == MergeCost(f0)
  }

  lemma ForestJoin(f0: seq<nat>, freq: seq<nat>, cs: seq<nat>, others: seq<int>, chains: seq<seq<nat>>,
                   owner: seq<int>, index: seq<nat>, m: nat, c1: nat, c2: nat)
    requires Forest(f0, freq, cs, others, chains, owner, index, m)
    requires TwoLeast(freq, c1, c2)
    ensures var last := chains[c1][|chains[c1]| - 1];
            last < SYMBOLS
            && Forest(f0, Merge(freq, c1, c2), Deepen(cs, owner, c1, c2), others[last := c2],
                      JoinChains(chains, c1, c2), JoinOwner(owner, c1, c2),
                      JoinIndex(owner, index, c2, |chains[c1]|), m + 1)
  {
    hide Cost, Weighed, Complete, MergeCost;
    JoinLinked(others, chains, owner, index, c1, c2);
    JoinWeighed(f0, freq, owner, c1, c2);
    JoinComplete(cs, freq, owner, m, c1, c2);
    DeepenCost(f0, freq, cs, owner, c1, c2);
    MergeCostStep(freq, c1, c2);
  }

  lemma ForestStart(f0: seq<nat>, others: seq<int>) returns (chains: seq<seq<nat>>, owner: seq<int>, index: seq<nat>)
    requires |f0| == |others| == SYMBOLS && forall i :: 0 <= i < SYMBOLS ==> others[i] == -1
    ensures Forest(f0, f0, seq(SYMBOLS, _ => 0), others, chains, owner, index, 0)
    ensures owner == StartOwner(f0)
  {
    hide Cost, MergeCost;
    var cs: seq<nat> := seq(SYMBOLS, _ => 0);
    chains := seq(SYMBOLS, i requires 0 <= i < SYMBOLS => if f0[i] > 0 then [i] else []);
    owner := StartOwner(f0);
    index := seq(SYMBOLS, _ => 0);
    StartSums(f0, owner);
    CostOfZero(f0);
  }

  lemma CostOfZero(f0: seq<nat>)
    ensures Cost(f0, seq(|f0|, _ => 0)) == 0
  {
    SumZero(Products(f0, seq(|f0|, _ => 0)));
  }

  lemma StartSums(f0: seq<nat>, owner: seq<int>)
    requires |f0| == |owner| == SYMBOLS
    requires forall i :: 0 <= i < SYMBOLS ==> owner[i] == if f0[i] > 0 then i else -1
    ensures Weighed(f0, f0, owner) && Complete(seq(SYMBOLS, _ => 0), f0, owner, 0)
  {
    var cs: seq<nat> := seq(SYMBOLS, _ => 0);
    forall c | 0 <= c < SYMBOLS
      ensures f0[c] == Sum(Owned(f0, owner, c))
      ensures f0[c] > 0 ==> Sum(Owned(Scaled(cs, 0), owner, c)) == 1
    {
      SumOfOne(Owned(f0, owner, c), c);
      SumOfOne(Owned(Scaled(cs, 0), owner, c), c);
    }
  }

  lemma SumOfOne(s: seq<int>, c: nat)
    requires c < |s| && forall i :: 0 <= i < |s| && i != c ==> s[i] == 0
    ensures Sum(s) == s[c]
  {
    SumUpdate(s, c, 0);
    SumZero(s[c := 0]);
  }

  // What merging achieves: the code sizes form a complete code for exactly the symbols
  // counted, and cost what the merging procedure costs.
  ghost predicate CompleteCode(f0: seq<nat>, cs: seq<nat>) {
    && |cs| == |f0| == SYMBOLS
    && (forall s :: 0 <= s < SYMBOLS ==> (f0[s] > 0 <==> cs[s] > 0))
    && exists m :: Fits(f0, cs, m) && Kraft(f0, cs, m) == Pow2(m)
  }

  // One tree left: the forest is a code.
  lemma ForestEnd(f0: seq<nat>, freq: seq<nat>, cs: seq<nat>, others: seq<int>, chains: seq<seq<nat>>,
                  owner: seq<int>, index: seq<nat>, m: nat, c1: nat, a: nat, b: nat)
    requires Forest(f0, freq, cs, others, chains, owner, index, m)
    requires c1 < SYMBOLS && freq[c1] > 0 && forall i :: 0 <= i < SYMBOLS && i != c1 ==> freq[i] == 0
    requires a < SYMBOLS && b < SYMBOLS && a != b && f0[a] > 0 && f0[b] > 0
    ensures CompleteCode(f0, cs)
    ensures Cost(f0, cs) == MergeCost(f0)
  {
    hide Cost, Weighed, MergeCost, Linked, Rooted, Complete, CompleteCode;
    OneOwner(f0, freq, cs, others, chains, owner, index, m, c1);
    TwoInBranch(others, chains, owner, index, c1, a, b);
    CodeOfTree(f0, freq, cs, owner, m, c1);
    OneTreeCostsNothing(freq, c1);
  }

  lemma TwoInBranch(others: seq<int>, chains: seq<seq<nat>>, owner: seq<int>, index: seq<nat>, c: nat, a: nat, b: nat)
    requires Linked(others, chains, owner, index) && c < SYMBOLS && a < SYMBOLS && b < SYMBOLS && a != b
    requires owner[a] == owner[b] == c
    ensures |chains[c]| != 1
  {
    assert chains[c][index[a]] == a && chains[c][index[b]] == b;
  }

  // A complete tree of all symbols counted is a complete code.
  lemma CodeOfTree(f0: seq<nat>, freq: seq<nat>, cs: seq<nat>, owner: seq<int>, m: nat, c1: nat)
    requires |f0| == |freq| == |cs| == |owner| == SYMBOLS && c1 < SYMBOLS && freq[c1] > 0
    requires Complete(cs, freq, owner, m)
    requires forall s :: 0 <= s < SYMBOLS ==> (f0[s] > 0 <==> owner[s] == c1) && (f0[s] > 0 <==> cs[s] > 0)
    ensures CompleteCode(f0, cs)
  {
    assert Fits(f0, cs, m) by { }
    assert Owned(Scaled(cs, m), owner, c1) == Shares(f0, cs, m);
    assert Kraft(f0, cs, m) == Pow2(m);
  }

  lemma OneOwner(f0: seq<nat>, freq: seq<nat>, cs: seq<nat>, others: seq<int>, chains: seq<seq<nat>>,
                 owner: seq<int>, index: seq<nat>, m: nat, c1: nat)
    requires Forest(f0, freq, cs, others, chains, owner, index, m)
    requires c1 < SYMBOLS && forall i :: 0 <= i < SYMBOLS && i != c1 ==> freq[i] == 0
    ensures |owner| == |chains| == SYMBOLS
    ensures forall s :: 0 <= s < SYMBOLS ==> (f0[s] > 0 <==> owner[s] == c1) && (cs[s] > 0 ==> owner[s] == c1)
  {
    hide Cost, Weighed, Complete, MergeCost;
    forall s | 0 <= s < SYMBOLS && f0[s] > 0
      ensures owner[s] == c1
    {
      assert chains[owner[s]] != [];
    }
  }

  lemma ForestOwners(f0: seq<nat>, freq: seq<nat>, cs: seq<nat>, others: seq<int>, chains: seq<seq<nat>>,
                     owner: seq<int>, index: seq<nat>, m: nat)
    requires Forest(f0, freq, cs, others, chains, owner, index, m)
    ensures |f0| == |owner| == |cs| == SYMBOLS
  {
    hide Cost, Weighed, Complete, MergeCost, Rooted;
  }

  lemma OneTreeCostsNothing(freq: seq<nat>, c1: nat)
    requires c1 < |freq| && forall i :: 0 <= i < |freq| && i != c1 ==> freq[i] == 0
    ensures MergeCost(freq) == 0
  {
  }

  lemma ForestNonempty(f0: seq<nat>, freq: seq<nat>, cs: seq<nat>, others: seq<int>, chains: seq<seq<nat>>,
                       owner: seq<int>, index: seq<nat>, m: nat, a: nat)
    requires Forest(f0, freq, cs, others, chains, owner, index, m) && a < SYMBOLS && f0[a] > 0
    ensures exists c :: 0 <= c < SYMBOLS && freq[c] > 0
    ensures |owner| == |chains| == |index| == SYMBOLS && Linked(others, chains, owner, index) && Rooted(freq, chains)
  {
    hide Cost, MergeCost, Weighed, Complete;
    assert freq[owner[a]] > 0;
  }

  // Merge the two counts and chain the branch of c2 onto that of c1, one level down.
  method JoinBranches(freq: array<nat>, codesize: array<nat>, others: array<int>, c1: nat, c2: nat,
                      ghost chains: seq<seq<nat>>, ghost owner: seq<int>, ghost index: seq<nat>)
    requires freq.Length == codesize.Length == others.Length == SYMBOLS
    requires freq != codesize && codesize as object != others as object && freq as object != others as object
    requires |owner| == |chains| == SYMBOLS && Linked(others[..], chains, owner, index) && Rooted(freq[..], chains)
    requires c1 < SYMBOLS && c2 < SYMBOLS && c1 != c2 && freq[c1] > 0 && freq[c2] > 0
    modifies freq, codesize, others
    ensures freq[..] == Merge(old(freq[..]), c1, c2)
    ensures codesize[..] == Deepen(old(codesize[..]), owner, c1, c2)
    ensures others[..] == old(others[..])[chains[c1][|chains[c1]| - 1] := c2]
  {
    hide IsBranch, Linked, Rooted;
    ghost var links, cs := others[..], codesize[..];
    BranchesOf(freq[..], links, chains, owner, index, c1, c2);
    freq[c1] := freq[c1] + freq[c2];
    freq[c2] := 0;
    var last := DeepenBranch(codesize, others, c1, chains[c1]);
    others[last] := c2;
    var _ := DeepenBranch(codesize, others, c2, chains[c2]);
    assert codesize[..] == Deepen(cs, owner, c1, c2);
  }

  lemma BranchesOf(freq: seq<nat>, others: seq<int>, chains: seq<seq<nat>>, owner: seq<int>, index: seq<nat>,
                   c1: nat, c2: nat)
    requires Linked(others, chains, owner, index) && Rooted(freq, chains)
    requires c1 < SYMBOLS && c2 < SYMBOLS && c1 != c2 && freq[c1] > 0 && freq[c2] > 0
    ensures IsBranch(others, chains[c1]) && chains[c1][0] == c1
    ensures var last := chains[c1][|chains[c1]| - 1];
            last < SYMBOLS && IsBranch(others[last := c2], chains[c2]) && chains[c2][0] == c2
    ensures forall s :: 0 <= s < SYMBOLS ==> (s in chains[c1] <==> owner[s] == c1)
    ensures forall s :: 0 <= s < SYMBOLS ==> (s in chains[c2] <==> owner[s] == c2)
  {
  }

  // Huffman's basic algorithm: optimal code lengths for the symbols counted.
  method BuildTree(freq: array<nat>, codesize: array<nat>, others: array<int>)
    requires freq.Length == codesize.Length == others.Length == SYMBOLS
    requires freq != codesize && codesize as object != others as object && freq as object != others as object
    requires forall i :: 0 <= i < SYMBOLS ==> codesize[i] == 0 && others[i] == -1
    requires Sum(freq[..]) <= SENTINEL && freq[256] == 1
    requires exists a, b :: 0 <= a < b < SYMBOLS && freq[a] > 0 && freq[b] > 0
    modifies freq, codesize, others
    ensures CompleteCode(old(freq[..]), codesize[..])
    ensures Cost(old(freq[..]), codesize[..]) == MergeCost(old(freq[..]))
    ensures codesize[..] == CodeSizes(old(freq[..]))
    ensures forall s :: 0 <= s < SYMBOLS ==> codesize[s] <= codesize[256]
    ensures forall s :: 0 <= s < SYMBOLS ==> codesize[s] == 0 || Sum(old(freq[..])) >= LeastWeight(codesize[s])
  {
    hide Forest, Cost, MergeCost, Sum, Linked, Rooted, Grown, LeastWeight, SizesFrom, Leads, CompleteCode;
    ghost var f0 := freq[..];
    ghost var a, b :| 0 <= a < b < SYMBOLS && freq[a] > 0 && freq[b] > 0;
    ghost var m := 0;
    ghost var chains, owner, index := ForestStart(f0, others[..]);
    assert codesize[..] == seq(SYMBOLS, _ => 0);
    ghost var depth: seq<nat>, child: seq<nat> := seq(SYMBOLS, _ => 0), seq(SYMBOLS, _ => 0);
    ForestOwners(f0, freq[..], codesize[..], others[..], chains, owner, index, m);
    GrownStart(f0, owner);
    LeadsStart(f0);
    ghost var t, x, i := 256, 0, 0;
    while true
      invariant Forest(f0, freq[..], codesize[..], others[..], chains, owner, index, m)
      invariant Sum(freq[..]) == Sum(f0) && |owner| == |depth| == |child| == SYMBOLS
      invariant Grown(freq[..], codesize[..], owner, depth, child)
      invariant Leads(freq[..], codesize[..], owner, depth, t, x, i)
      invariant SizesFrom(freq[..], owner, codesize[..]) == CodeSizes(f0)
      decreases Positive(freq[..])
    {
      ghost var now := freq[..];
      BoundedBySum(now);
      ForestNonempty(f0, now, codesize[..], others[..], chains, owner, index, m, a);
      var c1 := FindLeast(freq, -1);
      var c2 := FindLeast(freq, c1);
      if c2 < 0 {
        ForestEnd(f0, now, codesize[..], others[..], chains, owner, index, m, c1, a, b);
        OneOwner(f0, now, codesize[..], others[..], chains, owner, index, m, c1);
        GrownEnd(f0, now, codesize[..], owner, depth, child, c1);
        LeadsEnd(now, codesize[..], owner, depth, child, t, x, i, c1);
        SizesEnd(now, owner, codesize[..], c1);
        break;
      }
      ForestJoin(f0, now, codesize[..], others[..], chains, owner, index, m, c1, c2);
      GrownJoin(now, codesize[..], owner, depth, child, c1, c2);
      t, x, i := LeadsJoin(now, codesize[..], owner, depth, t, x, i, c1, c2);
      SizesStep(now, owner, codesize[..], c1, c2);
      depth, child := depth[c1 := Deeper(depth[c1], depth[c2])], child[c1 := now[c2]];
      MergeKeepsSum(now, c1, c2);
      MergePositive(now, c1, c2);
      JoinBranches(freq, codesize, others, c1, c2, chains, owner, index);
      owner, index, chains := JoinOwner(owner, c1, c2), JoinIndex(owner, index, c2, |chains[c1]|),
                              JoinChains(chains, c1, c2);
      m := m + 1;
    }
  }
}
