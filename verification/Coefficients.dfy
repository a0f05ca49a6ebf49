// Blocks of coefficients and the order in which they are coded.

module Coefficients {
  const BLOCK := 64

  type Block = b: seq<int> | |b| == BLOCK witness seq(BLOCK, _ => 0)

  // A JCOEF has 16 bits.
  function ToCoef(x: int): int {
    (x + 0x8000) % 0x10000 - 0x8000
  }

  // Tables of a block and the component it belongs to.
  datatype Slot = Slot(ci: nat, dc: nat, ac: nat)

  // A zigzag order with extra entries for run lengths that lead out of the block.
  ghost predicate ValidOrder(order: seq<nat>) {
    && |order| >= BLOCK + 16
    && order[0] == 0
    && (forall k :: 0 <= k < |order| ==> order[k] < BLOCK)
    && (forall k :: BLOCK <= k < |order| ==> order[k] == order[BLOCK - 1])
    && (forall j, k :: 0 <= j < k < BLOCK ==> order[j] != order[k])
    && (forall p :: 0 <= p < BLOCK ==> p in order[..BLOCK])
  }

  // Zeros, with the first k coefficients of b filled in.
  ghost function Filled(order: seq<nat>, b: seq<int>, k: nat): (c: seq<int>)
    requires ValidOrder(order) && |b| == BLOCK && k <= BLOCK
    ensures |c| == BLOCK
  {
    if k == 0 then seq(BLOCK, _ => 0)
    else Filled(order, b, k - 1)[order[k - 1] := b[order[k - 1]]]
  }

  lemma {:induction false} FilledAt(order: seq<nat>, b: seq<int>, k: nat, j: nat)
    requires ValidOrder(order) && |b| == BLOCK && k <= BLOCK && j < BLOCK
    ensures Filled(order, b, k)[order[j]] == if j < k then b[order[j]] else 0
  {
    if k > 0 {
      FilledAt(order, b, k - 1, j);
    }
  }

  lemma FilledAll(order: seq<nat>, b: seq<int>)
    requires ValidOrder(order) && |b| == BLOCK
    ensures Filled(order, b, BLOCK) == b
  {
    var c := Filled(order, b, BLOCK);
    forall p | 0 <= p < BLOCK
      ensures c[p] == b[p]
    {
      assert p in order[..BLOCK];
      var j :| 0 <= j < BLOCK && order[..BLOCK][j] == p;
      FilledAt(order, b, BLOCK, j);
    }
  }

  lemma Entries(order: seq<nat>)
    requires ValidOrder(order)
    ensures |order| >= BLOCK + 16 && order[0] == 0 && forall k :: 0 <= k < |order| ==> order[k] < BLOCK
  {
  }

  lemma FillZero(order: seq<nat>, b: seq<int>, k: nat)
    requires ValidOrder(order) && |b| == BLOCK && k < BLOCK && b[order[k]] == 0
    ensures Filled(order, b, k + 1) == Filled(order, b, k)
  {
    FilledAt(order, b, k, k);
  }

  lemma FillNext(order: seq<nat>, b: seq<int>, k: nat)
    requires ValidOrder(order) && |b| == BLOCK && k < BLOCK
    ensures Filled(order, b, k)[order[k] := b[order[k]]] == Filled(order, b, k + 1)
  {
  }

  lemma FilledNone(order: seq<nat>, b: seq<int>)
    requires ValidOrder(order) && |b| == BLOCK
    ensures Filled(order, b, 0) == seq(BLOCK, _ => 0)
  {
  }

  // ----- The blocks of an MCU -----

  type Mcu = seq<seq<int>>

  // What a decoder is given to fill: zeros.
  function ZeroMcu(n: nat): (bs: Mcu)
    ensures |bs| == n && forall i :: 0 <= i < n ==> |bs[i]| == BLOCK
  {
    seq(n, _ => seq(BLOCK, _ => 0))
  }

  // The contents of the blocks of an MCU.
  ghost function Contents(blocks: seq<array<int>>): (c: Mcu)
    reads blocks
    ensures |c| == |blocks|
    ensures forall i :: 0 <= i < |blocks| ==> c[i] == blocks[i][..]
  {
    seq(|blocks|, i requires 0 <= i < |blocks| reads blocks => blocks[i][..])
  }

  method NewBlocks(n: nat) returns (blocks: seq<array<int>>)
    ensures |blocks| == n && forall i :: 0 <= i < n ==> fresh(blocks[i]) && blocks[i].Length == BLOCK
    ensures forall i, j :: 0 <= i < j < n ==> blocks[i] != blocks[j]
    ensures Contents(blocks) == ZeroMcu(n)
  {
    blocks := [];
    for k := 0 to n
      invariant |blocks| == k && forall i :: 0 <= i < k ==> fresh(blocks[i]) && blocks[i].Length == BLOCK
      invariant forall i, j :: 0 <= i < j < k ==> blocks[i] != blocks[j]
      invariant Contents(blocks) == ZeroMcu(k)
    {
      var a := new int[BLOCK](_ => 0);
      assert a[..] == ZeroMcu(k + 1)[k];
      blocks := blocks + [a];
    }
  }

  method ReadOut(blocks: seq<array<int>>) returns (mcu: Mcu)
    ensures mcu == Contents(blocks)
  {
    mcu := [];
    for k := 0 to |blocks|
      invariant |mcu| == k && forall i :: 0 <= i < k ==> mcu[i] == blocks[i][..]
    {
      mcu := mcu + [blocks[k][..]];
    }
  }
}
