// Point transforms: how coefficients look when only the bits from some position on are sent
// (section G.1.2 of ITU-T T.81), and what one more bit adds.

module PointTransform {
  import opened CodeBits
  import opened Coefficients

  // ----- AC coefficients: magnitudes lose their low bits -----

  function Magnitude(x: int, al: nat): nat {
    Quotient(Abs(x), Pow2(al))
  }

  function Quotient(n: nat, w: nat): nat
    requires w > 0
  {
    n / w
  }

  // The part of a coefficient that is known once bit al has been sent.
  function Truncate(x: int, al: nat): int {
    var m := Magnitude(x, al) * Pow2(al);
    if x < 0 then -m else m
  }

  lemma HalfMagnitude(x: int, al: nat)
    ensures Magnitude(x, al + 1) == Magnitude(x, al) / 2
  {
    hide Pow2;
    assert Pow2(al + 1) == 2 * Pow2(al) by { Pow2Add(al, 1); Pow2Constants(); }
    HalfOfQuotient(Abs(x), Pow2(al));
  }

  lemma NextBitOf(a: nat, w: nat)
    requires w > 0
    ensures a <= 1 <==> a / 2 * (2 * w) == 0
    ensures a <= 1 ==> a * w == if a == 0 then 0 else w
    ensures a / 2 * (2 * w) / w % 2 == 0 && -(a / 2 * (2 * w)) / w % 2 == 0
    ensures a * w == a / 2 * (2 * w) + if a % 2 == 0 then 0 else w
  {
    var h := a / 2;
    MulTwice(h, w);
    assert (2 * h) * w == 2 * (h * w);
    assert (-2 * h) * w == -(2 * (h * w));
    DivideSigned(2 * h, w, 0);
    DivideSigned(-2 * h, w, 0);
    if h > 0 {
      MulMonotone(1, h, w);
    }
    if a != 2 * h {
      assert (2 * h + 1) * w == (2 * h) * w + w;
    }
  }

  // A coefficient without its low bits, as it is coded.
  function Signed(x: int, al: nat): int {
    var m: int := Magnitude(x, al);
    if x < 0 then -m else m
  }

  lemma SignedScales(x: int, al: nat)
    ensures Signed(x, al) * Pow2(al) == Truncate(x, al)
    ensures Abs(Signed(x, al)) == Magnitude(x, al)
  {
    var m: int, w := Magnitude(x, al), Pow2(al);
    assert (-m) * w == -(m * w);
  }

  // Truncation shortens.
  lemma TruncateFits(x: int, al: nat)
    requires -0x8000 <= x < 0x8000
    ensures ToCoef(Truncate(x, al)) == Truncate(x, al)
    ensures Magnitude(x, al) <= Abs(x)
  {
    var a, w := Abs(x), Pow2(al);
    var q := Quotient(a, w);
    assert a == q * w + a % w;
    MulMonotone(1, w, q);
    assert q <= q * w <= a;
  }

  // ----- DC coefficients: an arithmetic shift -----

  // Bit al of the two's-complement coefficient.
  predicate HasBit(x: int, al: nat) {
    x / Pow2(al) % 2 != 0
  }

  function Shifted(x: int, al: nat): int {
    x / Pow2(al)
  }

  // Bit al set, whatever it was.
  function WithBit(x: int, al: nat): int {
    if HasBit(x, al) then x else x + Pow2(al)
  }

  lemma HalfOfShifted(x: int, w: nat)
    requires w > 0
    ensures x / w == 2 * (x / (2 * w)) + x / w % 2
  {
    var q, r := x / w, x % w;
    assert x == q * w + r;
    var h, o := q / 2, q % 2;
    assert q == 2 * h + o;
    assert (2 * h + o) * w == h * (2 * w) + o * w;
    assert o * w + r < 2 * w;
    DivideSigned(h, 2 * w, o * w + r);
  }

  // From precision al + 1 to precision al.
  lemma NextDcBit(x: int, al: nat)
    ensures var y := Shifted(x, al + 1) * Pow2(al + 1);
      Shifted(x, al) * Pow2(al) == if HasBit(x, al) then WithBit(y, al) else y
  {
    var w := Pow2(al);
    var h := x / (2 * w);
    HalfOfShifted(x, w);
    MulTwice(h, w);
    assert (2 * h) * w == h * (2 * w);
    DivideSigned(2 * h, w, 0);
    assert (2 * h + 1) * w == (2 * h) * w + w;
  }

  lemma ShiftedFits(x: int, al: nat)
    requires -0x8000 <= x < 0x8000 && al <= 15
    ensures ToCoef(Shifted(x, al) * Pow2(al)) == Shifted(x, al) * Pow2(al)
    ensures -0x8000 <= Shifted(x, al) < 0x8000
  {
    var w, n := Pow2(al), Pow2(15 - al);
    Pow2Add(15 - al, al);
    Pow2Constants();
    ShiftBounds(x, w, n);
  }

  lemma ShiftBounds(x: int, w: nat, n: nat)
    requires w > 0 && n * w == 0x8000 && -0x8000 <= x < 0x8000
    ensures -0x8000 <= x / w < 0x8000 && -0x8000 <= x / w * w < 0x8000
  {
    var q, r := x / w, x % w;
    assert x == q * w + r;
    QuotientBounds(q, w, n, r);
  }

  lemma NegativeTimes(m: int, w: int)
    ensures (-m) * w == -(m * w) && (-m - 1) * w == -(m * w) - w
  {
  }

  lemma QuotientBounds(q: int, w: nat, n: nat, r: nat)
    requires r < w && n * w == 0x8000 && -0x8000 <= q * w + r < 0x8000
    ensures -0x8000 <= q < 0x8000 && -0x8000 <= q * w < 0x8000
  {
    var m: int := n;
    NegativeTimes(m, w);
    MulMonotone(1, w, n);
    MulMonotone(if q < -m then q else -m - 1, -m - 1, w);
    MulMonotone(-m, if q < -m then -m else q, w);
    if q > 0 {
      MulMonotone(1, w, q);
    }
  }

  // ----- What a decoder knows of a block -----

  // The value of coefficient j (in zigzag order) when the bits from position bits on are
  // known; nothing is known if bits is negative.
  function Level(j: nat, x: int, bits: int): int {
    if bits < 0 then 0 else if j == 0 then Shifted(x, bits) * Pow2(bits) else Truncate(x, bits)
  }

  ghost predicate AtPrecision(order: seq<nat>, x: seq<int>, y: seq<int>, bits: seq<int>) {
    && ValidOrder(order) && |x| == |y| == |bits| == BLOCK
    && forall j :: 0 <= j < BLOCK ==> y[order[j]] == Level(j, x[order[j]], bits[j])
  }

  // One coefficient at a new precision.
  lemma PrecisionStep(order: seq<nat>, x: seq<int>, y: seq<int>, bits: seq<int>, k: nat, al: int, v: int)
    requires AtPrecision(order, x, y, bits) && k < BLOCK && v == Level(k, x[order[k]], al)
    ensures AtPrecision(order, x, y[order[k] := v], bits[k := al])
  {
    hide Level;
  }

  lemma PrecisionKeep(order: seq<nat>, x: seq<int>, y: seq<int>, bits: seq<int>, k: nat, al: int)
    requires AtPrecision(order, x, y, bits) && k < BLOCK && y[order[k]] == Level(k, x[order[k]], al)
    ensures AtPrecision(order, x, y, bits[k := al])
  {
    hide Level;
  }

  lemma PrecisionAt(order: seq<nat>, x: seq<int>, y: seq<int>, bits: seq<int>, k: nat)
    requires AtPrecision(order, x, y, bits) && k < BLOCK
    ensures y[order[k]] == Level(k, x[order[k]], bits[k])
  {
    hide Level;
  }

  // All bits known: everything known.
  lemma FullPrecision(order: seq<nat>, x: seq<int>, y: seq<int>, bits: seq<int>)
    requires AtPrecision(order, x, y, bits) && forall j :: 0 <= j < BLOCK ==> bits[j] == 0
    ensures y == x
  {
    forall p | 0 <= p < BLOCK
      ensures y[p] == x[p]
    {
      assert p in order[..BLOCK];
      var j :| 0 <= j < BLOCK && order[..BLOCK][j] == p;
      PrecisionAt(order, x, y, bits, j);
      assert Pow2(0) == 1;
    }
  }
}
