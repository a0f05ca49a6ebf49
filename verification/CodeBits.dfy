// A compressed segment read as one long binary fraction: the bits of its bytes,
// most significant first, followed by zero bits for ever.

module CodeBits {

  type Byte = b: int | 0 <= b < 256

  function Pow2(n: nat): (p: nat)
    ensures p >= 1
  {
    if n == 0 then 1 else 2 * Pow2(n - 1)
  }

  function Abs(x: int): nat { if x < 0 then -x else x }

  function ByteAt(bs: seq<Byte>, i: nat): Byte {
    if i < |bs| then bs[i] else 0
  }

  // The leading i bits of a byte.
  function TopBits(b: Byte, i: nat): (top: nat)
    requires i <= 8
    ensures top < Pow2(i)
    ensures b == 0 ==> top == 0
    decreases 8 - i
  {
    if i == 8 then Pow2Constants(); b else TopBits(b, i + 1) / 2
  }

  // Bit i of a byte, the most significant bit being bit 0.
  function BitOf(b: Byte, i: nat): (bit: int)
    requires i < 8
    ensures 0 <= bit <= 1
    ensures b == 0 ==> bit == 0
  {
    TopBits(b, i + 1) % 2
  }

  function BitAt(bs: seq<Byte>, i: nat): (bit: int)
    ensures 0 <= bit <= 1
  {
    BitOf(ByteAt(bs, i / 8), i % 8)
  }

  // The integer formed by the first m bits.
  function Prefix(bs: seq<Byte>, m: nat): nat {
    if m == 0 then 0 else 2 * Prefix(bs, m - 1) + BitAt(bs, m - 1)
  }

  // The integer formed by whole bytes.
  function Value(bs: seq<Byte>): nat {
    if |bs| == 0 then 0 else 256 * Value(bs[..|bs| - 1]) + bs[|bs| - 1]
  }

  function Repeat(b: Byte, k: nat): (bs: seq<Byte>)
    ensures |bs| == k
    ensures forall i :: 0 <= i < k ==> bs[i] == b
  {
    seq(k, _ => b)
  }

  lemma {:induction false} Pow2Add(m: nat, n: nat)
    ensures Pow2(m + n) == Pow2(m) * Pow2(n)
  {
    if n > 0 {
      Pow2Add(m, n - 1);
      assert Pow2(m + n) == 2 * Pow2(m + (n - 1));
    }
  }

  lemma Pow2Constants()
    ensures Pow2(1) == 2 && Pow2(2) == 4 && Pow2(3) == 8 && Pow2(4) == 16
    ensures Pow2(5) == 32 && Pow2(6) == 64 && Pow2(7) == 128 && Pow2(8) == 256
    ensures Pow2(9) == 512 && Pow2(10) == 1024 && Pow2(11) == 2048
    ensures Pow2(15) == 0x8000 && Pow2(16) == 0x10000
  {
  }

  lemma {:induction false} Pow2Monotone(m: nat, n: nat)
    requires m <= n
    ensures Pow2(m) <= Pow2(n)
  {
    if m < n {
      Pow2Monotone(m, n - 1);
    }
  }

  // Dropping the last k bits is division by 2^k.
  lemma {:induction false} PrefixDrop(bs: seq<Byte>, m: nat, k: nat)
    ensures Prefix(bs, m) * Pow2(k) <= Prefix(bs, m + k) < (Prefix(bs, m) + 1) * Pow2(k)
  {
    hide BitAt;
    if k > 0 {
      PrefixDrop(bs, m, k - 1);
      var p, q, w := Prefix(bs, m), Prefix(bs, m + k - 1), Pow2(k - 1);
      assert Prefix(bs, m + k) == 2 * q + BitAt(bs, m + k - 1);
      MulTwice(p, w);
      MulTwice(p + 1, w);
    }
  }

  // A comparison against a multiple of 2^k can ignore the last k bits.
  lemma PrefixCompare(bs: seq<Byte>, m: nat, k: nat, t: int)
    ensures Prefix(bs, m + k) >= t * Pow2(k) <==> Prefix(bs, m) >= t
  {
    PrefixDrop(bs, m, k);
    var p, w := Prefix(bs, m), Pow2(k);
    if p >= t {
      MulMonotone(t, p, w);
    } else {
      MulMonotone(p + 1, t, w);
    }
  }

  lemma MulMonotone(x: int, y: int, w: nat)
    requires x <= y
    ensures x * w <= y * w
  {
  }

  lemma MulTwice(x: int, w: int)
    ensures x * (2 * w) == 2 * (x * w)
  {
  }

  lemma PrefixBit(bs: seq<Byte>, k: nat, i: nat)
    requires i < 8
    ensures Prefix(bs, 8 * k + i + 1) == 2 * Prefix(bs, 8 * k + i) + BitOf(ByteAt(bs, k), i)
  {
    hide BitOf;
    assert (8 * k + i) / 8 == k && (8 * k + i) % 8 == i;
  }

  lemma TopBit(b: Byte, i: nat)
    requires i < 8
    ensures TopBits(b, i + 1) == 2 * TopBits(b, i) + BitOf(b, i)
  {
  }

  lemma {:induction false} PrefixBits(bs: seq<Byte>, k: nat, i: nat)
    requires i <= 8
    ensures Prefix(bs, 8 * k + i) == Prefix(bs, 8 * k) * Pow2(i) + TopBits(ByteAt(bs, k), i)
  {
    hide Prefix, TopBits, BitOf;
    if i > 0 {
      PrefixBits(bs, k, i - 1);
      PrefixBit(bs, k, i - 1);
      TopBit(ByteAt(bs, k), i - 1);
      MulTwice(Prefix(bs, 8 * k), Pow2(i - 1));
    }
  }

  // Eight bits make one byte.
  lemma PrefixByte(bs: seq<Byte>, k: nat)
    ensures Prefix(bs, 8 * k + 8) == 256 * Prefix(bs, 8 * k) + ByteAt(bs, k)
  {
    hide Prefix, BitOf;
    PrefixBits(bs, k, 8);
    Pow2Constants();
  }

  lemma ByteShift(v: int, k: nat)
    ensures v * Pow2(8 * (k + 1)) == 256 * (v * Pow2(8 * k))
  {
    Pow2Add(8 * k, 8);
    Pow2Constants();
    assert Pow2(8 * (k + 1)) == Pow2(8 * k) * 256;
  }

  lemma PrefixZero(bs: seq<Byte>)
    ensures Prefix(bs, 0) == 0
  {
  }

  // Whole bytes are prefixes; bytes beyond the end count as zero.
  lemma {:induction false} PrefixIsValue(bs: seq<Byte>, k: nat)
    ensures Prefix(bs, 8 * k) == if k <= |bs| then Value(bs[..k]) else Value(bs) * Pow2(8 * (k - |bs|))
  {
    hide BitAt, Prefix;
    assert Prefix(bs, 0) == 0 by { PrefixZero(bs); }
    if k > 0 {
      PrefixIsValue(bs, k - 1);
      PrefixByte(bs, k - 1);
      if k <= |bs| {
        assert bs[..k][..k - 1] == bs[..k - 1];
      } else {
        assert bs[..|bs|] == bs;
        ByteShift(Value(bs), k - 1 - |bs|);
      }
    }
  }

  // Bits after the last byte are zero.
  lemma {:induction false} PrefixTail(bs: seq<Byte>, m: nat, k: nat)
    requires m >= 8 * |bs|
    ensures Prefix(bs, m + k) == Prefix(bs, m) * Pow2(k)
  {
    hide BitOf;
    if k > 0 {
      PrefixTail(bs, m, k - 1);
      assert ByteAt(bs, (m + k - 1) / 8) == 0;
      MulTwice(Prefix(bs, m), Pow2(k - 1));
    }
  }

  lemma {:induction false} ValueAppend(a: seq<Byte>, b: seq<Byte>)
    ensures Value(a + b) == Value(a) * Pow2(8 * |b|) + Value(b)
  {
    if |b| == 0 {
      assert a + b == a;
    } else {
      var c := b[..|b| - 1];
      ValueAppend(a, c);
      assert (a + b)[..|a + b| - 1] == a + c;
      ByteShift(Value(a), |c|);
    }
  }

  lemma ValuePush(a: seq<Byte>, b: Byte)
    ensures Value(a + [b]) == 256 * Value(a) + b
  {
    assert (a + [b])[..|a|] == a;
  }

  lemma {:induction false} ValueZeros(k: nat)
    ensures Value(Repeat(0, k)) == 0
  {
    if k > 0 {
      ValueZeros(k - 1);
      assert Repeat(0, k)[..k - 1] == Repeat(0, k - 1);
    }
  }

  lemma {:induction false} ValueOnes(k: nat)
    ensures Value(Repeat(255, k)) == Pow2(8 * k) - 1
  {
    if k > 0 {
      ValueOnes(k - 1);
      assert Repeat(255, k)[..k - 1] == Repeat(255, k - 1);
      ByteShift(1, k - 1);
    }
  }

  // A carry into b followed by stacked 0xFF bytes turns them into zero bytes.
  lemma Carry(p: seq<Byte>, b: Byte, k: nat)
    requires b < 255
    ensures Value(p + [b] + Repeat(255, k)) + 1 == Value(p + [b + 1] + Repeat(0, k))
  {
    ValueAppend(p + [b], Repeat(255, k));
    ValueAppend(p + [b + 1], Repeat(0, k));
    ValueZeros(k);
    ValueOnes(k);
    ValuePush(p, b);
    ValuePush(p, b + 1);
    assert (Value(p + [b]) + 1) * Pow2(8 * k) == Value(p + [b]) * Pow2(8 * k) + Pow2(8 * k);
  }

  // Trailing zero bytes do not change the fraction.
  lemma {:induction false} PrefixIgnoresZeros(bs: seq<Byte>, z: nat, m: nat)
    ensures Prefix(bs + Repeat(0, z), m) == Prefix(bs, m)
  {
    hide BitOf;
    if m > 0 {
      PrefixIgnoresZeros(bs, z, m - 1);
      assert ByteAt(bs + Repeat(0, z), (m - 1) / 8) == ByteAt(bs, (m - 1) / 8);
    }
  }

  // ----- Windows: the l bits from position pos on, as a number -----

  function Window(bs: seq<Byte>, pos: nat, l: nat): nat {
    if l == 0 then 0 else 2 * Window(bs, pos, l - 1) + BitAt(bs, pos + l - 1)
  }

  lemma {:induction false} WindowBound(bs: seq<Byte>, pos: nat, l: nat)
    ensures Window(bs, pos, l) < Pow2(l)
  {
    hide BitAt;
    if l > 0 {
      WindowBound(bs, pos, l - 1);
    }
  }

  lemma {:induction false} WindowSplit(bs: seq<Byte>, pos: nat, l: nat, k: nat)
    ensures Window(bs, pos, l + k) == Window(bs, pos, l) * Pow2(k) + Window(bs, pos + l, k)
  {
    hide BitAt;
    if k > 0 {
      WindowSplit(bs, pos, l, k - 1);
      MulTwice(Window(bs, pos, l), Pow2(k - 1));
      assert Window(bs, pos, l + k) == 2 * Window(bs, pos, l + (k - 1)) + BitAt(bs, pos + l + k - 1);
    }
  }

  lemma {:induction false} PrefixWindow(bs: seq<Byte>, pos: nat, l: nat)
    ensures Prefix(bs, pos + l) == Prefix(bs, pos) * Pow2(l) + Window(bs, pos, l)
  {
    hide BitAt;
    if l > 0 {
      PrefixWindow(bs, pos, l - 1);
      MulTwice(Prefix(bs, pos), Pow2(l - 1));
      assert Prefix(bs, pos + l) == 2 * Prefix(bs, pos + (l - 1)) + BitAt(bs, pos + l - 1);
    }
  }

  // The first l of l + k bits.
  lemma WindowShorten(bs: seq<Byte>, pos: nat, l: nat, k: nat)
    ensures Window(bs, pos, l + k) / Pow2(k) == Window(bs, pos, l)
  {
    hide Window;
    WindowSplit(bs, pos, l, k);
    WindowBound(bs, pos + l, k);
    DivideExactly(Window(bs, pos, l), Pow2(k), Window(bs, pos + l, k));
  }

  lemma DivideSigned(q: int, w: nat, r: nat)
    requires r < w
    ensures (q * w + r) / w == q && (q * w + r) % w == r
  {
    var n := q * w + r;
    assert n == (n / w) * w + n % w;
    if n / w < q {
      MulMonotone(n / w + 1, q, w);
    } else if n / w > q {
      MulMonotone(q + 1, n / w, w);
    }
  }

  lemma DivideExactly(q: nat, w: nat, r: nat)
    requires r < w
    ensures (q * w + r) / w == q && (q * w + r) % w == r
  {
    DivideSigned(q, w, r);
  }

  lemma EvenOrOdd(q: nat, w: nat)
    ensures q * w == q / 2 * (2 * w) + if q % 2 == 1 then w else 0
  {
    var h := q / 2;
    MulTwice(h, w);
    assert (2 * h) * w == 2 * (h * w);
    if q != 2 * h {
      assert (2 * h + 1) * w == (2 * h) * w + w;
    }
  }

  // Half of the quotient by m is the quotient by 2m.
  lemma HalfOfQuotient(v: nat, m: nat)
    requires m > 0
    ensures v / m / 2 == v / (2 * m)
  {
    var q, r := v / m, v % m;
    assert v == q * m + r;
    EvenOrOdd(q, m);
    DivideExactly(q / 2, 2 * m, r + if q % 2 == 1 then m else 0);
  }
}
