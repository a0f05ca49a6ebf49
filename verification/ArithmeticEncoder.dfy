// The arithmetic entropy encoder: registers, carry propagation over stacked 0xFF
// bytes, pending zero bytes, byte stuffing and termination (Annex D of ITU-T T.81).

module ArithmeticEncoder {
  import opened CodeBits
  import opened Segment
  import opened ProbabilityTable
  import opened CodingInterval

  predicate NoTrailingZero(data: seq<Byte>) {
    |data| > 0 ==> data[|data| - 1] != 0
  }

  function OptionalByte(buffer: int): seq<Byte>
    requires -1 <= buffer < 256
  {
    if buffer >= 0 then [buffer] else []
  }

  lemma PowersOfLayout()
    ensures Pow2(19) == 0x80000 && Pow2(27) == 0x8000000
  {
    Pow2Constants();
    Pow2Add(16, 3);
    Pow2Add(16, 11);
  }

  // The encoder's registers, with the data bytes written so far.
  datatype Registers = Registers(c: int, a: int, sc: nat, zc: nat, ct: int, buffer: int, data: seq<Byte>)

  // All code bytes produced so far, whether written, pending, buffered or stacked.
  function Produced(r: Registers): seq<Byte>
    requires -1 <= r.buffer < 255
  {
    r.data + Repeat(0, r.zc) + OptionalByte(r.buffer) + Repeat(255, r.sc)
  }

  predicate Layout(r: Registers) {
    && -1 <= r.buffer < 255
    && (r.buffer == -1 ==> r.data == [] && r.zc == 0)
    && NoTrailingZero(r.data)
    && 0 <= r.c
    && 0 <= r.ct <= 11
    && (Produced(r) != [] ==> r.ct <= 8)
  }

  // The base of the interval that the registers and the bytes produced denote together.
  function Low(r: Registers): nat
    requires Layout(r)
  {
    Value(Produced(r)) * Pow2(27 - r.ct) + r.c
  }

  function Shifts(r: Registers): nat
    requires Layout(r)
  {
    11 - r.ct + 8 * |Produced(r)|
  }

  // The three spacer bits bound how far the base of the interval can have grown.
  predicate SpacerBits(r: Registers)
    requires Layout(r)
  {
    if Produced(r) == [] then r.c + r.a <= Pow2(27 - r.ct) else r.c + r.a <= 0x90000 * Pow2(8 - r.ct)
  }

  predicate Ready(r: Registers) {
    && Layout(r)
    && 0 < r.a <= 0x10000
    && SpacerBits(r)
    && Low(r) + r.a <= Pow2(16 + Shifts(r))
  }

  // Carry bits never meet an empty buffer: the interval stays below one.
  lemma NoCarryIntoEmptyBuffer(r: Registers)
    requires Ready(r) && r.ct == 0 && r.buffer == -1
    ensures r.c < 0x8000000
  {
    hide Value;
    assert Produced(r) == Repeat(255, r.sc);
    ValueOnes(r.sc);
    PowersOfLayout();
    Pow2Add(8 * r.sc, 27);
    assert (Pow2(8 * r.sc) - 1) * Pow2(27) == Pow2(8 * r.sc) * Pow2(27) - Pow2(27);
  }

  // What a byte-output step has to achieve.
  predicate ByteMoved(r: Registers, q: Registers)
    requires Layout(r) && Layout(q)
  {
    && |Produced(q)| == |Produced(r)| + 1
    && Value(Produced(q)) * 0x80000 + q.c == Value(Produced(r)) * 0x8000000 + r.c
  }

  lemma CarryStep(r: Registers, q: Registers, carried: seq<Byte>)
    requires Layout(r) && Layout(q) && r.buffer >= 0
    requires 0x8000000 <= r.c < 0x9000000 && q.c == r.c % 0x80000
    requires carried == r.data + Repeat(0, r.zc) + [r.buffer + 1] + Repeat(0, r.sc)
    requires Produced(q) == carried + [r.c / 0x80000 - 0x100]
    ensures ByteMoved(r, q)
  {
    hide Value;
    Carry(r.data + Repeat(0, r.zc), r.buffer, r.sc);
    ValuePush(carried, r.c / 0x80000 - 0x100);
    assert Produced(r) == r.data + Repeat(0, r.zc) + [r.buffer] + Repeat(255, r.sc);
  }

  lemma PlainStep(r: Registers, q: Registers)
    requires Layout(r) && Layout(q)
    requires 0 <= r.c < 0x8000000 && q.c == r.c % 0x80000
    requires Produced(q) == Produced(r) + [r.c / 0x80000]
    ensures ByteMoved(r, q)
  {
    hide Value, Produced;
    ValuePush(Produced(r), r.c / 0x80000);
  }

  lemma ByteOutMoves(r: Registers, q: Registers)
    requires Layout(r) && 0 <= r.c < 0x9000000 && (r.buffer == -1 ==> r.c < 0x8000000)
    requires NoTrailingZero(q.data) && q.c == r.c % 0x80000 && q.ct == 8 && r.ct == 0
    requires var temp := r.c / 0x80000;
      if temp > 0xFF then
        && q.buffer == temp - 0x100 && q.sc == 0
        && q.data + Repeat(0, q.zc) == r.data + Repeat(0, r.zc) + [r.buffer + 1] + Repeat(0, r.sc)
      else if temp == 0xFF then
        q == r.(sc := r.sc + 1, c := q.c, ct := 8)
      else
        q.buffer == temp && q.sc == 0 && q.data + Repeat(0, q.zc) == Produced(r)
    ensures Layout(q) && ByteMoved(r, q)
  {
    hide Value;
    var temp := r.c / 0x80000;
    if temp > 0xFF {
      CarryStep(r, q, q.data + Repeat(0, q.zc));
    } else if temp == 0xFF {
      assert Produced(q) == Produced(r) + [temp];
      PlainStep(r, q);
    } else {
      PlainStep(r, q);
    }
  }

  // Moving a byte out of c leaves the exact state alone.
  lemma ByteMovedKeepsState(r: Registers, q: Registers)
    requires Ready(r) && Layout(q) && ByteMoved(r, q)
    requires r.ct == 0 && q.ct == 8 && q.c < 0x80000 && q.a == r.a
    ensures Ready(q) && Low(q) == Low(r) && Shifts(q) == Shifts(r)
  {
    hide Value, Produced;
    PowersOfLayout();
  }

  // Shifting the registers by one doubles the exact state.
  lemma ShiftDoubles(r: Registers, q: Registers)
    requires Ready(r) && 1 <= r.ct && r.a < 0x8000
    requires q == r.(a := 2 * r.a, c := 2 * r.c, ct := r.ct - 1)
    ensures Ready(q) && Low(q) == 2 * Low(r) && Shifts(q) == Shifts(r) + 1
  {
    hide Value;
    assert Produced(q) == Produced(r);
    MulTwice(Value(Produced(r)), Pow2(27 - r.ct));
  }

  lemma CarryRange(r: Registers)
    requires Ready(r) && r.ct == 0
    ensures r.c < 0x9000000 && (r.buffer == -1 ==> r.c < 0x8000000)
  {
    hide Value;
    PowersOfLayout();
    Pow2Constants();
    if r.buffer == -1 {
      NoCarryIntoEmptyBuffer(r);
    }
  }

  // Narrowing the interval inside the registers.
  lemma NarrowRegisters(r: Registers, q: Registers)
    requires Ready(r) && q.a > 0 && r.c <= q.c && q.c + q.a <= r.c + r.a
    requires q == r.(a := q.a, c := q.c)
    ensures Ready(q) && Low(q) == Low(r) + (q.c - r.c) && Shifts(q) == Shifts(r)
  {
    hide Value;
    assert Produced(q) == Produced(r);
  }

  lemma InitialRegisters()
    ensures var r := Registers(0, 0x10000, 0, 0, 11, -1, []);
            Produced(r) == [] && Ready(r) && Low(r) == 0 && Shifts(r) == 0
  {
    var r := Registers(0, 0x10000, 0, 0, 11, -1, []);
    Pow2Constants();
    assert Produced(r) == [];
  }

  lemma ReadyBounds(r: Registers)
    requires Ready(r)
    ensures Layout(r) && 0 < r.a <= 0x10000 && Low(r) + r.a <= Pow2(16 + Shifts(r))
  {
  }

  // ----- Termination -----

  // The base of the final interval with the most trailing zero bits.
  function FinalBase(c: int, a: int): (base: int)
    requires c >= 0 && 0x8000 <= a <= 0x10000
    ensures c <= base < c + a && base % 0x8000 == 0
    ensures forall k :: c <= 0x10000 * k < c + a ==> base == 0x10000 * k
  {
    var top := a - 1 + c;
    var temp := top - top % 0x10000;
    assert temp == 0x10000 * (top / 0x10000) && temp <= top < temp + 0x10000;
    if temp < c then temp + 0x8000 else temp
  }

  // Registers shifted left until the next byte boundary.
  lemma {:induction false} ShiftMany(r: Registers, k: nat) returns (q: Registers)
    requires Ready(r) && k <= r.ct && r.a * Pow2(k) <= 0x8000
    ensures q == r.(a := r.a * Pow2(k), c := r.c * Pow2(k), ct := r.ct - k)
    ensures Ready(q) && Low(q) == Low(r) * Pow2(k) && Shifts(q) == Shifts(r) + k
  {
    hide Low, Shifts, Ready, Produced;
    ReadyBounds(r);
    if k == 0 {
      return r;
    }
    var j := k - 1;
    MulTwice(r.a, Pow2(j));
    MulTwice(r.c, Pow2(j));
    MulTwice(Low(r), Pow2(j));
    assert r.a * Pow2(j) > 0 by { MulMonotone(1, r.a, Pow2(j)); }
    var p := ShiftMany(r, j);
    q := p.(a := 2 * p.a, c := 2 * p.c, ct := p.ct - 1);
    ShiftDoubles(p, q);
  }

  // The final base, as the exact state sees it at the next byte boundary.
  lemma FinalShift(r: Registers) returns (q: Registers)
    requires Ready(r) && 0x8000 <= r.a && 1 <= r.ct
    ensures q == r.(a := Pow2(r.ct), c := FinalBase(r.c, r.a) * Pow2(r.ct), ct := 0)
    ensures Ready(q) && Shifts(q) == Shifts(r) + r.ct
    ensures Low(q) == (Low(r) + FinalBase(r.c, r.a) - r.c) * Pow2(r.ct)
  {
    hide Low, Shifts, Produced, Pow2;
    ReadyBounds(r);
    var p := r.(a := 1, c := FinalBase(r.c, r.a));
    NarrowRegisters(r, p);
    Pow2Constants();
    Pow2Monotone(r.ct, 15);
    q := ShiftMany(p, r.ct);
  }

  lemma FinalRange(r: Registers, c: int)
    requires Ready(r) && 0x8000 <= r.a && 1 <= r.ct
    requires c == FinalBase(r.c, r.a) * Pow2(r.ct)
    ensures 0 <= c < 0x9000000 && (r.buffer == -1 ==> c < 0x8000000)
  {
    hide FinalBase, Low, Shifts, Pow2, Produced;
    var q := FinalShift(r);
    CarryRange(q);
  }

  // After the buffered and stacked bytes are settled, with or without a final carry.
  lemma SettledValue(r: Registers, c: int, settled: seq<Byte>)
    requires Layout(r) && 0 <= c < 0x9000000
    requires if c >= 0x8000000 then
        r.buffer >= 0 && settled == r.data + Repeat(0, r.zc) + [r.buffer + 1] + Repeat(0, r.sc)
      else
        settled == Produced(r)
    ensures |settled| == |Produced(r)|
    ensures Value(settled) * 0x8000000 + c % 0x8000000 == Value(Produced(r)) * 0x8000000 + c
  {
    hide Value;
    if c >= 0x8000000 {
      Carry(r.data + Repeat(0, r.zc), r.buffer, r.sc);
      assert Produced(r) == r.data + Repeat(0, r.zc) + [r.buffer] + Repeat(255, r.sc);
    }
  }

  // The two final bytes, as far as they are not zero, complete the code.
  function WithFinalBytes(settled: seq<Byte>, x: Byte, y: Byte): seq<Byte> {
    if y != 0 then settled + [x] + [y] else settled + [x]
  }

  ghost predicate Finished(settled: seq<Byte>, x: Byte, y: Byte, data: seq<Byte>) {
    if x == 0 && y == 0 then exists z: nat :: settled == data + Repeat(0, z)
    else data == WithFinalBytes(settled, x, y)
  }

  // Whatever zero bytes were dropped, the code reads as settled + [x, y].
  lemma FinishedPads(settled: seq<Byte>, x: Byte, y: Byte, data: seq<Byte>) returns (z: nat)
    requires Finished(settled, x, y, data)
    ensures settled + [x] + [y] == data + Repeat(0, z)
  {
    if x == 0 && y == 0 {
      var k: nat :| settled == data + Repeat(0, k);
      z := k + 2;
      assert Repeat(0, k) + [0] + [0] == Repeat(0, z);
    } else if y == 0 {
      z := 1;
      assert [y] == Repeat(0, 1);
    } else {
      z := 0;
      assert Repeat(0, 0) == [];
    }
  }

  // A finished code, read at the next byte boundary plus 11 bits.
  lemma FinishedPrefix(settled: seq<Byte>, x: Byte, y: Byte, data: seq<Byte>)
    requires Finished(settled, x, y, data)
    ensures 8 * |data| <= 8 * |settled| + 27
    ensures Prefix(data, 8 * |settled| + 27) == Value(settled) * 0x8000000 + x * 0x80000 + y * 0x800
  {
    hide Value, Prefix, Finished;
    var full := settled + [x] + [y];
    var z := FinishedPads(settled, x, y, data);
    ValuePush(settled, x);
    ValuePush(settled + [x], y);
    PrefixIsValue(full, |full|);
    assert full[..|full|] == full;
    PrefixTail(full, 8 * |full|, 11);
    assert Pow2(11) == 2048 by { Pow2Constants(); }
    PrefixIgnoresZeros(data, z, 8 * |full| + 11);
  }

  // The final value of the c register, spread over the settled bytes and two more.
  ghost predicate FinalRegister(r: Registers, settled: seq<Byte>, x: Byte, y: Byte)
    requires Layout(r) && 0x8000 <= r.a <= 0x10000
  {
    var c := FinalBase(r.c, r.a) * Pow2(r.ct);
    && 0 <= c
    && |settled| == |Produced(r)|
    && Value(settled) * 0x8000000 + c % 0x8000000 == Value(Produced(r)) * 0x8000000 + c
    && x == c / 0x80000 % 0x100 && y == c / 0x800 % 0x100
  }

  lemma FinalPrefix(r: Registers, settled: seq<Byte>, x: Byte, y: Byte, data: seq<Byte>)
    requires Ready(r) && 0x8000 <= r.a && 1 <= r.ct
    requires FinalRegister(r, settled, x, y) && Finished(settled, x, y, data)
    ensures 8 * |data| <= 16 + Shifts(r) + r.ct
    ensures Prefix(data, 16 + Shifts(r) + r.ct) == (Low(r) + FinalBase(r.c, r.a) - r.c) * Pow2(r.ct)
  {
    hide Value, Prefix, Finished, FinalBase, SpacerBits, Pow2;
    var c := FinalBase(r.c, r.a) * Pow2(r.ct);
    LowBitsClear(r);
    FinishedPrefix(settled, x, y, data);
    SplitLow(c);
    var q := FinalShift(r);
    assert Produced(q) == Produced(r);
    assert Pow2(27) == 0x8000000 by { PowersOfLayout(); }
    assert Low(q) == Value(Produced(r)) * 0x8000000 + c;
  }

  lemma SplitLow(c: int)
    requires 0 <= c && c % 0x800 == 0
    ensures c % 0x8000000 == (c / 0x80000 % 0x100) * 0x80000 + (c / 0x800 % 0x100) * 0x800
  {
    var h := c / 0x800;
    assert c == h * 0x800 && c / 0x80000 == h / 0x100;
    assert h == (h / 0x100) * 0x100 + h % 0x100;
    var g := h / 0x100;
    assert g == (g / 0x100) * 0x100 + g % 0x100;
  }

  lemma LowBitsClear(r: Registers)
    requires Ready(r) && 0x8000 <= r.a
    ensures Layout(r) && FinalBase(r.c, r.a) * Pow2(r.ct) % 0x800 == 0
  {
    hide Low, Pow2, Produced;
    ReadyBounds(r);
    MultipleStaysMultiple(FinalBase(r.c, r.a), Pow2(r.ct));
  }

  lemma MultipleStaysMultiple(x: int, w: int)
    requires x % 0x8000 == 0
    ensures x * w % 0x800 == 0
  {
    var k := x / 0x8000;
    assert x * w == 0x800 * (16 * (k * w)) by {
      assert x == 0x8000 * k;
      assert (0x8000 * k) * w == 0x8000 * (k * w);
    }
    MultipleModZero(16 * (k * w));
  }

  lemma MultipleModZero(u: int)
    ensures 0x800 * u % 0x800 == 0
  {
  }

  // The code written lies in the final interval.
  lemma FinalCode(r: Registers, s: Coder, settled: seq<Byte>, x: Byte, y: Byte, data: seq<Byte>)
    requires Ready(r) && 0x8000 <= r.a && 1 <= r.ct
    requires s.low == Low(r) && s.a == r.a && s.shifts == Shifts(r)
    requires FinalRegister(r, settled, x, y) && Finished(settled, x, y, data)
    ensures Codes(data, s)
    ensures 8 * |data| <= 16 + s.shifts + r.ct
    ensures Prefix(data, 16 + s.shifts + r.ct) == (s.low + FinalBase(r.c, r.a) - r.c) * Pow2(r.ct)
  {
    hide Value, Prefix, Low, Shifts, Pow2, Produced, FinalRegister, Finished;
    FinalPrefix(r, settled, x, y, data);
    var base := s.low + FinalBase(r.c, r.a) - r.c;
    PrefixCompare(data, 16 + s.shifts, r.ct, base);
    PrefixCompare(data, 16 + s.shifts, r.ct, base + 1);
    assert Pow2(r.ct) >= 1;
    assert (base + 1) * Pow2(r.ct) > base * Pow2(r.ct);
  }

  // A code that could be cut to k bytes without changing it ends in a zero byte.
  lemma CutShowsZero(data: seq<Byte>, m: nat, k: nat, w: int)
    requires k < |data| && 8 * |data| <= m
    requires Prefix(data, m) == w * Pow2(m - 8 * k)
    ensures data[|data| - 1] == 0
  {
    hide Value, Prefix, Pow2;
    var n := |data|;
    PrefixTail(data, 8 * n, m - 8 * n);
    PrefixIsValue(data, n);
    assert data[..n] == data == data[..n - 1] + [data[n - 1]];
    ValuePush(data[..n - 1], data[n - 1]);
    var g, h := 8 * (n - 1 - k), m - 8 * n;
    Pow2Add(g + 8, h);
    Pow2Add(g, 8);
    assert Pow2(8) == 256 by { Pow2Constants(); }
    var v := w * Pow2(g);
    Regroup(w, Pow2(g), Pow2(h));
    CancelFactor(Value(data), 256 * v, Pow2(h));
  }

  lemma Regroup(w: int, g: int, h: int)
    ensures w * (g * 256 * h) == (256 * (w * g)) * h
  {
    assert g * 256 * h == 256 * (g * h);
    assert w * (256 * (g * h)) == 256 * (w * (g * h));
    assert w * (g * h) == (w * g) * h;
  }

  lemma CancelFactor(x: int, y: int, w: int)
    requires w > 0 && x * w == y * w
    ensures x == y
  {
  }

  // Pacman termination is optimal: no code for the state is shorter.
  lemma Shortest(r: Registers, s: Coder, data: seq<Byte>, other: seq<Byte>)
    requires Ready(r) && 0x8000 <= r.a && 1 <= r.ct
    requires s.low == Low(r) && s.a == r.a && s.shifts == Shifts(r)
    requires NoTrailingZero(data) && 8 * |data| <= 16 + s.shifts + r.ct
    requires Prefix(data, 16 + s.shifts + r.ct) == (s.low + FinalBase(r.c, r.a) - r.c) * Pow2(r.ct)
    requires Codes(other, s)
    ensures |data| <= |other|
  {
    hide Value, Prefix, Ready, Pow2, Produced, Low, Shifts, Codes;
    ReadyBounds(r);
    if |other| < |data| {
      var m := 16 + s.shifts + r.ct;
      var w := FinalMultiple(r, s, other, m - 8 * |other|);
      CutShowsZero(data, m, |other|, w);
    }
  }

  // Every code for the state bounds the trailing zero bits of the final base from below.
  lemma FinalMultiple(r: Registers, s: Coder, other: seq<Byte>, h: nat) returns (w: int)
    requires Layout(r) && 0x8000 <= r.a <= 0x10000 && s.low == Low(r) && s.a == r.a
    requires Codes(other, s) && h + 8 * |other| == 16 + s.shifts + r.ct
    ensures (s.low + FinalBase(r.c, r.a) - r.c) * Pow2(r.ct) == w * Pow2(h)
  {
    hide Value, Prefix, Pow2, Low, Codes, FinalBase;
    var base := s.low + FinalBase(r.c, r.a) - r.c;
    if h >= r.ct + 16 {
      var t := h - r.ct;
      w := MultipleOfOther(r, s, other, t);
      Pow2Add(t, r.ct);
      Associate(w, Pow2(t), Pow2(r.ct));
    } else {
      var v := MultipleOfHalf(r, s);
      var u := Pow2(15 + r.ct - h);
      w := v * u;
      Pow2Add(15 + r.ct - h, h);
      Pow2Add(15, r.ct);
      assert Pow2(15) == 0x8000 by { Pow2Constants(); }
      Associate(v, u, Pow2(h));
      Associate(v, 0x8000, Pow2(r.ct));
    }
  }

  lemma Associate(x: int, y: int, z: int)
    ensures x * (y * z) == (x * y) * z
  {
  }

  // The bits above the registers contribute a multiple of 2^16 to the low end.
  lemma LowAboveRegisters(r: Registers) returns (v: int)
    requires Layout(r)
    ensures Low(r) == v * 0x10000 + r.c
  {
    hide Value;
    Pow2Add(16, 11 - r.ct);
    Pow2Constants();
    var p, q := Value(Produced(r)), Pow2(11 - r.ct);
    v := p * q;
    assert p * (0x10000 * q) == v * 0x10000;
  }

  lemma MultipleOfHalf(r: Registers, s: Coder) returns (w: int)
    requires Layout(r) && 0x8000 <= r.a <= 0x10000 && s.low == Low(r)
    ensures s.low + FinalBase(r.c, r.a) - r.c == w * 0x8000
  {
    hide Low;
    var v := LowAboveRegisters(r);
    w := 2 * v + FinalBase(r.c, r.a) / 0x8000;
  }

  lemma MultipleOfOther(r: Registers, s: Coder, other: seq<Byte>, t: nat) returns (w: int)
    requires Layout(r) && 0x8000 <= r.a <= 0x10000 && s.low == Low(r) && s.a == r.a
    requires Codes(other, s) && t >= 16 && t + 8 * |other| == 16 + s.shifts
    ensures s.low + FinalBase(r.c, r.a) - r.c == w * Pow2(t)
  {
    hide Value, Prefix, Low, Pow2;
    var k := |other|;
    w := Value(other);
    PrefixTail(other, 8 * k, t);
    PrefixIsValue(other, k);
    assert other[..k] == other;
    Pow2Add(16, t - 16);
    Pow2Constants();
    var u := w * Pow2(t - 16);
    assert w * Pow2(t) == 0x10000 * u by {
      assert w * (0x10000 * Pow2(t - 16)) == 0x10000 * (w * Pow2(t - 16));
    }
    var v := LowAboveRegisters(r);
    assert r.c <= 0x10000 * (u - v) < r.c + r.a;
  }

  class Encoder {
    var c: int          // base of the coding interval, 0 cbbb bbbb bsss xxxx xxxx xxxx xxxx
    var a: int          // size of the coding interval
    var sc: nat         // stacked 0xFF bytes that a carry could still reach
    var zc: nat         // pending zero bytes that may be discarded at the end
    var ct: int         // shifts left before the next byte is ready
    var buffer: int     // most recent output byte other than 0xFF, or -1
    const bins: array<Bin>
    var output: seq<Byte>
    ghost var prior: seq<Byte> // output of earlier segments, up to the last restart marker
    ghost var data: seq<Byte>  // code bytes of this segment, without the stuffed zeros

    ghost function Regs(): Registers
      reads this
    {
      Registers(c, a, sc, zc, ct, buffer, data)
    }

    ghost predicate Inv()
      reads this, bins
    {
      Ready(Regs()) && 1 <= ct && output == prior + Stuff(data) && ValidBins(bins[..])
    }

    ghost predicate Valid()
      reads this, bins
    {
      Inv() && a >= 0x8000
    }

    // The exact state that the registers and the bytes produced denote together.
    ghost function State(): Coder
      reads this, bins
      requires Inv()
    {
      Coder(Low(Regs()), a, Shifts(Regs()), bins[..])
    }

    // start_pass: registers reset, statistics bins as given.
    constructor (stats: array<Bin>)
      requires ValidBins(stats[..])
      ensures Valid() && bins == stats && State() == Start(stats[..]) && output == prior == []
    {
      hide Value, Ready, Low, Shifts;
      InitialRegisters();
      c, a, sc, zc, ct, buffer := 0, 0x10000, 0, 0, 11, -1;
      bins := stats;
      output, prior, data := [], [], [];
    }

    // emit_byte, with the zero byte stuffed after 0xFF.
    method EmitData(b: Byte)
      requires output == prior + Stuff(data)
      modifies this`output, this`data
      ensures data == old(data) + [b] && output == prior + Stuff(data)
    {
      output := output + [b];
      if b == 0xFF {
        output := output + [0x00];
      }
      StuffPush(data, b);
      data := data + [b];
    }

    // Write out the pending zero bytes, now that something nonzero follows them.
    method FlushZeros()
      requires output == prior + Stuff(data)
      modifies this`output, this`data, this`zc
      ensures data == old(data) + Repeat(0, old(zc)) && output == prior + Stuff(data) && zc == 0
    {
      hide Stuff;
      ghost var k := 0;
      while zc > 0
        invariant k + zc == old(zc) && data == old(data) + Repeat(0, k) && output == prior + Stuff(data)
      {
        EmitData(0x00);
        zc, k := zc - 1, k + 1;
      }
    }

    // The stacked 0xFF bytes are final.
    method FlushStacked()
      requires output == prior + Stuff(data) && sc > 0
      modifies this`output, this`data, this`sc
      ensures data == old(data) + Repeat(255, old(sc)) && output == prior + Stuff(data) && sc == 0
    {
      hide Stuff;
      ghost var k := 0;
      while sc > 0
        invariant k + sc == old(sc) && data == old(data) + Repeat(255, k) && output == prior + Stuff(data)
      {
        EmitData(0xFF);
        sc, k := sc - 1, k + 1;
      }
    }

    // A carry reaches the buffered byte and turns the stacked 0xFF bytes to zero.
    method OutputCarry()
      requires Layout(Regs()) && output == prior + Stuff(data) && buffer >= 0
      modifies this`output, this`data, this`zc, this`sc
      ensures output == prior + Stuff(data) && NoTrailingZero(data) && sc == 0
      ensures data + Repeat(0, zc)
              == old(data) + Repeat(0, old(zc)) + [buffer + 1] + Repeat(0, old(sc))
    {
      hide Stuff;
      FlushZeros();
      EmitData(buffer + 1);
      zc := zc + sc;
      sc := 0;
    }

    // No carry can reach the buffered and stacked bytes any more.
    method OutputStacked()
      requires Layout(Regs()) && output == prior + Stuff(data)
      modifies this`output, this`data, this`zc, this`sc
      ensures output == prior + Stuff(data) && NoTrailingZero(data) && sc == 0
      ensures data + Repeat(0, zc) == old(Produced(Regs()))
    {
      hide Stuff;
      if buffer == 0 {
        zc := zc + 1;
      } else if buffer >= 0 {
        FlushZeros();
        EmitData(buffer);
      }
      assert data + Repeat(0, zc) == old(data) + Repeat(0, old(zc)) + OptionalByte(buffer);
      if sc > 0 {
        FlushZeros();
        FlushStacked();
      }
    }

    // Another byte is ready for output: the upper part of c joins the bytes produced.
    method ByteOut()
      requires Ready(Regs()) && ct == 0 && output == prior + Stuff(data)
      modifies this`c, this`ct, this`buffer, this`sc, this`zc, this`output, this`data
      ensures Ready(Regs()) && ct == 8 && output == prior + Stuff(data)
      ensures Low(Regs()) == old(Low(Regs())) && Shifts(Regs()) == old(Shifts(Regs()))
    {
      hide Stuff, Value, Low, Shifts, SpacerBits;
      ghost var r := Regs();
      CarryRange(r);
      var temp := c / 0x80000;
      if temp > 0xFF {
        OutputCarry();
        // With three spacer bits the new byte cannot be 0xFF here.
        buffer := temp - 0x100;
      } else if temp == 0xFF {
        sc := sc + 1;
      } else {
        OutputStacked();
        buffer := temp;
      }
      c := c % 0x80000;
      ct := 8;
      ByteOutMoves(r, Regs());
      ByteMovedKeepsState(r, Regs());
    }

    // Renormalization and data output (section D.1.6).
    method ShiftOut()
      requires Inv()
      modifies this`c, this`a, this`sc, this`zc, this`ct, this`buffer, this`output, this`data
      ensures Valid() && bins[..] == old(bins[..])
      ensures State() == Renormalize(old(State()))
    {
      hide Stuff, Value, Ready, Low, Shifts;
      ghost var s := State();
      ReadyBounds(Regs());
      while a < 0x8000
        invariant Inv() && bins[..] == old(bins[..]) && 0 < a <= 0x10000
        invariant Renormalize(State()) == Renormalize(s)
        decreases 0x8000 - a
      {
        ghost var r := Regs();
        a := 2 * a;
        c := 2 * c;
        ct := ct - 1;
        ShiftDoubles(r, Regs());
        if ct == 0 {
          ByteOut();
        }
      }
    }

    // finish_pass: termination of encoding (section D.1.8). The segment's code lies in
    // the final interval, and no shorter byte string does.
    method Finish()
      requires Valid()
      modifies this`c, this`zc, this`sc, this`output, this`data
      ensures output == prior + Stuff(data) && NoTrailingZero(data)
      ensures Codes(data, old(State()))
      ensures forall other :: Codes(other, old(State())) ==> |data| <= |other|
    {
      hide Stuff, Value, Low, Shifts, SpacerBits, Codes, Pow2;
      ghost var s, r := State(), Regs();
      ReadyBounds(r);
      c := FinalBase(c, a);
      c := c * Pow2(ct);
      FinalRange(r, c);
      if c >= 0x8000000 {
        OutputCarry();
      } else {
        OutputStacked();
      }
      ghost var settled := data + Repeat(0, zc);
      SettledValue(r, c, settled);
      var x, y := c / 0x80000 % 0x100, c / 0x800 % 0x100;
      if x != 0 || y != 0 {
        FlushZeros();
        EmitData(x);
        if y != 0 {
          EmitData(y);
        }
      }
      FinalCode(r, s, settled, x, y, data);
      forall other | Codes(other, s)
        ensures |data| <= |other|
      {
        Shortest(r, s, data, other);
      }
    }

    // emit_restart: the segment is finished, the marker follows it, and the registers start
    // over. The statistics are for the caller to reset.
    method Restart(n: nat) returns (ghost segment: seq<Byte>)
      requires Valid() && n < 8
      modifies this`c, this`a, this`sc, this`zc, this`ct, this`buffer, this`output, this`data, this`prior
      ensures output == prior == old(prior) + Stuff(segment) + [0xFF, 0xD0 + n]
      ensures Codes(segment, old(State()))
      ensures Valid() && State() == Start(bins[..])
    {
      hide Stuff, Value, Ready, Low, Shifts, Codes;
      Finish();
      segment := data;
      output := output + [0xFF] + [0xD0 + n];
      assert output == old(prior) + Stuff(segment) + [0xFF, 0xD0 + n];
      InitialRegisters();
      c, a, sc, zc, ct, buffer := 0, 0x10000, 0, 0, 11, -1;
      prior, data := output, [];
      assert Stuff([]) == [] by { StuffEmpty(); }
    }

    // arith_encode
    method Encode(bin: nat, bit: bool)
      requires Valid() && bin < bins.Length
      modifies this`c, this`a, this`sc, this`zc, this`ct, this`buffer, this`output, this`data, bins
      ensures Valid()
      ensures State() == EncodeStep(old(State()), Decision(bin, bit))
    {
      hide Stuff, Value, Ready, Low, Shifts, AfterLps, AfterMps, Qe, Renormalize;
      ghost var d := Decision(bin, bit);
      ghost var s, r := State(), Regs();
      ReadyBounds(r);
      var sv := bins[bin];
      var qe := Qe(sv);
      a := a - qe;
      if bit != Mps(sv) {
        if a >= qe {
          c := c + a;
          a := qe;
        }
        bins[bin] := AfterLps(sv);
      } else {
        if a >= 0x8000 {
          NarrowRegisters(r, Regs());
          assert State() == Narrow(s, d);
          RenormalizeIdle(State());
          return;
        }
        if a < qe {
          c := c + a;
          a := qe;
        }
        bins[bin] := AfterMps(sv);
      }
      NarrowRegisters(r, Regs());
      assert bins[..] == s.bins[bin := bins[bin]];
      assert State() == Narrow(s, d);
      ShiftOut();
    }

    // Once this trace is coded the encoder will be in state goal.
    ghost predicate Owes(trace: seq<Decision>, goal: Coder)
      reads this, bins
    {
      Valid() && InRange(trace, bins.Length) && EncodeAll(State(), trace) == goal
    }

    // The next decision of a trace.
    method Put(bin: nat, bit: bool, ghost rest: seq<Decision>, ghost goal: Coder)
      requires Owes([Decision(bin, bit)] + rest, goal)
      modifies this`c, this`a, this`sc, this`zc, this`ct, this`buffer, this`output, this`data, bins
      ensures Owes(rest, goal)
    {
      hide EncodeStep, EncodeAll, InRange;
      SplitRange(Decision(bin, bit), rest, bins.Length);
      CodingInterval.EncodeNext(State(), Decision(bin, bit), rest);
      Encode(bin, bit);
    }
  }

  lemma SplitRange(d: Decision, rest: seq<Decision>, n: nat)
    requires InRange([d] + rest, n)
    ensures d.bin < n && InRange(rest, n)
  {
    assert ([d] + rest)[0] == d;
    forall i | 0 <= i < |rest|
      ensures rest[i].bin < n
    {
      assert ([d] + rest)[i + 1] == rest[i];
    }
  }
}
