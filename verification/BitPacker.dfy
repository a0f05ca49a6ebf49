// Bit output of the Huffman encoder: accumulation in a 24-bit window, 0xFF stuffing, and
// the final fill with ones. What is written is described as a list of bit fields.

module BitPacker {
  import opened CodeBits
  import opened Segment

  // A number written in a given number of bits.
  datatype Field = Field(value: nat, size: nat)

  ghost predicate ValidField(f: Field) {
    f.size <= 16 && f.value < Pow2(f.size)
  }

  ghost predicate ValidFields(fields: seq<Field>) {
    forall i :: 0 <= i < |fields| ==> ValidField(fields[i])
  }

  // Number of bits in a list of fields.
  function Length(fields: seq<Field>): nat {
    if |fields| == 0 then 0 else Length(fields[..|fields| - 1]) + fields[|fields| - 1].size
  }

  // All fields side by side, as one number.
  function Pack(fields: seq<Field>): nat {
    if |fields| == 0 then 0
    else
      var f := fields[|fields| - 1];
      Pack(fields[..|fields| - 1]) * Pow2(f.size) + f.value
  }

  // The data contains these fields from bit position pos on.
  ghost predicate Carries(data: seq<Byte>, pos: nat, fields: seq<Field>)
    decreases |fields|
  {
    |fields| > 0 ==>
      && Window(data, pos, fields[0].size) == fields[0].value
      && Carries(data, pos + fields[0].size, fields[1..])
  }

  lemma PackPush(fields: seq<Field>, f: Field)
    ensures Pack(fields + [f]) == Pack(fields) * Pow2(f.size) + f.value
    ensures Length(fields + [f]) == Length(fields) + f.size
  {
    assert (fields + [f])[..|fields|] == fields;
  }

  lemma {:induction false} LengthAppend(a: seq<Field>, b: seq<Field>)
    ensures Length(a + b) == Length(a) + Length(b)
  {
    if |b| == 0 {
      assert a + b == a;
    } else {
      LengthAppend(a, b[..|b| - 1]);
      assert (a + b)[..|a + b| - 1] == a + b[..|b| - 1];
    }
  }

  lemma {:induction false} CarriesAppend(data: seq<Byte>, pos: nat, a: seq<Field>, b: seq<Field>)
    ensures Carries(data, pos, a + b) <==> Carries(data, pos, a) && Carries(data, pos + Length(a), b)
    decreases |a|
  {
    hide Length;
    if |a| == 0 {
      assert a + b == b;
      assert Length(a) == 0 by { LengthNone(); }
    } else {
      var f, rest := a[0], a[1..];
      CarriesAppend(data, pos + f.size, rest, b);
      assert a == [f] + rest && a + b == [f] + (rest + b);
      CarriesOne(data, pos, f, rest + b);
      CarriesOne(data, pos, f, rest);
      LengthAppend([f], rest);
      LengthOne(f);
    }
  }

  lemma LengthNone()
    ensures Length([]) == 0
  {
  }

  lemma LengthOne(f: Field)
    ensures Length([f]) == f.size
  {
    assert [f] == [] + [f];
    PackPush([], f);
  }

  lemma CarriesOne(data: seq<Byte>, pos: nat, f: Field, rest: seq<Field>)
    ensures Carries(data, pos, [f] + rest)
            <==> Window(data, pos, f.size) == f.value && Carries(data, pos + f.size, rest)
  {
    assert ([f] + rest)[1..] == rest;
  }

  // Data whose leading bits pack the fields contains each field in its place.
  lemma {:induction false} PackedIsCarried(data: seq<Byte>, fields: seq<Field>)
    requires ValidFields(fields) && Prefix(data, Length(fields)) == Pack(fields)
    ensures Carries(data, 0, fields)
    decreases |fields|
  {
    hide Pack, Length, Prefix, Window, Carries;
    if |fields| == 0 {
      assert fields == [] && Carries(data, 0, []) by { CarriesNone(data); }
    } else {
      var front, f := fields[..|fields| - 1], fields[|fields| - 1];
      assert fields == front + [f] && ValidField(f);
      PackPush(front, f);
      var n := Length(front);
      PrefixWindow(data, n, f.size);
      WindowBound(data, n, f.size);
      DivideExactly(Pack(front), Pow2(f.size), f.value);
      DivideExactly(Prefix(data, n), Pow2(f.size), Window(data, n, f.size));
      PackedIsCarried(data, front);
      CarriesOne(data, n, f, []);
      assert [f] + [] == [f];
      CarriesNoneAt(data, n + f.size);
      CarriesAppend(data, 0, front, [f]);
    }
  }

  lemma CarriesNone(data: seq<Byte>)
    ensures Carries(data, 0, [])
  {
  }

  lemma CarriesNoneAt(data: seq<Byte>, pos: nat)
    ensures Carries(data, pos, [])
  {
  }

  // ----- The bit buffer -----

  const WINDOW := 0x1000000
  const WORD := 0x100000000

  // The valid bits, tail, are left-justified in the right 24 bits of put_buffer; the bits
  // above are stale.
  ghost predicate Layout(putBuffer: int, putBits: int, stale: nat, tail: int) {
    && 0 <= putBits <= 23
    && stale < 0x100
    && 0 <= tail < Pow2(putBits)
    && putBuffer == stale * WINDOW + tail * Pow2(24 - putBits)
  }

  // Merging new bits below the old ones; the two operands have no bit in common.
  lemma MergeBits(putBuffer: int, putBits: int, stale: nat, tail: nat, f: Field)
    requires Layout(putBuffer, putBits, stale, tail) && putBits < 8 && ValidField(f)
    ensures Layout(putBuffer + f.value * Pow2(24 - putBits - f.size), putBits + f.size, stale,
                   tail * Pow2(f.size) + f.value)
  {
    hide Pow2;
    Pow2Add(f.size, 24 - putBits - f.size);
    Pow2Add(putBits, f.size);
    MergeArithmetic(tail, Pow2(putBits), f.value, Pow2(f.size), Pow2(24 - putBits - f.size));
  }

  lemma MergeArithmetic(tail: nat, w: nat, x: nat, s: nat, u: nat)
    requires tail < w && x < s
    ensures 0 <= tail * s + x < w * s
    ensures (tail * s + x) * u == tail * (s * u) + x * u
  {
    MulMonotone(tail + 1, w, s);
    MulMonotone(0, tail, s);
    assert (tail + 1) * s == tail * s + s;
    assert (tail * s) * u == tail * (s * u);
  }

  // Moving the leading byte of the window to the output.
  lemma TakeByte(putBuffer: int, putBits: int, stale: nat, tail: nat) returns (c: Byte, rest: nat)
    requires Layout(putBuffer, putBits, stale, tail) && putBits >= 8
    ensures c == putBuffer / 0x10000 % 0x100 && tail == c * Pow2(putBits - 8) + rest
    ensures Layout(putBuffer * 0x100 % WORD, putBits - 8, c, rest)
  {
    hide Pow2;
    var w, u := Pow2(putBits - 8), Pow2(24 - putBits);
    Pow2Add(putBits - 8, 24 - putBits);
    Pow2Add(putBits - 8, 8);
    Pow2Add(24 - putBits, 8);
    Pow2Constants();
    c, rest := SplitTail(tail, w);
    SplitScaled(c, rest, w, u);
    BytesOfWord(putBuffer, stale, c, rest * u);
    assert rest * Pow2(24 - putBits + 8) == (rest * u) * 256 by { MulLast(rest, u); }
  }

  lemma MulLast(x: int, u: int)
    ensures x * (u * 256) == (x * u) * 256
  {
  }

  lemma SplitTail(tail: nat, w: nat) returns (c: Byte, rest: nat)
    requires w > 0 && tail < 256 * w
    ensures tail == c * w + rest && rest < w
  {
    QuotientBelow(tail, w, 256);
    c, rest := tail / w, tail % w;
  }

  lemma SplitScaled(c: nat, rest: nat, w: nat, u: nat)
    requires rest < w && w * u == 0x10000 && u > 0
    ensures (c * w + rest) * u == c * 0x10000 + rest * u
    ensures rest * u < 0x10000
  {
    assert (c * w + rest) * u == (c * w) * u + rest * u;
    assert (c * w) * u == c * (w * u);
    MulMonotone(rest + 1, w, u);
    assert (rest + 1) * u == rest * u + u;
  }

  lemma QuotientBelow(n: nat, w: nat, k: nat)
    requires w > 0 && n < k * w
    ensures n / w < k
  {
    assert n == (n / w) * w + n % w;
    if n / w >= k {
      MulMonotone(k, n / w, w);
    }
  }

  lemma BytesOfWord(putBuffer: int, stale: nat, c: nat, low: nat)
    requires putBuffer == stale * WINDOW + c * 0x10000 + low && c < 0x100 && low < 0x10000 && stale < 0x100
    ensures putBuffer / 0x10000 % 0x100 == c
    ensures putBuffer * 0x100 % WORD == c * WINDOW + low * 0x100
  {
    assert putBuffer / 0x10000 == stale * 0x100 + c;
    assert putBuffer * 0x100 == stale * WORD + (c * WINDOW + low * 0x100);
  }

  // All bits of the fields are in the bytes written and in the tail of the buffer.
  ghost predicate Packed(fields: seq<Field>, data: seq<Byte>, putBits: int, tail: int) {
    && 0 <= putBits
    && Length(fields) == 8 * |data| + putBits
    && Pack(fields) == Value(data) * Pow2(putBits) + tail
  }

  lemma PackedPush(fields: seq<Field>, data: seq<Byte>, putBits: int, tail: nat, f: Field)
    requires Packed(fields, data, putBits, tail) && ValidFields(fields) && ValidField(f)
    ensures ValidFields(fields + [f])
    ensures Packed(fields + [f], data, putBits + f.size, tail * Pow2(f.size) + f.value)
  {
    hide Pack, Length, Value, Pow2;
    PackPush(fields, f);
    Pow2Add(putBits, f.size);
    var v, w, s := Value(data), Pow2(putBits), Pow2(f.size);
    assert (v * w + tail) * s == (v * w) * s + tail * s;
    assert (v * w) * s == v * (w * s);
  }

  lemma PackedByte(fields: seq<Field>, data: seq<Byte>, putBits: int, tail: nat, c: Byte, rest: nat)
    requires Packed(fields, data, putBits, tail) && putBits >= 8
    requires tail == c * Pow2(putBits - 8) + rest
    ensures Packed(fields, data + [c], putBits - 8, rest)
  {
    hide Pack, Length, Value, Pow2;
    ValuePush(data, c);
    Pow2Add(8, putBits - 8);
    Pow2Constants();
    var v, w := Value(data), Pow2(putBits - 8);
    assert (256 * v + c) * w == (256 * v) * w + c * w;
    assert (256 * v) * w == v * (256 * w);
  }

  // After the fill with seven ones, the whole bytes carry all fields before the fill.
  lemma FlushedCarries(fields: seq<Field>, data: seq<Byte>, putBits: int, tail: nat)
    requires ValidFields(fields) && 0 <= putBits < 8 && tail < Pow2(putBits)
    requires Packed(fields + [Field(0x7F, 7)], data, putBits, tail)
    ensures Carries(data, 0, fields)
    ensures Length(fields) <= 8 * |data| <= Length(fields) + 7
  {
    hide Pack, Length, Value, Pow2, Prefix, Carries, ValidFields, Packed;
    FlushedPrefix(fields, data, putBits, tail);
    PackedIsCarried(data, fields);
  }

  lemma FlushedPrefix(fields: seq<Field>, data: seq<Byte>, putBits: int, tail: nat)
    requires 0 <= putBits < 8 && tail < Pow2(putBits) && Packed(fields + [Field(0x7F, 7)], data, putBits, tail)
    ensures Prefix(data, Length(fields)) == Pack(fields)
    ensures Length(fields) <= 8 * |data| <= Length(fields) + 7
  {
    hide Pack, Length, Value, Pow2, Prefix, Packed;
    var k: nat := 7 - putBits;
    FlushedBits(fields, data, putBits, tail);
    SevenBits(putBits, k);
    WholeValue(data, Length(fields), k);
    FlushArithmetic(Pack(fields), Value(data), Pow2(putBits), Pow2(k), tail, Prefix(data, Length(fields)));
  }

  lemma FlushedBits(fields: seq<Field>, data: seq<Byte>, putBits: int, tail: nat)
    requires Packed(fields + [Field(0x7F, 7)], data, putBits, tail)
    ensures putBits >= 0 && Length(fields) + 7 == 8 * |data| + putBits
    ensures Pack(fields) * 128 + 127 == Value(data) * Pow2(putBits) + tail
  {
    PackPush(fields, Field(0x7F, 7));
    hide Pack, Length, Value;
    assert Pow2(7) == 128 by { Pow2Constants(); }
    hide Pow2;
  }

  lemma SevenBits(m: nat, n: nat)
    requires m + n == 7
    ensures Pow2(m) * Pow2(n) == 128
  {
    Pow2Add(m, n);
    Pow2Constants();
  }

  lemma WholeValue(data: seq<Byte>, n: nat, k: nat)
    requires n + k == 8 * |data|
    ensures Prefix(data, n) * Pow2(k) <= Value(data) < (Prefix(data, n) + 1) * Pow2(k)
  {
    hide Value, Pow2, Prefix;
    PrefixIsValue(data, |data|);
    assert data[..|data|] == data;
    PrefixDrop(data, n, k);
  }

  // The first n bits of the bytes are the packed fields: both are the value without its
  // last k bits.
  lemma FlushArithmetic(pack: nat, v: nat, w: nat, u: nat, tail: nat, p: nat)
    requires pack * 128 + 127 == v * w + tail && tail < w && w * u == 128 && w > 0 && u > 0
    requires p * u <= v < (p + 1) * u
    ensures p == pack
  {
    MulMonotone(p * u, v, w);
    MulMonotone(v + 1, (p + 1) * u, w);
    assert (p * u) * w == p * 128 by { assert (p * u) * w == p * (u * w); }
    assert ((p + 1) * u) * w == (p + 1) * 128 by { assert ((p + 1) * u) * w == (p + 1) * (u * w); }
    assert (v + 1) * w == v * w + w;
  }

  lemma NothingPacked()
    ensures Layout(0, 0, 0, 0) && Packed([], [], 0, 0) && ValidFields([]) && Stuff([]) == []
  {
  }

  class BitWriter {
    var putBuffer: int
    var putBits: int
    var output: seq<Byte>
    ghost var prior: seq<Byte>    // output of earlier segments
    ghost var data: seq<Byte>     // data bytes of this segment, without the stuffed zeros
    ghost var fields: seq<Field>  // everything emitted in this segment
    ghost var stale: nat
    ghost var tail: nat           // the bits still in the buffer

    ghost predicate Valid()
      reads this
    {
      && 0 <= putBits < 8
      && Layout(putBuffer, putBits, stale, tail)
      && output == prior + Stuff(data)
      && ValidFields(fields)
      && Packed(fields, data, putBits, tail)
    }

    constructor ()
      ensures Valid() && fields == [] && output == prior == []
    {
      putBuffer, putBits := 0, 0;
      output, prior, data, fields := [], [], [], [];
      stale, tail := 0, 0;
    }

    // emit_byte, with the zero byte stuffed after 0xFF.
    method EmitByte(c: Byte)
      requires output == prior + Stuff(data)
      modifies this`output, this`data
      ensures data == old(data) + [c] && output == prior + Stuff(data)
    {
      output := output + [c];
      if c == 0xFF {
        output := output + [0x00];
      }
      StuffPush(data, c);
      data := data + [c];
    }

    // emit_bits: at most 16 bits at a time, extra bits in code masked off; false if there
    // are none, which is how an invalid table entry shows.
    method EmitBits(code: int, size: nat) returns (ok: bool)
      requires Valid() && size <= 16
      modifies this`putBuffer, this`putBits, this`output, this`data, this`fields, this`stale, this`tail
      ensures Valid() && ok == (size != 0)
      ensures fields == if ok then old(fields) + [Field(code % Pow2(size), size)] else old(fields)
    {
      hide Layout, Stuff, Packed, ValidFields, Pow2;
      if size == 0 {
        return false;
      }
      var put := code % Pow2(size);
      ghost var f := Field(put, size);
      MergeBits(putBuffer, putBits, stale, tail, f);
      PackedPush(fields, data, putBits, tail, f);
      putBits := putBits + size;
      putBuffer := putBuffer + put * Pow2(24 - putBits);
      tail := tail * Pow2(size) + put;
      fields := fields + [f];
      while putBits >= 8
        invariant 0 <= putBits <= 23 && Layout(putBuffer, putBits, stale, tail)
        invariant output == prior + Stuff(data) && Packed(fields, data, putBits, tail)
        invariant fields == old(fields) + [f] && ValidFields(fields)
      {
        ghost var b, rest := TakeByte(putBuffer, putBits, stale, tail);
        var c := putBuffer / 0x10000 % 0x100;
        PackedByte(fields, data, putBits, tail, c, rest);
        EmitByte(c);
        putBuffer := putBuffer * 0x100 % WORD;
        putBits := putBits - 8;
        stale, tail := c, rest;
      }
      ok := true;
    }

    // flush_bits: fill any partial byte with ones and empty the buffer. The data then
    // carries every field emitted.
    method Flush()
      requires Valid()
      modifies this`putBuffer, this`putBits, this`output, this`data, this`fields, this`stale, this`tail
      ensures output == prior + Stuff(data)
      ensures Carries(data, 0, old(fields))
      ensures Length(old(fields)) <= 8 * |data| <= Length(old(fields)) + 7
      ensures putBuffer == putBits == 0
    {
      hide Stuff, Packed, Carries;
      ghost var before := fields;
      assert 0x7F % Pow2(7) == 0x7F by { Pow2Constants(); }
      var _ := EmitBits(0x7F, 7);
      FlushedCarries(before, data, putBits, tail);
      putBuffer, putBits := 0, 0;
    }

    // The two bytes of a marker behind a flushed segment; the next segment begins.
    method WriteMarker(marker: Byte)
      requires putBuffer == putBits == 0
      modifies this
      ensures Valid() && fields == [] && output == prior == old(output) + [0xFF, marker]
    {
      hide Layout, Packed, ValidFields, Stuff;
      NothingPacked();
      output := output + [0xFF];
      output := output + [marker];
      prior, data, fields, stale, tail := output, [], [], 0, 0;
      assert old(output) + [0xFF] + [marker] == old(output) + [0xFF, marker];
    }
  }
}
