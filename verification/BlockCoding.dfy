// Sequential Huffman coding of a block (sections F.1.2 and F.2.2 of ITU-T T.81): the symbols
// and extra bits that stand for it, and what a decoder makes of any data at all.

module BlockCoding {
  import opened CodeBits
  import opened Coefficients
  import opened HuffmanTables
  import opened BitPacker
  import opened HuffmanFields

  const MAX_COEF_BITS := 10

  // ----- Variable-length integers -----

  function BitLength(n: nat): (l: nat)
    ensures n == 0 <==> l == 0
  {
    if n == 0 then 0 else BitLength(n / 2) + 1
  }

  lemma {:induction false} BitLengthBounds(n: nat)
    ensures n < Pow2(BitLength(n))
    ensures n > 0 ==> 2 * n >= Pow2(BitLength(n))
  {
    if n > 0 {
      BitLengthBounds(n / 2);
    }
  }

  // The extra bits of a value: itself, or the complement of its magnitude.
  function ExtraBits(v: int): (bits: nat)
    ensures bits < Pow2(BitLength(Abs(v)))
  {
    BitLengthBounds(Abs(v));
    if v >= 0 then v else v + Pow2(BitLength(Abs(v))) - 1
  }

  // HUFF_EXTEND: the value meant by s extra bits.
  function Extend(x: nat, s: nat): int
    requires s >= 1
  {
    if x <= Pow2(s - 1) - 1 then x - (Pow2(s) - 1) else x
  }

  lemma ExtendInverts(v: int)
    requires v != 0
    ensures Extend(ExtraBits(v), BitLength(Abs(v))) == v
  {
    BitLengthBounds(Abs(v));
    var l := BitLength(Abs(v));
    assert Pow2(l) == 2 * Pow2(l - 1);
  }

  // Two's complement: masking v - 1 leaves the complement of the magnitude.
  lemma MaskedBits(v: int)
    ensures (if v < 0 then v - 1 else v) % Pow2(BitLength(Abs(v))) == ExtraBits(v)
  {
    BitLengthBounds(Abs(v));
    var w := Pow2(BitLength(Abs(v)));
    if v < 0 {
      DivideSigned(-1, w, v - 1 + w);
    } else {
      DivideSigned(0, w, v);
    }
  }

  // ----- The encoder's side -----

  // A Huffman symbol, and the value whose extra bits follow it.
  datatype Token = Token(isDC: bool, table: nat, symbol: Byte, value: int)

  function DcToken(table: nat, diff: int): Token
    requires BitLength(Abs(diff)) < 256
  {
    Token(true, table, BitLength(Abs(diff)), diff)
  }

  // The coefficients are within the range that baseline coding allows.
  ghost predicate InRange(order: seq<nat>, b: seq<int>, last: int)
    requires ValidOrder(order) && |b| == BLOCK
  {
    && BitLength(Abs(b[0] - last)) <= MAX_COEF_BITS + 1
    && forall k :: 1 <= k < BLOCK ==> BitLength(Abs(b[order[k]])) <= MAX_COEF_BITS
  }

  // The codes for the AC coefficients from k on, r zeros having been passed.
  ghost function AcTokens(order: seq<nat>, table: nat, b: seq<int>, k: nat, r: nat): (ts: seq<Token>)
    requires ValidOrder(order) && |b| == BLOCK && 1 <= k <= BLOCK
    requires forall j :: k <= j < BLOCK ==> BitLength(Abs(b[order[j]])) <= MAX_COEF_BITS
    decreases BLOCK - k, r
  {
    if k == BLOCK then
      if r > 0 then [Token(false, table, 0, 0)] else []
    else
      var v := b[order[k]];
      if v == 0 then AcTokens(order, table, b, k + 1, r + 1)
      else if r > 15 then [Token(false, table, 0xF0, 0)] + AcTokens(order, table, b, k, r - 16)
      else [Token(false, table, 16 * r + BitLength(Abs(v)), v)] + AcTokens(order, table, b, k + 1, 0)
  }

  ghost function BlockTokens(order: seq<nat>, slot: Slot, b: seq<int>, last: int): seq<Token>
    requires ValidOrder(order) && |b| == BLOCK && InRange(order, b, last)
  {
    [DcToken(slot.dc, b[0] - last)] + AcTokens(order, slot.ac, b, 1, 0)
  }

  // ----- The decoder's side -----

  // A block in the making and the position of the next bit.
  datatype Scanned = Scanned(b: seq<int>, at: nat)

  ghost function DecodeAc(order: seq<nat>, t: HuffTable, data: seq<Byte>, b: seq<int>, k: nat, at: nat): (s: Scanned)
    requires ValidOrder(order) && |b| == BLOCK
    ensures |s.b| == BLOCK && s.at >= at
    decreases BLOCK - k
  {
    if k >= BLOCK then Scanned(b, at)
    else
      var d := SymbolAt(t, data, at);
      var r, s, here := d.symbol / 16, d.symbol % 16, at + d.size;
      if s != 0 then
        var v := Extend(Window(data, here, s), s);
        DecodeAc(order, t, data, b[order[k + r] := v], k + r + 1, here + s)
      else if r != 15 then Scanned(b, here)
      else DecodeAc(order, t, data, b, k + 16, here)
  }

  // The DC difference at this position.
  ghost function DcDifference(t: HuffTable, data: seq<Byte>, at: nat): int {
    var d := SymbolAt(t, data, at);
    if d.symbol == 0 then 0 else Extend(Window(data, at + d.size, d.symbol), d.symbol)
  }

  ghost function BehindDc(t: HuffTable, data: seq<Byte>, at: nat): nat {
    var d := SymbolAt(t, data, at);
    at + d.size + d.symbol
  }

  ghost function DecodeBlock(order: seq<nat>, dc: HuffTable, ac: HuffTable, data: seq<Byte>, b: seq<int>, last: int,
                             at: nat): (s: Scanned)
    requires ValidOrder(order) && |b| == BLOCK
    ensures |s.b| == BLOCK
  {
    DecodeAc(order, ac, data, b[0 := ToCoef(DcDifference(dc, data, at) + last)], 1, BehindDc(dc, data, at))
  }

  // Decoding from k on writes only to the coefficients from k on.
  lemma {:induction false} DecodeAcFrame(order: seq<nat>, t: HuffTable, data: seq<Byte>, b: seq<int>, k: nat, at: nat,
                                         p: nat)
    requires ValidOrder(order) && |b| == BLOCK && p < BLOCK
    requires forall j :: k <= j < BLOCK ==> order[j] != p
    ensures DecodeAc(order, t, data, b, k, at).b[p] == b[p]
    decreases BLOCK - k
  {
    hide SymbolAt, Window, Extend;
    if k < BLOCK {
      var d := SymbolAt(t, data, at);
      var r, s, here := d.symbol / 16, d.symbol % 16, at + d.size;
      if s != 0 {
        assert order[k + r] != p;
        DecodeAcFrame(order, t, data, b[order[k + r] := Extend(Window(data, here, s), s)], k + r + 1, here + s, p);
      } else if r == 15 {
        DecodeAcFrame(order, t, data, b, k + 16, here, p);
      }
    }
  }

  // ----- Repeating on a partly written block -----

  // c is b with some entries already as in f.
  ghost predicate Partial(b: seq<int>, c: seq<int>, f: seq<int>) {
    |b| == |c| == |f| == BLOCK && forall p :: 0 <= p < BLOCK ==> c[p] == b[p] || c[p] == f[p]
  }

  lemma {:induction false} DecodeAcTwice(order: seq<nat>, t: HuffTable, data: seq<Byte>, b: seq<int>, c: seq<int>,
                                         k: nat, at: nat)
    requires ValidOrder(order) && |b| == |c| == BLOCK && Partial(b, c, DecodeAc(order, t, data, b, k, at).b)
    ensures DecodeAc(order, t, data, c, k, at) == DecodeAc(order, t, data, b, k, at)
    decreases BLOCK - k
  {
    hide SymbolAt, Window, Extend;
    if k >= BLOCK {
      assert c == b;
    } else {
      var d := SymbolAt(t, data, at);
      var r, s, here := d.symbol / 16, d.symbol % 16, at + d.size;
      if s != 0 {
        var v, pos := Extend(Window(data, here, s), s), order[k + r];
        DecodeAcTwice(order, t, data, b[pos := v], c[pos := v], k + r + 1, here + s);
      } else if r == 15 {
        DecodeAcTwice(order, t, data, b, c, k + 16, here);
      } else {
        assert c == b;
      }
    }
  }

  lemma DecodeBlockTwice(order: seq<nat>, dc: HuffTable, ac: HuffTable, data: seq<Byte>, b: seq<int>, c: seq<int>,
                         last: int, at: nat)
    requires ValidOrder(order) && |b| == |c| == BLOCK && Partial(b, c, DecodeBlock(order, dc, ac, data, b, last, at).b)
    ensures DecodeBlock(order, dc, ac, data, c, last, at) == DecodeBlock(order, dc, ac, data, b, last, at)
  {
    hide DcDifference, BehindDc, DecodeAc;
    var v := ToCoef(DcDifference(dc, data, at) + last);
    DecodeAcTwice(order, ac, data, b[0 := v], c[0 := v], 1, BehindDc(dc, data, at));
  }

  // ----- Tokens as bit fields -----

  // The tables of a scan, as the encoder and the decoder derive them.
  datatype Tables = Tables(dcEnc: seq<CDerived>, acEnc: seq<CDerived>, dcDec: seq<HuffTable>, acDec: seq<HuffTable>)

  ghost predicate GoodTables(ts: Tables) {
    && |ts.dcEnc| == |ts.dcDec| && |ts.acEnc| == |ts.acDec|
    && (forall i :: 0 <= i < |ts.dcEnc| ==> Agree(ts.dcEnc[i], ts.dcDec[i]))
    && (forall i :: 0 <= i < |ts.acEnc| ==> Agree(ts.acEnc[i], ts.acDec[i]))
  }

  ghost predicate ValidToken(ts: Tables, t: Token) {
    t.table < if t.isDC then |ts.dcEnc| else |ts.acEnc|
  }

  ghost function Encoder(ts: Tables, t: Token): CDerived
    requires ValidToken(ts, t)
  {
    if t.isDC then ts.dcEnc[t.table] else ts.acEnc[t.table]
  }

  // The token's symbol has a code.
  ghost predicate Coded(ts: Tables, t: Token) {
    ValidToken(ts, t) && HasCode(Encoder(ts, t), t.symbol)
  }

  ghost predicate AllCoded(ts: Tables, tokens: seq<Token>) {
    forall i :: 0 <= i < |tokens| ==> Coded(ts, tokens[i])
  }

  ghost function TokenFields(ts: Tables, t: Token): seq<Field>
    requires Coded(ts, t)
  {
    [SymbolField(Encoder(ts, t), t.symbol)]
    + if t.value == 0 then [] else [Field(ExtraBits(t.value), BitLength(Abs(t.value)))]
  }

  ghost function FieldsOf(ts: Tables, tokens: seq<Token>): seq<Field>
    requires AllCoded(ts, tokens)
  {
    if tokens == [] then []
    else FieldsOf(ts, tokens[..|tokens| - 1]) + TokenFields(ts, tokens[|tokens| - 1])
  }

  lemma {:induction false} FieldsOfAppend(ts: Tables, a: seq<Token>, b: seq<Token>)
    requires AllCoded(ts, a) && AllCoded(ts, b)
    ensures AllCoded(ts, a + b) && FieldsOf(ts, a + b) == FieldsOf(ts, a) + FieldsOf(ts, b)
  {
    hide Coded, TokenFields;
    if b == [] {
      assert a + b == a;
    } else {
      var front := b[..|b| - 1];
      FieldsOfAppend(ts, a, front);
      assert (a + b)[..|a + b| - 1] == a + front;
    }
  }

  lemma FieldsOfOne(ts: Tables, t: Token)
    requires Coded(ts, t)
    ensures AllCoded(ts, [t]) && FieldsOf(ts, [t]) == TokenFields(ts, t)
  {
    hide Coded, TokenFields;
    assert [t][..0] == [];
  }

  // A decoder reads a token: its symbol and, if there are extra bits, its value.
  lemma TokenRead(ts: Tables, t: Token, decoder: HuffTable, data: seq<Byte>, at: nat, rest: seq<Token>)
    requires Coded(ts, t) && AllCoded(ts, rest) && Agree(Encoder(ts, t), decoder)
    requires AllCoded(ts, [t] + rest) && Carries(data, at, FieldsOf(ts, [t] + rest))
    ensures var d := SymbolAt(decoder, data, at);
      var n := BitLength(Abs(t.value));
      && d.symbol == t.symbol
      && (t.value != 0 ==> Extend(Window(data, at + d.size, n), n) == t.value)
      && Carries(data, at + d.size + n, FieldsOf(ts, rest))
      && Length(FieldsOf(ts, [t] + rest)) == d.size + n + Length(FieldsOf(ts, rest))
  {
    hide Coded, Carries, Length, Window, SymbolAt, Agree, BitLength, FieldsOf, ExtraBits, Extend;
    CodedSymbol(ts, t);
    FieldsOfAppend(ts, [t], rest);
    FieldsOfOne(ts, t);
    var f, g := SymbolField(Encoder(ts, t), t.symbol), Field(ExtraBits(t.value), BitLength(Abs(t.value)));
    var more := FieldsOf(ts, rest);
    LengthAppend(TokenFields(ts, t), more);
    LengthOne(f);
    if t.value == 0 {
      assert TokenFields(ts, t) == [f];
      CarriesOne(data, at, f, more);
      SymbolRead(Encoder(ts, t), decoder, t.symbol, data, at);
    } else {
      assert TokenFields(ts, t) + more == [f] + ([g] + more);
      CarriesOne(data, at, f, [g] + more);
      CarriesOne(data, at + f.size, g, more);
      SymbolRead(Encoder(ts, t), decoder, t.symbol, data, at);
      ExtendInverts(t.value);
      LengthAppend([f], [g]);
      LengthOne(g);
    }
  }

  lemma CodedSymbol(ts: Tables, t: Token)
    requires Coded(ts, t)
    ensures ValidToken(ts, t) && HasCode(Encoder(ts, t), t.symbol)
  {
  }

  // ----- Decoding inverts coding -----

  // One step of the decoder on a known symbol.
  lemma ReadSymbol(order: seq<nat>, t: HuffTable, data: seq<Byte>, b: seq<int>, k: nat, at: nat)
    requires ValidOrder(order) && |b| == BLOCK && k < BLOCK
    ensures var d := SymbolAt(t, data, at);
      var r, s, here := d.symbol / 16, d.symbol % 16, at + d.size;
      DecodeAc(order, t, data, b, k, at) ==
        if s != 0 then
          DecodeAc(order, t, data, b[order[k + r] := Extend(Window(data, here, s), s)], k + r + 1, here + s)
        else if r == 15 then DecodeAc(order, t, data, b, k + 16, here)
        else Scanned(b, here)
  {
    hide SymbolAt, Window, Extend;
  }

  // The decoder at index k reads the token at the head of a list; DecodeAc goes on behind it.
  lemma ReadToken(order: seq<nat>, ts: Tables, t: HuffTable, data: seq<Byte>, c: seq<int>, k: nat, at: nat,
                  tokens: seq<Token>, rest: seq<Token>)
    requires ValidOrder(order) && |c| == BLOCK && k < BLOCK
    requires tokens != [] && tokens == [tokens[0]] + rest && AllCoded(ts, tokens)
    requires !tokens[0].isDC && tokens[0].table < |ts.acEnc| && Agree(ts.acEnc[tokens[0].table], t)
    requires Carries(data, at, FieldsOf(ts, tokens))
    requires tokens[0].value == 0 ==> tokens[0].symbol == 0 || tokens[0].symbol == 0xF0
    requires tokens[0].value != 0 ==> tokens[0].symbol % 16 == BitLength(Abs(tokens[0].value))
    ensures AllCoded(ts, rest)
    ensures var size := SymbolAt(t, data, at).size + BitLength(Abs(tokens[0].value));
      && Carries(data, at + size, FieldsOf(ts, rest))
      && Length(FieldsOf(ts, tokens)) == size + Length(FieldsOf(ts, rest))
      && DecodeAc(order, t, data, c, k, at) ==
         if tokens[0].value != 0 then
           var j := k + tokens[0].symbol / 16;
           DecodeAc(order, t, data, c[order[j] := tokens[0].value], j + 1, at + size)
         else if tokens[0].symbol == 0xF0 then DecodeAc(order, t, data, c, k + 16, at + size)
         else Scanned(c, at + size)
  {
    hide Coded, Carries, Length, Window, SymbolAt, Agree, BitLength, FieldsOf, Extend, DecodeAc, ValidToken, ValidOrder,
         AllCoded;
    Entries(order);
    ZeroLength();
    AcToken(ts, tokens[0].table, t, tokens, rest);
    TokenRead(ts, tokens[0], t, data, at, rest);
    ReadSymbol(order, t, data, c, k, at);
  }

  lemma {:induction false} AcInverts(order: seq<nat>, ts: Tables, table: nat, t: HuffTable, data: seq<Byte>,
                                     b: seq<int>, k: nat, r: nat, at: nat)
    requires ValidOrder(order) && |b| == BLOCK && 1 <= k <= BLOCK && r <= k - 1
    requires forall j :: k <= j < BLOCK ==> BitLength(Abs(b[order[j]])) <= MAX_COEF_BITS
    requires table < |ts.acEnc| && Agree(ts.acEnc[table], t)
    requires AllCoded(ts, AcTokens(order, table, b, k, r))
    requires Carries(data, at, FieldsOf(ts, AcTokens(order, table, b, k, r)))
    ensures DecodeAc(order, t, data, Filled(order, b, k), k - r, at) ==
      Scanned(Filled(order, b, BLOCK), at + Length(FieldsOf(ts, AcTokens(order, table, b, k, r))))
    decreases BLOCK - k, r
  {
    hide Carries, Length, SymbolAt, Agree, BitLength, FieldsOf, Filled, DecodeAc, ValidOrder, AllCoded;
    Entries(order);
    var tokens, c := AcTokens(order, table, b, k, r), Filled(order, b, k);
    NoFields(ts);
    ZeroLength();
    if k == BLOCK {
      DecodeAcEnd(order, t, data, c, at);
      if r > 0 {
        assert tokens == [Token(false, table, 0, 0)] + [];
        ReadToken(order, ts, t, data, c, k - r, at, tokens, []);
      }
    } else {
      var v := b[order[k]];
      if v == 0 {
        FillZero(order, b, k);
        AcInverts(order, ts, table, t, data, b, k + 1, r + 1, at);
      } else {
        var size := SymbolAt(t, data, at).size;
        if r > 15 {
          ReadToken(order, ts, t, data, c, k - r, at, tokens, AcTokens(order, table, b, k, r - 16));
          AcInverts(order, ts, table, t, data, b, k, r - 16, at + size);
        } else {
          SymbolParts(r, v);
          ReadToken(order, ts, t, data, c, k - r, at, tokens, AcTokens(order, table, b, k + 1, 0));
          FillNext(order, b, k);
          AcInverts(order, ts, table, t, data, b, k + 1, 0, at + size + BitLength(Abs(v)));
        }
      }
    }
  }

  lemma DecodeAcEnd(order: seq<nat>, t: HuffTable, data: seq<Byte>, b: seq<int>, at: nat)
    requires ValidOrder(order) && |b| == BLOCK
    ensures DecodeAc(order, t, data, b, BLOCK, at) == Scanned(b, at)
  {
  }

  lemma AcToken(ts: Tables, table: nat, t: HuffTable, tokens: seq<Token>, rest: seq<Token>)
    requires tokens != [] && tokens == [tokens[0]] + rest && AllCoded(ts, tokens)
    requires !tokens[0].isDC && tokens[0].table == table < |ts.acEnc| && Agree(ts.acEnc[table], t)
    ensures Coded(ts, tokens[0]) && AllCoded(ts, rest)
    ensures ValidToken(ts, tokens[0]) && Agree(Encoder(ts, tokens[0]), t)
  {
    hide Coded, Agree;
    RestCoded(ts, tokens[0], rest);
  }

  lemma RestCoded(ts: Tables, t: Token, rest: seq<Token>)
    requires AllCoded(ts, [t] + rest)
    ensures Coded(ts, t) && AllCoded(ts, rest)
  {
    hide Coded;
    assert ([t] + rest)[0] == t;
    forall i | 0 <= i < |rest|
      ensures Coded(ts, rest[i])
    {
      assert ([t] + rest)[i + 1] == rest[i];
    }
  }

  lemma SymbolParts(r: nat, v: int)
    requires r <= 15 && v != 0 && BitLength(Abs(v)) <= MAX_COEF_BITS
    ensures var s := 16 * r + BitLength(Abs(v));
      s / 16 == r && s % 16 == BitLength(Abs(v)) && s % 16 != 0
  {
    hide BitLength;
  }

  lemma ZeroLength()
    ensures BitLength(Abs(0)) == 0
  {
  }

  lemma NoFields(ts: Tables)
    ensures AllCoded(ts, []) && FieldsOf(ts, []) == [] && Length([]) == 0
  {
    LengthNone();
  }

  // Main result for one block: a decoder that starts with zeros reads back every coefficient
  // and stops right behind the block.
  lemma BlockInverts(order: seq<nat>, slot: Slot, ts: Tables, data: seq<Byte>, b: seq<int>, last: int, at: nat)
    requires ValidOrder(order) && |b| == BLOCK && InRange(order, b, last) && ToCoef(b[0]) == b[0]
    requires GoodTables(ts) && slot.dc < |ts.dcEnc| && slot.ac < |ts.acEnc|
    requires AllCoded(ts, BlockTokens(order, slot, b, last))
    requires Carries(data, at, FieldsOf(ts, BlockTokens(order, slot, b, last)))
    ensures DecodeBlock(order, ts.dcDec[slot.dc], ts.acDec[slot.ac], data, seq(BLOCK, _ => 0), last, at) ==
      Scanned(b, at + Length(FieldsOf(ts, BlockTokens(order, slot, b, last))))
    ensures DcDifference(ts.dcDec[slot.dc], data, at) == b[0] - last
  {
    hide Coded, Carries, Length, Window, SymbolAt, Agree, BitLength, FieldsOf, Extend, Filled, AcTokens, DecodeAc,
         ToCoef;
    var first, rest := DcToken(slot.dc, b[0] - last), AcTokens(order, slot.ac, b, 1, 0);
    RestCoded(ts, first, rest);
    TokenRead(ts, first, ts.dcDec[slot.dc], data, at, rest);
    assert Filled(order, b, 0) == seq(BLOCK, _ => 0) by { FilledNone(order, b); }
    FillNext(order, b, 0);
    AcInverts(order, ts, slot.ac, ts.acDec[slot.ac], data, b, 1, 0, BehindDc(ts.dcDec[slot.dc], data, at));
    FilledAll(order, b);
  }
}
