// Symbols as bit fields: what an encoder writes for a symbol, and that a decoder whose table
// comes from the same BITS and HUFFVAL reads it back.

module HuffmanFields {
  import opened CodeBits
  import opened HuffmanTables
  import opened BitPacker

  // The derived tables of encoder and decoder come from one legal table.
  ghost predicate Agree(c: CDerived, t: HuffTable) {
    && CountsLegal(t.bits, t.huffval)
    && EncodesTable(c, t.bits, t.huffval, Total(t.bits, 16))
  }

  ghost predicate HasCode(c: CDerived, s: Byte) {
    |c.ehufco| == |c.ehufsi| == 256 && c.ehufsi[s] != 0
  }

  function SymbolField(c: CDerived, s: Byte): Field
    requires |c.ehufco| == |c.ehufsi| == 256
  {
    Field(c.ehufco[s], c.ehufsi[s])
  }

  lemma CodeOfSymbol(c: CDerived, t: HuffTable, s: Byte) returns (p: nat)
    requires Agree(c, t) && HasCode(c, s)
    ensures p < Total(t.bits, 16) && t.huffval[p] == s && HasLength(t.bits, p, c.ehufsi[s])
    ensures c.ehufco[s] == CodeOf(t.bits, p, c.ehufsi[s])
  {
    hide CodeOf, CodesFit;
    var n := Total(t.bits, 16);
    p :| 0 <= p < n && t.huffval[..n][p] == s;
    var l := LengthExists(t.bits, p, 16);
    assert t.huffval[p] == s;
  }

  // The field of a symbol with a code is well formed, and wherever it stands in the data a
  // decoder finds that symbol and uses up exactly the field.
  lemma SymbolRead(c: CDerived, t: HuffTable, s: Byte, data: seq<Byte>, pos: nat)
    requires Agree(c, t) && HasCode(c, s)
    requires Window(data, pos, SymbolField(c, s).size) == SymbolField(c, s).value
    ensures SymbolAt(t, data, pos) == Decoded(s, SymbolField(c, s).size)
  {
    hide CodeOf, Window, HasLength, DecodeSymbol, CodesFit, EncodesTable;
    var p := CodeOfSymbol(c, t, s);
    StartDecoding(t.bits, data, pos);
    DecodeInvertsCode(t.bits, t.huffval, data, pos, p, c.ehufsi[s]);
  }

  lemma SymbolFits(c: CDerived, t: HuffTable, s: Byte)
    requires Agree(c, t) && HasCode(c, s)
    ensures ValidField(SymbolField(c, s)) && 1 <= SymbolField(c, s).size
  {
    hide NextCode, EncodesTable, Pow2;
    var p := CodeOfSymbol(c, t, s);
    var l := c.ehufsi[s];
    assert NextCode(t.bits, l) < Pow2(l);
  }

  // Data that holds all of these fields from its first bit on.
  ghost predicate Carrier(data: seq<Byte>, fields: seq<Field>) {
    Carries(data, 0, fields) && Length(fields) <= 8 * |data|
  }

  lemma CarrierParts(data: seq<Byte>, a: seq<Field>, b: seq<Field>)
    requires Carrier(data, a + b)
    ensures Carrier(data, a) && Carries(data, Length(a), b) && Length(a + b) == Length(a) + Length(b)
  {
    hide Length, Carries;
    LengthAppend(a, b);
    CarriesAppend(data, 0, a, b);
  }

  // emit_ac_symbol or emit_dc_symbol when not gathering statistics; false is the error exit
  // for a symbol without a code.
  method EmitSymbol(w: BitWriter, c: CDerived, s: Byte, ghost t: HuffTable) returns (ok: bool)
    requires w.Valid() && Agree(c, t)
    modifies w`putBuffer, w`putBits, w`output, w`data, w`fields, w`stale, w`tail
    ensures w.Valid() && ok == HasCode(c, s)
    ensures ok ==> w.fields == old(w.fields) + [SymbolField(c, s)]
    ensures !ok ==> w.fields == old(w.fields)
  {
    hide Pow2, EncodesTable;
    assert |c.ehufco| == |c.ehufsi| == 256 by { EncodedSizes(c, t.bits, t.huffval, Total(t.bits, 16), s); }
    if c.ehufsi[s] == 0 {
      return false;
    }
    SymbolFits(c, t, s);
    ok := w.EmitBits(c.ehufco[s], c.ehufsi[s]);
    SmallMod(c.ehufco[s], Pow2(c.ehufsi[s]));
  }

  lemma SmallMod(x: nat, w: nat)
    requires x < w
    ensures x % w == x
  {
  }
}
