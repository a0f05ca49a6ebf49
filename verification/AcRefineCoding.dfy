// How the fields of an AC refinement scan (section G.1.2.3 of ITU-T T.81) bring a decoder
// from one bit of precision to the next, code by code.

module AcRefineCoding {
  import opened CodeBits
  import opened Coefficients
  import opened PointTransform
  import opened HuffmanTables
  import opened BitPacker
  import opened AcRefinement

  // ----- Coefficients at a precision -----

  // How the sign of a newly nonzero coefficient is sent.
  function SignBit(x: int): (bit: nat)
    ensures bit < 2
  {
    if x < 0 then 0 else 1
  }

  // From precision al + 1 to precision al: still zero, newly nonzero, or corrected.
  lemma NextBit(x: int, al: nat)
    ensures var a := Magnitude(x, al);
      && (a <= 1 <==> Truncate(x, al + 1) == 0)
      && (a == 0 ==> Truncate(x, al) == 0)
      && (a == 1 ==> Truncate(x, al) == NewValue(SignBit(x), al))
      && (a > 1 ==> Correct(Truncate(x, al + 1), a % 2, al) == Truncate(x, al))
  {
    hide Pow2, Magnitude;
    var a, w := Magnitude(x, al), Pow2(al);
    HalfMagnitude(x, al);
    assert Pow2(al + 1) == 2 * w by { Pow2Add(al, 1); Pow2Constants(); }
    NextBitOf(a, w);
  }

  // ----- A band of a block -----

  // The decoder holds block a, which has the coefficients of b at precision al + 1.
  ghost predicate Known(band: Band, a: seq<int>, b: seq<int>) {
    && ValidBand(band) && |a| == |b| == BLOCK
    && forall j :: band.ss <= j <= band.se ==> a[band.order[j]] == Truncate(b[band.order[j]], band.al + 1)
  }

  function At(band: Band, b: seq<int>, j: nat): (a: nat)
    requires j < |band.order| && band.order[j] < |b|
  {
    Magnitude(b[band.order[j]], band.al)
  }

  // Block a with the coefficients of b before index k at precision al.
  ghost function Target(band: Band, a: seq<int>, b: seq<int>, k: nat): (c: seq<int>)
    requires Known(band, a, b) && band.ss <= k <= band.se + 1
    ensures |c| == BLOCK
  {
    if k == band.ss then a
    else Target(band, a, b, k - 1)[band.order[k - 1] := Truncate(b[band.order[k - 1]], band.al)]
  }

  // Block b at precision al in the whole band.
  ghost function Sharpened(band: Band, a: seq<int>, b: seq<int>): seq<int>
    requires Known(band, a, b)
  {
    Target(band, a, b, band.se + 1)
  }

  lemma {:induction false} TargetAt(band: Band, a: seq<int>, b: seq<int>, k: nat, j: nat)
    requires Known(band, a, b) && band.ss <= k <= band.se + 1 && band.ss <= j <= band.se
    ensures Target(band, a, b, k)[band.order[j]] ==
      if j < k then Truncate(b[band.order[j]], band.al) else a[band.order[j]]
  {
    hide Truncate;
    if k > band.ss {
      TargetAt(band, a, b, k - 1, j);
    }
  }

  // Still-zero coefficients, correction bits, and no newly nonzero coefficient from lo to hi.
  ghost function Zeros(band: Band, b: seq<int>, lo: nat, hi: nat): nat
    requires ValidBand(band) && |b| == BLOCK && hi <= band.se + 1
  {
    if hi <= lo then 0 else Zeros(band, b, lo, hi - 1) + if At(band, b, hi - 1) == 0 then 1 else 0
  }

  ghost function Corrections(band: Band, b: seq<int>, lo: nat, hi: nat): (fields: seq<Field>)
    requires ValidBand(band) && |b| == BLOCK && hi <= band.se + 1
  {
    if hi <= lo then []
    else Corrections(band, b, lo, hi - 1) + Correction(At(band, b, hi - 1))
  }

  function Correction(a: nat): seq<Field> {
    if a > 1 then [Field(a % 2, 1)] else []
  }

  ghost predicate NoneNew(band: Band, b: seq<int>, lo: nat, hi: nat)
    requires ValidBand(band) && |b| == BLOCK && hi <= band.se + 1
  {
    forall j :: lo <= j < hi ==> At(band, b, j) != 1
  }

  // The decoder passes a stretch without newly nonzero coefficients.
  lemma {:induction false} Walked(band: Band, data: seq<Byte>, a: seq<int>, b: seq<int>, lo: nat, hi: nat, at: nat,
                                  n: nat)
    requires Known(band, a, b) && band.ss <= lo <= hi <= band.se + 1
    requires NoneNew(band, b, lo, hi) && n >= Zeros(band, b, lo, hi)
    requires Carries(data, at, Corrections(band, b, lo, hi))
    ensures Advance(band, data, Target(band, a, b, lo), lo, at, n) ==
      Advance(band, data, Target(band, a, b, hi), hi, at + Length(Corrections(band, b, lo, hi)),
              n - Zeros(band, b, lo, hi))
  {
    hide Truncate, Length, Carries, Window, Magnitude, Correct;
    var fields := Corrections(band, b, lo, hi);
    if hi == lo {
      LengthNone();
    } else {
      var before, m := Corrections(band, b, lo, hi - 1), At(band, b, hi - 1);
      CarriesAppend(data, at, before, Correction(m));
      LengthAppend(before, Correction(m));
      Walked(band, data, a, b, lo, hi - 1, at, n);
      PassOne(band, data, a, b, hi - 1, at + Length(before), n - Zeros(band, b, lo, hi - 1));
    }
  }

  // One coefficient that is still zero or gets its correction bit.
  lemma PassOne(band: Band, data: seq<Byte>, a: seq<int>, b: seq<int>, k: nat, at: nat, n: nat)
    requires Known(band, a, b) && band.ss <= k <= band.se
    requires var m := At(band, b, k); m != 1 && (m == 0 ==> n > 0) && Carries(data, at, Correction(m))
    ensures var m := At(band, b, k);
      Advance(band, data, Target(band, a, b, k), k, at, n) ==
      Advance(band, data, Target(band, a, b, k + 1), k + 1, at + Length(Correction(m)), if m == 0 then n - 1 else n)
  {
    hide Truncate, Length, Window, Magnitude, Correct;
    TargetAt(band, a, b, k, k);
    var pos, m := band.order[k], At(band, b, k);
    NextBit(b[pos], band.al);
    if m == 0 {
      LengthNone();
      assert Target(band, a, b, k + 1) == Target(band, a, b, k);
    } else {
      LengthOne(Field(m % 2, 1));
      assert Window(data, at, 1) == m % 2;
    }
  }

  // ----- The codes -----

  // A run of fewer than 16 zeros and a newly nonzero coefficient.
  lemma NewCoefficient(band: Band, t: HuffTable, data: seq<Byte>, a: seq<int>, b: seq<int>, lo: nat, k: nat, at: nat,
                       size: nat)
    requires Known(band, a, b) && band.ss <= lo <= k <= band.se && NoneNew(band, b, lo, k) && At(band, b, k) == 1
    requires Zeros(band, b, lo, k) <= 15
    requires SymbolAt(t, data, at) == Decoded(16 * Zeros(band, b, lo, k) + 1, size)
    requires Window(data, at + size, 1) == SignBit(b[band.order[k]])
    requires Carries(data, at + size + 1, Corrections(band, b, lo, k))
    ensures RefineFrom(band, t, data, Target(band, a, b, lo), lo, at) ==
      RefineFrom(band, t, data, Target(band, a, b, k + 1), k + 1, at + size + 1 + Length(Corrections(band, b, lo, k)))
  {
    hide Truncate, Length, Window, Magnitude, Correct, Carries, SymbolAt, NewValue;
    var r := Zeros(band, b, lo, k);
    Walked(band, data, a, b, lo, k, at + size + 1, r);
    TargetAt(band, a, b, k, k);
    NextBit(b[band.order[k]], band.al);
    assert (16 * r + 1) / 16 == r && (16 * r + 1) % 16 == 1;
  }

  // Sixteen zeros: fifteen and the one at z.
  lemma ZeroRun(band: Band, t: HuffTable, data: seq<Byte>, a: seq<int>, b: seq<int>, lo: nat, z: nat, at: nat,
                size: nat)
    requires Known(band, a, b) && band.ss <= lo <= z <= band.se && NoneNew(band, b, lo, z) && At(band, b, z) == 0
    requires Zeros(band, b, lo, z) == 15 && SymbolAt(t, data, at) == Decoded(0xF0, size)
    requires Carries(data, at + size, Corrections(band, b, lo, z))
    ensures RefineFrom(band, t, data, Target(band, a, b, lo), lo, at) ==
      RefineFrom(band, t, data, Target(band, a, b, z + 1), z + 1, at + size + Length(Corrections(band, b, lo, z)))
  {
    hide Truncate, Length, Window, Magnitude, Correct, Carries, SymbolAt, NewValue;
    Walked(band, data, a, b, lo, z, at + size, 15);
    TargetAt(band, a, b, z, z);
    NextBit(b[band.order[z]], band.al);
    assert Target(band, a, b, z + 1) == Target(band, a, b, z);
  }

  lemma {:induction false} ZerosBound(band: Band, b: seq<int>, lo: nat, hi: nat)
    requires ValidBand(band) && |b| == BLOCK && lo <= hi <= band.se + 1
    ensures Zeros(band, b, lo, hi) + Length(Corrections(band, b, lo, hi)) <= hi - lo
    ensures NoneNew(band, b, lo, hi) ==> Zeros(band, b, lo, hi) + Length(Corrections(band, b, lo, hi)) == hi - lo
  {
    hide Length, Magnitude;
    if lo < hi {
      ZerosBound(band, b, lo, hi - 1);
      var m := At(band, b, hi - 1);
      LengthAppend(Corrections(band, b, lo, hi - 1), Correction(m));
      LengthOne(Field(m % 2, 1));
    }
    LengthNone();
  }

  // The tail of a band, or all of it, when no coefficient in it is newly nonzero.
  lemma Tail(band: Band, data: seq<Byte>, a: seq<int>, b: seq<int>, lo: nat, at: nat)
    requires Known(band, a, b) && band.ss <= lo <= band.se + 1 && NoneNew(band, b, lo, band.se + 1)
    requires Carries(data, at, Corrections(band, b, lo, band.se + 1))
    ensures CorrectRest(band, data, Target(band, a, b, lo), lo, at) ==
      Walk(Sharpened(band, a, b), band.se + 1, at + Length(Corrections(band, b, lo, band.se + 1)))
  {
    hide Target, Length, Window, Carries;
    ZerosBound(band, b, lo, band.se + 1);
    Walked(band, data, a, b, lo, band.se + 1, at, BLOCK);
  }
}
