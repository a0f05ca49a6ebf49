// Bit input of the Huffman decoder: the bit buffer and how it is filled, destuffing,
// markers, suspension when the source has no more bytes, and decoding of one symbol with
// lookahead (section F.2.2.5 of ITU-T T.81).

module BitReader {
  import opened CodeBits
  import opened Segment
  import opened RestartSegments
  import opened RestartMarkers
  import opened HuffmanTables

  const MIN_GET_BITS := 25
  const WORD := 0x100000000

  // Bit buffer, number of unused bits in it, and the next byte of the source.
  datatype BitState = BitState(getBuffer: int, bitsLeft: int, pos: nat)

  // The buffer holds the bits of the segment from bit position `at` on. Before a marker the
  // bits in the buffer end where the bytes read end; behind it zeros may have been added,
  // which the flag records.
  ghost predicate Reads(input: seq<Byte>, code: seq<Byte>, marker: Byte, insufficient: bool, s: BitState, at: nat) {
    && 0 <= s.bitsLeft <= 32
    && 0 <= s.getBuffer < WORD
    && s.getBuffer % Pow2(s.bitsLeft) == Window(code, at, s.bitsLeft)
    && (if marker == 0 then
          && !insufficient
          && (at + s.bitsLeft) % 8 == 0
          && (at + s.bitsLeft) / 8 <= |code|
          && s.pos <= |input|
          && code[(at + s.bitsLeft) / 8..] == Unstuff(input, s.pos)
        else
          at + s.bitsLeft >= 8 * |code| && (!insufficient ==> at + s.bitsLeft == 8 * |code|))
  }

  lemma ReadsStart(input: seq<Byte>, start: nat)
    requires start <= |input|
    ensures Reads(input, Unstuff(input, start), 0, false, BitState(0, 0, start), 0)
  {
    assert Unstuff(input, start)[0..] == Unstuff(input, start);
  }

  lemma ModSplit(n: nat, w: nat, u: nat)
    requires w > 0 && u > 0
    ensures w * u > 0
    ensures n % (w * u) == (n / u % w) * u + n % u
  {
    var q, r := n / u, n % u;
    var g, h := q / w, q % w;
    assert n == q * u + r;
    assert q == g * w + h;
    Regroup(g, w, h, u);
    RowBound(h, w, r, u);
    DivideExactly(g, w * u, h * u + r);
  }

  lemma Regroup(g: nat, w: nat, h: nat, u: nat)
    ensures (g * w + h) * u == g * (w * u) + h * u
  {
    assert (g * w) * u == g * (w * u);
  }

  lemma RowBound(h: nat, w: nat, r: nat, u: nat)
    requires h < w && r < u
    ensures h * u + r < w * u
  {
    MulMonotone(h + 1, w, u);
  }

  // The upper n of the valid bits are the next n bits of the segment.
  lemma BufferBits(g: nat, code: seq<Byte>, at: nat, bitsLeft: nat, n: nat)
    requires g % Pow2(bitsLeft) == Window(code, at, bitsLeft) && n <= bitsLeft
    ensures g / Pow2(bitsLeft - n) % Pow2(n) == Window(code, at, n)
    ensures g % Pow2(bitsLeft - n) == Window(code, at + n, bitsLeft - n)
  {
    hide Pow2, Window;
    var k := bitsLeft - n;
    Pow2Add(n, k);
    ModSplit(g, Pow2(n), Pow2(k));
    WindowSplit(code, at, n, k);
    WindowBound(code, at + n, k);
    var x, y := g / Pow2(k) % Pow2(n), g % Pow2(k);
    DivideExactly(x, Pow2(k), y);
    DivideExactly(Window(code, at, n), Pow2(k), Window(code, at + n, k));
  }

  // Shifting bits into the word-sized buffer.
  lemma BufferShift(g: nat, bitsLeft: nat, k: nat, v: nat)
    requires g < WORD && bitsLeft + k <= 32 && v < Pow2(k)
    ensures g * Pow2(k) % WORD + v < WORD
    ensures (g * Pow2(k) % WORD + v) % Pow2(bitsLeft + k) == (g % Pow2(bitsLeft)) * Pow2(k) + v
  {
    hide Pow2;
    Word32();
    var w, u := Pow2(bitsLeft), Pow2(k);
    Pow2Add(32 - k, k);
    Pow2Add(bitsLeft, k);
    Pow2Add(32 - k - bitsLeft, bitsLeft);
    var top := Pow2(32 - k);
    var h, x := g % top, Pow2(32 - k - bitsLeft);
    ModOfShift(g, top, u);
    assert g * u % WORD == h * u;
    ModSplit(h * u + v, w, u);
    DivideExactly(h, u, v);
    ModOfMod(g, x, w);
    MulMonotone(h + 1, top, u);
    assert (h + 1) * u == h * u + u;
  }

  lemma Word32()
    ensures Pow2(32) == WORD
  {
    Pow2Constants();
    Pow2Add(16, 16);
  }

  lemma ModOfShift(g: nat, top: nat, u: nat)
    requires top > 0 && u > 0
    ensures top * u > 0 && g * u % (top * u) == (g % top) * u
  {
    ModSplit(g * u, top, u);
    DivideExactly(g, u, 0);
  }

  lemma ModOfMod(g: nat, x: nat, w: nat)
    requires x > 0 && w > 0
    ensures x * w > 0 && g % (x * w) % w == g % w
  {
    ModSplit(g, x, w);
    DivideExactly(g / w % x, w, g % w);
  }

  // Loading one data byte.
  lemma LoadByte(input: seq<Byte>, code: seq<Byte>, s: BitState, at: nat, c: Byte, pos: nat)
    requires Reads(input, code, 0, false, s, at) && s.bitsLeft < MIN_GET_BITS && pos <= |input|
    requires Unstuff(input, s.pos) == [c] + Unstuff(input, pos)
    ensures Reads(input, code, 0, false, BitState(s.getBuffer * 0x100 % WORD + c, s.bitsLeft + 8, pos), at)
  {
    hide Pow2, Window, Unstuff;
    var k := (at + s.bitsLeft) / 8;
    var rest := code[k..];
    assert rest[0] == c && rest[1..] == code[k + 1..];
    NextByteAt(at + s.bitsLeft, k);
    assert Pow2(8) == 256 by { Pow2Constants(); }
    BufferShift(s.getBuffer, s.bitsLeft, 8, c);
    WindowSplit(code, at, s.bitsLeft, 8);
    WindowOfByte(code, k);
  }

  lemma NextByteAt(n: nat, k: nat)
    requires n % 8 == 0 && k == n / 8
    ensures n == 8 * k && (n + 8) % 8 == 0 && (n + 8) / 8 == k + 1
  {
  }

  lemma WindowOfByte(code: seq<Byte>, k: nat)
    ensures Window(code, 8 * k, 8) == ByteAt(code, k)
  {
    hide Prefix, Window;
    PrefixByte(code, k);
    PrefixWindow(code, 8 * k, 8);
    Pow2Constants();
  }

  // The marker has been reached: no data byte is left.
  lemma ReachMarker(input: seq<Byte>, code: seq<Byte>, s: BitState, at: nat, marker: Byte, pos: nat)
    requires Reads(input, code, 0, false, s, at) && Unstuff(input, s.pos) == [] && marker != 0
    ensures Reads(input, code, marker, false, s.(pos := pos), at)
  {
  }

  // Fake zero bits behind the end of the data.
  lemma StuffZeros(input: seq<Byte>, code: seq<Byte>, marker: Byte, insufficient: bool, s: BitState, at: nat)
    requires Reads(input, code, marker, insufficient, s, at) && marker != 0 && s.bitsLeft < MIN_GET_BITS
    ensures Reads(input, code, marker, true,
                  BitState(s.getBuffer * Pow2(MIN_GET_BITS - s.bitsLeft) % WORD, MIN_GET_BITS, s.pos), at)
  {
    hide Pow2, Window;
    var k := MIN_GET_BITS - s.bitsLeft;
    BufferShift(s.getBuffer, s.bitsLeft, k, 0);
    WindowSplit(code, at, s.bitsLeft, k);
    WindowBeyond(code, at + s.bitsLeft, k);
  }

  lemma {:induction false} WindowBeyond(code: seq<Byte>, pos: nat, k: nat)
    requires pos >= 8 * |code|
    ensures Window(code, pos, k) == 0
  {
    hide BitOf;
    if k > 0 {
      WindowBeyond(code, pos, k - 1);
      assert ByteAt(code, (pos + k - 1) / 8) == 0;
    }
  }

  lemma DropBits(input: seq<Byte>, code: seq<Byte>, marker: Byte, insufficient: bool, s: BitState, at: nat, n: nat)
    requires Reads(input, code, marker, insufficient, s, at) && n <= s.bitsLeft
    ensures Reads(input, code, marker, insufficient, s.(bitsLeft := s.bitsLeft - n), at + n)
    ensures s.getBuffer / Pow2(s.bitsLeft - n) % Pow2(n) == Window(code, at, n)
    ensures !insufficient ==> at + n <= 8 * |code|
  {
    hide Pow2, Window;
    BufferBits(s.getBuffer, code, at, s.bitsLeft, n);
  }

  // Number of bytes in a list of chunks.
  function Arrived(chunks: seq<nat>): nat {
    if chunks == [] then 0 else Arrived(chunks[..|chunks| - 1]) + chunks[|chunks| - 1]
  }

  class Reader {
    const input: seq<Byte>
    var avail: nat               // bytes of the source that have arrived so far
    var unreadMarker: Byte       // marker that ended the segment, or 0
    var insufficientData: bool   // zeros have been made up for missing data
    var getBuffer: int
    var bitsLeft: int
    var pos: nat
    var nextRestartNum: nat      // number of the restart marker expected next
    ghost var code: seq<Byte>    // data bytes of the segment
    ghost var at: nat            // position of the next bit to deliver
    ghost var end: nat           // position in the source behind the marker that ends the segment

    ghost function State(): BitState
      reads this
    {
      BitState(getBuffer, bitsLeft, pos)
    }

    // A bit-reading state from which decoding can go on.
    ghost predicate Resumable(s: BitState, p: nat)
      reads this`unreadMarker, this`insufficientData, this`code, this`end
    {
      && Reads(input, code, unreadMarker, insufficientData, s, p)
      && Located(s.pos)
    }

    // The marker behind the segment is the last thing read, or lies ahead.
    ghost predicate Located(p: nat)
      reads this`unreadMarker, this`end
    {
      && 0 < end && p <= |input|
      && if unreadMarker == 0 then AfterMarker(input, p) == end
         else p == end && unreadMarker == InputAt(input, end - 1)
    }

    ghost predicate Valid()
      reads this
    {
      Resumable(State(), at)
    }

    // Everything before this position of the source has arrived.
    ghost predicate HasArrived(p: nat)
      reads this`avail
    {
      p <= avail && p <= |input|
    }

    // All of the segment has arrived, up to and including a marker.
    ghost predicate Complete()
      reads this`avail, this`end
    {
      HasArrived(end)
    }

    constructor (bytes: seq<Byte>, start: nat, arrived: nat)
      requires start <= |bytes|
      ensures Valid() && input == bytes && code == Unstuff(bytes, start) && at == 0
      ensures end == AfterMarker(bytes, start)
      ensures avail == arrived && unreadMarker == 0 && !insufficientData && nextRestartNum == 0
    {
      input, avail, unreadMarker, insufficientData := bytes, arrived, 0, false;
      getBuffer, bitsLeft, pos, nextRestartNum := 0, 0, start, 0;
      code, at, end := Unstuff(bytes, start), 0, AfterMarker(bytes, start);
      ReadsStart(bytes, start);
    }

    // BITREAD_LOAD_STATE: go back to a saved state.
    method Load(s: BitState, ghost p: nat)
      requires Resumable(s, p)
      modifies this`getBuffer, this`bitsLeft, this`pos, this`at
      ensures Valid() && State() == s && at == p
    {
      getBuffer, bitsLeft, pos, at := s.getBuffer, s.bitsLeft, s.pos, p;
    }

    // A byte at a position of the source, unless the source has to suspend.
    predicate CanRead(i: nat)
      reads this
    {
      i < avail && i < |input|
    }

    // Discard padding 0xFF bytes; fails if the source runs dry.
    method SkipPadding(start: nat) returns (ok: bool, c: Byte, p: nat)
      ensures ok ==> p == SkipFill(input, start) + 1 <= |input| && c == InputAt(input, p - 1) && c != 0xFF
      ensures !ok ==> start <= p <= SkipFill(input, start) && !CanRead(p)
    {
      p := start;
      while true
        invariant start <= p <= SkipFill(input, start) && SkipFill(input, p) == SkipFill(input, start)
        decreases SkipFill(input, start) - p
      {
        if !CanRead(p) {
          return false, 0, p;
        }
        c := input[p];
        p := p + 1;
        if c != 0xFF {
          return true, c, p;
        }
      }
    }

    // One more byte of data, or the marker behind the data.
    method LoadNext(s: BitState) returns (ok: bool, t: BitState)
      requires Resumable(s, at) && unreadMarker == 0 && !insufficientData && s.bitsLeft < MIN_GET_BITS
      modifies this`unreadMarker
      ensures ok ==> Resumable(t, at) && t.bitsLeft == if unreadMarker == 0 then s.bitsLeft + 8 else s.bitsLeft
      ensures !ok ==> unreadMarker == 0 && !Complete()
    {
      hide Unstuff, AfterMarker, Pow2, SkipFill, Window, Reads, InputAt;
      ReadsInside(input, code, s, at);
      t := s;
      if !CanRead(s.pos) {
        return false, t;
      }
      UnstuffCases(input, s.pos);
      InputHere(input, s.pos);
      var c, p := input[s.pos], s.pos + 1;
      if c == 0xFF {
        ok, c, p := SkipPadding(p);
        if !ok {
          MarkerBehind(input, s.pos);
          return;
        }
        if c == 0 {
          c := 0xFF;
        } else {
          ReachMarker(input, code, s, at, c, p);
          unreadMarker := c;
          return true, s.(pos := p);
        }
      }
      LoadByte(input, code, s, at, c, p);
      return true, BitState(s.getBuffer * 0x100 % WORD + c, s.bitsLeft + 8, p);
    }

    // jpeg_fill_bit_buffer. On suspension nothing changes, and a byte of the segment or of
    // the marker behind it has not arrived yet. The flag goes up exactly when bits behind
    // the end of the data are asked for.
    method Fill(nbits: nat) returns (ok: bool)
      requires Valid() && nbits <= MIN_GET_BITS
      modifies this`unreadMarker, this`insufficientData, this`getBuffer, this`bitsLeft, this`pos
      ensures ok ==> Valid() && bitsLeft >= nbits
      ensures ok ==> insufficientData == (old(insufficientData) || at + nbits > 8 * |code|)
      ensures ok ==> bitsLeft >= MIN_GET_BITS || unreadMarker != 0
      ensures old(unreadMarker) != 0 ==> unreadMarker == old(unreadMarker)
      ensures !ok ==> State() == old(State()) && unreadMarker == old(unreadMarker) == 0
      ensures !ok ==> insufficientData == old(insufficientData) == false
      ensures !ok ==> !Complete()
    {
      hide Unstuff, AfterMarker, Pow2, Window, Located;
      var s := BitState(getBuffer, bitsLeft, pos);
      if unreadMarker == 0 {
        while s.bitsLeft < MIN_GET_BITS && unreadMarker == 0
          invariant Resumable(s, at) && State() == old(State()) && insufficientData == false
          decreases if unreadMarker == 0 then MIN_GET_BITS + 8 - s.bitsLeft else 0
        {
          ok, s := LoadNext(s);
          if !ok {
            return;
          }
        }
      }
      if unreadMarker != 0 && nbits > s.bitsLeft {
        StuffZeros(input, code, unreadMarker, insufficientData, s, at);
        insufficientData := true;
        s := BitState(s.getBuffer * Pow2(MIN_GET_BITS - s.bitsLeft) % WORD, MIN_GET_BITS, s.pos);
      }
      getBuffer, bitsLeft, pos := s.getBuffer, s.bitsLeft, s.pos;
      ok := true;
    }

    // CHECK_BIT_BUFFER followed by GET_BITS.
    method ReadBits(nbits: nat) returns (ok: bool, v: nat)
      requires Valid() && nbits <= 16
      modifies this`unreadMarker, this`insufficientData, this`getBuffer, this`bitsLeft, this`pos, this`at
      ensures ok ==> Valid() && v == Window(code, old(at), nbits) && at == old(at) + nbits
      ensures ok ==> insufficientData == (old(insufficientData) || at > 8 * |code|)
      ensures !ok ==> unreadMarker == old(unreadMarker) == 0 && insufficientData == old(insufficientData) == false
      ensures !ok ==> !Complete()
      ensures old(unreadMarker) != 0 ==> unreadMarker == old(unreadMarker)
    {
      hide Reads, Window, Pow2;
      if bitsLeft < nbits {
        ok := Fill(nbits);
        if !ok {
          return false, 0;
        }
      }
      DropBits(input, code, unreadMarker, insufficientData, State(), at, nbits);
      bitsLeft := bitsLeft - nbits;
      v := getBuffer / Pow2(bitsLeft) % Pow2(nbits);
      at := at + nbits;
      ok := true;
    }

    // jpeg_huff_decode: the code is known to have at least minBits bits.
    method SlowDecode(t: HuffTable, minBits: nat) returns (ok: bool, sym: Byte)
      requires Valid() && GoodTable(t) && 1 <= minBits <= 9 && DecodingFrom(t, code, at, minBits)
      modifies this`unreadMarker, this`insufficientData, this`getBuffer, this`bitsLeft, this`pos, this`at
      ensures ok ==> Valid() && sym == SymbolAt(t, code, old(at)).symbol
      ensures ok ==> at == old(at) + SymbolAt(t, code, old(at)).size
      ensures ok ==> insufficientData == (old(insufficientData) || at > 8 * |code|)
      ensures !ok ==> unreadMarker == old(unreadMarker) == 0 && insufficientData == old(insufficientData) == false
      ensures !ok ==> !Complete()
      ensures old(unreadMarker) != 0 ==> unreadMarker == old(unreadMarker)
    {
      hide Reads, Window, GoodTable, DecodingFrom, SymbolAt;
      ghost var start, flag := at, insufficientData;
      var l, v := minBits, 0;
      ok, v := ReadBits(l);
      if !ok {
        return false, 0;
      }
      DecideLength(t, code, start, l);
      while v > t.derived.maxcode[l]
        invariant Valid() && l <= 17 && at == start + l && v == Window(code, start, l)
        invariant |t.derived.maxcode| == 18 && DecodingFrom(t, code, start, l)
        invariant insufficientData == (flag || at > 8 * |code|)
        invariant old(unreadMarker) != 0 ==> unreadMarker == old(unreadMarker)
        decreases 17 - l
      {
        DecideLength(t, code, start, l);
        var b;
        ok, b := ReadBits(1);
        if !ok {
          return false, 0;
        }
        WindowPush(code, start, l);
        v := 2 * v + b;
        l := l + 1;
        DecideLength(t, code, start, l);
      }
      DecideLength(t, code, start, l);
      if l > 16 {
        return true, 0;
      }
      return true, t.huffval[v + t.derived.valoffset[l]];
    }

    // HUFF_DECODE: lookahead when enough bits are at hand. Whatever the table and the
    // input, the symbol and the bits used are those of bit-by-bit decoding.
    method HuffDecode(t: HuffTable) returns (ok: bool, sym: Byte)
      requires Valid() && GoodTable(t)
      modifies this`unreadMarker, this`insufficientData, this`getBuffer, this`bitsLeft, this`pos, this`at
      ensures ok ==> Valid() && sym == SymbolAt(t, code, old(at)).symbol
      ensures ok ==> at == old(at) + SymbolAt(t, code, old(at)).size
      ensures ok ==> insufficientData == (old(insufficientData) || at > 8 * |code|)
      ensures !ok ==> unreadMarker == old(unreadMarker) == 0 && insufficientData == old(insufficientData) == false
      ensures !ok ==> !Complete()
      ensures old(unreadMarker) != 0 ==> unreadMarker == old(unreadMarker)
    {
      hide Reads, Window, GoodTable, DecodingFrom, SymbolAt, Pow2;
      DecodingStarts(t, code, at);
      if bitsLeft < HUFF_LOOKAHEAD {
        ok := Fill(0);
        if !ok {
          return false, 0;
        }
        if bitsLeft < HUFF_LOOKAHEAD {
          PositionWithin(input, code, unreadMarker, old(insufficientData), insufficientData, State(), at);
          ok, sym := SlowDecode(t, 1);
          return;
        }
      }
      PositionWithin(input, code, unreadMarker, old(insufficientData), insufficientData, State(), at);
      DropBits(input, code, unreadMarker, insufficientData, State(), at, 8);
      LookaheadDecides(t, code, at);
      var look := getBuffer / Pow2(bitsLeft - HUFF_LOOKAHEAD) % Pow2(HUFF_LOOKAHEAD);
      LookSizes(t);
      var nb := t.derived.lookNbits[look];
      if nb != 0 {
        DropBits(input, code, unreadMarker, insufficientData, State(), at, nb);
        bitsLeft := bitsLeft - nb;
        at := at + nb;
        return true, t.derived.lookSym[look];
      } else {
        ok, sym := SlowDecode(t, HUFF_LOOKAHEAD + 1);
      }
    }

    // ----- Restart markers -----

    // Going on at p with the marker read, if there is one, leads where the restart behind
    // the segment leads.
    ghost predicate Seeking(p: nat)
      reads this`unreadMarker, this`end, this`nextRestartNum
    {
      && 0 < end && InputAt(input, end - 1) != 0 && p <= |input| && nextRestartNum < 8
      && Resync(input, unreadMarker, p, nextRestartNum) == LandingAt(input, end, nextRestartNum)
    }

    lemma ResumableSeeks(s: BitState, p: nat)
      requires Resumable(s, p) && nextRestartNum < 8
      ensures Seeking(s.pos)
    {
      hide Reads, AfterMarker, InputAt, Resync;
      if unreadMarker == 0 {
        ResyncStep(input, 0, s.pos, nextRestartNum);
      }
    }

    // next_marker. On suspension the bytes thrown away so far stay thrown away.
    method NextMarker(start: nat) returns (ok: bool, p: nat)
      requires start <= |input|
      modifies this`unreadMarker
      ensures start <= p <= |input|
      ensures ok ==> p == AfterMarker(input, start) && unreadMarker == InputAt(input, p - 1) != 0
      ensures !ok ==> unreadMarker == old(unreadMarker) && AfterMarker(input, p) == AfterMarker(input, start)
      ensures !ok ==> !HasArrived(AfterMarker(input, start))
    {
      hide AfterMarker, SkipFill, Unstuff, InputAt;
      p := start;
      while true
        invariant start <= p <= |input| && AfterMarker(input, p) == AfterMarker(input, start)
        invariant unreadMarker == old(unreadMarker)
        decreases |input| - p
      {
        if !CanRead(p) {
          return false, p;
        }
        var c, q := input[p], p + 1;
        while c != 0xFF
          invariant start <= p < |input| && q == p + 1 && c == input[p]
          invariant AfterMarker(input, p) == AfterMarker(input, start) && unreadMarker == old(unreadMarker)
          decreases |input| - p
        {
          UnstuffCases(input, p);
          InputHere(input, p);
          p := q;
          if !CanRead(p) {
            return false, p;
          }
          c, q := input[p], p + 1;
        }
        UnstuffCases(input, p);
        InputHere(input, p);
        ok, c, q := SkipPadding(q);
        if !ok {
          MarkerBehind(input, p);
          return;
        }
        p := q;
        if c != 0 {
          unreadMarker := c;
          return;
        }
      }
    }

    // jpeg_resync_to_restart
    method ResyncToRestart(start: nat, desired: nat) returns (ok: bool, p: nat)
      requires unreadMarker != 0 && start <= |input| && desired < 8
      modifies this`unreadMarker
      ensures ok ==> Landing(p, unreadMarker) == Resync(input, old(unreadMarker), start, desired) && p <= |input|
      ensures !ok ==> p <= |input|
      ensures !ok ==> Resync(input, unreadMarker, p, desired) == Resync(input, old(unreadMarker), start, desired)
      ensures !ok ==> !HasArrived(Resync(input, old(unreadMarker), start, desired).pos)
    {
      hide AfterMarker, InputAt, RecoveryAction, Resync;
      p := start;
      ghost var goal := Resync(input, unreadMarker, start, desired);
      while true
        invariant unreadMarker != 0 && p <= |input| && Resync(input, unreadMarker, p, desired) == goal
        decreases |input| - p
      {
        match RecoveryAction(unreadMarker, desired) {
          case Discard => {
            ResyncStops(input, unreadMarker, p, desired);
            unreadMarker := 0;
            return true, p;
          }
          case ScanOn => {
            ResyncStep(input, unreadMarker, p, desired);
            ghost var from := p;
            ok, p := NextMarker(p);
            if !ok {
              ResyncStep(input, unreadMarker, p, desired);
              return;
            }
          }
          case Leave => {
            ResyncStops(input, unreadMarker, p, desired);
            return true, p;
          }
        }
      }
    }

    // read_restart_marker. It may have been broken off any number of times before.
    method ReadRestartMarker(start: nat) returns (ok: bool, p: nat)
      requires Seeking(start)
      modifies this`unreadMarker, this`nextRestartNum
      ensures ok ==> Landing(p, unreadMarker) == LandingAt(input, end, old(nextRestartNum)) && p <= |input|
      ensures ok ==> nextRestartNum == (old(nextRestartNum) + 1) % 8
      ensures !ok ==> nextRestartNum == old(nextRestartNum) && Seeking(p)
      ensures !ok ==> !HasArrived(LandingAt(input, end, nextRestartNum).pos)
    {
      hide AfterMarker, InputAt, RecoveryAction, Resync;
      p := start;
      if unreadMarker == 0 {
        ResyncStep(input, 0, p, nextRestartNum);
        ghost var from := p;
        ok, p := NextMarker(p);
        if !ok {
          ResyncStep(input, 0, p, nextRestartNum);
          return;
        }
      }
      if unreadMarker == RST0 + nextRestartNum {
        ExpectedMarker(input, unreadMarker, p, nextRestartNum);
        unreadMarker := 0;
      } else {
        ok, p := ResyncToRestart(p, nextRestartNum);
        if !ok {
          return;
        }
      }
      nextRestartNum := (nextRestartNum + 1) % 8;
      ok := true;
    }

    // The first half of process_restart: the bit buffer is emptied, the marker dealt with,
    // and the out-of-data flag reset unless a marker still blocks the way. A decoder that
    // had to suspend in the middle comes to the same end as one that did not.
    method ProcessRestart(s: BitState) returns (ok: bool, t: BitState, ghost p: nat)
      requires Seeking(s.pos) && 0 <= s.getBuffer < WORD
      modifies this`unreadMarker, this`nextRestartNum, this`insufficientData, this`code, this`end
      ensures ok ==> Resumable(t, p) && nextRestartNum == (old(nextRestartNum) + 1) % 8
      ensures ok ==> var l := LandingAt(input, old(end), old(nextRestartNum));
        && Stretch(code, end) == StretchAt(input, l)
        && p == StartOfSegment(l.marker != 0, old(insufficientData))
        && insufficientData == (p > 8 * |code|)
      ensures !ok ==> t == BitState(s.getBuffer, 0, t.pos) && Seeking(t.pos)
      ensures !ok ==> nextRestartNum == old(nextRestartNum) && insufficientData == old(insufficientData)
      ensures !ok ==> code == old(code) && end == old(end)
      ensures !ok ==> !HasArrived(LandingAt(input, end, nextRestartNum).pos)
    {
      hide AfterMarker, InputAt, Resync, Unstuff, Window;
      t := s.(bitsLeft := 0);
      ghost var l := LandingAt(input, end, nextRestartNum);
      var at;
      ok, at := ReadRestartMarker(t.pos);
      t := t.(pos := at);
      p := 0;
      if !ok {
        return;
      }
      if unreadMarker == 0 {
        insufficientData := false;
      }
      LandingMarker(input, InputAt(input, end - 1), end, old(nextRestartNum));
      code, end := StretchAt(input, l).data, StretchAt(input, l).end;
      p := StartOfSegment(l.marker != 0, insufficientData);
      ReadsEmpty(input, l, insufficientData, t);
    }
  }

  // Reading starts with an empty bit buffer.
  lemma ReadsEmpty(input: seq<Byte>, l: Landing, insufficient: bool, s: BitState)
    requires 0 <= s.getBuffer < WORD && s.bitsLeft == 0 && s.pos == l.pos <= |input|
    requires l.marker == 0 ==> !insufficient
    ensures Reads(input, StretchAt(input, l).data, l.marker, insufficient, s,
                  StartOfSegment(l.marker != 0, insufficient))
  {
    hide Unstuff, AfterMarker;
    var data := StretchAt(input, l).data;
    assert Pow2(0) == 1;
    assert data[0..] == data;
  }

  lemma InputHere(input: seq<Byte>, i: nat)
    requires i < |input|
    ensures InputAt(input, i) == input[i]
  {
  }

  lemma BufferRange(reader: Reader)
    requires reader.Valid()
    ensures 0 <= reader.getBuffer < WORD
  {
  }

  lemma BufferOf(reader: Reader, s: BitState, at: nat)
    requires reader.Resumable(s, at)
    ensures 0 <= s.getBuffer < WORD
  {
  }

  lemma LookSizes(t: HuffTable)
    requires GoodTable(t)
    ensures |t.derived.lookNbits| == |t.derived.lookSym| == 256
  {
  }

  // Asking for no bits raises the flag only if it was up already.
  lemma PositionWithin(input: seq<Byte>, code: seq<Byte>, marker: Byte, before: bool, after: bool, s: BitState, at: nat)
    requires Reads(input, code, marker, after, s, at)
    requires after == before || after == (before || at > 8 * |code|)
    ensures !after ==> at <= 8 * |code|
  {
  }

  lemma WindowPush(code: seq<Byte>, at: nat, l: nat)
    ensures Window(code, at, l + 1) == 2 * Window(code, at, l) + Window(code, at + l, 1)
  {
    hide BitAt;
    assert Window(code, at + l, 1) == 2 * Window(code, at + l, 0) + BitAt(code, at + l);
  }

  lemma ReadsInside(input: seq<Byte>, code: seq<Byte>, s: BitState, at: nat)
    requires Reads(input, code, 0, false, s, at)
    ensures s.pos <= |input| && s.bitsLeft >= 0
  {
  }

  lemma MarkerBehind(input: seq<Byte>, i: nat)
    requires i < |input| && input[i] == 0xFF
    ensures SkipFill(input, i + 1) < AfterMarker(input, i)
  {
    hide SkipFill;
    UnstuffCases(input, i);
  }
}
