// The arithmetic entropy decoder: marker-aware input, the floating cut between the
// interval base and the bits read ahead, and the decision itself (sections D.2.4 and
// D.2.6 of ITU-T T.81).

module ArithmeticDecoder {
  import opened CodeBits
  import opened Segment
  import opened RestartSegments
  import opened RestartMarkers
  import opened ProbabilityTable
  import opened CodingInterval

  // Registers of a running decoder, with the exact interval they stand for: c holds the
  // code bits read so far less the interval base, and ct of those bits are read ahead.
  datatype Registers = Registers(c: int, a: int, ct: int, low: nat, shifts: nat)

  ghost predicate Running(code: seq<Byte>, fetched: nat, r: Registers) {
    && 0 < r.a <= 0x10000
    && 0 <= r.ct <= 7
    && 8 * fetched == 16 + r.shifts + r.ct
    && r.c == Prefix(code, 16 + r.shifts + r.ct) - r.low * Pow2(r.ct)
    && r.low <= Prefix(code, 16 + r.shifts) < r.low + r.a
  }

  function Exact(r: Registers, bins: seq<Bin>): Coder
    requires r.a >= 0
  {
    Coder(r.low, r.a, r.shifts, bins)
  }

  // Two bytes have been read: every code lies in the initial interval.
  lemma FirstBytes(code: seq<Byte>)
    ensures Prefix(code, 0) == 0
    ensures Prefix(code, 8) == ByteAt(code, 0)
    ensures Prefix(code, 16) == 0x100 * Prefix(code, 8) + ByteAt(code, 1)
    ensures Running(code, 2, Registers(Prefix(code, 16), 0x10000, 0, 0, 0))
  {
    hide BitAt;
    PrefixByte(code, 0);
    PrefixByte(code, 1);
  }

  // One shift that uses up a bit already read.
  lemma ShiftBuffered(code: seq<Byte>, fetched: nat, r: Registers)
    requires Running(code, fetched, r) && r.a < 0x8000 && r.ct > 0
    ensures Running(code, fetched, Registers(r.c, 2 * r.a, r.ct - 1, 2 * r.low, r.shifts + 1))
  {
    hide BitAt;
    assert Prefix(code, 16 + r.shifts + 1)
        == 2 * Prefix(code, 16 + r.shifts) + BitAt(code, 16 + r.shifts);
    MulTwice(r.low, Pow2(r.ct - 1));
    assert (2 * r.low) * Pow2(r.ct - 1) == 2 * (r.low * Pow2(r.ct - 1));
  }

  // One shift that first takes in another byte.
  lemma ShiftFetching(code: seq<Byte>, fetched: nat, r: Registers, data: Byte)
    requires Running(code, fetched, r) && r.a < 0x8000 && r.ct == 0 && data == ByteAt(code, fetched)
    ensures Running(code, fetched + 1, Registers(0x100 * r.c + data, 2 * r.a, 7, 2 * r.low, r.shifts + 1))
  {
    hide BitAt;
    assert Prefix(code, 16 + r.shifts + 1)
        == 2 * Prefix(code, 16 + r.shifts) + BitAt(code, 16 + r.shifts);
    PrefixByte(code, fetched);
    Pow2Constants();
  }

  // The register comparison decides exactly as the exact interval does.
  lemma CompareRegisters(code: seq<Byte>, fetched: nat, r: Registers, m: nat)
    requires Running(code, fetched, r)
    ensures r.c >= m * Pow2(r.ct) <==> Prefix(code, 16 + r.shifts) >= r.low + m
  {
    hide BitAt, Prefix, Pow2;
    PrefixCompare(code, 16 + r.shifts, r.ct, r.low + m);
    assert (r.low + m) * Pow2(r.ct) == r.low * Pow2(r.ct) + m * Pow2(r.ct);
  }

  lemma SelectUpper(code: seq<Byte>, fetched: nat, r: Registers, m: nat)
    requires Running(code, fetched, r) && 0 < m < r.a && Prefix(code, 16 + r.shifts) >= r.low + m
    ensures Running(code, fetched, Registers(r.c - m * Pow2(r.ct), r.a - m, r.ct, r.low + m, r.shifts))
  {
    hide BitAt, Prefix, Pow2;
    assert (r.low + m) * Pow2(r.ct) == r.low * Pow2(r.ct) + m * Pow2(r.ct);
  }

  lemma SelectLower(code: seq<Byte>, fetched: nat, r: Registers, m: nat)
    requires Running(code, fetched, r) && 0 < m <= r.a && Prefix(code, 16 + r.shifts) < r.low + m
    ensures Running(code, fetched, r.(a := m))
  {
    hide BitAt, Prefix, Pow2;
  }

  lemma RunningBounds(code: seq<Byte>, fetched: nat, r: Registers)
    ensures Running(code, fetched, r) ==> 0 < r.a <= 0x10000 && 0 <= r.ct <= 7 && r.c >= 0
  {
    hide Prefix, Pow2;
    if Running(code, fetched, r) {
      PrefixDrop(code, 16 + r.shifts, r.ct);
      MulMonotone(r.low, Prefix(code, 16 + r.shifts), Pow2(r.ct));
    }
  }

  lemma TailInRange(d: Decision, rest: seq<Decision>, n: nat)
    requires InRange([d] + rest, n)
    ensures d.bin < n && InRange(rest, n)
  {
    assert ([d] + rest)[0] == d;
    forall i | 0 <= i < |rest|
      ensures rest[i].bin < n
    {
      assert ([d] + rest)[i + 1] == rest[i];
    }
  }

  // Before the two initial bytes are in.
  ghost predicate StartingUp(r: Registers, code: seq<Byte>, fetched: nat) {
    && r.a == 0 && r.low == 0 && r.shifts == 0
    && fetched <= 1
    && r.ct == -16 + 8 * fetched
    && r.c == Prefix(code, 8 * fetched)
  }

  class Decoder {
    var c: int                // code bits read, less the interval base
    var a: int                // size of the coding interval; 0 before the first byte is read
    var ct: int               // code bits read ahead; negative while starting up
    var unreadMarker: Byte    // marker that ended the data, or 0
    var pos: nat
    const input: seq<Byte>
    const bins: array<Bin>
    ghost var code: seq<Byte> // data bytes of this segment
    ghost var after: nat      // position behind the marker that ends this segment
    ghost var fetched: nat    // data bytes taken, supplied zeros included
    ghost var low: nat        // the exact interval base
    ghost var shifts: nat

    ghost function Regs(): Registers
      reads this
    {
      Registers(c, a, ct, low, shifts)
    }

    ghost predicate InputInv()
      reads this
    {
      if unreadMarker == 0 then
        && pos <= |input|
        && fetched <= |code|
        && code[fetched..] == Unstuff(input, pos)
        && after == AfterMarker(input, pos)
      else
        fetched >= |code| && pos == after && after > 0 && unreadMarker == InputAt(input, after - 1) != 0xFF
    }

    ghost predicate Starting()
      reads this
    {
      a == 0 && ct == -16 && c == 0 && fetched == 0 && low == 0 && shifts == 0
    }

    // Whatever the input, well formed or not, the code it holds lies in the interval.
    ghost predicate Valid()
      reads this, bins
    {
      && InputInv()
      && ValidBins(bins[..])
      && (Starting() || Running(code, fetched, Regs()))
    }

    // The exact state, with the renormalization that the next call will begin with.
    ghost function State(): Coder
      reads this, bins
      requires Valid()
    {
      if Starting() then Start(bins[..]) else Renormalize(Exact(Regs(), bins[..]))
    }

    // start_pass: force reading two initial bytes.
    constructor (bytes: seq<Byte>, start: nat, stats: array<Bin>)
      requires ValidBins(stats[..]) && start <= |bytes|
      ensures Valid() && input == bytes && bins == stats && code == Unstuff(bytes, start)
      ensures after == AfterMarker(bytes, start)
      ensures State() == Start(stats[..]) && pos == start
    {
      c, a, ct, unreadMarker, pos := 0, 0, -16, 0, start;
      input, bins := bytes, stats;
      code, after := Unstuff(bytes, start), AfterMarker(bytes, start);
      fetched, low, shifts := 0, 0, 0;
      new;
      assert code[0..] == code;
    }

    // get_byte
    method GetByte() returns (data: Byte)
      modifies this`pos
      ensures pos == old(pos) + 1 && data == InputAt(input, old(pos))
    {
      data := InputAt(input, pos);
      pos := pos + 1;
    }

    // Swallow extra 0xFF bytes.
    method GetByteAfterFill() returns (data: Byte)
      modifies this`pos
      ensures pos == SkipFill(input, old(pos)) + 1 && data == InputAt(input, pos - 1) && data != 0xFF
    {
      data := GetByte();
      while data == 0xFF
        invariant pos > old(pos) && data == InputAt(input, pos - 1)
        invariant SkipFill(input, pos - 1) == SkipFill(input, old(pos))
        decreases SkipFill(input, old(pos)) - pos
      {
        data := GetByte();
      }
    }

    // One data byte: stuffing removed, zeros once a marker has been reached.
    method NextData() returns (data: Byte)
      requires InputInv()
      modifies this`pos, this`unreadMarker, this`fetched
      ensures InputInv() && fetched == old(fetched) + 1 && data == ByteAt(code, old(fetched))
    {
      hide Unstuff, AfterMarker, SkipFill;
      ghost var k := fetched;
      fetched := fetched + 1;
      if unreadMarker != 0 {
        return 0;
      }
      UnstuffCases(input, pos);
      assert k < |code| ==> code[k..] == [code[k]] + code[k + 1..];
      data := GetByte();
      if data == 0xFF {
        data := GetByteAfterFill();
        if data == 0 {
          data := 0xFF;
        } else {
          unreadMarker := data;
          data := 0;
        }
      }
    }

    // The data byte that the shift in progress needs. While starting up, the count first
    // comes back to zero with the second byte.
    method InsertData()
      requires InputInv() && ct < 0
      modifies this`c, this`a, this`ct, this`pos, this`unreadMarker, this`fetched
      ensures InputInv() && fetched == old(fetched) + 1 && c == 0x100 * old(c) + ByteAt(code, old(fetched))
      ensures ct == if old(ct) < -8 then old(ct) + 9 else old(ct) + 8
      ensures a == if old(ct) == -9 then 0x8000 else old(a)
    {
      hide Unstuff, AfterMarker, ByteAt;
      var data := NextData();
      c := 0x100 * c + data;
      ct := ct + 8;
      if ct < 0 {
        ct := ct + 1;
        if ct == 0 {
          a := 0x8000;
        }
      }
    }

    // Renormalization and data input (section D.2.6).
    method Renorm()
      requires Valid()
      modifies this`c, this`a, this`ct, this`pos, this`unreadMarker, this`fetched, this`low, this`shifts
      ensures Valid() && a >= 0x8000 && Running(code, fetched, Regs())
      ensures State() == old(State()) && Exact(Regs(), bins[..]) == State()
    {
      hide Prefix, Running, InputAt, Unstuff, AfterMarker, ByteAt;
      ghost var s := State();
      FirstBytes(code);
      RunningBounds(code, fetched, Regs());
      while a < 0x8000
        invariant InputInv() && (StartingUp(Regs(), code, fetched) || Running(code, fetched, Regs()))
        invariant a != 0 ==> 0 < a <= 0x10000 && Renormalize(Exact(Regs(), bins[..])) == s
        invariant a == 0 ==> Start(bins[..]) == s
        decreases 0x8000 - a, -ct
      {
        ghost var r, running := Regs(), a != 0;
        RunningBounds(code, fetched, r);
        if running && ct > 0 {
          ShiftBuffered(code, fetched, r);
        }
        ct := ct - 1;
        if ct < 0 {
          if running {
            ShiftFetching(code, fetched, r, ByteAt(code, fetched));
          }
          InsertData();
        }
        a := 2 * a;
        if running {
          low, shifts := 2 * low, shifts + 1;
        }
        RunningBounds(code, fetched, Regs());
      }
    }

    // arith_decode
    method Decode(bin: nat) returns (bit: bool)
      requires Valid() && bin < bins.Length
      modifies this`c, this`a, this`ct, this`pos, this`unreadMarker, this`fetched, this`low, this`shifts, bins
      ensures Valid() && code == old(code) && after == old(after)
      ensures bit == DecodeBit(code, old(State()), bin)
      ensures State() == EncodeStep(old(State()), Decision(bin, bit))
    {
      hide Prefix, Running, InputAt, Unstuff, AfterMarker, Qe, AfterLps, AfterMps, Renormalize;
      ghost var s := State();
      Renorm();
      ghost var r, seen := Regs(), fetched;
      RunningBounds(code, seen, r);
      var sv := bins[bin];
      var qe := Qe(sv);
      a := a - qe;
      var temp := a * Pow2(ct);
      CompareRegisters(code, seen, r, a);
      bit := Mps(sv);
      if c >= temp {
        SelectUpper(code, seen, r, a);
        c := c - temp;
        low := low + a;
        if a < qe {
          a := qe;
          bins[bin] := AfterMps(sv);
        } else {
          a := qe;
          bins[bin] := AfterLps(sv);
          bit := !bit;
        }
      } else {
        SelectLower(code, seen, r, a);
        if a < 0x8000 {
          if a < qe {
            bins[bin] := AfterLps(sv);
            bit := !bit;
          } else {
            bins[bin] := AfterMps(sv);
          }
        }
      }
      assert bins[..] == s.bins[bin := bins[bin]];
      assert Exact(Regs(), bins[..]) == Narrow(s, Decision(bin, bit));
    }

    // The rest of the segment codes this trace, which leads to state goal.
    ghost predicate Tracks(trace: seq<Decision>, goal: Coder)
      reads this, bins
    {
      Valid() && InRange(trace, bins.Length) && EncodeAll(State(), trace) == goal && Codes(code, goal)
    }

    // arith_decode on a segment that may code a known trace.
    method Follow(bin: nat, ghost d: Decision, ghost rest: seq<Decision>, ghost goal: Coder) returns (bit: bool)
      requires Valid() && bin < bins.Length
      modifies this`c, this`a, this`ct, this`pos, this`unreadMarker, this`fetched, this`low, this`shifts, bins
      ensures Valid() && code == old(code) && after == old(after)
      ensures bit == DecodeBit(code, old(State()), bin)
      ensures State() == EncodeStep(old(State()), Decision(bin, bit))
      ensures d.bin == bin && old(Tracks([d] + rest, goal)) ==> bit == d.bit && Tracks(rest, goal)
    {
      hide Codes, DecodeBit, EncodeAll, EncodeStep, InputInv, Running, Renormalize, Starting;
      if d.bin == bin && Tracks([d] + rest, goal) {
        TailInRange(d, rest, bins.Length);
        DecodeNext(code, State(), d, rest);
        EncodeNext(State(), d, rest);
      }
      bit := Decode(bin);
    }

    // next_marker
    method NextMarker()
      requires pos <= |input|
      modifies this`pos, this`unreadMarker
      ensures pos == AfterMarker(input, old(pos)) && unreadMarker == InputAt(input, pos - 1) != 0
    {
      hide Unstuff, AfterMarker, SkipFill, InputAt;
      unreadMarker := 0;
      while unreadMarker == 0
        invariant if unreadMarker == 0 then pos <= |input| && AfterMarker(input, pos) == AfterMarker(input, old(pos))
                  else pos == AfterMarker(input, old(pos)) && unreadMarker == InputAt(input, pos - 1)
        decreases if unreadMarker == 0 then |input| + 1 - pos else 0
      {
        UnstuffCases(input, pos);
        var c := GetByte();
        if c == 0xFF {
          c := GetByteAfterFill();
          unreadMarker := c;
        }
      }
    }

    // read_restart_marker and jpeg_resync_to_restart. The source never suspends here.
    method ReadRestartMarker(num: nat)
      requires unreadMarker == 0 ==> pos <= |input|
      requires num < 8
      modifies this`pos, this`unreadMarker
      ensures Landing(pos, unreadMarker) == Resync(input, old(unreadMarker), old(pos), num)
    {
      hide AfterMarker, InputAt, RecoveryAction, Resync;
      ghost var goal := Resync(input, unreadMarker, pos, num);
      if unreadMarker == 0 {
        ResyncStep(input, 0, pos, num);
        NextMarker();
      }
      if unreadMarker == RST0 + num {
        ExpectedMarker(input, unreadMarker, pos, num);
        unreadMarker := 0;
        return;
      }
      while RecoveryAction(unreadMarker, num) == ScanOn && pos <= |input|
        invariant unreadMarker != 0 && Resync(input, unreadMarker, pos, num) == goal
        decreases if pos <= |input| then |input| + 1 - pos else 0
      {
        ResyncStep(input, unreadMarker, pos, num);
        NextMarker();
      }
      ResyncStops(input, unreadMarker, pos, num);
      if RecoveryAction(unreadMarker, num) == Discard {
        unreadMarker := 0;
      }
    }

    // process_restart: the registers start over on the segment that the restart marker, or
    // what stands in its place, leads to.
    method Restart(num: nat)
      requires Valid() && num < 8
      modifies this`c, this`a, this`ct, this`pos, this`unreadMarker, this`fetched, this`low, this`shifts,
               this`code, this`after
      ensures Valid() && Starting() && State() == Start(bins[..])
      ensures old(after) > 0
      ensures var l := LandingAt(input, old(after), num);
        Landing(pos, unreadMarker) == l && Stretch(code, after) == StretchAt(input, l)
    {
      hide Unstuff, AfterMarker, SkipFill, Prefix, InputAt, Resync;
      ghost var l := LandingAt(input, after, num);
      if unreadMarker == 0 {
        ResyncStep(input, 0, pos, num);
      }
      assert InputAt(input, after - 1) != 0 && InputAt(input, after - 1) != 0xFF;
      LandingMarker(input, InputAt(input, after - 1), after, num);
      ReadRestartMarker(num);
      c, a, ct := 0, 0, -16;
      code, after := StretchAt(input, l).data, StretchAt(input, l).end;
      fetched, low, shifts := 0, 0, 0;
      assert code[0..] == code;
    }
  }
}
