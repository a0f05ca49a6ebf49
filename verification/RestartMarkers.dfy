// Where a decoder goes on at a restart marker: the next marker is looked for, and if it is
// not the expected one, jpeg_resync_to_restart decides whether to take it, to look for
// another, or to leave it and treat the segment as empty.

module RestartMarkers {
  import opened CodeBits
  import opened Segment
  import opened RestartSegments

  const SOF0 := 0xC0
  const RST7 := 0xD7

  datatype Recovery = Discard | ScanOn | Leave

  function RecoveryAction(marker: Byte, desired: nat): Recovery {
    if marker < SOF0 then ScanOn
    else if marker < RST0 || marker > RST7 then Leave
    else if marker == RST0 + (desired + 1) % 8 || marker == RST0 + (desired + 2) % 8 then Leave
    else if marker == RST0 + (desired + 7) % 8 || marker == RST0 + (desired + 6) % 8 then ScanOn
    else Discard
  }

  // Position of the next byte, and the marker that blocks the way there, or 0.
  datatype Landing = Landing(pos: nat, marker: Byte)

  // From position pos with this marker read but not yet dealt with (0 if there is none).
  ghost function Resync(input: seq<Byte>, marker: Byte, pos: nat, desired: nat): (l: Landing)
    ensures l.pos >= pos
    ensures pos <= |input| && l.marker == 0 ==> l.pos <= |input|
    decreases if pos <= |input| then |input| + 1 - pos else 0
  {
    if marker != 0 && RecoveryAction(marker, desired) == Discard then Landing(pos, 0)
    else if (marker != 0 && RecoveryAction(marker, desired) == Leave) || pos > |input| then Landing(pos, marker)
    else
      var p := AfterMarker(input, pos);
      Resync(input, InputAt(input, p - 1), p, desired)
  }

  // The expected marker is swallowed.
  lemma ExpectedMarker(input: seq<Byte>, marker: Byte, pos: nat, desired: nat)
    requires desired < 8 && marker == RST0 + desired
    ensures Resync(input, marker, pos, desired) == Landing(pos, 0)
  {
  }

  lemma ResyncStep(input: seq<Byte>, marker: Byte, pos: nat, desired: nat)
    requires pos <= |input| && (marker == 0 || RecoveryAction(marker, desired) == ScanOn)
    ensures var p := AfterMarker(input, pos);
      Resync(input, marker, pos, desired) == Resync(input, InputAt(input, p - 1), p, desired)
  {
    hide AfterMarker, InputAt;
  }

  lemma ResyncStops(input: seq<Byte>, marker: Byte, pos: nat, desired: nat)
    requires marker != 0 && (RecoveryAction(marker, desired) != ScanOn || pos > |input|)
    ensures Resync(input, marker, pos, desired) ==
      Landing(pos, if RecoveryAction(marker, desired) == Discard then 0 else marker)
  {
  }

  // The data of a segment and the position behind the marker that ends it.
  datatype Stretch = Stretch(data: seq<Byte>, end: nat)

  ghost function StretchAt(input: seq<Byte>, l: Landing): (s: Stretch)
    ensures s.end >= l.pos
  {
    if l.marker == 0 && l.pos <= |input| then Stretch(Unstuff(input, l.pos), AfterMarker(input, l.pos))
    else Stretch([], l.pos)
  }

  // Where the restart behind the segment that ends at this position leads.
  ghost function LandingAt(input: seq<Byte>, end: nat, desired: nat): (l: Landing)
    requires end > 0
    ensures l.pos >= end
  {
    Resync(input, InputAt(input, end - 1), end, desired)
  }

  lemma {:induction false} LandingMarker(input: seq<Byte>, marker: Byte, pos: nat, desired: nat)
    requires pos > 0 && marker == InputAt(input, pos - 1) != 0
    ensures var l := Resync(input, marker, pos, desired);
      && l.pos > 0 && (l.marker != 0 ==> l.marker == InputAt(input, l.pos - 1))
      && (l.marker == 0 && marker != 0xFF ==> l.pos <= |input|)
      && (marker != 0xFF ==> l.marker != 0xFF)
    decreases if pos <= |input| then |input| + 1 - pos else 0
  {
    hide AfterMarker;
    if RecoveryAction(marker, desired) == ScanOn && pos <= |input| {
      var p := AfterMarker(input, pos);
      LandingMarker(input, InputAt(input, p - 1), p, desired);
    }
  }

  // Behind a piece the next one is found.
  lemma NextPiece(n: nat, interval: nat, ps: seq<Piece>, k: nat, tail: seq<Byte>)
    requires Cuts(n, interval, ps) && k + 1 < |ps| && ps[k].hi < n
    ensures var input, end := Joined(ps) + tail, |Joined(ps[..k + 1])|;
      && end > 0
      && LandingAt(input, end, k % 8) == Landing(end, 0)
      && StretchAt(input, Landing(end, 0)) == Stretch(ps[k + 1].data, |Joined(ps[..k + 2])|)
  {
    hide Cuts, Joined, Unstuff, AfterMarker, InputAt, Resync;
    CutFacts(n, interval, ps, k);
    PieceRead(n, interval, ps, k, tail);
    PieceRead(n, interval, ps, k + 1, tail);
    ExpectedMarker(Joined(ps) + tail, ps[k].marker, |Joined(ps[..k + 1])|, k % 8);
  }

  lemma {:induction false} JoinedGrows(ps: seq<Piece>, k: nat)
    requires k <= |ps|
    ensures |Joined(ps[..k])| <= |Joined(ps)|
  {
    hide Stuff;
    if k < |ps| {
      JoinedGrows(ps[..|ps| - 1], k);
      assert ps[..|ps| - 1][..k] == ps[..k];
    } else {
      assert ps[..k] == ps;
    }
  }

  // Bits are thrown away at a restart; data is missing from the start if it was missing
  // before and the marker found blocks the way.
  function StartOfSegment(blocked: bool, insufficient: bool): nat {
    if blocked && insufficient then 1 else 0
  }

  // A decoder between two MCUs: the current segment, the number of the restart marker
  // expected next, the MCUs to go until then, and the state of its entropy decoding.
  datatype Situation<S> = Situation(data: seq<Byte>, end: nat, num: nat, togo: nat, state: S)
}
