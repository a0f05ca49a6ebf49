// Entropy-coded segments between restart markers: how a scan is cut into segments, how an
// encoder counts down to the next marker, and how a reader finds one segment behind another.

module RestartSegments {
  import opened CodeBits
  import opened Segment

  const RST0 := 0xD0

  // Where the segment that starts with MCU lo ends.
  function SegmentEnd(lo: nat, n: nat, interval: nat): (hi: nat)
    requires lo <= n
    ensures lo <= hi <= n && (lo < n ==> lo < hi)
    ensures hi < n ==> interval > 0 && hi == lo + interval
  {
    if interval == 0 || n - lo <= interval then n else lo + interval
  }

  // MCU i is the first of its segment.
  predicate StartsSegment(i: nat, interval: nat) {
    i == 0 || (interval > 0 && i % interval == 0)
  }

  // ----- Counting down to the next restart -----

  // MCU i may follow in the segment that starts with MCU lo.
  predicate Counting(lo: nat, i: nat, togo: nat, interval: nat) {
    lo <= i && if interval == 0 then lo == 0 else lo % interval == 0 && togo + (i - lo) == interval
  }

  lemma CountingStart(interval: nat)
    ensures Counting(0, 0, interval, interval)
  {
    if interval > 0 {
      DivideExactly(0, interval, 0);
    }
  }

  lemma CountingRestart(lo: nat, i: nat, togo: nat, interval: nat)
    requires Counting(lo, i, togo, interval)
    ensures interval > 0 && togo == 0 ==> i > lo && StartsSegment(i, interval) && Counting(i, i, interval, interval)
    ensures interval == 0 || togo > 0 ==> !StartsSegment(i, interval) || i == lo
  {
    if interval > 0 {
      var q := lo / interval;
      assert lo == q * interval;
      assert (q + 1) * interval == lo + interval;
      if togo == 0 {
        DivideExactly(q + 1, interval, 0);
      } else {
        DivideExactly(q, interval, i - lo);
      }
    }
  }

  lemma SegmentIsFull(lo: nat, i: nat, n: nat, interval: nat)
    requires lo <= n && i < n && i <= SegmentEnd(lo, n, interval) && interval > 0 && Counting(lo, i, 0, interval)
    ensures i == SegmentEnd(lo, n, interval) == lo + interval
  {
  }

  lemma CountingNext(lo: nat, i: nat, togo: nat, interval: nat, n: nat)
    requires Counting(lo, i, togo, interval) && (interval > 0 ==> togo > 0) && i < n
    ensures Counting(lo, i + 1, if interval > 0 then togo - 1 else togo, interval)
    ensures lo <= i < SegmentEnd(lo, n, interval)
  {
  }

  // ----- Segments in a byte stream -----

  // A segment as written: its MCUs, its data and the marker behind it.
  datatype Piece = Piece(lo: nat, hi: nat, data: seq<Byte>, marker: Byte)

  ghost function Joined(ps: seq<Piece>): seq<Byte> {
    if ps == [] then [] else Joined(ps[..|ps| - 1]) + Stuff(ps[|ps| - 1].data) + [0xFF, ps[|ps| - 1].marker]
  }

  lemma NothingJoined()
    ensures Joined([]) == []
  {
  }

  lemma JoinedPush(ps: seq<Piece>, p: Piece)
    ensures Joined(ps + [p]) == Joined(ps) + Stuff(p.data) + [0xFF, p.marker]
  {
    assert (ps + [p])[..|ps|] == ps;
  }

  // What stands behind piece k.
  lemma {:induction false} PieceAt(ps: seq<Piece>, k: nat, tail: seq<Byte>) returns (t: seq<Byte>)
    requires k < |ps|
    ensures Joined(ps) + tail == Joined(ps[..k]) + Stuff(ps[k].data) + [0xFF, ps[k].marker] + t
  {
    hide Stuff;
    var front, last := ps[..|ps| - 1], ps[|ps| - 1];
    if k == |ps| - 1 {
      t := tail;
    } else {
      var more := Stuff(last.data) + [0xFF, last.marker] + tail;
      t := PieceAt(front, k, more);
      assert front[..k] == ps[..k];
      assert Joined(ps) + tail == Joined(front) + more;
    }
  }

  function NextLo(ps: seq<Piece>): nat {
    if ps == [] then 0 else ps[|ps| - 1].hi
  }

  lemma PiecePushed(ps: seq<Piece>, p: Piece)
    ensures Joined(ps + [p]) == Joined(ps) + Stuff(p.data) + [0xFF, p.marker]
    ensures NextLo(ps + [p]) == p.hi && |ps + [p]| % 8 == (|ps| % 8 + 1) % 8
  {
    hide Joined;
    JoinedPush(ps, p);
  }

  // The pieces cut n MCUs, as far as they go, with restart markers of increasing number.
  ghost predicate Cuts(n: nat, interval: nat, ps: seq<Piece>) {
    && (ps != [] ==> ps[0].lo == 0)
    && (forall k :: 0 < k < |ps| ==> ps[k].lo == ps[k - 1].hi)
    && forall k :: 0 <= k < |ps| ==>
         && ps[k].lo <= n && ps[k].hi == SegmentEnd(ps[k].lo, n, interval)
         && ps[k].marker != 0 && ps[k].marker != 0xFF
         && (ps[k].hi < n ==> ps[k].marker == RST0 + k % 8)
  }

  lemma CutFacts(n: nat, interval: nat, ps: seq<Piece>, k: nat)
    requires Cuts(n, interval, ps) && k < |ps|
    ensures ps[k].lo <= n && ps[k].hi == SegmentEnd(ps[k].lo, n, interval)
    ensures ps[k].marker != 0 && ps[k].marker != 0xFF
    ensures ps[k].hi < n ==> ps[k].marker == RST0 + k % 8
    ensures k + 1 < |ps| ==> ps[k + 1].lo == ps[k].hi
    ensures ps[0].lo == 0
  {
  }

  lemma CutPush(n: nat, interval: nat, ps: seq<Piece>, p: Piece)
    requires Cuts(n, interval, ps)
    requires p.lo <= n && p.hi == SegmentEnd(p.lo, n, interval) && p.lo == NextLo(ps)
    requires p.marker != 0 && p.marker != 0xFF && (p.hi < n ==> p.marker == RST0 + |ps| % 8)
    ensures Cuts(n, interval, ps + [p])
  {
  }

  // The first MCU of a piece starts a segment, and no other MCU of it does.
  lemma {:induction false} PieceIsSegment(n: nat, interval: nat, ps: seq<Piece>, k: nat)
    requires Cuts(n, interval, ps) && k < |ps| && (k == 0 || ps[k].lo < n)
    ensures StartsSegment(ps[k].lo, interval)
    ensures forall i :: ps[k].lo < i < ps[k].hi ==> !StartsSegment(i, interval)
  {
    CutFacts(n, interval, ps, k);
    var lo := ps[k].lo;
    if k > 0 {
      CutFacts(n, interval, ps, k - 1);
      PieceIsSegment(n, interval, ps, k - 1);
      CountingRestart(ps[k - 1].lo, lo, 0, interval);
    }
    forall i | lo < i < ps[k].hi
      ensures !StartsSegment(i, interval)
    {
      if interval > 0 {
        CountingRestart(lo, i, interval - (i - lo), interval);
      }
    }
  }

  // A reader at the start of piece k gets its data and the marker behind it, and then
  // stands at the start of the next piece.
  lemma PieceRead(n: nat, interval: nat, ps: seq<Piece>, k: nat, tail: seq<Byte>)
    requires Cuts(n, interval, ps) && k < |ps|
    ensures var input, at, next := Joined(ps) + tail, |Joined(ps[..k])|, |Joined(ps[..k + 1])|;
      && at < next <= |input|
      && Unstuff(input, at) == ps[k].data
      && AfterMarker(input, at) == next
      && InputAt(input, next - 1) == ps[k].marker
  {
    hide Stuff, Unstuff, AfterMarker, InputAt, Cuts, Joined;
    CutFacts(n, interval, ps, k);
    var t := PieceAt(ps, k, tail);
    UnstuffInvertsStuff(Joined(ps[..k]), ps[k].data, ps[k].marker, t);
    assert ps[..k + 1] == ps[..k] + [ps[k]];
    JoinedPush(ps[..k], ps[k]);
  }
}
