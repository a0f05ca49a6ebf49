// The arithmetic encoder and decoder against each other, on whole segments.

module ArithmeticRoundTrip {
  import opened CodeBits
  import opened Segment
  import opened ProbabilityTable
  import opened CodingInterval
  import opened ArithmeticEncoder
  import opened ArithmeticDecoder

  method EncodeTrace(trace: seq<Decision>, initial: seq<Bin>) returns (segment: seq<Byte>, ghost data: seq<Byte>)
    requires ValidBins(initial) && InRange(trace, |initial|)
    ensures segment == Stuff(data) && NoTrailingZero(data)
    ensures Codes(data, EncodeAll(Start(initial), trace))
    ensures forall other :: Codes(other, EncodeAll(Start(initial), trace)) ==> |data| <= |other|
  {
    hide Codes, EncodeStep, Stuff;
    var stats := new Bin[|initial|](i requires 0 <= i < |initial| => initial[i]);
    assert stats[..] == initial;
    var e := new Encoder(stats);
    for i := 0 to |trace|
      invariant e.Valid() && |e.State().bins| == |initial| && e.prior == []
      invariant EncodeAll(e.State(), trace[i..]) == EncodeAll(Start(initial), trace)
    {
      assert trace[i..] == [trace[i]] + trace[i + 1..];
      EncodeNext(e.State(), trace[i], trace[i + 1..]);
      e.Encode(trace[i].bin, trace[i].bit);
    }
    e.Finish();
    segment, data := e.output, e.data;
  }

  // The decoder, told only which bins to use, recovers every decision.
  method DecodeTrace(input: seq<Byte>, bins: seq<nat>, initial: seq<Bin>, ghost trace: seq<Decision>)
      returns (decoded: seq<bool>)
    requires ValidBins(initial) && InRange(trace, |initial|) && bins == BinsOf(trace)
    requires Codes(Unstuff(input, 0), EncodeAll(Start(initial), trace))
    ensures |decoded| == |trace| && forall i :: 0 <= i < |trace| ==> decoded[i] == trace[i].bit
  {
    hide Codes, EncodeStep, DecodeBit, Unstuff, AfterMarker, EncodeAll;
    var stats := new Bin[|initial|](i requires 0 <= i < |initial| => initial[i]);
    assert stats[..] == initial;
    var d := new Decoder(input, 0, stats);
    decoded := [];
    assert trace[0..] == trace;
    for i := 0 to |bins|
      invariant d.Tracks(trace[i..], EncodeAll(Start(initial), trace))
      invariant |decoded| == i && forall j :: 0 <= j < i ==> decoded[j] == trace[j].bit
    {
      hide Decoder.Valid, Decoder.State;
      assert trace[i..] == [trace[i]] + trace[i + 1..];
      var bit := d.Follow(bins[i], trace[i], trace[i + 1..], EncodeAll(Start(initial), trace));
      decoded := decoded + [bit];
    }
  }

  // Every decision sequence survives encoding to bytes and decoding them again, with any
  // statistics to start from, whatever follows the marker behind the segment.
  method CodeAndDecode(trace: seq<Decision>, initial: seq<Bin>, marker: Byte, tail: seq<Byte>)
      returns (decoded: seq<bool>)
    requires ValidBins(initial) && InRange(trace, |initial|)
    requires marker != 0 && marker != 0xFF
    ensures |decoded| == |trace| && forall i :: 0 <= i < |trace| ==> decoded[i] == trace[i].bit
  {
    hide Codes, Stuff, Unstuff, AfterMarker, EncodeAll;
    ghost var data;
    var segment;
    segment, data := EncodeTrace(trace, initial);
    UnstuffInvertsStuff([], data, marker, tail);
    assert [] + segment + [0xFF, marker] + tail == segment + [0xFF, marker] + tail;
    decoded := DecodeTrace(segment + [0xFF, marker] + tail, BinsOf(trace), initial, trace);
  }
}
