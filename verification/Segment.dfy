// Entropy-coded segments as bytes: zero stuffing after 0xFF, the markers that end a
// segment, and how a reader recovers the data bytes.

module Segment {
  import opened CodeBits

  // Every 0xFF data byte is followed by a zero byte in the compressed segment.
  function StuffByte(b: Byte): seq<Byte> {
    if b == 0xFF then [0xFF, 0x00] else [b]
  }

  function Stuff(data: seq<Byte>): seq<Byte> {
    if |data| == 0 then [] else Stuff(data[..|data| - 1]) + StuffByte(data[|data| - 1])
  }

  lemma StuffPush(data: seq<Byte>, b: Byte)
    ensures Stuff(data + [b]) == Stuff(data) + StuffByte(b)
  {
    assert (data + [b])[..|data|] == data;
  }

  lemma {:induction false} StuffFront(b: Byte, data: seq<Byte>)
    ensures Stuff([b] + data) == StuffByte(b) + Stuff(data)
  {
    hide Stuff, StuffByte;
    if |data| == 0 {
      assert [b] + data == [] + [b];
      StuffEmpty();
      StuffPush([], b);
    } else {
      assert data == data[..|data| - 1] + [data[|data| - 1]];
      StuffPush(data[..|data| - 1], data[|data| - 1]);
      var front, last := data[..|data| - 1], data[|data| - 1];
      StuffFront(b, front);
      assert [b] + data == ([b] + front) + [last];
      StuffPush([b] + front, last);
    }
  }

  // The source manager supplies end-of-image markers once the input is used up.
  function InputAt(input: seq<Byte>, i: nat): Byte {
    if i < |input| then input[i] else if (i - |input|) % 2 == 0 then 0xFF else 0xD9
  }

  // First position at or after i that does not hold 0xFF.
  function SkipFill(input: seq<Byte>, i: nat): (j: nat)
    ensures i <= j && InputAt(input, j) != 0xFF
    ensures i <= |input| ==> j <= |input| + 1
    decreases if i <= |input| then |input| + 2 - i else 1 - (i - |input|) % 2
  {
    if InputAt(input, i) != 0xFF then i else SkipFill(input, i + 1)
  }

  // The data bytes from position i up to the next marker, stuffing removed.
  function Unstuff(input: seq<Byte>, i: nat): seq<Byte>
    decreases |input| - i
  {
    if i >= |input| then []
    else if input[i] != 0xFF then [input[i]] + Unstuff(input, i + 1)
    else
      var j := SkipFill(input, i + 1);
      if InputAt(input, j) == 0 then [0xFF] + Unstuff(input, j + 1) else []
  }

  // Position just behind the marker that ends the data starting at position i.
  function AfterMarker(input: seq<Byte>, i: nat): (p: nat)
    requires i <= |input|
    ensures p > i && InputAt(input, p - 1) != 0 && InputAt(input, p - 1) != 0xFF
    decreases |input| - i
  {
    if i < |input| && input[i] != 0xFF then AfterMarker(input, i + 1)
    else
      var j := SkipFill(input, i + 1);
      if InputAt(input, j) == 0 then AfterMarker(input, j + 1) else j + 1
  }

  // Reading a stuffed segment gives back its data and stops right behind its marker.
  lemma {:induction false} UnstuffInvertsStuff(pre: seq<Byte>, data: seq<Byte>, marker: Byte, tail: seq<Byte>)
    requires marker != 0 && marker != 0xFF
    ensures var input := pre + Stuff(data) + [0xFF, marker] + tail;
      && Unstuff(input, |pre|) == data
      && AfterMarker(input, |pre|) == |pre| + |Stuff(data)| + 2
      && InputAt(input, |pre| + |Stuff(data)| + 1) == marker
    decreases |data|
  {
    hide Stuff, StuffByte, Unstuff, AfterMarker, SkipFill;
    var input := pre + Stuff(data) + [0xFF, marker] + tail;
    if |data| == 0 {
      StuffEmpty();
      assert input == pre + [0xFF, marker] + tail;
      SkipNothing(input, |pre| + 1);
      UnstuffCases(input, |pre|);
    } else {
      var b, rest := data[0], data[1..];
      assert data == [b] + rest;
      StuffFront(b, rest);
      UnstuffInvertsStuff(pre + StuffByte(b), rest, marker, tail);
      StuffedFirst(pre, StuffByte(b), Stuff(rest), [0xFF, marker], tail);
      UnstuffByte(input, |pre|, b);
    }
  }

  lemma StuffedFirst(pre: seq<Byte>, first: seq<Byte>, rest: seq<Byte>, end: seq<Byte>, tail: seq<Byte>)
    ensures var input := pre + (first + rest) + end + tail;
      && (pre + first) + rest + end + tail == input
      && |pre| + |first| <= |input| && input[|pre|..|pre| + |first|] == first
  {
    assert (pre + first) + rest + end + tail == pre + (first + rest) + end + tail;
  }

  lemma SkipNothing(input: seq<Byte>, i: nat)
    requires i < |input| && input[i] != 0xFF
    ensures SkipFill(input, i) == i
  {
  }

  // What a reader at position i finds.
  lemma UnstuffCases(input: seq<Byte>, i: nat)
    requires i <= |input|
    ensures var j := SkipFill(input, i + 1);
      if InputAt(input, i) != 0xFF then
        && i < |input|
        && Unstuff(input, i) == [input[i]] + Unstuff(input, i + 1)
        && AfterMarker(input, i) == AfterMarker(input, i + 1)
      else if InputAt(input, j) == 0 then
        && j < |input|
        && Unstuff(input, i) == [0xFF] + Unstuff(input, j + 1)
        && AfterMarker(input, i) == AfterMarker(input, j + 1)
      else
        Unstuff(input, i) == [] && AfterMarker(input, i) == j + 1
  {
    hide Unstuff, AfterMarker, SkipFill;
    UnstuffAt(input, i);
    AfterMarkerAt(input, i);
  }

  lemma UnstuffAt(input: seq<Byte>, i: nat)
    requires i <= |input|
    ensures var j := SkipFill(input, i + 1);
      Unstuff(input, i) ==
        if InputAt(input, i) != 0xFF then [InputAt(input, i)] + Unstuff(input, i + 1)
        else if InputAt(input, j) == 0 then [0xFF] + Unstuff(input, j + 1)
        else []
  {
    hide SkipFill;
  }

  lemma AfterMarkerAt(input: seq<Byte>, i: nat)
    requires i <= |input|
    ensures var j := SkipFill(input, i + 1);
      if InputAt(input, i) != 0xFF then i < |input| && AfterMarker(input, i) == AfterMarker(input, i + 1)
      else if InputAt(input, j) == 0 then j < |input| && AfterMarker(input, i) == AfterMarker(input, j + 1)
      else AfterMarker(input, i) == j + 1
  {
    hide SkipFill;
  }

  lemma StuffEmpty()
    ensures Stuff([]) == []
  {
  }

  lemma UnstuffByte(input: seq<Byte>, i: nat, b: Byte)
    requires i + |StuffByte(b)| <= |input| && input[i..i + |StuffByte(b)|] == StuffByte(b)
    ensures Unstuff(input, i) == [b] + Unstuff(input, i + |StuffByte(b)|)
    ensures AfterMarker(input, i) == AfterMarker(input, i + |StuffByte(b)|)
  {
    hide Unstuff, AfterMarker, SkipFill;
    assert input[i] == input[i..i + |StuffByte(b)|][0];
    UnstuffCases(input, i);
    if b == 0xFF {
      assert input[i + 1] == input[i..i + 2][1];
      SkipNothing(input, i + 1);
    }
  }
}
