/**
  Packing a multipart message into one message and back: `zmq::encode` and `zmq::decode`.
  A part shorter than 255 bytes is preceded by its length in one byte, any other part by
  0xFF and its length in four bytes, most significant byte first.
 */
module MultipartCodec {
  import opened Common

  const UINT8_MAX: nat := 0xFF
  const UINT32_MAX: nat := 0xFFFF_FFFF

  type Part = Bytes

  // ----- Lengths in network order

  function NetworkOrder(value: nat): (r: Bytes)
    requires value <= UINT32_MAX
    ensures |r| == 4
  {
    [value / 0x100_0000, value / 0x1_0000 % 0x100, value / 0x100 % 0x100, value % 0x100]
  }

  function FromNetworkOrder(b: Bytes): (value: nat)
    requires |b| >= 4
    ensures value <= UINT32_MAX
  {
    (b[0] as int) * 0x100_0000 + (b[1] as int) * 0x1_0000 + (b[2] as int) * 0x100 + b[3] as int
  }

  lemma NetworkOrderInverse(value: nat, b: Bytes)
    requires value <= UINT32_MAX && |b| == 4
    ensures FromNetworkOrder(b) == value <==> b == NetworkOrder(value)
  {
    var high := (b[0] as int) * 0x1_0000 + (b[1] as int) * 0x100 + b[2] as int;
    LastByte(high, b[3], value);
    LastByte((b[0] as int) * 0x100 + b[1] as int, b[2], value / 0x100);
    LastByte(b[0], b[1], value / 0x1_0000);
  }

  lemma LastByte(high: nat, low: Byte, value: nat)
    ensures value == high * 0x100 + low <==> value / 0x100 == high && value % 0x100 == low
  {
  }

  /** Bytes read from left to right as digits to the base 256. */
  function BigEndian(b: Bytes): nat {
    if b == [] then 0 else 256 * BigEndian(b[..|b| - 1]) + b[|b| - 1]
  }

  lemma FourBytes(b: Bytes)
    requires |b| == 4
    ensures FromNetworkOrder(b) == BigEndian(b)
  {
    assert b[..3][..2] == b[..2] && b[..2][..1] == b[..1] && b[..1][..0] == [];
    assert BigEndian(b[..1]) == b[0] as int;
    assert BigEndian(b[..2]) == 256 * BigEndian(b[..1]) + b[1];
    assert BigEndian(b[..3]) == 256 * BigEndian(b[..2]) + b[2];
  }

  // ----- Encoding

  function Header(size: nat): Bytes
    requires size <= UINT32_MAX
  {
    if size < UINT8_MAX then [size] else [UINT8_MAX] + NetworkOrder(size)
  }

  /** The size of a part in front of it: one byte below 0xFF, or 0xFF and four bytes, most significant first. */
  lemma HeaderLayout(size: nat)
    requires size <= 0xFFFF_FFFF
    ensures var h := Header(size);
            if size < 0xFF then h == [size] else |h| == 5 && h[0] == 0xFF && BigEndian(h[1..]) == size
  {
    var b := NetworkOrder(size);
    NetworkOrderInverse(size, b);
    FourBytes(b);
    assert ([UINT8_MAX] + b)[1..] == b;
  }

  predicate Fits(parts: seq<Part>) {
    forall i :: 0 <= i < |parts| ==> |parts[i]| <= UINT32_MAX
  }

  function Frames(parts: seq<Part>): Bytes
    requires Fits(parts)
  {
    if parts == [] then [] else Header(|parts[0]|) + parts[0] + Frames(parts[1..])
  }

  lemma {:induction false} FramesConcat(a: seq<Part>, b: seq<Part>)
    requires Fits(a) && Fits(b)
    ensures Fits(a + b) && Frames(a + b) == Frames(a) + Frames(b)
  {
    if a == [] {
      assert a + b == b;
    } else {
      FramesConcat(a[1..], b);
      assert (a + b)[1..] == a[1..] + b;
    }
  }

  /** `std::range_error` if some part is too long for its header. */
  datatype Encoded = Encoded(data: Bytes) | PartTooLarge

  method WriteNetworkOrder(buf: array<Byte>, at: nat, value: nat)
    requires at + 4 <= buf.Length && value <= UINT32_MAX
    modifies buf
    ensures buf[..] == old(buf[..at]) + NetworkOrder(value) + old(buf[at + 4..])
  {
    var mask := UINT8_MAX + 1;
    buf[at] := value / 0x100_0000 % mask;
    buf[at + 1] := value / 0x1_0000 % mask;
    buf[at + 2] := value / 0x100 % mask;
    buf[at + 3] := value % mask;
  }

  /** The first pass of `encode` checks the sizes and adds them up. */
  method EncodedSize(parts: seq<Part>) returns (size: Option<nat>)
    ensures size.Some? <==> Fits(parts)
    ensures size.Some? ==> size.value == |Frames(parts)|
  {
    var total := 0;
    for n := 0 to |parts|
      invariant Fits(parts[..n]) && total == |Frames(parts[..n])|
    {
      if |parts[n]| > UINT32_MAX {
        return None;
      }
      var countSize := if |parts[n]| < UINT8_MAX then 1 else 5;
      total := total + |parts[n]| + countSize;
      FramesSnoc(parts, n);
    }
    assert parts[..|parts|] == parts;
    return Some(total);
  }

  /** The size of one part, in front of it. */
  method WriteHeader(buf: array<Byte>, at: nat, partSize: nat) returns (next: nat)
    requires partSize <= UINT32_MAX && at + |Header(partSize)| <= buf.Length
    modifies buf
    ensures next == at + |Header(partSize)|
    ensures buf[..next] == old(buf[..at]) + Header(partSize)
  {
    if partSize < UINT8_MAX {
      buf[at] := partSize;
      next := at + 1;
    } else {
      buf[at] := UINT8_MAX;
      next := at + 1;
      ghost var done := buf[..next];
      WriteNetworkOrder(buf, next, partSize);
      assert buf[..next + 4] == done + NetworkOrder(partSize);
      next := next + 4;
    }
  }

  /** A part behind its size. */
  method WritePart(buf: array<Byte>, at: nat, part: Part) returns (next: nat)
    requires |part| <= UINT32_MAX && at + |Header(|part|)| + |part| <= buf.Length
    modifies buf
    ensures next == at + |Header(|part|)| + |part|
    ensures buf[..next] == old(buf[..at]) + Header(|part|) + part
  {
    hide Header;
    next := WriteHeader(buf, at, |part|);
    Memcpy(buf, next, part);
    next := next + |part|;
  }

  /**
    The second pass fills a buffer of exactly the size found by the first; the assertion
    after the loop is the one in the code.
   */
  method Encode(parts: seq<Part>) returns (r: Encoded)
    ensures r.PartTooLarge? <==> !Fits(parts)
    ensures r.Encoded? ==> Fits(parts) && r.data == Frames(parts)
  {
    var size := EncodedSize(parts);
    if size.None? {
      return PartTooLarge;
    }
    hide Frames, Header;
    var encoded := new Byte[size.value];
    var at: nat := 0;
    FramesEnds(parts);
    for n := 0 to |parts|
      invariant encoded.Length == size.value
      invariant at <= encoded.Length && encoded[..at] == Frames(parts[..n])
    {
      FramesSnoc(parts, n);
      FramesRest(parts, n + 1);
      at := WritePart(encoded, at, parts[n]);
    }
    assert at == size.value;
    return Encoded(encoded[..]);
  }

  lemma FramesEnds(parts: seq<Part>)
    requires Fits(parts)
    ensures Frames(parts[..0]) == [] && parts[..|parts|] == parts
  {
  }

  lemma FramesSnoc(parts: seq<Part>, n: nat)
    requires n < |parts| && Fits(parts[..n]) && |parts[n]| <= UINT32_MAX
    ensures Fits(parts[..n + 1]) && Frames(parts[..n + 1]) == Frames(parts[..n]) + Header(|parts[n]|) + parts[n]
  {
    assert parts[..n + 1] == parts[..n] + [parts[n]];
    FramesConcat(parts[..n], [parts[n]]);
  }

  lemma FramesRest(parts: seq<Part>, n: nat)
    requires n <= |parts| && Fits(parts)
    ensures |Frames(parts[..n])| <= |Frames(parts)|
  {
    assert parts == parts[..n] + parts[n..];
    FramesConcat(parts[..n], parts[n..]);
  }

  // ----- Decoding

  datatype Status = Done | OverflowInSize | OverflowInPart

  datatype Frame = Frame(part: Part, size: nat, longHeader: bool) | Bad(status: Status)

  /** The frame at the front of a non-empty buffer. */
  function FirstFrame(b: Bytes): (f: Frame)
    requires b != []
    ensures f.Frame? ==> 0 < f.size <= |b|
    ensures f.Bad? ==> f.status != Done
  {
    if b[0] != UINT8_MAX then
      if |b| - 1 < b[0] then Bad(OverflowInPart)
      else Frame(b[1..1 + b[0]], 1 + b[0], false)
    else if |b| < 5 then Bad(OverflowInSize)
    else
      var size := FromNetworkOrder(b[1..5]);
      if |b| - 5 < size then Bad(OverflowInPart) else Frame(b[5..5 + size], 5 + size, true)
  }

  /** The parts written, how many bytes they took, and how decoding ended. */
  datatype Decoded = Decoded(parts: seq<Part>, consumed: nat, status: Status)

  function Decoding(b: Bytes): (d: Decoded)
    ensures d.consumed <= |b| && (d.status == Done ==> d.consumed == |b|)
    decreases |b|
  {
    if b == [] then Decoded([], 0, Done)
    else
      var f := FirstFrame(b);
      if f.Bad? then Decoded([], 0, f.status)
      else
        var rest := Decoding(b[f.size..]);
        Decoded([f.part] + rest.parts, f.size + rest.consumed, rest.status)
  }

  /** What the loop of `decode` needs to know about one more frame at `source`. */
  lemma DecodingAt(encoded: Bytes, source: nat)
    requires source < |encoded|
    ensures var b := encoded[source..];
            var f := FirstFrame(b);
            && (f.Bad? ==> Decoding(b) == Decoded([], 0, f.status))
            && (f.Frame? ==>
                  && source + f.size <= |encoded|
                  && Decoding(b).status == Decoding(encoded[source + f.size..]).status
                  && Decoding(b).parts == [f.part] + Decoding(encoded[source + f.size..]).parts)
  {
    hide FirstFrame;
    var b := encoded[source..];
    if FirstFrame(b).Frame? {
      assert b[FirstFrame(b).size..] == encoded[source + FirstFrame(b).size..];
    }
  }

  /** The two steps of reading a frame, on the whole buffer: its size, and then its bytes. */
  lemma FrameAt(encoded: Bytes, source: nat)
    requires source < |encoded|
    ensures var f, c, limit := FirstFrame(encoded[source..]), encoded[source], |encoded|;
            if c != UINT8_MAX then
              if limit - (source + 1) < c then f == Bad(OverflowInPart)
              else f == Frame(encoded[source + 1..source + 1 + c], 1 + c, false)
            else if limit - (source + 1) < 4 then f == Bad(OverflowInSize)
            else
              var size := FromNetworkOrder(encoded[source + 1..source + 5]);
              if limit - (source + 5) < size then f == Bad(OverflowInPart)
              else f == Frame(encoded[source + 5..source + 5 + size], 5 + size, true)
  {
    hide FromNetworkOrder;
    var b, c := encoded[source..], encoded[source];
    if c != UINT8_MAX {
      if 1 + c <= |b| {
        assert b[1..1 + c] == encoded[source + 1..source + 1 + c];
      }
    } else if 5 <= |b| {
      assert b[1..5] == encoded[source + 1..source + 5];
      var size := FromNetworkOrder(b[1..5]);
      if 5 + size <= |b| {
        assert b[5..5 + size] == encoded[source + 5..source + 5 + size];
      }
    }
  }

  /**
    `decode`: parts go to the output as they are found, so they stay there when decoding
    fails later on.  `source` never leaves the buffer.
   */
  method Decode(encoded: Bytes) returns (out: seq<Part>, status: Status)
    ensures out == Decoding(encoded).parts && status == Decoding(encoded).status
  {
    hide Decoding, FirstFrame, FromNetworkOrder;
    out := [];
    var source, limit := 0, |encoded|;
    ghost var whole := Decoding(encoded);
    assert encoded[0..] == encoded;
    while source < limit
      invariant source <= limit
      invariant whole.status == Decoding(encoded[source..]).status
      invariant whole.parts == out + Decoding(encoded[source..]).parts
    {
      DecodingAt(encoded, source);
      FrameAt(encoded, source);
      var partSize: nat := encoded[source];
      source := source + 1;
      if partSize == UINT8_MAX {
        if limit - source < 4 {
          return out, OverflowInSize;
        }
        partSize := FromNetworkOrder(encoded[source..source + 4]);
        source := source + 4;
      }
      if limit - source < partSize {
        return out, OverflowInPart;
      }
      out := out + [encoded[source..source + partSize]];
      source := source + partSize;
    }
    assert source == limit;
    DecodingOfNothing(encoded);
    return out, Done;
  }

  lemma DecodingOfNothing(encoded: Bytes)
    ensures Decoding(encoded[|encoded|..]) == Decoded([], 0, Done)
  {
  }

  // ----- Round trip

  lemma {:induction false} FirstFrameOf(part: Part, rest: Bytes)
    requires |part| <= UINT32_MAX
    ensures FirstFrame(Header(|part|) + part + rest)
         == Frame(part, |Header(|part|)| + |part|, UINT8_MAX <= |part|)
  {
    var b, h := Header(|part|) + part + rest, |Header(|part|)|;
    assert b[h..h + |part|] == part;
    if UINT8_MAX <= |part| {
      assert b[1..5] == NetworkOrder(|part|);
      NetworkOrderInverse(|part|, b[1..5]);
    }
  }

  lemma DecodingFirst(part: Part, rest: Bytes)
    requires |part| <= UINT32_MAX
    ensures var d, n := Decoding(rest), |Header(|part|)| + |part|;
            Decoding(Header(|part|) + part + rest) == Decoded([part] + d.parts, n + d.consumed, d.status)
  {
    FirstFrameOf(part, rest);
    hide FirstFrame, Header;
    assert (Header(|part|) + part + rest)[|Header(|part|)| + |part|..] == rest;
  }

  lemma FramesCons(part: Part, parts: seq<Part>, rest: Bytes)
    requires |part| <= UINT32_MAX && Fits(parts)
    ensures Fits([part] + parts) && |Frames([part] + parts)| == |Header(|part|)| + |part| + |Frames(parts)|
    ensures Frames([part] + parts) + rest == Header(|part|) + part + (Frames(parts) + rest)
    ensures Frames([]) == []
  {
    hide Header;
    assert ([part] + parts)[1..] == parts;
  }

  /** Decoding what was encoded gives the parts back, also in front of other bytes. */
  lemma {:induction false} RoundTrip(parts: seq<Part>, rest: Bytes)
    requires Fits(parts)
    ensures var d, e := Decoding(Frames(parts) + rest), Decoding(rest);
            d == Decoded(parts + e.parts, |Frames(parts)| + e.consumed, e.status)
    decreases |parts|
  {
    hide FirstFrame, Header, Decoding, Frames;
    if parts == [] {
      FramesCons([], [], rest);
      assert [] + rest == rest;
    } else {
      var part, tail := parts[0], Frames(parts[1..]) + rest;
      assert [part] + parts[1..] == parts;
      FramesCons(part, parts[1..], rest);
      DecodingFirst(part, tail);
      RoundTrip(parts[1..], rest);
      assert [part] + (parts[1..] + Decoding(rest).parts) == parts + Decoding(rest).parts;
    }
  }

  lemma DecodeInvertsEncode(parts: seq<Part>)
    requires Fits(parts)
    ensures Decoding(Frames(parts)) == Decoded(parts, |Frames(parts)|, Done)
  {
    RoundTrip(parts, []);
    assert Frames(parts) + [] == Frames(parts);
  }

  // ----- Which byte strings decode, and to what

  /** `b` is one frame holding `part`, under either form of header. */
  predicate IsFrame(b: Bytes, part: Part) {
    || (|part| < UINT8_MAX && b == [|part|] + part)
    || (|part| <= UINT32_MAX && b == [UINT8_MAX] + NetworkOrder(|part|) + part)
  }

  /** `b` is cut into frames holding `parts` at `cuts`. */
  ghost predicate IsFraming(b: Bytes, parts: seq<Part>)
    decreases |parts|
  {
    if parts == [] then b == []
    else exists n :: 0 < n <= |b| && IsFrame(b[..n], parts[0]) && IsFraming(b[n..], parts[1..])
  }

  /** A frame at the front of the buffer is found, and only a frame is. */
  lemma FirstFrameIsFrame(b: Bytes, n: nat, part: Part)
    requires b != [] && n <= |b|
    ensures IsFrame(b[..n], part) <==>
            FirstFrame(b).Frame? && FirstFrame(b).size == n && FirstFrame(b).part == part
  {
    var f := FirstFrame(b);
    if IsFrame(b[..n], part) {
      if |part| < UINT8_MAX && b[..n] == [|part|] + part {
        assert b[0] == b[..n][0];
        assert b[1..n] == b[..n][1..] == part;
      } else {
        assert b[0] == b[..n][0];
        assert b[1..5] == b[..n][1..5] == NetworkOrder(|part|);
        NetworkOrderInverse(|part|, b[1..5]);
        assert b[5..n] == b[..n][5..] == part;
      }
    }
    if f.Frame? && f.size == n && f.part == part {
      if f.longHeader {
        NetworkOrderInverse(|part|, b[1..5]);
        assert b[..n] == [UINT8_MAX] + b[1..5] + b[5..n];
      } else {
        assert b[..n] == [b[0]] + b[1..n];
      }
    }
  }

  /** Decoding succeeds with `parts` exactly if the buffer is a framing of `parts`. */
  lemma {:induction false} DecodesFramings(b: Bytes, parts: seq<Part>)
    ensures IsFraming(b, parts) <==> Decoding(b).status == Done && Decoding(b).parts == parts
    decreases |parts|
  {
    if parts != [] && b != [] {
      var f := FirstFrame(b);
      if f.Frame? {
        FirstFrameIsFrame(b, f.size, f.part);
        DecodesFramings(b[f.size..], parts[1..]);
        assert parts == [parts[0]] + parts[1..];
      }
      if n :| 0 < n <= |b| && IsFrame(b[..n], parts[0]) && IsFraming(b[n..], parts[1..]) {
        FirstFrameIsFrame(b, n, parts[0]);
      }
    }
  }

  /** The parts written before a failure are the decoding of the bytes consumed. */
  lemma {:induction false} ConsumedPrefixDecodes(b: Bytes)
    ensures var d := Decoding(b);
            Decoding(b[..d.consumed]) == Decoded(d.parts, d.consumed, Done)
    decreases |b|
  {
    hide FirstFrame;
    if b != [] && FirstFrame(b).Frame? {
      var f, d := FirstFrame(b), Decoding(b);
      var c := b[..d.consumed];
      ConsumedPrefixDecodes(b[f.size..]);
      FrameInPrefix(b, d.consumed);
      assert c[f.size..] == b[f.size..][..d.consumed - f.size];
    }
  }

  /** A frame that fits in a prefix is seen in the prefix too. */
  lemma FrameInPrefix(b: Bytes, n: nat)
    requires 0 < n <= |b|
    ensures FirstFrame(b[..n]).Frame? <==> FirstFrame(b).Frame? && FirstFrame(b).size <= n
    ensures FirstFrame(b[..n]).Frame? ==> FirstFrame(b[..n]) == FirstFrame(b)
  {
    var c := b[..n];
    if |c| >= 5 {
      assert c[1..5] == b[1..5];
      var size := FromNetworkOrder(b[1..5]);
      if 5 + size <= n {
        assert c[5..5 + size] == b[5..5 + size];
      }
    }
    if 1 + b[0] <= n {
      assert c[1..1 + b[0]] == b[1..1 + b[0]];
    }
  }

  /** No longer prefix is well formed: decoding stops at the end of the longest one. */
  lemma {:induction false} ConsumedPrefixIsLongest(b: Bytes, n: nat)
    requires n <= |b| && Decoding(b[..n]).status == Done
    ensures n <= Decoding(b).consumed
    ensures Decoding(b[..n]).parts <= Decoding(b).parts
    decreases |b|
  {
    hide FirstFrame;
    if n > 0 {
      FrameInPrefix(b, n);
      var f := FirstFrame(b);
      assert b[..n] != [];
      assert b[f.size..][..n - f.size] == b[..n][f.size..];
      ConsumedPrefixIsLongest(b[f.size..], n - f.size);
    }
  }

  // ----- Encoding what was decoded

  /** No part shorter than 255 bytes sits behind a five-byte header. */
  predicate ShortestHeaders(b: Bytes)
    requires Decoding(b).status == Done
    decreases |b|
  {
    b == [] ||
    (&& (FirstFrame(b).longHeader ==> UINT8_MAX <= |FirstFrame(b).part|)
     && ShortestHeaders(b[FirstFrame(b).size..]))
  }

  /**
    Encoding the decoded parts never makes the message longer, and gives it back unchanged
    exactly if it used a one-byte header wherever one would do.
   */
  lemma {:induction false} EncodeAfterDecode(b: Bytes)
    requires Decoding(b).status == Done
    ensures Fits(Decoding(b).parts)
    ensures |Frames(Decoding(b).parts)| <= |b|
    ensures Frames(Decoding(b).parts) == b <==> ShortestHeaders(b)
    decreases |b|
  {
    if b != [] {
      var f := FirstFrame(b);
      var rest, frame := b[f.size..], b[..f.size];
      EncodeAfterDecode(rest);
      FirstFrameIsFrame(b, f.size, f.part);
      var head, tail := Header(|f.part|) + f.part, Frames(Decoding(rest).parts);
      assert Decoding(b).parts == [f.part] + Decoding(rest).parts;
      assert Decoding(b).parts[1..] == Decoding(rest).parts;
      assert Frames(Decoding(b).parts) == head + tail;
      assert b == frame + rest;
      assert |head| <= |frame|;
      if head + tail == b {
        assert |head| == |frame| && |tail| == |rest|;
        assert tail == (head + tail)[|head|..] == rest;
      }
    }
  }
}
