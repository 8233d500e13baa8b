/**
  `XmlEncode::encodeTo`, byte by byte: entities for markup characters, `\xNN` for control
  characters and for bytes that are not part of well-formed UTF-8, all else as it is.
 */
module XmlEncode {
  import opened Common
  import opened Bits

  datatype ForWhat = ForTextNodes | ForAttributes

  const LESS: Byte := 0x3C
  const GREATER: Byte := 0x3E
  const AMPERSAND: Byte := 0x26
  const QUOTE: Byte := 0x22
  const BRACKET: Byte := 0x5D

  /** The entities `&lt;`, `&amp;`, `&gt;` and `&quot;`. */
  const LT_ENTITY: Bytes := [AMPERSAND, 0x6C, 0x74, 0x3B]
  const AMP_ENTITY: Bytes := [AMPERSAND, 0x61, 0x6D, 0x70, 0x3B]
  const GT_ENTITY: Bytes := [AMPERSAND, 0x67, 0x74, 0x3B]
  const QUOT_ENTITY: Bytes := [AMPERSAND, 0x71, 0x75, 0x6F, 0x74, 0x3B]

  // ----- UTF-8 as section 3 of RFC 3629 lays it out

  /** The shortest form of a value outside ASCII: its bits in groups of six, behind a lead byte. */
  function Utf8(value: nat): (b: Bytes)
    requires 0x80 <= value <= 0x10FFFF
    ensures 2 <= |b| <= 4
  {
    var low, middle, high := value % 0x40, value / 0x40 % 0x40, value / 0x40 / 0x40 % 0x40;
    if value < 0x800 then [0xC0 + value / 0x40, 0x80 + low]
    else if value < 0x10000 then [0xE0 + value / 0x40 / 0x40, 0x80 + middle, 0x80 + low]
    else [0xF0 + value / 0x40 / 0x40 / 0x40, 0x80 + high, 0x80 + middle, 0x80 + low]
  }

  ghost predicate IsUtf8(b: Bytes) {
    exists value :: 0x80 <= value <= 0x10FFFF && b == Utf8(value)
  }

  /** U+0800 in four bytes instead of three. */
  const OVERLONG: Bytes := [0xF0, 0x80, 0xA0, 0x80]

  /** What the encoder lets through: shortest forms, surrogates included, and one overlong form of U+0800. */
  ghost predicate Acceptable(b: Bytes) {
    IsUtf8(b) || b == OVERLONG
  }

  /** The length announced by a lead byte, 0 if the byte cannot lead. */
  function Announced(c: Byte): nat {
    if 0xC0 <= c < 0xE0 then 2
    else if 0xE0 <= c < 0xF0 then 3
    else if 0xF0 <= c < 0xF8 then 4
    else 0
  }

  // ----- The reference encoding

  function HexDigit(d: nat): Byte
    requires d < 16
  {
    if d < 10 then 0x30 + d else 0x41 + (d - 10)
  }

  function HexEscape(c: Byte): Bytes {
    [0x5C, 0x78, HexDigit(c / 16), HexDigit(c % 16)]
  }

  predicate IsControl(c: Byte) {
    c < 0x09 || 0x0D < c < 0x20 || c == 0x7F
  }

  /** The `>` of a `]]>` is replaced, except among the first three bytes. */
  predicate EndsSection(s: Bytes, idx: nat)
    requires idx < |s|
  {
    idx > 2 && s[idx - 1] == BRACKET && s[idx - 2] == BRACKET
  }

  datatype Unit = Plain(size: nat) | Entity(text: Bytes) | Escape

  /** What becomes of the byte at `idx`, or of the sequence it leads. */
  ghost function UnitAt(s: Bytes, idx: nat, forWhat: ForWhat): (u: Unit)
    requires idx < |s|
    ensures u.Plain? ==> 0 < u.size <= |s| - idx
  {
    var c := s[idx];
    if c == LESS then Entity(LT_ENTITY)
    else if c == AMPERSAND then Entity(AMP_ENTITY)
    else if c == GREATER then if EndsSection(s, idx) then Entity(GT_ENTITY) else Plain(1)
    else if c == QUOTE then if forWhat == ForAttributes then Entity(QUOT_ENTITY) else Plain(1)
    else if IsControl(c) then Escape
    else if c < 0x80 then Plain(1)
    else
      var n := Announced(c);
      if 0 < n && idx + n <= |s| && Acceptable(s[idx..idx + n]) then Plain(n) else Escape
  }

  ghost function SizeOf(u: Unit): nat {
    if u.Plain? then u.size else 1
  }

  ghost function TextOf(s: Bytes, idx: nat, u: Unit): Bytes
    requires idx < |s| && (u.Plain? ==> u.size <= |s| - idx)
  {
    match u
    case Plain(n) => s[idx..idx + n]
    case Entity(text) => text
    case Escape => HexEscape(s[idx])
  }

  ghost function Encoding(s: Bytes, idx: nat, forWhat: ForWhat): Bytes
    requires idx <= |s|
    decreases |s| - idx
  {
    if idx == |s| then []
    else
      var u := UnitAt(s, idx, forWhat);
      TextOf(s, idx, u) + Encoding(s, idx + SizeOf(u), forWhat)
  }

  // ----- The encoder

  /** `trailingBytes`; `None` is the internal error. */
  function TrailingBytes(c: Byte): Option<nat> {
    if And(c, 0xE0) == 0xC0 then Some(2)
    else if And(c, 0xF0) == 0xE0 then Some(3)
    else if And(c, 0xF8) == 0xF0 then Some(4)
    else None
  }

  /** `headerValue`; `None` is the internal error. */
  function HeaderValue(c: Byte): Option<nat> {
    if And(c, 0xE0) == 0xC0 then Some(And(c, 0x1F))
    else if And(c, 0xF0) == 0xE0 then Some(And(c, 0x0F))
    else if And(c, 0xF8) == 0xF0 then Some(And(c, 0x07))
    else None
  }

  /** The internal errors occur exactly for bytes that cannot lead a sequence. */
  lemma LeadByte(c: Byte)
    ensures TrailingBytes(c) == if Announced(c) == 0 then None else Some(Announced(c))
    ensures HeaderValue(c) ==
            if Announced(c) == 0 then None
            else Some(if Announced(c) == 2 then c - 0xC0 else if Announced(c) == 3 then c - 0xE0 else c - 0xF0)
  {
    hide And;
    HighMasks(c);
    LowMasks(c);
  }

  predicate IsContinuation(c: Byte) {
    0x80 <= c < 0xC0
  }

  function Push(value: nat, c: nat): nat {
    value * 0x40 + c % 0x40
  }

  /** The value read from a lead byte's bits and the bytes after it. */
  function ValueOf(header: nat, rest: Bytes): nat {
    if rest == [] then header
    else Push(ValueOf(header, rest[..|rest| - 1]), rest[|rest| - 1])
  }

  /** One more byte, with the bit operations of the code. */
  lemma NextByte(value: nat, c: Byte)
    ensures Or(Shl(value, 6), And(c, 0x3F)) == Push(value, c)
    ensures And(c, 0xC0) == 0x80 <==> IsContinuation(c)
  {
    hide And, Or, Shl, Ones;
    LowMasks(c);
    HighMasks(c);
    OnesAre();
    OrShl(value, c % 0x40, 6);
    Shifts(value);
  }

  /** The rejection test of the code. */
  predicate Rejected(valid: bool, value: nat, encBytes: nat) {
    || !valid
    || value < 0x80
    || (value < 0x800 && encBytes > 2)
    || (0x800 < value < 0x10000 && encBytes > 3)
    || value >= 0x110000
  }

  /** The bits a lead byte contributes. */
  function Header(c: Byte): nat
    requires Announced(c) != 0
  {
    match Announced(c)
    case 2 => c - 0xC0
    case 3 => c - 0xE0
    case _ => c - 0xF0
  }

  ghost predicate Continues(b: Bytes) {
    forall i :: 1 <= i < |b| ==> IsContinuation(b[i])
  }

  /** The value of a sequence, written out for each length. */
  lemma ValueBySize(b: Bytes)
    requires b != [] && Announced(b[0]) == |b|
    ensures var v := ValueOf(Header(b[0]), b[1..]);
            && (|b| == 2 ==> v == Push(Header(b[0]), b[1]))
            && (|b| == 3 ==> v == Push(Push(Header(b[0]), b[1]), b[2]))
            && (|b| == 4 ==> v == Push(Push(Push(Header(b[0]), b[1]), b[2]), b[3]))
  {
    var h := Header(b[0]);
    assert ValueOf(h, b[1..1]) == h;
    assert ValueOf(h, b[1..2]) == Push(h, b[1]) by {
      assert b[1..2][..0] == b[1..1];
    }
    if |b| > 2 {
      assert b[1..3][..1] == b[1..2];
    }
    if |b| > 3 {
      assert b[1..4][..2] == b[1..3];
    }
    assert b[1..] == b[1..|b|];
  }

  /** Splitting off six bits and putting them back. */
  lemma SixBits(value: nat, q: nat, c: nat)
    requires 0x80 <= c < 0xC0
    ensures Push(q, c) == value <==> q == value / 0x40 && c == 0x80 + value % 0x40
  {
  }

  lemma TwoBytes(value: nat)
    requires 0x80 <= value < 0x800
    ensures var b := Utf8(value);
            && |b| == 2 && b[0] == 0xC0 + value / 0x40 && Announced(b[0]) == 2 && IsContinuation(b[1])
            && Push(value / 0x40, b[1]) == value
  {
    hide Push;
    SixBits(value, value / 0x40, 0x80 + value % 0x40);
  }

  lemma ThreeBytes(value: nat)
    requires 0x800 <= value < 0x10000
    ensures var b, q := Utf8(value), value / 0x40;
            && |b| == 3 && b[0] == 0xE0 + q / 0x40 && Announced(b[0]) == 3
            && IsContinuation(b[1]) && IsContinuation(b[2])
            && Push(q / 0x40, b[1]) == q && Push(q, b[2]) == value
  {
    hide Push;
    SixBits(value, value / 0x40, 0x80 + value % 0x40);
    SixBits(value / 0x40, value / 0x40 / 0x40, 0x80 + value / 0x40 % 0x40);
  }

  lemma FourBytes(value: nat)
    requires 0x10000 <= value <= 0x10FFFF
    ensures var b, q := Utf8(value), value / 0x40;
            && |b| == 4 && b[0] == 0xF0 + q / 0x40 / 0x40 && Announced(b[0]) == 4
            && IsContinuation(b[1]) && IsContinuation(b[2]) && IsContinuation(b[3])
            && Push(q / 0x40 / 0x40, b[1]) == q / 0x40 && Push(q / 0x40, b[2]) == q && Push(q, b[3]) == value
  {
    hide Push;
    var q := value / 0x40;
    SixBits(value, q, 0x80 + value % 0x40);
    SixBits(q, q / 0x40, 0x80 + q % 0x40);
    SixBits(q / 0x40, q / 0x40 / 0x40, 0x80 + q / 0x40 % 0x40);
  }

  /** Decoding what section 3 of RFC 3629 encodes gives the value back. */
  lemma ValueOfUtf8(value: nat)
    requires 0x80 <= value <= 0x10FFFF
    ensures var b := Utf8(value);
            Announced(b[0]) == |b| && Continues(b) && ValueOf(Header(b[0]), b[1..]) == value
  {
    hide Utf8, ValueOf, Push;
    if value < 0x800 {
      TwoBytes(value);
    } else if value < 0x10000 {
      ThreeBytes(value);
    } else {
      FourBytes(value);
    }
    ValueBySize(Utf8(value));
  }

  /** The overlong form of U+0800 that passes is no shortest form. */
  lemma OverlongIsNotShortest()
    ensures !IsUtf8(OVERLONG)
  {
    hide ValueOf;
    if value :| 0x80 <= value <= 0x10FFFF && OVERLONG == Utf8(value) {
      ValueOfUtf8(value);
      ValueOfOverlong();
      Utf8Size(value);
    }
  }

  lemma TwoBytesOf(h: nat, c1: Byte)
    requires h < 0x20 && IsContinuation(c1) && 0x80 <= Push(h, c1)
    ensures Push(h, c1) < 0x800 && Utf8(Push(h, c1)) == [0xC0 + h, c1]
  {
    hide Push;
    SixBits(Push(h, c1), h, c1);
  }

  lemma ThreeBytesOf(h: nat, c1: Byte, c2: Byte)
    requires h < 0x10 && IsContinuation(c1) && IsContinuation(c2) && 0x800 <= Push(Push(h, c1), c2)
    ensures Push(Push(h, c1), c2) < 0x10000 && Utf8(Push(Push(h, c1), c2)) == [0xE0 + h, c1, c2]
  {
    hide Push;
    var q := Push(h, c1);
    SixBits(q, h, c1);
    SixBits(Push(q, c2), q, c2);
  }

  lemma FourBytesOf(h: nat, c1: Byte, c2: Byte, c3: Byte)
    requires h < 8 && IsContinuation(c1) && IsContinuation(c2) && IsContinuation(c3)
    requires 0x10000 <= Push(Push(Push(h, c1), c2), c3) <= 0x10FFFF
    ensures Utf8(Push(Push(Push(h, c1), c2), c3)) == [0xF0 + h, c1, c2, c3]
  {
    hide Push;
    var q := Push(h, c1);
    var r := Push(q, c2);
    SixBits(q, h, c1);
    SixBits(r, q, c2);
    SixBits(Push(r, c3), r, c3);
  }

  /** Well-formed bytes of a value that needs this length are its shortest form. */
  lemma Utf8OfValue(b: Bytes)
    requires b != [] && Announced(b[0]) == |b| && Continues(b)
    requires var v := ValueOf(Header(b[0]), b[1..]);
             0x80 <= v <= 0x10FFFF && (|b| == 3 ==> 0x800 <= v) && (|b| == 4 ==> 0x10000 <= v)
    ensures Utf8(ValueOf(Header(b[0]), b[1..])) == b
  {
    hide Utf8, ValueOf, Push;
    var h := Header(b[0]);
    ValueBySize(b);
    assert IsContinuation(b[1]);
    if |b| == 2 {
      TwoBytesOf(h, b[1]);
    } else if |b| == 3 {
      ThreeBytesOf(h, b[1], b[2]);
    } else {
      FourBytesOf(h, b[1], b[2], b[3]);
    }
  }

  /** A sequence with the announced length passes the test of the code exactly if it is acceptable. */
  lemma TestIsExact(b: Bytes)
    requires b != [] && Announced(b[0]) == |b|
    ensures Rejected(Continues(b), ValueOf(Header(b[0]), b[1..]), |b|) <==> !Acceptable(b)
  {
    hide ValueOf;
    if !Rejected(Continues(b), ValueOf(Header(b[0]), b[1..]), |b|) {
      PassingIsAcceptable(b);
    }
    if b == OVERLONG {
      ValueOfOverlong();
    } else if Acceptable(b) {
      var value :| 0x80 <= value <= 0x10FFFF && b == Utf8(value);
      ValueOfUtf8(value);
      Utf8Size(value);
    }
  }

  lemma Utf8Size(value: nat)
    requires 0x80 <= value <= 0x10FFFF
    ensures |Utf8(value)| == if value < 0x800 then 2 else if value < 0x10000 then 3 else 4
  {
  }

  lemma ValueOfOverlong()
    ensures Announced(OVERLONG[0]) == |OVERLONG| && Continues(OVERLONG)
            && ValueOf(Header(OVERLONG[0]), OVERLONG[1..]) == 0x800
  {
    ValueBySize(OVERLONG);
  }

  lemma PassingIsAcceptable(b: Bytes)
    requires b != [] && Announced(b[0]) == |b|
    requires !Rejected(Continues(b), ValueOf(Header(b[0]), b[1..]), |b|)
    ensures Acceptable(b)
  {
    hide ValueOf;
    var v := ValueOf(Header(b[0]), b[1..]);
    if |b| == 4 && v == 0x800 {
      ValueBySize(b);
      assert b == OVERLONG;
    } else {
      Utf8OfValue(b);
    }
  }

  lemma ValueStep(header: nat, b: Bytes, n: nat)
    requires 1 <= n <= |b|
    ensures ValueOf(header, b[1..1]) == header
    ensures n < |b| ==> ValueOf(header, b[1..n + 1]) == Push(ValueOf(header, b[1..n]), b[n])
  {
    if n < |b| {
      assert b[1..n + 1][..n - 1] == b[1..n];
    }
  }

  lemma SequenceAt(s: Bytes, idx: nat, n: nat)
    requires idx < |s| && 0x80 <= s[idx] && n == Announced(s[idx])
    ensures UnitAt(s, idx, ForTextNodes) ==
            if 0 < n && idx + n <= |s| && Acceptable(s[idx..idx + n]) then Plain(n) else Escape
  {
  }

  /** The `default` branch of `encodeTo` from the first lead byte test on. */
  method EncodeSequence(str: Bytes, idx: nat) returns (size: nat)
    requires idx < |str| && 0x80 <= str[idx]
    ensures var u := UnitAt(str, idx, ForTextNodes);
            if size == 0 then u == Escape else u == Plain(size)
  {
    hide And, Or, Shl, ValueOf, Acceptable, TrailingBytes, HeaderValue, UnitAt, Push;
    var c := str[idx];
    SequenceAt(str, idx, Announced(c));
    if c < 0xC0 || c >= 0xF8 {
      return 0;
    }
    LeadByte(c);
    var encBytes := TrailingBytes(c).value;
    if idx + encBytes - 1 >= |str| {
      return 0;
    }
    ghost var b := str[idx..idx + encBytes];
    var valid := true;
    var value := HeaderValue(c).value;
    ValueStep(value, b, 1);
    for n := 1 to encBytes
      invariant valid <==> forall i :: 1 <= i < n ==> IsContinuation(b[i])
      invariant value == ValueOf(Header(c), b[1..n])
    {
      var nc := str[idx + n];
      NextByte(value, nc);
      valid := valid && And(nc, 0xC0) == 0x80;
      value := Or(Shl(value, 6), And(nc, 0x3F));
      ValueStep(Header(c), b, n);
    }
    TestIsExact(b);
    assert b[1..] == b[1..encBytes];
    if Rejected(valid, value, encBytes) {
      return 0;
    }
    return encBytes;
  }

  /** The `switch` of `encodeTo`: what is written at `idx` and how many bytes it stands for. */
  method EncodeUnit(str: Bytes, idx: nat, forWhat: ForWhat) returns (text: Bytes, size: nat)
    requires idx < |str|
    ensures var u := UnitAt(str, idx, forWhat);
            text == TextOf(str, idx, u) && size == SizeOf(u)
  {
    hide Acceptable, HexEscape, Announced;
    var c := str[idx];
    size := 1;
    assert str[idx..idx + 1] == [c];
    if c == LESS {
      text := LT_ENTITY;
    } else if c == AMPERSAND {
      text := AMP_ENTITY;
    } else if c == GREATER {
      if idx > 2 && str[idx - 1] == BRACKET && str[idx - 2] == BRACKET {
        text := GT_ENTITY;
      } else {
        text := [c];
      }
    } else if c == QUOTE {
      if forWhat == ForAttributes {
        text := QUOT_ENTITY;
      } else {
        text := [c];
      }
    } else if c < 0x09 || (c > 0x0D && c < 0x20) || c == 0x7F {
      text := HexEscape(c);
    } else if c < 0x7F {
      text := [c];
    } else {
      var encBytes := EncodeSequence(str, idx);
      if encBytes == 0 {
        text := HexEscape(c);
      } else {
        text, size := str[idx..idx + encBytes], encBytes;
      }
    }
  }

  /** `encodeTo`. */
  method EncodeTo(str: Bytes, forWhat: ForWhat) returns (os: Bytes)
    ensures os == Encoding(str, 0, forWhat)
  {
    hide UnitAt, TextOf;
    os := [];
    var idx := 0;
    while idx < |str|
      invariant idx <= |str|
      invariant Encoding(str, 0, forWhat) == os + Encoding(str, idx, forWhat)
    {
      var text, size := EncodeUnit(str, idx, forWhat);
      os := os + text;
      idx := idx + size;
    }
  }

  /** A multi-byte sequence is passed through exactly if it is acceptable. */
  lemma PassedThrough(s: Bytes, idx: nat, n: nat, forWhat: ForWhat)
    requires idx < |s| && 2 <= n
    ensures UnitAt(s, idx, forWhat) == Plain(n) <==> idx + n <= |s| && Acceptable(s[idx..idx + n])
  {
    hide Acceptable;
    if idx + n <= |s| && Acceptable(s[idx..idx + n]) {
      AcceptableLead(s[idx..idx + n]);
      assert s[idx..idx + n][0] == s[idx];
    }
  }

  lemma AcceptableLead(b: Bytes)
    requires Acceptable(b)
    ensures b != [] && 0xC0 <= b[0] && Announced(b[0]) == |b| && Continues(b)
  {
    hide ValueOf;
    if b == OVERLONG {
      ValueOfOverlong();
    } else {
      var value :| 0x80 <= value <= 0x10FFFF && b == Utf8(value);
      ValueOfUtf8(value);
    }
  }

  // ----- What the output is worth

  ghost predicate NothingEscaped(s: Bytes, idx: nat, forWhat: ForWhat)
    requires idx <= |s|
    decreases |s| - idx
  {
    idx == |s| ||
    (!UnitAt(s, idx, forWhat).Escape? && NothingEscaped(s, idx + SizeOf(UnitAt(s, idx, forWhat)), forWhat))
  }

  /** What an XML reader makes of character data: the four entities replaced, all else kept. */
  function Expand(b: Bytes): Bytes {
    if b == [] then []
    else if LT_ENTITY <= b then [LESS] + Expand(b[4..])
    else if AMP_ENTITY <= b then [AMPERSAND] + Expand(b[5..])
    else if GT_ENTITY <= b then [GREATER] + Expand(b[4..])
    else if QUOT_ENTITY <= b then [QUOTE] + Expand(b[6..])
    else [b[0]] + Expand(b[1..])
  }

  lemma ExpandByte(b: Bytes)
    requires b != [] && b[0] != AMPERSAND
    ensures Expand(b) == [b[0]] + Expand(b[1..])
  {
    assert LT_ENTITY[0] == AMP_ENTITY[0] == GT_ENTITY[0] == QUOT_ENTITY[0] == AMPERSAND;
  }

  lemma {:induction false} ExpandPlain(plain: Bytes, rest: Bytes)
    requires AMPERSAND !in plain
    ensures Expand(plain + rest) == plain + Expand(rest)
  {
    hide Expand;
    if plain == [] {
      assert plain + rest == rest;
    } else {
      var b := plain + rest;
      assert b[0] == plain[0] && b[1..] == plain[1..] + rest;
      ExpandPlain(plain[1..], rest);
      ExpandByte(b);
    }
  }

  lemma ExpandEntity(s: Bytes, idx: nat, forWhat: ForWhat, rest: Bytes)
    requires idx < |s| && UnitAt(s, idx, forWhat).Entity?
    ensures Expand(UnitAt(s, idx, forWhat).text + rest) == [s[idx]] + Expand(rest)
  {
    var text := UnitAt(s, idx, forWhat).text;
    var b := text + rest;
    assert b[|text|..] == rest && b[..|text|] == text;
    assert text <= b;
    if text != LT_ENTITY {
      assert b[1] != LT_ENTITY[1];
      if text != AMP_ENTITY {
        assert b[1] != AMP_ENTITY[1];
        if text != GT_ENTITY {
          assert b[1] != GT_ENTITY[1];
        }
      }
    }
  }

  lemma PlainBytes(s: Bytes, idx: nat, forWhat: ForWhat)
    requires idx < |s| && UnitAt(s, idx, forWhat).Plain?
    ensures var text := TextOf(s, idx, UnitAt(s, idx, forWhat));
            |text| == 1 || forall i :: 0 <= i < |text| ==> 0x80 <= text[i]
    ensures s[idx] != LESS && s[idx] != AMPERSAND
  {
    hide Acceptable;
    var text := TextOf(s, idx, UnitAt(s, idx, forWhat));
    if |text| > 1 {
      AcceptableLead(text);
    }
  }

  lemma ExpandUnit(s: Bytes, idx: nat, forWhat: ForWhat, rest: Bytes)
    requires idx < |s| && !UnitAt(s, idx, forWhat).Escape?
    ensures var u := UnitAt(s, idx, forWhat);
            Expand(TextOf(s, idx, u) + rest) == s[idx..idx + SizeOf(u)] + Expand(rest)
  {
    hide Expand;
    if UnitAt(s, idx, forWhat).Entity? {
      ExpandEntity(s, idx, forWhat, rest);
    } else {
      PlainBytes(s, idx, forWhat);
      ExpandPlain(TextOf(s, idx, UnitAt(s, idx, forWhat)), rest);
    }
  }

  /** One step along the units. */
  lemma NextUnit(s: Bytes, idx: nat, forWhat: ForWhat)
    requires idx < |s|
    ensures var u := UnitAt(s, idx, forWhat);
            var next := idx + SizeOf(u);
            && Encoding(s, idx, forWhat) == TextOf(s, idx, u) + Encoding(s, next, forWhat)
            && (NothingEscaped(s, idx, forWhat) <==> !u.Escape? && NothingEscaped(s, next, forWhat))
            && s[idx..] == s[idx..next] + s[next..]
  {
    hide UnitAt, TextOf;
  }

  lemma NoUnits(s: Bytes, forWhat: ForWhat)
    ensures Encoding(s, |s|, forWhat) == [] && Expand([]) == []
  {
  }

  /** If nothing had to be escaped, expanding the entities gives the original text back, in both modes. */
  lemma {:induction false} ExpandInvertsEncode(s: Bytes, idx: nat, forWhat: ForWhat)
    requires idx <= |s| && NothingEscaped(s, idx, forWhat)
    ensures Expand(Encoding(s, idx, forWhat)) == s[idx..]
    decreases |s| - idx
  {
    hide UnitAt, TextOf, Encoding, NothingEscaped, Expand;
    if idx == |s| {
      NoUnits(s, forWhat);
    } else {
      var next := idx + SizeOf(UnitAt(s, idx, forWhat));
      NextUnit(s, idx, forWhat);
      ExpandInvertsEncode(s, next, forWhat);
      ExpandUnit(s, idx, forWhat, Encoding(s, next, forWhat));
    }
  }

  /** No `<` and no control character, and no `"` inside an attribute value. */
  ghost predicate Safe(text: Bytes, forWhat: ForWhat) {
    forall i :: 0 <= i < |text| ==>
      text[i] != LESS && !IsControl(text[i]) && (forWhat == ForAttributes ==> text[i] != QUOTE)
  }

  lemma EscapesAreSafe(c: Byte, forWhat: ForWhat)
    ensures Safe(HexEscape(c), forWhat) && HexEscape(c) != []
    ensures Safe(LT_ENTITY, forWhat) && Safe(AMP_ENTITY, forWhat) && Safe(GT_ENTITY, forWhat)
            && Safe(QUOT_ENTITY, forWhat)
  {
    assert forall d :: 0 <= d < 16 ==> 0x30 <= HexDigit(d) <= 0x39 || 0x41 <= HexDigit(d) <= 0x46;
  }

  lemma UnitIsSafe(s: Bytes, idx: nat, forWhat: ForWhat)
    requires idx < |s|
    ensures Safe(TextOf(s, idx, UnitAt(s, idx, forWhat)), forWhat)
    ensures TextOf(s, idx, UnitAt(s, idx, forWhat)) != []
  {
    hide Acceptable, HexEscape;
    var u := UnitAt(s, idx, forWhat);
    EscapesAreSafe(s[idx], forWhat);
    if u.Plain? {
      PlainBytes(s, idx, forWhat);
      assert TextOf(s, idx, u)[0] == s[idx];
    }
  }

  /** Encoded text can never be mistaken for markup. */
  lemma {:induction false} EncodingIsSafe(s: Bytes, idx: nat, forWhat: ForWhat)
    requires idx <= |s|
    ensures Safe(Encoding(s, idx, forWhat), forWhat)
    ensures Encoding(s, idx, forWhat) == [] <==> idx == |s|
    decreases |s| - idx
  {
    hide UnitAt, TextOf, Acceptable;
    if idx < |s| {
      UnitIsSafe(s, idx, forWhat);
      EncodingIsSafe(s, idx + SizeOf(UnitAt(s, idx, forWhat)), forWhat);
    }
  }

  // ----- The end of a CDATA section

  ghost predicate OccursAt(b: Bytes, i: int) {
    0 <= i <= |b| - 3 && b[i] == BRACKET && b[i + 1] == BRACKET && b[i + 2] == GREATER
  }

  /** A raw `]]>` occurs. */
  ghost predicate Occurs(b: Bytes) {
    exists i :: OccursAt(b, i)
  }

  predicate EndsInBrackets(b: Bytes, n: nat) {
    n <= |b| && forall i :: |b| - n <= i < |b| ==> b[i] == BRACKET
  }

  lemma OccursAppend(b: Bytes, text: Bytes)
    requires GREATER !in text
    ensures Occurs(b + text) <==> Occurs(b)
  {
    if i :| OccursAt(b + text, i) {
      assert OccursAt(b, i);
    }
    if i :| OccursAt(b, i) {
      assert OccursAt(b + text, i);
    }
  }

  lemma OccursGreater(b: Bytes)
    ensures Occurs(b + [GREATER]) <==> Occurs(b) || EndsInBrackets(b, 2)
  {
    if i :| OccursAt(b + [GREATER], i) {
      if i + 2 < |b| {
        assert OccursAt(b, i);
      }
    }
    if i :| OccursAt(b, i) {
      assert OccursAt(b + [GREATER], i);
    }
    if EndsInBrackets(b, 2) {
      assert OccursAt(b + [GREATER], |b| - 2);
    }
  }

  /** `out` ends in as many brackets as the input read so far, as far as two matter. */
  ghost predicate InStep(out: Bytes, s: Bytes, idx: nat)
    requires idx <= |s|
  {
    forall n :: 0 <= n <= 2 ==> (EndsInBrackets(out, n) <==> EndsInBrackets(s[..idx], n))
  }

  lemma StaysInStep(out: Bytes, s: Bytes, idx: nat, forWhat: ForWhat)
    requires idx < |s| && InStep(out, s, idx)
    ensures var u := UnitAt(s, idx, forWhat);
            InStep(out + TextOf(s, idx, u), s, idx + SizeOf(u))
  {
    hide UnitAt, TextOf;
    var u := UnitAt(s, idx, forWhat);
    var text, next := TextOf(s, idx, u), idx + SizeOf(u);
    UnitEnd(s, idx, forWhat);
    if s[idx] == BRACKET {
      assert s[..next] == s[..idx] + [BRACKET];
      AppendBracket(out);
      AppendBracket(s[..idx]);
    } else {
      EndsElsewhere(out, text);
      EndsElsewhere(s[..idx], s[idx..next]);
      assert s[..idx] + s[idx..next] == s[..next];
    }
  }

  /** A bracket is written as it is; nothing else ends in one, before or after. */
  lemma UnitEnd(s: Bytes, idx: nat, forWhat: ForWhat)
    requires idx < |s|
    ensures var u := UnitAt(s, idx, forWhat);
            var text, read := TextOf(s, idx, u), s[idx..idx + SizeOf(u)];
            && text != [] && read != []
            && (s[idx] == BRACKET ==> text == read == [BRACKET])
            && (s[idx] != BRACKET ==> text[|text| - 1] != BRACKET && read[|read| - 1] != BRACKET)
  {
    hide Acceptable;
    if UnitAt(s, idx, forWhat).Plain? {
      PlainBytes(s, idx, forWhat);
    }
  }

  lemma EndsElsewhere(b: Bytes, text: Bytes)
    requires text != [] && text[|text| - 1] != BRACKET
    ensures forall n :: EndsInBrackets(b + text, n) <==> n == 0
  {
    assert (b + text)[|b + text| - 1] == text[|text| - 1];
    assert EndsInBrackets(b + text, 0);
  }

  lemma AppendBracket(b: Bytes)
    ensures forall n :: 0 < n ==> (EndsInBrackets(b + [BRACKET], n) <==> EndsInBrackets(b, n - 1))
  {
    forall n | 0 < n && EndsInBrackets(b + [BRACKET], n) ensures EndsInBrackets(b, n - 1) {
      forall i | |b| - (n - 1) <= i < |b| ensures b[i] == BRACKET {
        assert (b + [BRACKET])[i] == BRACKET;
      }
    }
  }

  /** Continuing after `out`: a raw `]]>` appears only if the input starts with one. */
  lemma {:induction false} RawEndFrom(out: Bytes, s: Bytes, idx: nat, forWhat: ForWhat)
    requires idx <= |s| && InStep(out, s, idx)
    ensures Occurs(out + Encoding(s, idx, forWhat)) <==> Occurs(out) || (idx <= 2 && OccursAt(s, 0))
    decreases |s| - idx
  {
    hide UnitAt, TextOf, Occurs;
    if idx == |s| {
      assert out + [] == out;
    } else {
      var u := UnitAt(s, idx, forWhat);
      var text, next := TextOf(s, idx, u), idx + SizeOf(u);
      StaysInStep(out, s, idx, forWhat);
      RawEndFrom(out + text, s, next, forWhat);
      assert (out + text) + Encoding(s, next, forWhat) == out + Encoding(s, idx, forWhat);
      RawEndStep(out, s, idx, forWhat);
    }
  }

  /** One unit adds a raw `]]>` exactly if it is the `>` at offset 2 after two brackets. */
  lemma RawEndStep(out: Bytes, s: Bytes, idx: nat, forWhat: ForWhat)
    requires idx < |s| && InStep(out, s, idx)
    ensures var u := UnitAt(s, idx, forWhat);
            && (Occurs(out + TextOf(s, idx, u)) <==> Occurs(out) || (idx == 2 && OccursAt(s, 0)))
            && (idx <= 2 && OccursAt(s, 0) ==> SizeOf(u) == 1)
  {
    var text := TextOf(s, idx, UnitAt(s, idx, forWhat));
    if text == [GREATER] {
      OccursGreater(out);
      assert EndsInBrackets(out, 2) <==> EndsInBrackets(s[..idx], 2);
    } else {
      if UnitAt(s, idx, forWhat).Plain? {
        PlainBytes(s, idx, forWhat);
      }
      assert GREATER !in text;
      OccursAppend(out, text);
    }
  }

  /** A raw `]]>` is written exactly if the text begins with `]]>`: one byte too few is looked at. */
  lemma RawSectionEnd(s: Bytes, forWhat: ForWhat)
    ensures Occurs(Encoding(s, 0, forWhat)) <==> OccursAt(s, 0)
  {
    RawEndFrom([], s, 0, forWhat);
    assert [] + Encoding(s, 0, forWhat) == Encoding(s, 0, forWhat);
  }

  /** So the text `]]>` is not made safe for character data, against section 2.4 of XML 1.0. */
  lemma RawSectionEndWitness(forWhat: ForWhat)
    ensures Occurs(Encoding([BRACKET, BRACKET, GREATER], 0, forWhat))
  {
    RawSectionEnd([BRACKET, BRACKET, GREATER], forWhat);
  }

  // ----- Characters that no document may hold

  /** The characters of section 2.2 of XML 1.0. */
  predicate LegalCharacter(value: nat) {
    || value == 0x09 || value == 0x0A || value == 0x0D
    || 0x20 <= value <= 0xD7FF || 0xE000 <= value <= 0xFFFD || 0x10000 <= value <= 0x10FFFF
  }

  function Character(value: nat): Bytes
    requires value <= 0x10FFFF
  {
    if value < 0x80 then [value] else Utf8(value)
  }

  ghost predicate IsLegalCharacter(b: Bytes) {
    exists value :: 0 <= value <= 0x10FFFF && LegalCharacter(value) && b == Character(value)
  }

  /** `b` is the UTF-8 form of a string of legal characters. */
  ghost predicate IsLegalText(b: Bytes)
    decreases |b|
  {
    b == [] || exists n :: 0 < n <= |b| && IsLegalCharacter(b[..n]) && IsLegalText(b[n..])
  }

  /** A byte that cannot be read any other way says where its character ends. */
  lemma CharacterSize(value: nat)
    requires value <= 0x10FFFF
    ensures var b := Character(value);
            |b| == if b[0] < 0x80 then 1 else Announced(b[0])
    ensures value < 0x80 <==> Character(value)[0] < 0x80
  {
    if 0x80 <= value {
      ValueOfUtf8(value);
    }
  }

  lemma CharactersDiffer(v: nat, w: nat)
    requires v <= 0x10FFFF && w <= 0x10FFFF && Character(v) == Character(w)
    ensures v == w
  {
    CharacterSize(v);
    CharacterSize(w);
    if 0x80 <= v {
      ValueOfUtf8(v);
      ValueOfUtf8(w);
    }
  }

  lemma LegalTextSplits(first: Bytes, rest: Bytes)
    requires first != [] && |first| == if first[0] < 0x80 then 1 else Announced(first[0])
    ensures IsLegalText(first + rest) <==> IsLegalCharacter(first) && IsLegalText(rest)
  {
    var b := first + rest;
    assert b[..|first|] == first && b[|first|..] == rest;
    if IsLegalText(b) {
      var n :| 0 < n <= |b| && IsLegalCharacter(b[..n]) && IsLegalText(b[n..]);
      var value :| 0 <= value <= 0x10FFFF && LegalCharacter(value) && b[..n] == Character(value);
      CharacterSize(value);
      assert b[..n][0] == first[0];
    }
  }

  lemma LegalIs(value: nat)
    requires value <= 0x10FFFF
    ensures IsLegalCharacter(Character(value)) <==> LegalCharacter(value)
  {
    if v :| 0 <= v <= 0x10FFFF && LegalCharacter(v) && Character(value) == Character(v) {
      CharactersDiffer(value, v);
    }
  }

  /** Printable ASCII in front makes no difference. */
  lemma {:induction false} LegalAscii(text: Bytes, rest: Bytes)
    requires forall i :: 0 <= i < |text| ==> 0x20 <= text[i] < 0x80
    ensures IsLegalText(text + rest) <==> IsLegalText(rest)
    decreases |text|
  {
    hide IsLegalText, IsLegalCharacter;
    if text == [] {
      assert text + rest == rest;
    } else {
      LegalAscii(text[1..], rest);
      assert text + rest == Character(text[0]) + (text[1..] + rest);
      LegalTextSplits(Character(text[0]), text[1..] + rest);
      LegalIs(text[0]);
    }
  }

  // ----- The same on the bytes of the input

  /** ED A0 80 to ED BF BF, the surrogates. */
  predicate IsSurrogate(b: Bytes) {
    |b| == 3 && b[0] == 0xED && 0xA0 <= b[1] < 0xC0 && IsContinuation(b[2])
  }

  /** EF BF BE and EF BF BF, the characters U+FFFE and U+FFFF. */
  predicate IsNonCharacter(b: Bytes) {
    b == [0xEF, 0xBF, 0xBE] || b == [0xEF, 0xBF, 0xBF]
  }

  /** A vertical tab, a form feed, a surrogate, U+FFFE, U+FFFF or the overlong form stands at `i`. */
  predicate ForbiddenAt(s: Bytes, i: nat) {
    i < |s| &&
    (|| s[i] == 0x0B || s[i] == 0x0C
     || (i + 3 <= |s| && (IsSurrogate(s[i..i + 3]) || IsNonCharacter(s[i..i + 3])))
     || (i + 4 <= |s| && s[i..i + 4] == OVERLONG))
  }

  predicate ForbiddenIn(s: Bytes, from: nat, to: nat) {
    exists i :: from <= i < to && ForbiddenAt(s, i)
  }

  lemma SurrogateIs(value: nat)
    requires 0x80 <= value <= 0x10FFFF
    ensures IsSurrogate(Utf8(value)) <==> 0xD800 <= value <= 0xDFFF
  {
    if |Utf8(value)| == 3 {
      assert value / 0x40 / 0x40 == 0xD <==> 0xD000 <= value <= 0xDFFF;
    }
  }

  lemma NonCharacterIs(value: nat)
    requires 0x80 <= value <= 0x10FFFF
    ensures IsNonCharacter(Utf8(value)) <==> 0xFFFE <= value <= 0xFFFF
  {
    var b := [0xEF, 0xBF, Utf8(value)[|Utf8(value)| - 1]];
    ValueOfUtf8(value);
    if Utf8(value) == b {
      ValueBySize(b);
    }
  }

  /** A multi-byte unit is legal exactly if it is none of the forbidden ones. */
  lemma SequenceIsLegal(b: Bytes)
    requires Acceptable(b)
    ensures |b| == Announced(b[0]) && 0xC0 <= b[0] && forall i :: 1 <= i < |b| ==> IsContinuation(b[i])
    ensures IsLegalCharacter(b) <==> !IsSurrogate(b) && !IsNonCharacter(b) && b != OVERLONG
  {
    hide IsLegalCharacter, IsSurrogate;
    if b == OVERLONG {
      OverlongIsNotLegal();
    } else {
      var value :| 0x80 <= value <= 0x10FFFF && b == Utf8(value);
      ValueOfUtf8(value);
      SurrogateIs(value);
      NonCharacterIs(value);
      OverlongIsNotShortest();
      assert b == Character(value);
      LegalIs(value);
    }
  }

  lemma OverlongIsNotLegal()
    ensures !IsLegalCharacter(OVERLONG) && !IsSurrogate(OVERLONG)
  {
    OverlongIsNotShortest();
  }

  /** Inside a unit that is passed through nothing forbidden begins, except at its front. */
  lemma ForbiddenInUnit(s: Bytes, idx: nat, n: nat)
    requires 2 <= n && idx + n <= |s| && Acceptable(s[idx..idx + n])
    ensures ForbiddenIn(s, idx, idx + n) <==> ForbiddenAt(s, idx)
    ensures ForbiddenAt(s, idx) <==>
            IsSurrogate(s[idx..idx + n]) || IsNonCharacter(s[idx..idx + n]) || s[idx..idx + n] == OVERLONG
  {
    hide Acceptable, IsLegalCharacter;
    var b := s[idx..idx + n];
    SequenceIsLegal(b);
    assert b[0] == s[idx] && b[|b| - 1] == s[idx + n - 1];
    forall i | idx < i < idx + n ensures !ForbiddenAt(s, i) {
      assert IsContinuation(b[i - idx]);
      assert i + 3 <= |s| ==> s[i..i + 3][0] == b[i - idx];
      assert i + 4 <= |s| ==> s[i..i + 4][0] == b[i - idx];
    }
    assert idx + 3 <= |s| ==> s[idx..idx + 3][0] == b[0];
    assert idx + 4 <= |s| ==> s[idx..idx + 4][0] == b[0];
  }

  lemma ForbiddenIsAcceptable(b: Bytes)
    requires IsSurrogate(b) || IsNonCharacter(b) || b == OVERLONG
    ensures |b| == Announced(b[0]) && Acceptable(b)
  {
    if b != OVERLONG {
      ValueBySize(b);
      Utf8OfValue(b);
    }
  }

  /** Nothing forbidden begins at a byte that is escaped. */
  lemma EscapedIsNotForbidden(s: Bytes, idx: nat, forWhat: ForWhat)
    requires idx < |s| && UnitAt(s, idx, forWhat) == Escape
    ensures !ForbiddenAt(s, idx)
  {
    hide Acceptable, IsSurrogate, IsNonCharacter;
    if idx + 3 <= |s| && (IsSurrogate(s[idx..idx + 3]) || IsNonCharacter(s[idx..idx + 3])) {
      ForbiddenIsAcceptable(s[idx..idx + 3]);
    }
    if idx + 4 <= |s| && s[idx..idx + 4] == OVERLONG {
      ForbiddenIsAcceptable(OVERLONG);
    }
  }

  /** Bytes written on their own or escaped. */
  lemma OneByteForbidden(s: Bytes, idx: nat)
    requires idx < |s|
    ensures ForbiddenIn(s, idx, idx + 1) <==> ForbiddenAt(s, idx)
    ensures s[idx] < 0x80 ==> (ForbiddenAt(s, idx) <==> s[idx] == 0x0B || s[idx] == 0x0C)
  {
    assert idx + 3 <= |s| ==> s[idx..idx + 3][0] == s[idx];
    assert idx + 4 <= |s| ==> s[idx..idx + 4][0] == s[idx];
  }

  /** What is written for one unit is legal exactly if nothing forbidden begins in it. */
  lemma UnitIsLegal(s: Bytes, idx: nat, forWhat: ForWhat, rest: Bytes)
    requires idx < |s|
    ensures var u := UnitAt(s, idx, forWhat);
            IsLegalText(TextOf(s, idx, u) + rest) <==> !ForbiddenIn(s, idx, idx + SizeOf(u)) && IsLegalText(rest)
  {
    hide IsLegalText, IsLegalCharacter, ForbiddenAt, Acceptable;
    var u := UnitAt(s, idx, forWhat);
    OneByteForbidden(s, idx);
    if u.Plain? && 1 < u.size {
      var b := s[idx..idx + u.size];
      ForbiddenInUnit(s, idx, u.size);
      SequenceIsLegal(b);
      LegalTextSplits(b, rest);
    } else if u.Plain? {
      assert s[idx] < 0x80;
      assert TextOf(s, idx, u) == Character(s[idx]);
      LegalTextSplits(Character(s[idx]), rest);
      LegalIs(s[idx]);
    } else {
      if u.Escape? {
        EscapedIsNotForbidden(s, idx, forWhat);
      }
      LegalAscii(TextOf(s, idx, u), rest);
    }
  }

  lemma {:induction false} LegalFrom(s: Bytes, idx: nat, forWhat: ForWhat)
    requires idx <= |s|
    ensures IsLegalText(Encoding(s, idx, forWhat)) <==> !ForbiddenIn(s, idx, |s|)
    decreases |s| - idx
  {
    hide IsLegalText, ForbiddenAt, UnitAt, TextOf;
    if idx == |s| {
      EmptyIsLegal();
    } else {
      var next := idx + SizeOf(UnitAt(s, idx, forWhat));
      LegalFrom(s, next, forWhat);
      UnitIsLegal(s, idx, forWhat, Encoding(s, next, forWhat));
    }
  }

  lemma EmptyIsLegal()
    ensures IsLegalText([])
  {
  }

  /**
    The output is text that section 2.2 of XML 1.0 allows exactly if the input holds no vertical
    tab, form feed, surrogate, U+FFFE, U+FFFF or overlong U+0800: whatever else is not well-formed
    text is escaped, and these are not.
   */
  lemma LegalOutput(s: Bytes, forWhat: ForWhat)
    ensures IsLegalText(Encoding(s, 0, forWhat)) <==> forall i :: 0 <= i < |s| ==> !ForbiddenAt(s, i)
  {
    hide IsLegalText, ForbiddenAt, UnitAt, TextOf, Encoding;
    LegalFrom(s, 0, forWhat);
  }

  // ----- What is written for each byte

  /** The value of a hexadecimal digit, 0 to 9 and A to F. */
  function HexValue(c: Byte): Option<nat> {
    if 0x30 <= c <= 0x39 then Some(c - 0x30)
    else if 0x41 <= c <= 0x46 then Some(c - 0x41 + 10)
    else None
  }

  /** `\x` and two digits. */
  predicate IsEscape(b: Bytes) {
    |b| >= 4 && b[0] == 0x5C && b[1] == 0x78 && HexValue(b[2]).Some? && HexValue(b[3]).Some?
  }

  /** The digits read as a number to the base 16, the more significant one first. */
  function EscapeValue(b: Bytes): (value: Byte)
    requires IsEscape(b)
  {
    16 * HexValue(b[2]).value + HexValue(b[3]).value
  }

  lemma EscapeReadsBack(c: Byte, rest: Bytes)
    ensures IsEscape(HexEscape(c) + rest) && EscapeValue(HexEscape(c) + rest) == c
    ensures (HexEscape(c) + rest)[4..] == rest
  {
    assert HexValue(HexDigit(c / 16)) == Some(c / 16) && HexValue(HexDigit(c % 16)) == Some(c % 16);
  }

  /** A sequence of `n` bytes that may pass. */
  ghost predicate IsSequence(s: Bytes, idx: nat, n: nat) {
    2 <= n && idx + n <= |s| && Acceptable(s[idx..idx + n])
  }

  ghost predicate BeginsSequence(s: Bytes, idx: nat) {
    exists n :: IsSequence(s, idx, n)
  }

  /** 00 to 08, 0E to 1F, 7F, and from 80 on what begins no such sequence. */
  ghost predicate NeedsEscape(s: Bytes, idx: nat)
    requires idx < |s|
  {
    || 0x00 <= s[idx] <= 0x08
    || 0x0E <= s[idx] <= 0x1F
    || s[idx] == 0x7F
    || (0x80 <= s[idx] && !BeginsSequence(s, idx))
  }

  lemma EscapesMean(s: Bytes, idx: nat, forWhat: ForWhat)
    requires idx < |s|
    ensures UnitAt(s, idx, forWhat).Escape? <==> NeedsEscape(s, idx)
  {
    hide Acceptable;
    if 0x80 <= s[idx] {
      var n := Announced(s[idx]);
      if 0 < n && idx + n <= |s| && Acceptable(s[idx..idx + n]) {
        assert IsSequence(s, idx, n);
      }
      if m :| IsSequence(s, idx, m) {
        PassedThrough(s, idx, m, forWhat);
      }
    }
  }

  predicate IsMark(c: Byte) {
    c == '<' as int || c == '>' as int || c == '&' as int || c == '\"' as int
  }

  /** What stands in the output for each byte that is met, `rest` being what stands for those after it. */
  lemma WrittenAt(s: Bytes, idx: nat, forWhat: ForWhat)
    requires idx < |s|
    ensures var c, e, rest := s[idx], Encoding(s, idx, forWhat), Encoding(s, idx + 1, forWhat);
            && (NeedsEscape(s, idx) ==> IsEscape(e) && EscapeValue(e) == c && e[4..] == rest)
            && (0x80 <= c && !NeedsEscape(s, idx) ==>
                  exists n :: IsSequence(s, idx, n) && e == s[idx..idx + n] + Encoding(s, idx + n, forWhat))
            && (c < 0x80 && !NeedsEscape(s, idx) && !IsMark(c) ==> e == [c] + rest)
  {
    hide Acceptable, HexEscape, NeedsEscape, Encoding;
    var u := UnitAt(s, idx, forWhat);
    if 0x80 <= s[idx] && u.Plain? {
      assert IsSequence(s, idx, u.size);
    }
    EscapesMean(s, idx, forWhat);
    EncodingStep(s, idx, forWhat);
    EscapeReadsBack(s[idx], Encoding(s, idx + 1, forWhat));
    assert s[idx..idx + 1] == [s[idx]];
  }

  function Escaped(c: Byte, end: bool, forWhat: ForWhat): string {
    if c == '<' as int then "&lt;"
    else if c == '&' as int then "&amp;"
    else if c == '>' as int then if end then "&gt;" else ">"
    else if forWhat == ForAttributes then "&quot;"
    else "\""
  }

  /** What stands there for the characters of markup; `>` is escaped after two closing brackets. */
  lemma MarksWrittenAt(s: Bytes, idx: nat, forWhat: ForWhat)
    requires idx < |s| && IsMark(s[idx])
    ensures var end := idx >= 3 && s[idx - 1] == s[idx - 2] == ']' as int;
            Encoding(s, idx, forWhat) == Ascii(Escaped(s[idx], end, forWhat)) + Encoding(s, idx + 1, forWhat)
  {
    hide Acceptable, HexEscape, Encoding;
    EncodingStep(s, idx, forWhat);
    Entities();
    assert s[idx..idx + 1] == [s[idx]];
  }

  lemma EncodingStep(s: Bytes, idx: nat, forWhat: ForWhat)
    requires idx < |s|
    ensures var u := UnitAt(s, idx, forWhat);
            Encoding(s, idx, forWhat) == TextOf(s, idx, u) + Encoding(s, idx + SizeOf(u), forWhat)
  {
    hide UnitAt, TextOf;
  }

  lemma Entities()
    ensures LT_ENTITY == Ascii("&lt;") && AMP_ENTITY == Ascii("&amp;") && GT_ENTITY == Ascii("&gt;")
    ensures QUOT_ENTITY == Ascii("&quot;") && Ascii("\"") == [QUOTE] && Ascii(">") == [GREATER]
  {
  }

  // ----- Which bytes are met

  /** Going on from `from`, unit by unit, the encoder comes to `idx`. */
  ghost predicate Reaches(s: Bytes, from: nat, idx: nat, forWhat: ForWhat)
    requires idx <= |s|
    decreases |s| - from
  {
    from == idx || (from < idx && Reaches(s, from + SizeOf(UnitAt(s, from, forWhat)), idx, forWhat))
  }

  /** What is written for a byte that is met stands in the output. */
  lemma {:induction false} StandsInOutput(s: Bytes, from: nat, idx: nat, forWhat: ForWhat) returns (front: Bytes)
    requires idx <= |s| && Reaches(s, from, idx, forWhat)
    ensures from <= |s| && Encoding(s, from, forWhat) == front + Encoding(s, idx, forWhat)
    decreases |s| - from
  {
    hide UnitAt, TextOf, Encoding;
    if from == idx {
      front := [];
      assert [] + Encoding(s, idx, forWhat) == Encoding(s, idx, forWhat);
    } else {
      var u := UnitAt(s, from, forWhat);
      EncodingStep(s, from, forWhat);
      var rest := StandsInOutput(s, from + SizeOf(u), idx, forWhat);
      front := TextOf(s, from, u) + rest;
      assert TextOf(s, from, u) + (rest + Encoding(s, idx, forWhat)) == front + Encoding(s, idx, forWhat);
    }
  }

  /** Every ASCII byte is met: none is part of a longer sequence. */
  lemma {:induction false} AsciiIsMet(s: Bytes, from: nat, idx: nat, forWhat: ForWhat)
    requires from <= idx < |s| && s[idx] < 0x80
    ensures Reaches(s, from, idx, forWhat)
    decreases |s| - from
  {
    hide UnitAt, TextOf;
    if from < idx {
      var n := SizeOf(UnitAt(s, from, forWhat));
      UnitStopsAt(s, from, idx, forWhat);
      AsciiIsMet(s, from + n, idx, forWhat);
    }
  }

  /** Every byte of a longer sequence has its high bit set. */
  lemma LongUnitIsHigh(s: Bytes, from: nat, i: nat, forWhat: ForWhat)
    requires from < |s| && UnitAt(s, from, forWhat).Plain?
    requires 0 < i < UnitAt(s, from, forWhat).size
    ensures 0x80 <= s[from + i]
  {
    hide UnitAt;
    PlainBytes(s, from, forWhat);
    assert TextOf(s, from, UnitAt(s, from, forWhat))[i] == s[from + i];
  }

  lemma UnitStopsAt(s: Bytes, from: nat, idx: nat, forWhat: ForWhat)
    requires from < idx < |s| && s[idx] < 0x80
    ensures from + SizeOf(UnitAt(s, from, forWhat)) <= idx
  {
    hide UnitAt;
    if idx < from + SizeOf(UnitAt(s, from, forWhat)) {
      LongUnitIsHigh(s, from, idx - from, forWhat);
    }
  }

  /** An escaped byte that is met stands in the output as `\x` and its two digits. */
  lemma EscapeWritten(s: Bytes, idx: nat, forWhat: ForWhat) returns (front: Bytes)
    requires idx < |s| && Reaches(s, 0, idx, forWhat) && NeedsEscape(s, idx)
    ensures var output := Encoding(s, 0, forWhat);
            && front <= output && IsEscape(output[|front|..]) && EscapeValue(output[|front|..]) == s[idx]
            && output[|front| + 4..] == Encoding(s, idx + 1, forWhat)
  {
    hide Encoding, NeedsEscape, Reaches, UnitAt;
    front := StandsInOutput(s, 0, idx, forWhat);
    WrittenAt(s, idx, forWhat);
    var output, e := Encoding(s, 0, forWhat), Encoding(s, idx, forWhat);
    assert output[|front|..] == e && output[|front| + 4..] == e[4..];
  }

  /** Printable ASCII is never escaped. */
  lemma {:induction false} PrintableIsNotEscaped(s: Bytes, idx: nat, forWhat: ForWhat)
    requires idx <= |s| && forall i :: 0 <= i < |s| ==> 0x20 <= s[i] < 0x7F
    ensures NothingEscaped(s, idx, forWhat)
    decreases |s| - idx
  {
    hide Acceptable;
    if idx < |s| {
      PrintableIsNotEscaped(s, idx + SizeOf(UnitAt(s, idx, forWhat)), forWhat);
    }
  }
}
