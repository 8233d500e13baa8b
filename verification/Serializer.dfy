/**
  Field-by-field binary encoding of the values that calls carry, as the portable binary
  archive lays it out.  An archive begins with a byte that says whether its numbers are
  little-endian; strings and lists begin with their length in eight bytes; a tuple is its
  fields one after another.  Archives are written in the byte order of the machine and can be
  read on any.
 */
module Serializer {
  import opened Common

  datatype Type =
    | TU8
    | TU32
    | TString
    | TList(element: Type)
    | TTuple(fields: seq<Type>)

  datatype Value =
    | U8(b: Byte)
    | U32(n: nat)
    | Str(s: Bytes)
    | List(elements: seq<Value>)
    | Tuple(fields: seq<Value>)

  const LENGTH_LIMIT: nat := 0x1_0000_0000_0000_0000

  predicate HasType(v: Value, t: Type) {
    match t
    case TU8 => v.U8?
    case TU32 => v.U32? && v.n < 0x1_0000_0000
    case TString => v.Str? && |v.s| < LENGTH_LIMIT
    case TList(element) => v.List? && |v.elements| < LENGTH_LIMIT && AllHaveType(v.elements, element)
    case TTuple(fields) => v.Tuple? && HaveTypes(v.fields, fields)
  }

  predicate AllHaveType(vs: seq<Value>, t: Type) {
    vs == [] || (HasType(vs[0], t) && AllHaveType(vs[1..], t))
  }

  predicate HaveTypes(vs: seq<Value>, ts: seq<Type>) {
    if vs == [] then ts == []
    else ts != [] && HasType(vs[0], ts[0]) && HaveTypes(vs[1..], ts[1..])
  }

  // ----- Numbers

  function LittleEndian(n: nat, size: nat): (b: Bytes)
    ensures |b| == size
  {
    if size == 0 then [] else [n % 256] + LittleEndian(n / 256, size - 1)
  }

  function FromLittleEndian(b: Bytes): nat {
    if b == [] then 0 else b[0] as int + 256 * FromLittleEndian(b[1..])
  }

  function Limit(size: nat): nat {
    if size == 0 then 1 else 256 * Limit(size - 1)
  }

  lemma {:induction false} LittleEndianInverse(n: nat, size: nat)
    requires n < Limit(size)
    ensures FromLittleEndian(LittleEndian(n, size)) == n
    decreases size
  {
    if size > 0 {
      LittleEndianInverse(n / 256, size - 1);
      assert LittleEndian(n, size)[1..] == LittleEndian(n / 256, size - 1);
    }
  }

  lemma DivideTwice(n: nat, m: nat)
    requires m > 0
    ensures n / 256 / m == n / (256 * m)
  {
    var q, r := n / 256 / m, n / 256 % m;
    assert n == 256 * (q * m + r) + n % 256;
    assert n == q * (256 * m) + (256 * r + n % 256);
    Quotient(n, 256 * m, q, 256 * r + n % 256);
  }

  lemma Quotient(n: nat, m: nat, q: nat, r: nat)
    requires n == q * m + r && r < m
    ensures n / m == q
  {
    if q < n / m {
      Multiples(q, n / m, m);
    } else if n / m < q {
      Multiples(n / m, q, m);
    }
  }

  lemma {:induction false} Multiples(a: nat, b: nat, m: nat)
    requires a < b
    ensures a * m + m <= b * m
    decreases b
  {
    if a + 1 < b {
      Multiples(a, b - 1, m);
    }
    assert b * m == (b - 1) * m + m;
  }

  /** The least significant byte comes first: byte `i` is digit `i` to the base 256. */
  lemma {:induction false} LittleEndianDigits(n: nat, size: nat, i: nat)
    requires i < size
    ensures Limit(i) > 0 && LittleEndian(n, size)[i] == n / Limit(i) % 256
    decreases i
  {
    hide LittleEndian;
    OneDigit(n, size, i);
    if i > 0 {
      LittleEndianDigits(n / 256, size - 1, i - 1);
      DivideTwice(n, Limit(i - 1));
    }
  }

  lemma OneDigit(n: nat, size: nat, i: nat)
    requires i < size
    ensures LittleEndian(n, size)[i] == if i == 0 then n % 256 else LittleEndian(n / 256, size - 1)[i - 1]
  {
  }

  /** Any bytes are those of the number read from them. */
  lemma {:induction false} ReadIsWritten(b: Bytes)
    ensures FromLittleEndian(b) < Limit(|b|)
    ensures LittleEndian(FromLittleEndian(b), |b|) == b
    decreases |b|
  {
    if b != [] {
      ReadIsWritten(b[1..]);
      OneMoreByte(b[0], FromLittleEndian(b[1..]));
      assert b == [b[0]] + b[1..];
    }
  }

  lemma OneMoreByte(c: Byte, n: nat)
    ensures (c + 256 * n) % 256 == c && (c + 256 * n) / 256 == n
  {
  }

  lemma NumberIsWritten(order: Order, b: Bytes)
    ensures FromNumber(order, b) < Limit(|b|)
    ensures Number(order, FromNumber(order, b), |b|) == b
  {
    ReadIsWritten(if order == Little then b else Reversed(b));
    assert Reversed(Reversed(b)) == b;
  }

  lemma Limits()
    ensures Limit(4) == 0x1_0000_0000 && Limit(8) == LENGTH_LIMIT
  {
  }

  datatype Order = Little | Big

  function Reversed(b: Bytes): (r: Bytes)
    ensures |r| == |b| && forall i :: 0 <= i < |b| ==> r[i] == b[|b| - 1 - i]
  {
    if b == [] then [] else Reversed(b[1..]) + [b[0]]
  }

  /** The bytes of a number in memory. */
  function Number(order: Order, n: nat, size: nat): (b: Bytes)
    ensures |b| == size
  {
    if order == Little then LittleEndian(n, size) else Reversed(LittleEndian(n, size))
  }

  function FromNumber(order: Order, b: Bytes): nat {
    FromLittleEndian(if order == Little then b else Reversed(b))
  }

  lemma NumberInverse(order: Order, n: nat, size: nat)
    requires n < Limit(size)
    ensures FromNumber(order, Number(order, n, size)) == n
  {
    var b := LittleEndian(n, size);
    LittleEndianInverse(n, size);
    assert Reversed(Reversed(b)) == b;
  }

  /** The first byte of an archive. */
  function Flag(order: Order): Byte {
    if order == Little then 1 else 0
  }

  /** The order in which a machine reads an archive: its own, unless the first byte tells otherwise. */
  function ReadOrder(machine: Order, flag: Byte): Order {
    if flag == Flag(machine) then machine
    else if machine == Little then Big
    else Little
  }

  /** It is what the machine finds in the first byte of the number 1. */
  lemma FlagIsFirstByteOfOne(order: Order)
    ensures Flag(order) == Number(order, 1, 4)[0]
  {
    OneDigit(1, 4, 0);
    LittleEndianDigits(1, 4, 3);
    assert Limit(3) == 0x100_0000;
  }

  /** An archive is read in the order it was written in, whatever the machine. */
  lemma OrderIsKept(machine: Order, order: Order)
    ensures ReadOrder(machine, Flag(order)) == order
  {
  }

  // ----- Encoding and decoding

  function Encode(order: Order, v: Value): Bytes {
    match v
    case U8(b) => [b]
    case U32(n) => Number(order, n, 4)
    case Str(s) => Number(order, |s|, 8) + s
    case List(elements) => Number(order, |elements|, 8) + EncodeAll(order, elements)
    case Tuple(fields) => EncodeAll(order, fields)
  }

  function EncodeAll(order: Order, vs: seq<Value>): Bytes {
    if vs == [] then [] else Encode(order, vs[0]) + EncodeAll(order, vs[1..])
  }

  /** A value and what is left of the input; `None` if the input ends too early. */
  type Decoded<T> = Option<(T, Bytes)>

  function DecodeNumber(order: Order, size: nat, b: Bytes): Decoded<nat> {
    if |b| < size then None else Some((FromNumber(order, b[..size]), b[size..]))
  }

  function Decode(order: Order, t: Type, b: Bytes): Decoded<Value>
    decreases t, 0, 0
  {
    match t
    case TU8 => if b == [] then None else Some((U8(b[0]), b[1..]))
    case TU32 =>
      (match DecodeNumber(order, 4, b)
       case None => None
       case Some((n, rest)) => Some((U32(n), rest)))
    case TString =>
      (match DecodeNumber(order, 8, b)
       case None => None
       case Some((n, rest)) => if |rest| < n then None else Some((Str(rest[..n]), rest[n..])))
    case TList(element) =>
      (match DecodeNumber(order, 8, b)
       case None => None
       case Some((n, rest)) =>
         match DecodeMany(order, element, n, rest)
         case None => None
         case Some((vs, left)) => Some((List(vs), left)))
    case TTuple(fields) =>
      (match DecodeFields(order, fields, b)
       case None => None
       case Some((vs, left)) => Some((Tuple(vs), left)))
  }

  function DecodeMany(order: Order, t: Type, n: nat, b: Bytes): Decoded<seq<Value>>
    decreases t, 1, n
  {
    if n == 0 then Some(([], b))
    else
      match Decode(order, t, b)
      case None => None
      case Some((v, rest)) =>
        match DecodeMany(order, t, n - 1, rest)
        case None => None
        case Some((vs, left)) => Some(([v] + vs, left))
  }

  function DecodeFields(order: Order, ts: seq<Type>, b: Bytes): Decoded<seq<Value>>
    decreases ts, 0, 0
  {
    if ts == [] then Some(([], b))
    else
      match Decode(order, ts[0], b)
      case None => None
      case Some((v, rest)) =>
        match DecodeFields(order, ts[1..], rest)
        case None => None
        case Some((vs, left)) => Some(([v] + vs, left))
  }

  // ----- Round trips

  lemma NumberRoundTrip(order: Order, n: nat, size: nat, rest: Bytes)
    requires n < Limit(size)
    ensures DecodeNumber(order, size, Number(order, n, size) + rest) == Some((n, rest))
  {
    var b := Number(order, n, size) + rest;
    assert b[..size] == Number(order, n, size) && b[size..] == rest;
    NumberInverse(order, n, size);
  }

  /** A value is read back, whatever follows it. */
  lemma {:induction false} RoundTrip(order: Order, t: Type, v: Value, rest: Bytes)
    requires HasType(v, t)
    ensures Decode(order, t, Encode(order, v) + rest) == Some((v, rest))
    decreases t, 0, 0
  {
    hide Limit, Number, DecodeNumber, EncodeAll, DecodeMany, DecodeFields;
    Limits();
    match t {
      case TU8 =>
      case TU32 =>
        NumberRoundTrip(order, v.n, 4, rest);
      case TString =>
        NumberRoundTrip(order, |v.s|, 8, v.s + rest);
        assert (v.s + rest)[..|v.s|] == v.s && (v.s + rest)[|v.s|..] == rest;
        assert Encode(order, v) + rest == Number(order, |v.s|, 8) + (v.s + rest);
      case TList(element) =>
        NumberRoundTrip(order, |v.elements|, 8, EncodeAll(order, v.elements) + rest);
        RoundTripMany(order, element, v.elements, rest);
        assert Encode(order, v) + rest == Number(order, |v.elements|, 8) + (EncodeAll(order, v.elements) + rest);
      case TTuple(fields) =>
        RoundTripFields(order, fields, v.fields, rest);
    }
  }

  lemma {:induction false} RoundTripMany(order: Order, t: Type, vs: seq<Value>, rest: Bytes)
    requires AllHaveType(vs, t)
    ensures DecodeMany(order, t, |vs|, EncodeAll(order, vs) + rest) == Some((vs, rest))
    decreases t, 1, |vs|
  {
    hide Decode, Encode, HasType;
    if vs == [] {
      assert EncodeAll(order, vs) + rest == rest;
    } else {
      var tail := EncodeAll(order, vs[1..]) + rest;
      assert EncodeAll(order, vs) + rest == Encode(order, vs[0]) + tail;
      RoundTrip(order, t, vs[0], tail);
      RoundTripMany(order, t, vs[1..], rest);
      assert [vs[0]] + vs[1..] == vs;
    }
  }

  lemma {:induction false} RoundTripFields(order: Order, ts: seq<Type>, vs: seq<Value>, rest: Bytes)
    requires HaveTypes(vs, ts)
    ensures DecodeFields(order, ts, EncodeAll(order, vs) + rest) == Some((vs, rest))
    decreases ts, 0, 0
  {
    hide Decode, Encode, HasType;
    if vs == [] {
      assert EncodeAll(order, vs) + rest == rest;
    } else {
      var tail := EncodeAll(order, vs[1..]) + rest;
      assert EncodeAll(order, vs) + rest == Encode(order, vs[0]) + tail;
      RoundTrip(order, ts[0], vs[0], tail);
      RoundTripFields(order, ts[1..], vs[1..], rest);
      assert [vs[0]] + vs[1..] == vs;
    }
  }

  // ----- How many bytes

  /** One byte, four bytes, or eight bytes for a length and what is counted; a tuple adds nothing. */
  function Width(v: Value): nat {
    match v
    case U8(_) => 1
    case U32(_) => 4
    case Str(s) => 8 + |s|
    case List(elements) => 8 + TotalWidth(elements)
    case Tuple(fields) => TotalWidth(fields)
  }

  function TotalWidth(vs: seq<Value>): nat {
    if vs == [] then 0 else Width(vs[0]) + TotalWidth(vs[1..])
  }

  lemma {:induction false} EncodedWidth(order: Order, v: Value)
    ensures |Encode(order, v)| == Width(v)
  {
    match v
    case U8(_) =>
    case U32(_) =>
    case Str(_) =>
    case List(elements) => EncodedWidths(order, elements);
    case Tuple(fields) => EncodedWidths(order, fields);
  }

  lemma {:induction false} EncodedWidths(order: Order, vs: seq<Value>)
    ensures |EncodeAll(order, vs)| == TotalWidth(vs)
  {
    if vs != [] {
      EncodedWidth(order, vs[0]);
      EncodedWidths(order, vs[1..]);
    }
  }

  // ----- What can be decoded is an encoding

  lemma DecodedNumber(order: Order, size: nat, b: Bytes)
    requires DecodeNumber(order, size, b).Some?
    ensures var (n, rest) := DecodeNumber(order, size, b).value;
            n < Limit(size) && b == Number(order, n, size) + rest
  {
    NumberIsWritten(order, b[..size]);
    assert b == b[..size] + b[size..];
  }

  /** Decoding succeeds exactly for the encoding of a value of the type, with whatever behind it. */
  lemma DecodesEncodings(order: Order, t: Type, b: Bytes, v: Value, rest: Bytes)
    ensures Decode(order, t, b) == Some((v, rest)) <==> HasType(v, t) && b == Encode(order, v) + rest
  {
    hide Decode, Encode, HasType;
    if Decode(order, t, b) == Some((v, rest)) {
      DecodedValue(order, t, b);
    } else if HasType(v, t) {
      RoundTrip(order, t, v, rest);
    }
  }

  lemma DecodedText(order: Order, b: Bytes)
    requires Decode(order, TString, b).Some?
    ensures var (v, rest) := Decode(order, TString, b).value;
            v.Str? && |v.s| < Limit(8) && b == Number(order, |v.s|, 8) + v.s + rest
  {
    hide Limit, Number, DecodeNumber;
    DecodedNumber(order, 8, b);
    var (n, left) := DecodeNumber(order, 8, b).value;
    assert left == left[..n] + left[n..];
  }

  lemma {:induction false} DecodedValue(order: Order, t: Type, b: Bytes)
    requires Decode(order, t, b).Some?
    ensures var (v, rest) := Decode(order, t, b).value;
            HasType(v, t) && b == Encode(order, v) + rest
    decreases t, 0, 0
  {
    hide Limit, Number, DecodeNumber, EncodeAll, DecodeMany, DecodeFields;
    Limits();
    match t {
      case TU8 =>
        assert b == [b[0]] + b[1..];
      case TU32 =>
        DecodedNumber(order, 4, b);
      case TString =>
        DecodedText(order, b);
      case TList(element) =>
        DecodedNumber(order, 8, b);
        var (n, left) := DecodeNumber(order, 8, b).value;
        DecodedMany(order, element, n, left);
      case TTuple(fields) =>
        DecodedFields(order, fields, b);
    }
  }

  lemma {:induction false} DecodedMany(order: Order, t: Type, n: nat, b: Bytes)
    requires DecodeMany(order, t, n, b).Some?
    ensures var (vs, rest) := DecodeMany(order, t, n, b).value;
            |vs| == n && AllHaveType(vs, t) && b == EncodeAll(order, vs) + rest
    decreases t, 1, n
  {
    hide Decode, Encode, HasType;
    if n > 0 {
      DecodedValue(order, t, b);
      var (v, rest) := Decode(order, t, b).value;
      DecodedMany(order, t, n - 1, rest);
      var (vs, left) := DecodeMany(order, t, n - 1, rest).value;
      assert ([v] + vs)[1..] == vs;
      assert b == (Encode(order, v) + EncodeAll(order, vs)) + left;
    }
  }

  lemma {:induction false} DecodedFields(order: Order, ts: seq<Type>, b: Bytes)
    requires DecodeFields(order, ts, b).Some?
    ensures var (vs, rest) := DecodeFields(order, ts, b).value;
            HaveTypes(vs, ts) && b == EncodeAll(order, vs) + rest
    decreases ts, 0, 0
  {
    hide Decode, Encode, HasType;
    if ts != [] {
      DecodedValue(order, ts[0], b);
      var (v, rest) := Decode(order, ts[0], b).value;
      DecodedFields(order, ts[1..], rest);
      var (vs, left) := DecodeFields(order, ts[1..], rest).value;
      assert ([v] + vs)[1..] == vs;
      assert b == (Encode(order, v) + EncodeAll(order, vs)) + left;
    }
  }

  // ----- Values without bytes

  /** Only tuples of nothing, however nested, take up no bytes. */
  predicate Sizeless(t: Type) {
    t.TTuple? && AllSizeless(t.fields)
  }

  predicate AllSizeless(ts: seq<Type>) {
    ts == [] || (Sizeless(ts[0]) && AllSizeless(ts[1..]))
  }

  lemma {:induction false} SizelessIsEmpty(order: Order, t: Type, v: Value)
    requires HasType(v, t)
    ensures Encode(order, v) == [] <==> Sizeless(t)
    decreases t
  {
    if t.TTuple? {
      SizelessAreEmpty(order, t.fields, v.fields);
    }
  }

  lemma {:induction false} SizelessAreEmpty(order: Order, ts: seq<Type>, vs: seq<Value>)
    requires HaveTypes(vs, ts)
    ensures EncodeAll(order, vs) == [] <==> AllSizeless(ts)
    decreases ts
  {
    if vs != [] {
      SizelessIsEmpty(order, ts[0], vs[0]);
      SizelessAreEmpty(order, ts[1..], vs[1..]);
    }
  }
}
