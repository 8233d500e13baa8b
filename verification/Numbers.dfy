/** Reading numbers from left to right, and what decimal notation gives such a reader. */
module Numbers {
  import opened Common

  predicate IsDigit(c: Byte) {
    0x30 <= c <= 0x39
  }

  /** The digits of `b` behind a number read so far; `None` at anything else. */
  function ReadDigits(b: Bytes, sofar: nat): Option<nat> {
    if b == [] then Some(sofar)
    else if IsDigit(b[0]) then ReadDigits(b[1..], 10 * sofar + (b[0] - 0x30))
    else None
  }

  /** A number in decimal, with a minus sign in front if it is negative. */
  function ReadNumber(b: Bytes): Option<int> {
    if b == [] || b == [0x2D] then None
    else
      var n := ReadDigits(if b[0] == 0x2D then b[1..] else b, 0);
      if n.None? then None
      else
        var value: int := n.value;
        Some(if b[0] == 0x2D then -value else value)
  }

  lemma {:induction false} ReadSnoc(b: Bytes, c: Byte, sofar: nat)
    requires ReadDigits(b, sofar).Some? && IsDigit(c)
    ensures ReadDigits(b + [c], sofar) == Some(10 * ReadDigits(b, sofar).value + (c - 0x30))
    decreases |b|
  {
    if b == [] {
      assert (b + [c])[1..] == [];
    } else {
      assert (b + [c])[0] == b[0] && (b + [c])[1..] == b[1..] + [c];
      ReadSnoc(b[1..], c, 10 * sofar + (b[0] - 0x30));
    }
  }

  /** Natural numbers are written in digits only, without leading zeros, and read back. */
  lemma {:induction false} DigitsReadBack(n: nat)
    ensures ReadDigits(Decimal(n), 0) == Some(n)
    ensures forall i :: 0 <= i < |Decimal(n)| ==> IsDigit(Decimal(n)[i])
    ensures Decimal(n)[0] == 0x30 ==> n == 0 && |Decimal(n)| == 1
    decreases n
  {
    if n < 10 {
      assert [0x30 + n][1..] == [];
    } else {
      DigitsReadBack(n / 10);
      ReadSnoc(Decimal(n / 10), 0x30 + n % 10, 0);
    }
  }

  /**
    Every number is read back: a minus sign exactly in front of negative ones, all other bytes
    digits, and no leading zero.
   */
  lemma DecimalReadsBack(n: int)
    ensures ReadNumber(Decimal(n)) == Some(n)
    ensures Decimal(n)[0] == 0x2D <==> n < 0
    ensures forall i :: (if n < 0 then 1 else 0) <= i < |Decimal(n)| ==> IsDigit(Decimal(n)[i])
    ensures var first := if n < 0 then 1 else 0;
            first < |Decimal(n)| && (Decimal(n)[first] == 0x30 ==> n == 0 && |Decimal(n)| == 1)
  {
    if n < 0 {
      DigitsReadBack(-n);
      assert Decimal(n) == [0x2D] + Decimal(-n);
      assert Decimal(n)[1..] == Decimal(-n);
    } else {
      DigitsReadBack(n);
    }
  }
}
