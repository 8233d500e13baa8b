/** Types shared by the components. */
module Common {

  datatype Option<+T> = None | Some(value: T)

  /** An unsigned eight-bit byte, as a number. */
  type Byte = b: int | 0 <= b < 256

  type Bytes = seq<Byte>

  /** The eight-bit characters of a NUL-terminated string, without the terminator. */
  type CString = s: seq<char> | forall i :: 0 <= i < |s| ==> 0 < s[i] as int < 256 witness []

  /** The same characters as bytes. */
  function Ascii(s: CString): (b: Bytes)
    ensures |b| == |s| && forall i :: 0 <= i < |s| ==> b[i] == s[i] as int
  {
    seq(|s|, i requires 0 <= i < |s| => s[i] as int)
  }

  function Max(a: int, b: int): int {
    if a < b then b else a
  }

  function Min(a: int, b: int): int {
    if a < b then a else b
  }

  /** Decimal notation. */
  function Decimal(n: int): (b: Bytes)
    ensures b != []
    decreases if n < 0 then 1 else 0, n
  {
    if n < 0 then [0x2D] + Decimal(-n)
    else if n < 10 then [0x30 + n]
    else Decimal(n / 10) + [0x30 + n % 10]
  }

  /** `memcpy` into an array. */
  method Memcpy(dst: array<Byte>, at: nat, src: Bytes)
    requires at + |src| <= dst.Length
    modifies dst
    ensures dst[..] == old(dst[..at]) + src + old(dst[at + |src|..])
  {
    ghost var before := dst[..];
    for i := 0 to |src|
      invariant forall k :: 0 <= k < dst.Length ==>
                  dst[k] == if at <= k < at + i then src[k - at] else before[k]
    {
      dst[at + i] := src[i];
    }
  }
}
