/**
 * The two kinds of buffer handleFiles works on: the raw bytes of a file
 * (a QByteArray) and decoded text (a QString), whose elements are UTF-16
 * code units; QString::length() counts code units, not code points.
 */
module Text {

  /** One UTF-16 code unit. */
  newtype CodeUnit = x: int | 0 <= x < 0x1_0000

  /** One byte of a file. */
  newtype Byte = x: int | 0 <= x < 0x100

  type Units = seq<CodeUnit>
  type Bytes = seq<Byte>

  const CR: CodeUnit := 0x0D
  const LF: CodeUnit := 0x0A
  const NUL: Byte := 0

  predicate IsLineEnd(u: CodeUnit) { u == CR || u == LF }

  predicate IsHighSurrogate(u: CodeUnit) { 0xD800 <= u <= 0xDBFF }

  predicate IsLowSurrogate(u: CodeUnit) { 0xDC00 <= u <= 0xDFFF }

  /** QString::left / QByteArray::left: the first n elements, or all of them when there are fewer. */
  function Left<T>(s: seq<T>, n: nat): (r: seq<T>)
    ensures |r| == if |s| < n then |s| else n
    ensures r == s[..|r|]
  {
    if |s| <= n then s else s[..n]
  }

  /** QString().fill(u, n): n copies of the unit u. */
  function Repeat(u: CodeUnit, n: nat): (r: Units)
    ensures |r| == n
    ensures forall i :: 0 <= i < n ==> r[i] == u
  {
    if n == 0 then [] else Repeat(u, n - 1) + [u]
  }
}
