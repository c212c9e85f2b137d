/**
 * Normalisation of department codes: `str.zfill(2)`.
 *
 * Python's `zfill(width)` returns a string of length `width` or more by
 * inserting '0' characters; a leading '+' or '-' stays in front of the
 * inserted zeros. Department codes never carry a sign, but the rule costs
 * nothing to model, so `ZFill` follows Python on every string.
 */
module Padding {

  /** The width the pipeline pads department codes to. */
  const CodeWidth: nat := 2

  function Max(a: nat, b: nat): nat {
    if a >= b then a else b
  }

  /** `n` zero characters. */
  function Zeros(n: nat): (z: string)
    ensures |z| == n
  {
    if n == 0 then "" else "0" + Zeros(n - 1)
  }

  predicate AllZeros(s: string) {
    forall i :: 0 <= i < |s| ==> s[i] == '0'
  }

  predicate IsSign(c: char) {
    c == '+' || c == '-'
  }

  /** True when `s` starts with a sign character. */
  predicate Signed(s: string) {
    |s| > 0 && IsSign(s[0])
  }

  lemma {:induction false} ZerosAreZeros(n: nat)
    ensures AllZeros(Zeros(n))
  {
    if n > 0 {
      ZerosAreZeros(n - 1);
    }
  }

  /** Python's `s.zfill(width)`. */
  function ZFill(s: string, width: nat): (r: string)
    ensures |r| == Max(width, |s|)
    ensures |s| >= width ==> r == s
    ensures |s| < width && !Signed(s) ==>
      r[|r| - |s|..] == s && AllZeros(r[..|r| - |s|])
    ensures |s| < width && Signed(s) ==>
      r[0] == s[0] && AllZeros(r[1..|r| - |s| + 1]) && r[|r| - |s| + 1..] == s[1..]
  {
    if |s| >= width then s
    else
      ZerosAreZeros(width - |s|);
      if Signed(s) then [s[0]] + Zeros(width - |s|) + s[1..]
      else Zeros(width - |s|) + s
  }

  /** The padding applied to both sides of the department-code join. */
  function Pad(s: string): (r: string)
    ensures |r| == Max(CodeWidth, |s|)
  {
    ZFill(s, CodeWidth)
  }

  /** A code is in padded form when padding leaves it alone. */
  predicate IsPadded(s: string) {
    |s| >= CodeWidth
  }

  /** `zfill` at any width is idempotent. */
  lemma ZFillIdempotent(s: string, width: nat)
    ensures ZFill(ZFill(s, width), width) == ZFill(s, width)
  {
  }

  /** Padding is idempotent and its result is in padded form. */
  lemma PadIdempotent(s: string)
    ensures IsPadded(Pad(s))
    ensures Pad(Pad(s)) == Pad(s)
  {
  }

  /** Padding changes a code exactly when it is shorter than two characters. */
  lemma PadFixedPoints(s: string)
    ensures Pad(s) == s <==> IsPadded(s)
  {
  }

  /** A one-character unsigned code `c` becomes "0" followed by `c`. */
  lemma PadSingleCharacter(c: char)
    requires !IsSign(c)
    ensures Pad([c]) == ['0', c]
  {
  }

  /** The empty code becomes "00". */
  lemma PadEmpty()
    ensures Pad("") == "00"
  {
  }
}
