/** Hexadecimal digits as the codec reads and writes them: the digit sets,
    the big-endian value of a digit string, the `{:0wX}` formatter that
    `format!` applies, and `parse_hex_byte` (core/src/lib.rs:116-132). */
module Hex {
  import opened Roland

  predicate IsHexDigit(c: char) {
    '0' <= c <= '9' || 'A' <= c <= 'F' || 'a' <= c <= 'f'
  }

  predicate IsUpperHexDigit(c: char) {
    '0' <= c <= '9' || 'A' <= c <= 'F'
  }

  predicate AllHex(s: string) {
    forall i :: 0 <= i < |s| ==> IsHexDigit(s[i])
  }

  predicate AllUpperHex(s: string) {
    forall i :: 0 <= i < |s| ==> IsUpperHexDigit(s[i])
  }

  /** The value of one digit, as the three match arms of `parse_hex_byte`
      compute it: digits, then upper-case letters, then lower-case letters. */
  function DigitValue(c: char): (d: nat)
    requires IsHexDigit(c)
    ensures d < 16
    ensures IsUpperHexDigit(c) <==> !('a' <= c <= 'f')
  {
    if '0' <= c <= '9' then c as int - '0' as int
    else if 'A' <= c <= 'F' then c as int - 'A' as int + 10
    else c as int - 'a' as int + 10
  }

  /** The uppercase digit for a nibble, the digit set of `{:X}`. */
  function HexChar(d: nat): (c: char)
    requires d < 16
    ensures IsUpperHexDigit(c) && DigitValue(c) == d
  {
    if d < 10 then ('0' as int + d) as char else ('A' as int + d - 10) as char
  }

  /** Two upper-case digits of the same value are the same digit. */
  lemma UpperDigitInjective(c: char, e: char)
    requires IsUpperHexDigit(c) && IsUpperHexDigit(e)
    requires DigitValue(c) == DigitValue(e)
    ensures c == e
  {
    assert c as int == e as int;
  }

  /** ASCII upper-casing of one character. */
  function UpperChar(c: char): (u: char)
    ensures IsHexDigit(c) ==> IsUpperHexDigit(u) && DigitValue(u) == DigitValue(c)
    ensures !('a' <= c <= 'z') ==> u == c
  {
    if 'a' <= c <= 'z' then (c as int - 32) as char else c
  }

  /** ASCII upper-casing of a string, character by character. */
  function ToUpper(s: string): (r: string)
    ensures |r| == |s|
    ensures forall i :: 0 <= i < |s| ==> r[i] == UpperChar(s[i])
  {
    seq(|s|, i requires 0 <= i < |s| => UpperChar(s[i]))
  }

  lemma ToUpperAppend(s: string, t: string)
    ensures ToUpper(s + t) == ToUpper(s) + ToUpper(t)
  {
  }

  /** Big-endian value of a string of hex digits. */
  function HexValue(s: string): nat
    requires AllHex(s)
  {
    if s == [] then 0 else HexValue(s[..|s| - 1]) * 16 + DigitValue(s[|s| - 1])
  }

  function Pow16(k: nat): (p: nat)
    ensures p >= 1
  {
    if k == 0 then 1 else 16 * Pow16(k - 1)
  }

  lemma {:induction false} Pow16Monotone(i: nat, j: nat)
    requires i <= j
    ensures Pow16(i) <= Pow16(j)
  {
    if i < j {
      Pow16Monotone(i, j - 1);
    }
  }

  /** `k` hex digits hold a value below 16^k; for `k == 2` this is why the
      `u8` accumulator of `parse_hex_byte` cannot overflow. */
  lemma {:induction false} HexValueBound(s: string)
    requires AllHex(s)
    ensures HexValue(s) < Pow16(|s|)
  {
    if s != [] {
      HexValueBound(s[..|s| - 1]);
    }
  }

  /** Concatenating digit strings shifts the left part by the right part's width. */
  lemma {:induction false} HexValueAppend(a: string, b: string)
    requires AllHex(a) && AllHex(b)
    ensures AllHex(a + b)
    ensures HexValue(a + b) == HexValue(a) * Pow16(|b|) + HexValue(b)
    decreases |b|
  {
    if b == [] {
      assert a + b == a;
    } else {
      var b' := b[..|b| - 1];
      assert (a + b)[..|a + b| - 1] == a + b';
      HexValueAppend(a, b');
      assert Pow16(|b|) == 16 * Pow16(|b'|);
      ShiftDigit(HexValue(a), Pow16(|b'|), HexValue(b'), DigitValue(b[|b| - 1]));
    }
  }

  lemma ShiftDigit(x: int, p: int, y: int, d: int)
    ensures (x * p + y) * 16 + d == x * (16 * p) + (y * 16 + d)
  {
  }

  lemma DivMod16(q: nat, d: nat)
    requires d < 16
    ensures (q * 16 + d) / 16 == q && (q * 16 + d) % 16 == d
  {
  }

  /** Upper-case digit strings of one width are determined by their value. */
  lemma {:induction false} HexValueInjective(s: string, t: string)
    requires AllUpperHex(s) && AllUpperHex(t) && |s| == |t|
    requires HexValue(s) == HexValue(t)
    ensures s == t
  {
    if s != [] {
      var n := |s| - 1;
      DivMod16(HexValue(s[..n]), DigitValue(s[n]));
      DivMod16(HexValue(t[..n]), DigitValue(t[n]));
      UpperDigitInjective(s[n], t[n]);
      HexValueInjective(s[..n], t[..n]);
      assert s == s[..n] + [s[n]] && t == t[..n] + [t[n]];
    }
  }

  /** The minimal uppercase hex rendering of `n` (`{:X}`): "0" for zero,
      otherwise no leading zero. */
  function HexDigits(n: nat): (r: string)
    ensures 1 <= |r| && AllUpperHex(r) && HexValue(r) == n
    ensures n < Pow16(|r|)
    ensures |r| == 1 || Pow16(|r| - 1) <= n
    decreases n
  {
    if n < 16 then
      [HexChar(n)]
    else
      var p := HexDigits(n / 16);
      var r := p + [HexChar(n % 16)];
      assert r[..|r| - 1] == p;
      r
  }

  function Zeros(k: nat): (z: string)
    ensures |z| == k && AllUpperHex(z) && HexValue(z) == 0
  {
    if k == 0 then [] else
      var z := Zeros(k - 1) + ['0'];
      assert z[..k - 1] == Zeros(k - 1);
      z
  }

  lemma {:induction false} ZerosAreZero(k: nat)
    ensures forall i :: 0 <= i < k ==> Zeros(k)[i] == '0'
  {
    if k > 0 {
      ZerosAreZero(k - 1);
    }
  }

  function Max(a: nat, b: nat): nat {
    if a < b then b else a
  }

  /** `{:0wX}` as `format!` applies it: the minimal uppercase hex digits of
      `n`, left-padded with '0' to `width` characters and never truncated. */
  function FormatHex(n: nat, width: nat): (r: string)
    ensures AllUpperHex(r) && HexValue(r) == n
    ensures |r| == Max(width, |HexDigits(n)|)
  {
    var digits := HexDigits(n);
    if |digits| >= width then
      digits
    else
      HexValueAppend(Zeros(width - |digits|), digits);
      Zeros(width - |digits|) + digits
  }

  /** The padded field has exactly `width` digits when `n` fits in them, and
      more than `width` when it does not. */
  lemma FormatHexWidth(n: nat, width: nat)
    requires width >= 1
    ensures n < Pow16(width) <==> |FormatHex(n, width)| == width
  {
    var d := HexDigits(n);
    if n < Pow16(width) {
      if |d| > width {
        Pow16Monotone(width, |d| - 1);
      }
    } else {
      if |d| <= width {
        Pow16Monotone(|d|, width);
      }
    }
  }

  /** A string of `width` upper-case digits whose value is `n` is the
      `{:0wX}` rendering of `n`. */
  lemma FormatHexUnique(n: nat, width: nat, s: string)
    requires width >= 1 && |s| == width && AllUpperHex(s) && HexValue(s) == n
    ensures s == FormatHex(n, width)
  {
    HexValueBound(s);
    FormatHexWidth(n, width);
    HexValueInjective(s, FormatHex(n, width));
  }

  /** `{:02X}` of a byte is its two nibbles, high first. */
  lemma FormatHexByte(b: u8)
    ensures FormatHex(b, 2) == [HexChar(b / 16), HexChar(b % 16)]
  {
    var s := [HexChar(b / 16), HexChar(b % 16)];
    assert s[..1] == [HexChar(b / 16)] && s[..1][..0] == [];
    assert HexValue(s[..1]) == b / 16;
    assert HexValue(s) == HexValue(s[..1]) * 16 + DigitValue(s[1]);
    FormatHexUnique(b, 2, s);
  }

  /** Two digits are read high nibble first. */
  lemma HexValuePair(s: string)
    requires |s| == 2 && AllHex(s)
    ensures HexValue(s) == 16 * DigitValue(s[0]) + DigitValue(s[1])
  {
    assert s[..1][..0] == [];
    assert HexValue(s[..1]) == DigitValue(s[0]);
  }

  /** What `parse_hex_byte` returns: exactly two hex digits of either case
      give their byte value; anything else is `InvalidAddress`. */
  function HexByte(s: string): (r: Result<u8>)
    ensures r.Ok? <==> |s| == 2 && AllHex(s)
    ensures r.Ok? ==> r.value == 16 * DigitValue(s[0]) + DigitValue(s[1])
    ensures r.Err? ==> r.error == InvalidAddress
  {
    if |s| != 2 || !AllHex(s) then
      Err(InvalidAddress)
    else
      HexValueBound(s);
      HexValuePair(s);
      Ok(HexValue(s))
  }

  /** `parse_hex_byte`: a length check, then a loop over the characters that
      folds each digit into a `u8` accumulator, returning on the first
      character outside `0-9A-Fa-f`. */
  method ParseHexByte(s: string) returns (r: Result<u8>)
    ensures r == HexByte(s)
  {
    if |s| != 2 {
      return Err(InvalidAddress);
    }
    var result: u8 := 0;
    for i := 0 to |s|
      invariant AllHex(s[..i])
      invariant result == HexValue(s[..i])
    {
      var ch := s[i];
      var digit: u8;
      if '0' <= ch <= '9' {
        digit := ch as int - '0' as int;
      } else if 'A' <= ch <= 'F' {
        digit := ch as int - 'A' as int + 10;
      } else if 'a' <= ch <= 'f' {
        digit := ch as int - 'a' as int + 10;
      } else {
        return Err(InvalidAddress);
      }
      assert s[..i + 1][..i] == s[..i];
      HexValueBound(s[..i + 1]);
      result := result * 16 + digit;
    }
    assert s[..|s|] == s;
    return Ok(result);
  }
}
