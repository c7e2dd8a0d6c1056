/** The Python integer/string builtins the pipeline leans on: `int(s, 2)`, `int(s, 16)`,
    `bin(n)[2:]`, `format(n, '08b')` and `str.zfill`, over unbounded integers. */
module Numerals {

  /** 2^k */
  function Pow2(k: nat): (r: nat)
    ensures r >= 1
  {
    if k == 0 then 1 else 2 * Pow2(k - 1)
  }

  lemma {:induction false} Pow2Add(a: nat, b: nat)
    ensures Pow2(a + b) == Pow2(a) * Pow2(b)
  {
    if a > 0 {
      Pow2Add(a - 1, b);
      assert Pow2(a + b) == 2 * Pow2(a - 1 + b);
      assert 2 * (Pow2(a - 1) * Pow2(b)) == (2 * Pow2(a - 1)) * Pow2(b);
    }
  }

  lemma {:induction false} Pow2Monotone(a: nat, b: nat)
    requires a <= b
    ensures Pow2(a) <= Pow2(b)
  {
    if a < b {
      Pow2Monotone(a, b - 1);
    }
  }

  // ---------------------------------------------------------------- binary digits

  predicate IsBit(c: char) { c == '0' || c == '1' }

  /** A string made only of the digits '0' and '1'. */
  predicate IsBinary(s: string) { forall i :: 0 <= i < |s| ==> IsBit(s[i]) }

  function BitValue(c: char): nat { if c == '1' then 1 else 0 }

  function Digit(b: nat): (c: char)
    requires b < 2
    ensures IsBit(c) && BitValue(c) == b
  {
    if b == 1 then '1' else '0'
  }

  /** `int(s, 2)`: the big-endian value of a binary numeral (0 for the empty string,
      which Python rejects; callers check for that case themselves). */
  function BinValue(s: string): (v: nat)
    requires IsBinary(s)
    ensures v < Pow2(|s|)
  {
    if s == [] then 0 else 2 * BinValue(s[..|s| - 1]) + BitValue(s[|s| - 1])
  }

  lemma BinaryConcat(p: string, q: string)
    requires IsBinary(p) && IsBinary(q)
    ensures IsBinary(p + q)
  {
    forall i | 0 <= i < |p + q| ensures IsBit((p + q)[i]) {
      if i < |p| { assert (p + q)[i] == p[i]; } else { assert (p + q)[i] == q[i - |p|]; }
    }
  }

  /** Splitting a numeral: the high part is shifted by the width of the low part. */
  lemma {:induction false} BinValueAppend(p: string, q: string)
    requires IsBinary(p) && IsBinary(q)
    ensures IsBinary(p + q)
    ensures BinValue(p + q) == BinValue(p) * Pow2(|q|) + BinValue(q)
  {
    BinaryConcat(p, q);
    if q == [] {
      assert p + q == p;
    } else {
      var q' := q[..|q| - 1];
      var d := BitValue(q[|q| - 1]);
      BinaryConcat(p, q');
      BinValueAppend(p, q');
      var a, w, b := BinValue(p), Pow2(|q'|), BinValue(q');
      assert BinValue(p + q) == 2 * BinValue(p + q') + d by {
        assert (p + q)[..|p + q| - 1] == p + q';
        assert (p + q)[|p + q| - 1] == q[|q| - 1];
      }
      ShiftStep(a, w, b, d);
    }
  }

  lemma ShiftStep(a: int, w: int, b: int, d: int)
    ensures 2 * (a * w + b) + d == a * (2 * w) + (2 * b + d)
  {
  }

  /** Two binary numerals of the same width with the same value are the same string. */
  lemma {:induction false} BinaryUnique(a: string, b: string)
    requires IsBinary(a) && IsBinary(b) && |a| == |b|
    requires BinValue(a) == BinValue(b)
    ensures a == b
  {
    if a != [] {
      var n := |a| - 1;
      assert BitValue(a[n]) == BinValue(a) % 2 && BinValue(a[..n]) == BinValue(a) / 2;
      assert BitValue(b[n]) == BinValue(b) % 2 && BinValue(b[..n]) == BinValue(b) / 2;
      BinaryUnique(a[..n], b[..n]);
      assert a == a[..n] + [a[n]] && b == b[..n] + [b[n]];
    }
  }

  /** `c * n`: the character c repeated n times (`'0' * k` pads numerals). */
  function Repeat(c: char, n: nat): (r: string)
    ensures |r| == n && forall i :: 0 <= i < n ==> r[i] == c
  {
    seq(n, _ => c)
  }

  lemma {:induction false} ZerosValue(k: nat)
    ensures BinValue(Repeat('0', k)) == 0
  {
    if k > 0 {
      assert Repeat('0', k)[..k - 1] == Repeat('0', k - 1);
      ZerosValue(k - 1);
    }
  }

  /** `bin(n)[2:]`, also `format(n, 'b')`: the binary numeral of n without leading zeros
      ("0" for zero). */
  function Binary(n: nat): (s: string)
    ensures IsBinary(s) && BinValue(s) == n
    ensures |s| >= 1 && (n > 0 ==> s[0] == '1')
    decreases n
  {
    if n < 2 then [Digit(n)]
    else
      var high := Binary(n / 2);
      assert (high + [Digit(n % 2)])[..|high|] == high;
      high + [Digit(n % 2)]
  }

  /** `bin(n)[2:]` fits in w digits exactly when n < 2^w. */
  lemma {:induction false} BinaryLength(n: nat, w: nat)
    requires w >= 1
    ensures |Binary(n)| <= w <==> n < Pow2(w)
  {
    if n < Pow2(w) {
      if n >= 2 {
        BinaryLength(n / 2, w - 1);
      }
    } else if |Binary(n)| <= w {
      Pow2Monotone(|Binary(n)|, w);
    }
  }

  /** `s.zfill(w)` for a string without a sign: left-pad with '0' to width w. */
  function ZFill(s: string, w: nat): (r: string)
    ensures |r| == if |s| < w then w else |s|
  {
    if |s| < w then Repeat('0', w - |s|) + s else s
  }

  /** Zero padding keeps a numeral binary and keeps its value. */
  lemma ZFillValue(s: string, w: nat)
    requires IsBinary(s)
    ensures IsBinary(ZFill(s, w)) && BinValue(ZFill(s, w)) == BinValue(s)
  {
    if |s| < w {
      BinValueAppend(Repeat('0', w - |s|), s);
      ZerosValue(w - |s|);
    }
  }

  /** `format(n, '08b')`: at least eight binary digits, zero-padded on the left. */
  function Format08b(n: nat): string
  {
    ZFill(Binary(n), 8)
  }

  /** `format(n, '08b')` is a binary numeral of n, exactly eight digits below 256, so it is
      injective and `int(format(n, '08b'), 2) == n`. */
  lemma Format08bValue(n: nat)
    ensures IsBinary(Format08b(n)) && BinValue(Format08b(n)) == n
    ensures |Format08b(n)| >= 8
    ensures n < 256 <==> |Format08b(n)| == 8
  {
    ZFillValue(Binary(n), 8);
    assert Pow2(8) == 256;
    BinaryLength(n, 8);
  }

  /** Every eight-digit binary numeral is `format(n, '08b')` of its own value. */
  lemma OctetFormat(s: string)
    requires IsBinary(s) && |s| == 8
    ensures Format08b(BinValue(s)) == s
  {
    assert Pow2(8) == 256;
    Format08bValue(BinValue(s));
    BinaryUnique(Format08b(BinValue(s)), s);
  }

  // ---------------------------------------------------------------- hexadecimal

  /** A lower-case hexadecimal digit, as `hexdigest()` and `bytes.hex()` produce. */
  predicate IsHexDigit(c: char) { '0' <= c <= '9' || 'a' <= c <= 'f' }

  predicate IsHex(s: string) { forall i :: 0 <= i < |s| ==> IsHexDigit(s[i]) }

  function HexDigitValue(c: char): (v: nat)
    requires IsHexDigit(c)
    ensures v < 16
  {
    if '0' <= c <= '9' then (c as int - '0' as int) else (c as int - 'a' as int) + 10
  }

  function HexDigit(v: nat): (c: char)
    requires v < 16
    ensures IsHexDigit(c) && HexDigitValue(c) == v
  {
    if v < 10 then ('0' as int + v) as char else ('a' as int + v - 10) as char
  }

  /** `int(s, 16)` on lower-case digits (0 for the empty string, which Python rejects;
      callers check for that case themselves). */
  function HexValue(s: string): nat
    requires IsHex(s)
  {
    if s == [] then 0 else 16 * HexValue(s[..|s| - 1]) + HexDigitValue(s[|s| - 1])
  }

  /** The four binary digits of one hexadecimal digit. */
  function Nibble(c: char): string
    requires IsHexDigit(c)
  {
    ZFill(Binary(HexDigitValue(c)), 4)
  }

  lemma NibbleValue(c: char)
    requires IsHexDigit(c)
    ensures |Nibble(c)| == 4 && IsBinary(Nibble(c)) && BinValue(Nibble(c)) == HexDigitValue(c)
  {
    assert Pow2(4) == 16;
    BinaryLength(HexDigitValue(c), 4);
    ZFillValue(Binary(HexDigitValue(c)), 4);
  }

  /** Each hexadecimal digit written out as four binary digits, in order. */
  function HexBits(s: string): string
    requires IsHex(s)
  {
    if s == [] then "" else HexBits(s[..|s| - 1]) + Nibble(s[|s| - 1])
  }

  /** The nibble expansion of a hexadecimal numeral is a binary numeral of the same value,
      four digits per hexadecimal digit. */
  lemma {:induction false} HexBitsValue(s: string)
    requires IsHex(s)
    ensures |HexBits(s)| == 4 * |s| && IsBinary(HexBits(s))
    ensures BinValue(HexBits(s)) == HexValue(s)
  {
    if s != [] {
      var p, c := s[..|s| - 1], s[|s| - 1];
      HexBitsValue(p);
      NibbleValue(c);
      BinValueAppend(HexBits(p), Nibble(c));
      assert Pow2(4) == 16;
      assert HexBits(s) == HexBits(p) + Nibble(c);
      var h := BinValue(HexBits(p));
      assert h == HexValue(p);
      assert BinValue(HexBits(s)) == h * Pow2(4) + HexDigitValue(c);
      assert h * Pow2(4) == 16 * h;
    }
  }

  /** `int(s, 16)` is below 2^(4 |s|). */
  lemma HexValueBound(s: string)
    requires IsHex(s)
    ensures HexValue(s) < Pow2(4 * |s|)
  {
    HexBitsValue(s);
  }

  /** Digit i of the nibble expansion is bit i % 4 of hexadecimal digit i / 4. */
  lemma {:induction false} HexBitsAt(s: string, i: nat)
    requires IsHex(s) && i < 4 * |s|
    ensures |HexBits(s)| == 4 * |s| && |Nibble(s[i / 4])| == 4
    ensures HexBits(s)[i] == Nibble(s[i / 4])[i % 4]
  {
    HexBitsValue(s);
    NibbleValue(s[i / 4]);
    var p := s[..|s| - 1];
    HexBitsValue(p);
    if i < 4 * |p| {
      HexBitsAt(p, i);
    } else {
      assert i / 4 == |p|;
    }
  }

  /** `bin(int(s, 16))[2:].zfill(4 |s|)` is exactly the nibble expansion of s. */
  lemma HexToPaddedBinary(s: string)
    requires IsHex(s) && |s| >= 1
    ensures ZFill(Binary(HexValue(s)), 4 * |s|) == HexBits(s)
  {
    HexValueBound(s);
    BinaryLength(HexValue(s), 4 * |s|);
    ZFillValue(Binary(HexValue(s)), 4 * |s|);
    HexBitsValue(s);
    BinaryUnique(ZFill(Binary(HexValue(s)), 4 * |s|), HexBits(s));
  }
}
