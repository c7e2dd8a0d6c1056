/** The text, bit and byte conversions nested in `run_qrng_and_encryption` (and repeated in
    the script variant), and the character-wise XOR that both encrypts and decrypts. */
module Codec {
  import opened Numerals
  import opened Results

  /** Text whose every code point is below 256: the characters `format(ord(c), '08b')`
      writes in exactly eight digits. */
  predicate IsLatin1(t: string) { forall i :: 0 <= i < |t| ==> t[i] as int < 256 }

  /** `chr(v)` for v < 256. */
  function Chr(v: nat): (c: char)
    requires v < 256
    ensures c as int == v
  {
    v as char
  }

  // ---------------------------------------------------------------- text <-> bits

  /** `text_to_binary`: each character's code point as `format(ord(c), '08b')`, in order. */
  function TextToBinary(t: string): (b: string)
    ensures IsBinary(b)
  {
    if t == [] then ""
    else
      Format08bValue(t[0] as int);
      BinaryConcat(Format08b(t[0] as int), TextToBinary(t[1..]));
      Format08b(t[0] as int) + TextToBinary(t[1..])
  }

  /** `text_to_binary` writes only binary digits, at least eight per character, and exactly
      eight per character exactly when every code point is below 256. */
  lemma {:induction false} TextToBinaryShape(t: string)
    ensures IsBinary(TextToBinary(t))
    ensures |TextToBinary(t)| >= 8 * |t|
    ensures IsLatin1(t) <==> |TextToBinary(t)| == 8 * |t|
  {
    if t != [] {
      Format08bValue(t[0] as int);
      TextToBinaryShape(t[1..]);
      BinaryConcat(Format08b(t[0] as int), TextToBinary(t[1..]));
      if IsLatin1(t) {
        assert IsLatin1(t[1..]) by {
          forall i | 0 <= i < |t[1..]| ensures t[1..][i] as int < 256 {
            assert t[1..][i] == t[i + 1];
          }
        }
      }
    }
  }

  /** `binary_to_text`: `chr(int(chunk, 2))` for each consecutive chunk of eight digits; a
      last chunk shorter than eight digits is decoded as it stands. */
  function BinaryToText(b: string): (t: string)
    requires IsBinary(b)
    ensures |t| == (|b| + 7) / 8 && IsLatin1(t)
    decreases |b|
  {
    if b == [] then ""
    else
      var n := if |b| < 8 then |b| else 8;
      Pow2Monotone(n, 8);
      [Chr(BinValue(b[..n]))] + BinaryToText(b[n..])
  }

  /** Round trip: decoding the encoding gives back any text of code points below 256. */
  lemma {:induction false} DecodeEncode(t: string)
    requires IsLatin1(t)
    ensures IsBinary(TextToBinary(t)) && BinaryToText(TextToBinary(t)) == t
  {
    TextToBinaryShape(t);
    if t != [] {
      var f, rest := Format08b(t[0] as int), TextToBinary(t[1..]);
      Format08bValue(t[0] as int);
      TextToBinaryShape(t[1..]);
      assert IsLatin1(t[1..]) by {
        forall i | 0 <= i < |t[1..]| ensures t[1..][i] as int < 256 {
          assert t[1..][i] == t[i + 1];
        }
      }
      DecodeEncode(t[1..]);
      assert TextToBinary(t) == f + rest;
      assert (f + rest)[..8] == f && (f + rest)[8..] == rest;
      assert t == [t[0]] + t[1..];
    }
  }

  /** Round trip the other way: a bit string of whole octets is re-encoded unchanged. */
  lemma {:induction false} EncodeDecode(b: string)
    requires IsBinary(b) && |b| % 8 == 0
    ensures TextToBinary(BinaryToText(b)) == b
  {
    if b != [] {
      WholeOctets(|b|);
      EncodeFirstOctet(b);
      EncodeDecode(b[8..]);
      assert b == b[..8] + b[8..];
    }
  }

  /** A positive multiple of eight leaves a multiple of eight after removing eight. */
  lemma WholeOctets(n: nat)
    requires n % 8 == 0 && n > 0
    ensures n >= 8 && (n - 8) % 8 == 0
  {
  }

  /** Re-encoding the first decoded character gives back the first octet. */
  lemma EncodeFirstOctet(b: string)
    requires IsBinary(b) && |b| >= 8
    ensures IsBinary(b[8..])
    ensures TextToBinary(BinaryToText(b)) == b[..8] + TextToBinary(BinaryToText(b[8..]))
  {
    var head, tail := b[..8], b[8..];
    var t := BinaryToText(b);
    assert t[0] as int == BinValue(head) && t[1..] == BinaryToText(tail) by {
      assert Pow2(8) == 256;
      assert t == [Chr(BinValue(head))] + BinaryToText(tail);
    }
    assert Format08b(BinValue(head)) == head by {
      OctetFormat(head);
    }
    assert TextToBinary(t) == Format08b(t[0] as int) + TextToBinary(t[1..]);
  }

  /** A bit string whose length is not a multiple of eight is not rejected: its last, short
      chunk becomes one more character, with a code point below 2^(length of the chunk). */
  lemma {:induction false} DecodeShortTail(p: string, q: string)
    requires IsBinary(p) && IsBinary(q)
    requires |p| % 8 == 0 && 0 < |q| < 8
    ensures IsBinary(p + q) && BinValue(q) < 256
    ensures BinaryToText(p + q) == BinaryToText(p) + [Chr(BinValue(q))]
    ensures BinValue(q) < Pow2(|q|)
    decreases |p|
  {
    BinaryConcat(p, q);
    Pow2Monotone(|q|, 8);
    if p == [] {
      assert p + q == q && q[..|q|] == q && q[|q|..] == [];
    } else {
      assert (p + q)[..8] == p[..8];
      assert (p + q)[8..] == p[8..] + q;
      DecodeShortTail(p[8..], q);
    }
  }

  // ---------------------------------------------------------------- XOR

  /** `''.join('1' if a != b else '0' for a, b in zip(x, y))`: zip stops at the shorter
      string, so only the common length is transformed. */
  function Xor(x: string, y: string): (z: string)
    ensures |z| == if |x| <= |y| then |x| else |y|
  {
    seq(if |x| <= |y| then |x| else |y|,
        i requires 0 <= i < |x| && 0 <= i < |y| => if x[i] != y[i] then '1' else '0')
  }

  /** On binary digits the character comparison is bitwise exclusive or. */
  lemma XorIsBitwise(x: string, y: string)
    requires IsBinary(x) && IsBinary(y)
    ensures IsBinary(Xor(x, y))
    ensures forall i :: 0 <= i < |Xor(x, y)| ==>
      BitValue(Xor(x, y)[i]) == (BitValue(x[i]) + BitValue(y[i])) % 2
  {
  }

  /** XOR with the same keystream twice restores the data (when the keystream is at least as
      long), and the ciphertext is as long as the data. */
  lemma XorInvolution(data: string, key: string)
    requires IsBinary(data) && IsBinary(key) && |data| <= |key|
    ensures |Xor(data, key)| == |data| && IsBinary(Xor(data, key))
    ensures Xor(Xor(data, key), key) == data
  {
    var c := Xor(data, key);
    assert forall i :: 0 <= i < |data| ==> Xor(c, key)[i] == data[i] by {
      forall i | 0 <= i < |data| ensures Xor(c, key)[i] == data[i] {
        assert IsBit(data[i]) && IsBit(key[i]);
      }
    }
  }

  // ---------------------------------------------------------------- bytes and hex

  type Byte = b: int | 0 <= b < 256

  /** `int.from_bytes(bs, 'big')` */
  function BytesValue(bs: seq<Byte>): nat
  {
    if bs == [] then 0 else 256 * BytesValue(bs[..|bs| - 1]) + bs[|bs| - 1]
  }

  /** `v.to_bytes(n, 'big')` for a value that fits in n bytes (the only case the pipeline
      reaches: it never raises OverflowError there). */
  function ToBytesBig(v: nat, n: nat): (bs: seq<Byte>)
    requires v < Pow2(8 * n)
    ensures |bs| == n && BytesValue(bs) == v
  {
    if n == 0 then []
    else
      Pow2Add(8 * (n - 1), 8);
      assert Pow2(8) == 256;
      var high := ToBytesBig(v / 256, n - 1);
      assert (high + [v % 256])[..n - 1] == high;
      high + [v % 256]
  }

  /** `binary_to_bytes`: `int(s, 2).to_bytes((len(s) + 7) // 8, 'big')`. The empty string
      raises ValueError in `int`; otherwise the bytes hold the value of the whole string,
      so a length that is not a multiple of eight is padded with zeros on the left. */
  function BinaryToBytes(s: string): (r: Result<seq<Byte>>)
    requires IsBinary(s)
    ensures r.Failure? <==> s == ""
    ensures r.Failure? ==> r.error == ValueError
    ensures r.Success? ==> |r.value| == (|s| + 7) / 8 && BytesValue(r.value) == BinValue(s)
  {
    if s == "" then Failure(ValueError)
    else
      var n := (|s| + 7) / 8;
      Pow2Monotone(|s|, 8 * n);
      Success(ToBytesBig(BinValue(s), n))
  }

  /** Padding on the left to whole octets changes nothing: the zeros of a short string are
      the leading bits of the first byte. */
  lemma BytesPadLeft(s: string)
    requires IsBinary(s)
    ensures IsBinary(ZFill(s, 8 * ((|s| + 7) / 8)))
    ensures |ZFill(s, 8 * ((|s| + 7) / 8))| % 8 == 0
    ensures BinaryToBytes(ZFill(s, 8 * ((|s| + 7) / 8))) == BinaryToBytes(s)
  {
    var n := (|s| + 7) / 8;
    var padded := ZFill(s, 8 * n);
    ZFillValue(s, 8 * n);
    assert |padded| == 8 * n;
    assert (|padded| + 7) / 8 == n;
  }

  /** For n whole octets, byte k is the value of digits 8k .. 8k+8, most significant bit
      first. */
  lemma {:induction false} BytesAreOctets(s: string, n: nat, k: nat)
    requires IsBinary(s) && |s| == 8 * n && k < n
    ensures IsBinary(s[8 * k..8 * k + 8]) && BinaryToBytes(s).Success?
    ensures BinaryToBytes(s).value[k] == BinValue(s[8 * k..8 * k + 8])
    decreases n
  {
    if k == n - 1 {
      OctetAtEnd(s, n);
    } else {
      assert IsBinary(s[..8 * (n - 1)]);
      BytesAreOctets(s[..8 * (n - 1)], n - 1, k);
      OctetBeforeEnd(s, n, k);
    }
  }

  lemma OctetAtEnd(s: string, n: nat)
    requires IsBinary(s) && |s| == 8 * n && n >= 1
    ensures IsBinary(s[8 * (n - 1)..8 * n]) && BinaryToBytes(s).Success?
    ensures BinaryToBytes(s).value[n - 1] == BinValue(s[8 * (n - 1)..8 * n])
  {
    LastOctet(s, n);
    assert s[8 * (n - 1)..8 * n] == s[8 * (n - 1)..];
    if n == 1 {
      assert s[8 * (n - 1)..] == s;
    }
  }

  lemma OctetBeforeEnd(s: string, n: nat, k: nat)
    requires IsBinary(s) && |s| == 8 * n && k + 1 < n
    requires IsBinary(s[..8 * (n - 1)]) && BinaryToBytes(s[..8 * (n - 1)]).Success?
    requires BinaryToBytes(s[..8 * (n - 1)]).value[k] == BinValue(s[..8 * (n - 1)][8 * k..8 * k + 8])
    ensures IsBinary(s[8 * k..8 * k + 8]) && BinaryToBytes(s).Success?
    ensures BinaryToBytes(s).value[k] == BinValue(s[8 * k..8 * k + 8])
  {
    LastOctet(s, n);
    assert s[..8 * (n - 1)][8 * k..8 * k + 8] == s[8 * k..8 * k + 8];
  }

  /** The last eight digits of n whole octets form its last byte. */
  lemma LastOctet(s: string, n: nat)
    requires IsBinary(s) && |s| == 8 * n && n >= 1
    ensures IsBinary(s[..8 * (n - 1)]) && IsBinary(s[8 * (n - 1)..])
    ensures BinaryToBytes(s).Success?
    ensures n > 1 ==>
              BinaryToBytes(s[..8 * (n - 1)]).Success? &&
              BinaryToBytes(s).value == BinaryToBytes(s[..8 * (n - 1)]).value + [BinValue(s[8 * (n - 1)..])]
    ensures n == 1 ==> BinaryToBytes(s).value == [BinValue(s)]
  {
    var p, q := s[..8 * (n - 1)], s[8 * (n - 1)..];
    var v := BinValue(s);
    OctetSplit(s, n);
    DivModByte(v, BinValue(p), BinValue(q));
    WholeBytes(s, n);
    ToBytesBigStep(v, n);
    if n == 1 {
      assert q == s;
    } else {
      WholeBytes(p, n - 1);
    }
  }

  /** The value of n octets is the value of the first n - 1 shifted by a byte, plus the last. */
  lemma OctetSplit(s: string, n: nat)
    requires IsBinary(s) && |s| == 8 * n && n >= 1
    ensures IsBinary(s[..8 * (n - 1)]) && IsBinary(s[8 * (n - 1)..])
    ensures BinValue(s[8 * (n - 1)..]) < 256
    ensures BinValue(s) == BinValue(s[..8 * (n - 1)]) * 256 + BinValue(s[8 * (n - 1)..])
  {
    var p, q := s[..8 * (n - 1)], s[8 * (n - 1)..];
    assert s == p + q;
    BinValueAppend(p, q);
    assert Pow2(8) == 256;
  }

  /** n whole octets pack into exactly n bytes. */
  lemma WholeBytes(s: string, n: nat)
    requires IsBinary(s) && |s| == 8 * n && n >= 1
    ensures BinValue(s) < Pow2(8 * n)
    ensures BinaryToBytes(s) == Success(ToBytesBig(BinValue(s), n))
  {
    assert (|s| + 7) / 8 == n;
  }

  /** The last byte of `v.to_bytes(n, 'big')` is v % 256 and the others are those of v / 256. */
  lemma ToBytesBigStep(v: nat, n: nat)
    requires n >= 1 && v < Pow2(8 * n)
    ensures v / 256 < Pow2(8 * (n - 1))
    ensures ToBytesBig(v, n) == ToBytesBig(v / 256, n - 1) + [v % 256]
  {
    Pow2Add(8 * (n - 1), 8);
    assert Pow2(8) == 256;
  }

  lemma DivModByte(v: nat, high: nat, low: nat)
    requires low < 256 && v == high * 256 + low
    ensures v / 256 == high && v % 256 == low
  {
  }

  /** `bytes.hex()`: two lower-case hexadecimal digits per byte. */
  function BytesToHex(bs: seq<Byte>): (h: string)
    ensures |h| == 2 * |bs| && IsHex(h)
  {
    if bs == [] then ""
    else
      var b := bs[|bs| - 1];
      BytesToHex(bs[..|bs| - 1]) + [HexDigit(b / 16), HexDigit(b % 16)]
  }

  /** The hex rendering reads back (`int(h, 16)`) as the big-endian value of the bytes. */
  lemma {:induction false} BytesToHexValue(bs: seq<Byte>)
    ensures HexValue(BytesToHex(bs)) == BytesValue(bs)
  {
    if bs != [] {
      var b, p := bs[|bs| - 1], bs[..|bs| - 1];
      var h := BytesToHex(p);
      var hi, lo := HexDigit(b / 16), HexDigit(b % 16);
      BytesToHexValue(p);
      assert BytesToHex(bs) == h + [hi, lo];
      assert (h + [hi, lo])[..|h| + 1] == h + [hi];
      assert (h + [hi])[..|h|] == h;
      var x, y := HexValue(h), HexValue(h + [hi]);
      assert y == 16 * x + b / 16;
      assert HexValue(h + [hi, lo]) == 16 * y + b % 16;
      ByteDigits(x, y, b);
    }
  }

  lemma ByteDigits(x: nat, y: nat, b: Byte)
    requires y == 16 * x + b / 16
    ensures 16 * y + b % 16 == 256 * x + b
  {
  }
}
