/** Key streams derived from a SHA-256 digest of the random bits: the web application's
    (`app.py`), which tiles the digest's 256 bits, and the command-line script's
    (`main3.py`), which tiles the digest's hexadecimal text and trims it by a bit count. */
module KeyStream {
  import opened Numerals
  import opened Results

  /** `hashlib.sha256(...).hexdigest()`: 64 lower-case hexadecimal digits. */
  type HexDigest = s: string | |s| == 64 && IsHex(s)
    witness Repeat('0', 64)

  function Min(a: nat, b: nat): nat { if a <= b then a else b }
  function Max(a: nat, b: nat): nat { if a <= b then b else a }

  /** The first n characters of block, block, block, ... */
  function Tiled(block: string, n: nat): (r: string)
    requires |block| > 0
    ensures |r| == n
  {
    seq(n, i requires 0 <= i < n => block[i % |block|])
  }

  /** A whole number of blocks followed by one more block is still a tiling, for the two
      block sizes of the source: 64 hexadecimal digits and 256 bits. */
  lemma TiledAppend(block: string, n: nat)
    requires |block| == 64 || |block| == 256
    requires n % |block| == 0
    ensures Tiled(block, n) + block == Tiled(block, n + |block|)
  {
    var w := |block|;
    var t := Tiled(block, n + w);
    forall i | n <= i < n + w ensures t[i] == block[i - n] {
      BlockOffset(i, n, w);
    }
    assert t[..n] == Tiled(block, n);
  }

  lemma BlockOffset(i: nat, n: nat, w: nat)
    requires w == 64 || w == 256
    requires n % w == 0 && n <= i < n + w
    ensures i % w == i - n
  {
    var r := i - n;
    if w == 64 {
      var q := n / 64;
      assert i == 64 * q + r;
      assert i / 64 == q;
    } else {
      var q := n / 256;
      assert i == 256 * q + r;
      assert i / 256 == q;
    }
  }

  // ---------------------------------------------------------------- app.py

  /** `bin(int(superkey, 16))[2:].zfill(256)`: the 256 bits of the digest, leading zeros
      kept, and as a numeral worth the digest's value. */
  function KeyBlock(superkey: HexDigest): (block: string)
    ensures |block| == 256 && IsBinary(block)
    ensures BinValue(block) == HexValue(superkey)
  {
    HexValueBound(superkey);
    BinaryLength(HexValue(superkey), 256);
    ZFillValue(Binary(HexValue(superkey)), 256);
    ZFill(Binary(HexValue(superkey)), 256)
  }

  /** The key block is the digest written out four bits per hexadecimal digit. */
  lemma KeyBlockIsNibbles(superkey: HexDigest)
    ensures KeyBlock(superkey) == HexBits(superkey)
  {
    HexToPaddedBinary(superkey);
  }

  /** The key stream of the web application: append the 256-bit block until the stream is as
      long as the text, then cut it to the text's length. */
  method FullKeyStream(superkey: HexDigest, n: nat) returns (ks: string)
    ensures ks == Tiled(KeyBlock(superkey), n)
  {
    var block := KeyBlock(superkey);
    var full := "";
    while |full| < n
      invariant |full| % 256 == 0 && |full| < n + 256
      invariant full == Tiled(block, |full|)
      decreases n - |full|
    {
      TiledAppend(block, |full|);
      full := full + block;
    }
    ks := full[..n];
  }

  /** Bit i of the web application's key stream is bit i % 4 of hexadecimal digit
      (i % 256) / 4 of the digest: the stream repeats the digest every 256 bits. */
  lemma {:induction false} FullKeyStreamBits(superkey: HexDigest, n: nat, i: nat)
    requires i < n
    ensures |Nibble(superkey[(i % 256) / 4])| == 4
    ensures Tiled(KeyBlock(superkey), n)[i] == Nibble(superkey[(i % 256) / 4])[i % 4]
  {
    var j := i % 256;
    var block := KeyBlock(superkey);
    assert Tiled(block, n)[i] == block[j];
    KeyBlockIsNibbles(superkey);
    HexBitsAt(superkey, j);
    QuarterPeriod(i);
  }

  /** The web application's key stream is binary and as long as the text. */
  lemma FullKeyStreamShape(superkey: HexDigest, n: nat)
    ensures |Tiled(KeyBlock(superkey), n)| == n && IsBinary(Tiled(KeyBlock(superkey), n))
  {
  }

  // ---------------------------------------------------------------- main3.py

  /** The number of hexadecimal digits the script keeps for a text of bitLength bits:
      64 per started block of 256 bits, cut to bitLength. */
  function ScriptHexLength(bitLength: nat): (n: nat)
    ensures n <= bitLength && bitLength <= 4 * n
  {
    Min(bitLength, 64 * ((bitLength + 255) / 256))
  }

  /** The hexadecimal key stream the script builds for a text of bitLength bits: digit j is
      digit j % 64 of the digest, and it is empty exactly for an empty text. */
  function ScriptHexStream(superkey: HexDigest, bitLength: nat): (s: string)
    ensures IsHex(s) && |s| == ScriptHexLength(bitLength)
    ensures |s| == 0 <==> bitLength == 0
    ensures forall j :: 0 <= j < |s| ==> s[j] == superkey[j % 64]
  {
    TiledHex(superkey, ScriptHexLength(bitLength));
    Tiled(superkey, ScriptHexLength(bitLength))
  }

  /** The script's key stream before conversion: for every 256 bits of text (rounded up) it
      appends the 64 hexadecimal digits of the digest, then keeps the first `bitLength`
      characters, a count of bits applied to a string of hexadecimal digits. */
  method ScriptHexKeyStream(superkey: HexDigest, bitLength: nat) returns (ks: string)
    ensures ks == ScriptHexStream(superkey, bitLength)
  {
    var keyStream := "";
    var i := 0;
    while i < bitLength
      invariant i % 256 == 0 && i <= bitLength + 255
      invariant keyStream == Tiled(superkey, 64 * (i / 256))
      decreases bitLength - i
    {
      assert superkey[..64] == superkey;
      TiledAppend(superkey, 64 * (i / 256));
      keyStream := keyStream + superkey[..64];
      i := i + 256;
    }
    assert i / 256 == (bitLength + 255) / 256;
    ks := keyStream[..Min(bitLength, |keyStream|)];
  }

  /** `bin(int(key_stream, 16))[2:].zfill(bitLength)`: `int('', 16)` raises ValueError. */
  function ScriptKeyBits(hexStream: string, bitLength: nat): (r: Result<string>)
    requires IsHex(hexStream)
    ensures r.Failure? <==> hexStream == ""
    ensures r.Failure? ==> r.error == ValueError
    ensures r.Success? ==> IsBinary(r.value)
    ensures r.Success? ==> |r.value| == Max(bitLength, |Binary(HexValue(hexStream))|)
    ensures r.Success? ==> BinValue(r.value) == HexValue(hexStream)
  {
    if hexStream == [] then Failure(ValueError)
    else
      ZFillValue(Binary(HexValue(hexStream)), bitLength);
      Success(ZFill(Binary(HexValue(hexStream)), bitLength))
  }

  /** When the text is a whole number of 256-bit blocks, the script keeps exactly a quarter
      of bitLength digits, and its key stream is the web application's. */
  lemma ScriptKeyStreamAgrees(superkey: HexDigest, bitLength: nat)
    requires bitLength > 0 && bitLength % 256 == 0
    ensures ScriptHexLength(bitLength) == bitLength / 4
    ensures ScriptKeyBits(ScriptHexStream(superkey, bitLength), bitLength)
      == Success(Tiled(KeyBlock(superkey), bitLength))
  {
    var k := bitLength / 256;
    assert bitLength == 256 * k && (bitLength + 255) / 256 == k;
    assert ScriptHexLength(bitLength) == 64 * k;
    assert ScriptHexStream(superkey, bitLength) == Tiled(superkey, 64 * k);
    WholeBlocksAgree(superkey, k);
  }

  lemma WholeBlocksAgree(superkey: HexDigest, k: nat)
    requires k > 0
    ensures IsHex(Tiled(superkey, 64 * k))
    ensures ScriptKeyBits(Tiled(superkey, 64 * k), 256 * k) == Success(Tiled(KeyBlock(superkey), 256 * k))
  {
    var hex := Tiled(superkey, 64 * k);
    TiledHex(superkey, 64 * k);
    HexToPaddedBinary(hex);
    TiledNibbles(superkey, k);
  }

  lemma TiledHex(superkey: HexDigest, n: nat)
    ensures IsHex(Tiled(superkey, n))
  {
    var t := Tiled(superkey, n);
    forall i | 0 <= i < n ensures IsHexDigit(t[i]) {
      assert t[i] == superkey[i % 64];
    }
  }

  /** Expanding k tiles of the digest into nibbles gives k tiles of the key block. */
  lemma TiledNibbles(superkey: HexDigest, k: nat)
    ensures IsHex(Tiled(superkey, 64 * k))
    ensures HexBits(Tiled(superkey, 64 * k)) == Tiled(KeyBlock(superkey), 256 * k)
  {
    var hex := Tiled(superkey, 64 * k);
    TiledHex(superkey, 64 * k);
    HexBitsValue(hex);
    var bits, stream := HexBits(hex), Tiled(KeyBlock(superkey), 256 * k);
    forall i | 0 <= i < 256 * k ensures bits[i] == stream[i] {
      NibblesAt(superkey, k, i);
    }
  }

  lemma NibblesAt(superkey: HexDigest, k: nat, i: nat)
    requires i < 256 * k
    ensures IsHex(Tiled(superkey, 64 * k)) && |HexBits(Tiled(superkey, 64 * k))| == 256 * k
    ensures HexBits(Tiled(superkey, 64 * k))[i] == Tiled(KeyBlock(superkey), 256 * k)[i]
  {
    var hex := Tiled(superkey, 64 * k);
    TiledHex(superkey, 64 * k);
    HexBitsAt(hex, i);
    QuarterPeriod(i);
    assert hex[i / 4] == superkey[(i % 256) / 4];
    FullKeyStreamBits(superkey, 256 * k, i);
  }

  /** Digit i / 4 of the hexadecimal tiling is digit (i % 256) / 4 of the digest. */
  lemma QuarterPeriod(i: nat)
    ensures (i / 4) % 64 == (i % 256) / 4 && (i % 256) % 4 == i % 4
  {
  }

  /** The quirk shows on short texts: for one character the script keeps 8 hexadecimal
      digits (32 bits) and `bin` drops their leading zeros, so for a digest that starts
      "00000001" the script's key bits are "00000001" where the web application's are
      "00000000". */
  lemma ScriptKeyStreamShortText()
    ensures IsHex(LowDigest()) && |LowDigest()| == 64
    ensures var superkey: HexDigest := LowDigest();
      ScriptHexLength(8) == 8 &&
      ScriptKeyBits(ScriptHexStream(superkey, 8), 8) == Success("00000001") &&
      Tiled(KeyBlock(superkey), 8) == "00000000"
  {
    LowDigestDigits();
    var superkey: HexDigest := LowDigest();
    LowDigestScriptBits(superkey);
    LowDigestAppBits(superkey);
  }

  /** The digest "00000001" followed by 56 zeros. */
  function LowDigest(): string
  {
    Repeat('0', 7) + "1" + Repeat('0', 56)
  }

  lemma LowDigestDigits()
    ensures |LowDigest()| == 64 && IsHex(LowDigest())
    ensures forall i :: 0 <= i < 64 ==> LowDigest()[i] == (if i == 7 then '1' else '0')
  {
  }

  lemma LowDigestScriptBits(superkey: HexDigest)
    requires superkey == LowDigest()
    ensures ScriptKeyBits(ScriptHexStream(superkey, 8), 8) == Success("00000001")
  {
    LowDigestDigits();
    var hex := ScriptHexStream(superkey, 8);
    assert hex == Repeat('0', 7) + "1";
    assert HexValue(hex) == 1 by {
      assert hex[..7] == Repeat('0', 7);
      HexZeros(7);
    }
    assert Binary(1) == "1";
    assert ZFill("1", 8) == "00000001";
  }

  lemma LowDigestAppBits(superkey: HexDigest)
    requires superkey == LowDigest()
    ensures Tiled(KeyBlock(superkey), 8) == "00000000"
  {
    var t := Tiled(KeyBlock(superkey), 8);
    assert t == Repeat('0', 8) by {
      LowDigestDigits();
      forall i | 0 <= i < 8 ensures t[i] == '0' {
        ZeroDigitBit(superkey, i);
      }
    }
    assert Repeat('0', 8) == "00000000";
  }

  /** A '0' digit of the digest gives four '0' bits of the web application's key stream. */
  lemma ZeroDigitBit(superkey: HexDigest, i: nat)
    requires i < 8 && superkey[i / 4] == '0'
    ensures Tiled(KeyBlock(superkey), 8)[i] == '0'
  {
    NibbleZero();
    assert i % 256 == i;
    FullKeyStreamBits(superkey, 8, i);
  }

  lemma NibbleZero()
    ensures Nibble('0') == "0000"
  {
    assert Binary(0) == "0";
  }

  lemma {:induction false} HexZeros(k: nat)
    ensures IsHex(Repeat('0', k)) && HexValue(Repeat('0', k)) == 0
  {
    if k > 0 {
      assert Repeat('0', k)[..k - 1] == Repeat('0', k - 1);
      HexZeros(k - 1);
    }
  }
}
