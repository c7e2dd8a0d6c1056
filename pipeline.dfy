/** The two end-to-end flows: `run_qrng_and_encryption` of the web application after the
    simulator has returned the last run's counts, and the encryption demo of the
    command-line script after it has saved the outcomes, one per line. */
module Pipeline {
  import opened Numerals
  import opened Results
  import opened Codec
  import opened Statistics
  import opened KeyStream

  // ---------------------------------------------------------------- shared cipher facts

  /** The text's bits XORed with a key stream at least as long: as many bits as the text. */
  function CipherBits(text: string, keyStream: string): (c: string)
    requires IsBinary(keyStream) && |keyStream| >= |TextToBinary(text)|
    ensures IsBinary(c) && |c| == |TextToBinary(text)|
  {
    TextToBinaryShape(text);
    XorInvolution(TextToBinary(text), keyStream);
    Xor(TextToBinary(text), keyStream)
  }

  /** Decrypting with the same key stream gives back the text's bits, and the decoded text
      is the original exactly when every code point is below 256. */
  lemma DecryptRestores(text: string, keyStream: string)
    requires IsBinary(keyStream) && |keyStream| >= |TextToBinary(text)|
    ensures Xor(CipherBits(text, keyStream), keyStream) == TextToBinary(text)
    ensures IsBinary(TextToBinary(text))
    ensures BinaryToText(TextToBinary(text)) == text <==> IsLatin1(text)
  {
    TextToBinaryShape(text);
    XorInvolution(TextToBinary(text), keyStream);
    if IsLatin1(text) {
      DecodeEncode(text);
    } else {
      assert |BinaryToText(TextToBinary(text))| != |text|;
    }
  }

  /** A Latin-1 text and its ciphertext decode to the same number of characters. */
  lemma CipherTextLength(text: string, keyStream: string)
    requires IsBinary(keyStream) && |keyStream| >= |TextToBinary(text)|
    requires IsLatin1(text)
    ensures |BinaryToText(CipherBits(text, keyStream))| == |text|
  {
    TextToBinaryShape(text);
  }

  // ---------------------------------------------------------------- app.py

  /** The web application's ciphertext bits: the text's bits XORed with the superkey's 256
      bits tiled over them. */
  function AppCipher(sampleText: string, superkey: HexDigest): (c: string)
    ensures IsBinary(c) && |c| == |TextToBinary(sampleText)|
  {
    FullKeyStreamShape(superkey, |TextToBinary(sampleText)|);
    CipherBits(sampleText, Tiled(KeyBlock(superkey), |TextToBinary(sampleText)|))
  }

  /** What the encryption demo of `run_qrng_and_encryption` yields: the two decoded texts and
      the hexadecimal ciphertext it prints. */
  datatype CipherDemo = CipherDemo(encryptedText: string, decryptedText: string, encryptedHex: string)

  /** The encryption demo: tile the superkey's 256 bits over the text, XOR to encrypt and
      again to decrypt, decode both, and pack the ciphertext into bytes and hex. For an empty
      text `int('', 2)` raises ValueError. */
  method EncryptDemo(sampleText: string, superkey: HexDigest) returns (r: Result<CipherDemo>)
    ensures r.Failure? <==> sampleText == ""
    ensures r.Failure? ==> r.error == ValueError
    ensures r.Success? ==>
      var cipher := AppCipher(sampleText, superkey);
      && r.value.encryptedText == BinaryToText(cipher)
      && r.value.decryptedText == BinaryToText(TextToBinary(sampleText))
      && (IsLatin1(sampleText) <==> r.value.decryptedText == sampleText)
      && |r.value.encryptedHex| == 2 * ((|cipher| + 7) / 8)
      && IsHex(r.value.encryptedHex) && HexValue(r.value.encryptedHex) == BinValue(cipher)
  {
    var binaryText := TextToBinary(sampleText);
    var fullKeyStream := FullKeyStream(superkey, |binaryText|);
    FullKeyStreamShape(superkey, |binaryText|);
    var encryptedBinary := Xor(binaryText, fullKeyStream);
    assert encryptedBinary == AppCipher(sampleText, superkey);
    var decryptedBinary := Xor(encryptedBinary, fullKeyStream);
    var encryptedText := BinaryToText(encryptedBinary);
    var decryptedText := BinaryToText(decryptedBinary);
    assert decryptedText == BinaryToText(binaryText) && (IsLatin1(sampleText) <==> decryptedText == sampleText) by {
      DecryptRestores(sampleText, fullKeyStream);
    }
    assert sampleText == "" <==> encryptedBinary == "" by {
      TextToBinaryShape(sampleText);
    }
    var encryptedHex := CipherHex(encryptedBinary);
    if encryptedHex.Failure? {
      return Failure(encryptedHex.error);
    }
    return Success(CipherDemo(encryptedText, decryptedText, encryptedHex.value));
  }

  /** `binary_to_bytes(bits).hex()`: two hexadecimal digits per started octet, reading back
      as the value of the bits; `int('', 2)` raises ValueError for no bits. */
  method CipherHex(bits: string) returns (r: Result<string>)
    requires IsBinary(bits)
    ensures r.Failure? <==> bits == ""
    ensures r.Failure? ==> r.error == ValueError
    ensures r.Success? ==> |r.value| == 2 * ((|bits| + 7) / 8)
    ensures r.Success? ==> IsHex(r.value) && HexValue(r.value) == BinValue(bits)
  {
    var bytes := BinaryToBytes(bits);
    if bytes.Failure? {
      return Failure(bytes.error);
    }
    BytesToHexValue(bytes.value);
    return Success(BytesToHex(bytes.value));
  }

  /** The three scores of `run_qrng_and_encryption`, without the square roots. */
  datatype Scores = Scores(monobit: TestScore, runs: TestScore, chiSquared: real)

  /** The statistical tests on the last run: monobit and runs over its outcomes, chi-squared
      over its counts for 8 qubits and 1000 shots. Outcomes without bits make the monobit
      test divide by zero first. */
  method ScoreOutcomes(lastCounts: Counts) returns (r: Result<Scores>)
    ensures r.Failure? <==> Concat(Keys(lastCounts)) == ""
    ensures r.Failure? ==> r.error == ZeroDivisionError
    ensures r.Success? ==>
      && MonobitTest(Keys(lastCounts)) == Success(r.value.monobit)
      && RunsScore(Keys(lastCounts)) == Success(r.value.runs)
      && ChiSquared(lastCounts, 8, 1000) == Success(r.value.chiSquared)
      && r.value.chiSquared > 0.0
  {
    var randomBits := Keys(lastCounts);
    var monobit := MonobitTest(randomBits);
    if monobit.Failure? {
      return Failure(monobit.error);
    }
    var runs := RunsTest(randomBits);
    var chi := ChiSquaredTest(lastCounts, 8, 1000);
    assert chi.Success? && chi.value > 0.0 by {
      ChiSquaredPositiveForPipeline(lastCounts);
    }
    return Success(Scores(monobit.value, runs.value, chi.value));
  }

  /** What `run_qrng_and_encryption` hands to the results page, plus the hexadecimal
      ciphertext it prints. Min-entropy is kept as the `max_prob` whose `-log2` it is;
      Shannon entropy is not modelled. */
  datatype AppReport = AppReport(
    maxProbability: real,
    originalText: string,
    cipher: CipherDemo,
    scores: Scores)

  /** `run_qrng_and_encryption` from the last run's counts on: the entropies of those counts,
      then the superkey hashed from the outcomes, the encryption demo, and the tests. The
      entropies come first: no outcomes make `max` raise ValueError, and outcomes of zero
      total make `count / total` raise ZeroDivisionError. Then `int('', 2)` raises ValueError
      for an empty text before the tests run, and the tests divide by zero when the outcomes
      have no bits at all. */
  method RunEncryption(sampleText: string, lastCounts: Counts, sha256: string -> HexDigest)
    returns (r: Result<AppReport>)
    ensures r.Failure? <==>
      Total(lastCounts) == 0 || sampleText == "" || Concat(Keys(lastCounts)) == ""
    ensures lastCounts == [] ==> r == Failure(ValueError)
    ensures lastCounts != [] && Total(lastCounts) == 0 ==> r == Failure(ZeroDivisionError)
    ensures Total(lastCounts) > 0 && sampleText == "" ==> r == Failure(ValueError)
    ensures Total(lastCounts) > 0 && sampleText != "" && Concat(Keys(lastCounts)) == "" ==>
      r == Failure(ZeroDivisionError)
    ensures r.Success? ==>
      var cipher := AppCipher(sampleText, sha256(Concat(Keys(lastCounts))));
      && MaxProbability(lastCounts) == Success(r.value.maxProbability)
      && r.value.originalText == sampleText
      && r.value.cipher.encryptedText == BinaryToText(cipher)
      && r.value.cipher.decryptedText == BinaryToText(TextToBinary(sampleText))
      && (IsLatin1(sampleText) <==> r.value.cipher.decryptedText == sampleText)
      && |r.value.cipher.encryptedHex| == 2 * ((|cipher| + 7) / 8)
      && IsHex(r.value.cipher.encryptedHex)
      && HexValue(r.value.cipher.encryptedHex) == BinValue(cipher)
      && MonobitTest(Keys(lastCounts)) == Success(r.value.scores.monobit)
      && RunsScore(Keys(lastCounts)) == Success(r.value.scores.runs)
      && ChiSquared(lastCounts, 8, 1000) == Success(r.value.scores.chiSquared)
      && r.value.scores.chiSquared > 0.0
  {
    var maxProb := MaxProbability(lastCounts);
    if maxProb.Failure? {
      return Failure(maxProb.error);
    }
    var superkey := sha256(Concat(Keys(lastCounts)));
    var demo := EncryptDemo(sampleText, superkey);
    if demo.Failure? {
      return Failure(demo.error);
    }
    var scores := ScoreOutcomes(lastCounts);
    if scores.Failure? {
      return Failure(scores.error);
    }
    return Success(AppReport(maxProb.value, sampleText, demo.value, scores.value));
  }

  // ---------------------------------------------------------------- main3.py

  /** What the script prints of its encryption demo. */
  datatype ScriptReport = ScriptReport(
    superkey: HexDigest,
    keyStreamBits: string,
    encryptedText: string,
    decryptedText: string)

  /** `lines[:32]` of the saved outcomes. */
  function FirstLines(savedLines: seq<string>): (firstLines: seq<string>)
    ensures |firstLines| == Min(32, |savedLines|)
    ensures firstLines <= savedLines
  {
    savedLines[..Min(32, |savedLines|)]
  }

  /** The script's demo: hash the first 32 saved lines into the superkey, tile its hex digits
      once per started block of 256 text bits, cut that hex string to the text's bit count,
      convert it to bits zero-filled to that count, and XOR (zip keeps only the first bits
      of a longer key). An empty text leaves the hex key stream empty and `int('', 16)`
      raises ValueError. */
  method RunScript(sampleText: string, savedLines: seq<string>, sha256: string -> HexDigest)
    returns (r: Result<ScriptReport>)
    ensures r.Failure? <==> sampleText == ""
    ensures r.Failure? ==> r.error == ValueError
    ensures r.Success? ==>
      var bitLength := |TextToBinary(sampleText)|;
      && r.value.superkey == sha256(Concat(FirstLines(savedLines)))
      && ScriptKeyBits(ScriptHexStream(r.value.superkey, bitLength), bitLength)
           == Success(r.value.keyStreamBits)
      && IsBinary(r.value.keyStreamBits) && |r.value.keyStreamBits| >= bitLength
      && r.value.encryptedText == BinaryToText(CipherBits(sampleText, r.value.keyStreamBits))
      && r.value.decryptedText == BinaryToText(TextToBinary(sampleText))
      && (IsLatin1(sampleText) <==> r.value.decryptedText == sampleText)
  {
    var binaryText := TextToBinary(sampleText);
    TextToBinaryShape(sampleText);
    var bitstrings := FirstLines(savedLines);
    var combinedBits := Concat(bitstrings);
    var superkey := sha256(combinedBits);
    var keyStream := ScriptHexKeyStream(superkey, |binaryText|);
    var keyBits := ScriptKeyBits(keyStream, |binaryText|);
    if keyBits.Failure? {
      return Failure(keyBits.error);
    }
    var keyStreamBinary := keyBits.value;
    var encryptedBinary := Xor(binaryText, keyStreamBinary);
    assert encryptedBinary == CipherBits(sampleText, keyStreamBinary);
    var encryptedText := BinaryToText(encryptedBinary);
    var decryptedBinary := Xor(encryptedBinary, keyStreamBinary);
    DecryptRestores(sampleText, keyStreamBinary);
    var decryptedText := BinaryToText(decryptedBinary);
    return Success(ScriptReport(superkey, keyStreamBinary, encryptedText, decryptedText));
  }

  /** `"".join(strings)` of eight-digit outcomes is eight digits per outcome. */
  lemma {:induction false} ConcatOctets(strings: seq<string>)
    requires forall i :: 0 <= i < |strings| ==> |strings[i]| == 8
    ensures |Concat(strings)| == 8 * |strings|
  {
    if strings != [] {
      ConcatOctets(strings[..|strings| - 1]);
    }
  }

  /** The script hashes 256 digits when at least 32 eight-digit outcomes were saved, and
      fewer otherwise. */
  lemma SuperkeyInputLength(savedLines: seq<string>)
    requires forall i :: 0 <= i < |savedLines| ==> |savedLines[i]| == 8
    ensures |Concat(FirstLines(savedLines))| == 8 * Min(32, |savedLines|)
    ensures |savedLines| >= 32 <==> |Concat(FirstLines(savedLines))| == 256
  {
    ConcatOctets(FirstLines(savedLines));
  }
}
