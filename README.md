# QRNG post-processing and stream cipher, in Dafny

This project models the deterministic core of a quantum random number generator demo.
Both programs run an 8-qubit Hadamard circuit, take the measured outcomes (a counts
dictionary `outcome -> shots`), derive a 256-bit "superkey" from them with SHA-256, and use
that superkey as a repeating XOR key to encrypt and decrypt a text. They differ in what
they do with the outcomes:

- the web application `Quantum_project_fs/app.py` (`run_qrng_and_encryption`) scores the
  last run's outcomes with three statistical tests (monobit, runs and chi-squared) and the
  rational part of min-entropy, and hashes the join of the outcome keys;
- the script `Quantum_project_fs/Quantum-Random-Number-Generator/main3.py` runs none of
  those tests. Its only measures are Shannon entropy and min-entropy. It writes the
  outcome keys to a file, hashes the join of the first 32 lines it reads back, and builds
  its key stream differently.

The circuit, the hash and Shannon entropy are not modelled. The counts dictionary and the
saved lines are inputs and SHA-256 is a parameter. The rest of the path from the counts to
the ciphertext is modelled on Python's semantics:

- `int(s, 2)` and `int(s, 16)` raise `ValueError` on the empty string;
- `bin` drops leading zeros and `zfill` pads on the left;
- `zip` stops at the shorter string;
- `to_bytes` is big-endian;
- a score divided by `math.sqrt(0)` raises `ZeroDivisionError`.

Exceptions become `Results.Result` values.

Modules, one per file:

- `Results` (results.dfy): the two Python exceptions the core can raise, and `Result`.
- `Numerals` (numerals.dfy): `int(s, 2)`, `int(s, 16)`, `bin`, `zfill`, `format(n, '08b')`,
  and the nibble expansion of hexadecimal digits.
- `Codec` (codec.dfy): `text_to_binary`, `binary_to_text`, the XOR of two bit strings,
  `binary_to_bytes` and `bytes.hex()`. main3.py defines the same `text_to_binary`
  (main3.py:115-116) and `binary_to_text` (main3.py:141-142); one model serves both.
- `Statistics` (statistics.dfy): `monobit_test`, `runs_test` (a loop, modelled as a method),
  `chi_squared_test` (two loops, modelled as a method), and `max_prob` from `min_entropy`.
- `KeyStream` (keystream.dfy): the web application's key stream (a `while` loop that appends
  the superkey's 256 bits) and the script's key stream. The script appends the digest's 64
  hexadecimal digits once per started 256-bit block of text. It then cuts that hex string to
  the text's *bit* count and converts it to bits. The result is reproduced as written. It
  agrees with the web application's key stream when the text is a whole number of 256-bit
  blocks (`ScriptKeyStreamAgrees`), and can differ otherwise. For a one-character text it
  keeps only 8 hex digits, and `ScriptKeyStreamShortText` shows a digest where the two key
  streams differ.
- `Pipeline` (pipeline.dfy): the two end-to-end flows, from the counts (or the saved lines)
  to the report.

Two behaviours of the code are worth knowing:

- Ciphertext bits that do not fill a whole byte are padded on the left, because
  `int(s, 2).to_bytes(...)` reads the bits as one number (`Codec.BytesPadLeft`).
- The chi-squared key space is `format(i, '08b')` for `i < 2^N`. These are eight-digit keys
  whatever the number of qubits N is. `Statistics.ChiSquaredFourQubitVectors` shows the
  consequence for N = 4 and 1000 shots of one outcome:
  - the 4-digit key "0000" is never one of the enumerated keys, so all 16 enumerated keys
    count as unobserved: 15062.5;
  - the key "00000000" is one of them: 15000.0.

## Model

| member | source | states |
|---|---|---|
| Numerals.Pow2 | Quantum_project_fs/app.py:39 | `2**n` is a positive integer |
| Numerals.BinValue | Quantum_project_fs/app.py:147 | `int(s, 2)` of an n-digit numeral is below 2^n |
| Numerals.BinValueAppend | Quantum_project_fs/app.py:150 | the value of a concatenation is the high part shifted by the low part's width, plus the low part |
| Numerals.BinaryUnique | Quantum_project_fs/app.py:147 | two numerals of the same width and value are the same string |
| Numerals.Repeat | Quantum_project_fs/app.py:157 | `c * n` is n copies of c (the zeros that `zfill` adds) |
| Numerals.ZerosValue | Quantum_project_fs/app.py:157 | a run of zeros has value 0 |
| Numerals.Binary | Quantum_project_fs/app.py:157 | `bin(n)[2:]` is a binary numeral of value n with no leading zero |
| Numerals.BinaryLength | Quantum_project_fs/app.py:157 | `bin(n)[2:]` fits in w digits if and only if n < 2^w |
| Numerals.ZFill | Quantum_project_fs/app.py:157 | `zfill(w)` yields max(len, w) characters |
| Numerals.ZFillValue | Quantum_project_fs/app.py:157 | zero padding keeps a numeral binary and keeps its value |
| Numerals.Format08bValue | Quantum_project_fs/app.py:144 | `format(n, '08b')` is a numeral of n with at least 8 digits, and exactly 8 if and only if n < 256 |
| Numerals.OctetFormat | Quantum_project_fs/app.py:144 | every eight-digit numeral is `format(v, '08b')` of its own value v |
| Numerals.HexDigitValue | Quantum_project_fs/app.py:157 | a hexadecimal digit is worth less than 16 |
| Numerals.HexDigit | Quantum_project_fs/app.py:170 | the digit written for v < 16 reads back as v |
| Numerals.NibbleValue | Quantum_project_fs/app.py:157 | a hex digit expands to four binary digits of the same value |
| Numerals.HexBitsValue | Quantum_project_fs/app.py:157 | the nibble expansion has 4 digits per hex digit and the value of `int(s, 16)` |
| Numerals.HexValueBound | Quantum_project_fs/app.py:157 | `int(s, 16)` is below 2^(4 len(s)) |
| Numerals.HexBitsAt | Quantum_project_fs/app.py:157 | bit i of the expansion is bit i % 4 of hex digit i / 4 |
| Numerals.HexToPaddedBinary | Quantum_project_fs/app.py:157 | `bin(int(s, 16))[2:].zfill(4 len(s))` is exactly the nibble expansion of s |
| Codec.Chr | Quantum_project_fs/app.py:147 | `chr(v)` has code point v |
| Codec.TextToBinary | Quantum_project_fs/app.py:143-144 | `text_to_binary` writes only binary digits |
| Codec.TextToBinaryShape | Quantum_project_fs/app.py:143-144 | at least 8 digits per character, and exactly 8 per character if and only if every code point is below 256 |
| Codec.BinaryToText | Quantum_project_fs/app.py:146-147 | one character per started octet, each with a code point below 256 |
| Codec.DecodeEncode | Quantum_project_fs/app.py:143-147 | decoding the encoding gives back any text of code points below 256 |
| Codec.EncodeDecode | Quantum_project_fs/app.py:143-147 | a bit string of whole octets is re-encoded unchanged |
| Codec.EncodeFirstOctet | Quantum_project_fs/app.py:143-147 | re-encoding the first decoded character gives back the first octet |
| Codec.DecodeShortTail | Quantum_project_fs/app.py:147 | a short last chunk is not rejected: it decodes to `chr` of its value, read as a number |
| Codec.Xor | Quantum_project_fs/app.py:164 | the XOR is as long as the shorter input (`zip`) |
| Codec.XorIsBitwise | Quantum_project_fs/app.py:164 | on binary digits each position is the sum of the two bits mod 2 |
| Codec.XorInvolution | Quantum_project_fs/app.py:164-165 | XOR with a key stream at least as long, applied twice, restores the data |
| Codec.ToBytesBig | Quantum_project_fs/app.py:150 | `v.to_bytes(n, 'big')` has n bytes whose big-endian value is v |
| Codec.BinaryToBytes | Quantum_project_fs/app.py:149-150 | ValueError exactly for the empty string; otherwise ceil(len/8) bytes of value `int(s, 2)` |
| Codec.BytesPadLeft | Quantum_project_fs/app.py:149-150 | padding on the left to whole octets does not change the bytes |
| Codec.BytesAreOctets | Quantum_project_fs/app.py:149-150 | for whole octets, byte k is the value of digits 8k..8k+8 |
| Codec.OctetAtEnd | Quantum_project_fs/app.py:150 | the last byte of whole octets is the value of the last eight digits |
| Codec.OctetBeforeEnd | Quantum_project_fs/app.py:150 | an earlier byte is the same as in the string without its last octet |
| Codec.LastOctet | Quantum_project_fs/app.py:150 | the bytes of n octets are those of the first n - 1 followed by the last |
| Codec.OctetSplit | Quantum_project_fs/app.py:150 | the value of n octets is the first n - 1 shifted by a byte plus the last |
| Codec.WholeBytes | Quantum_project_fs/app.py:150 | n whole octets pack into exactly n bytes |
| Codec.ToBytesBigStep | Quantum_project_fs/app.py:150 | the last byte of `to_bytes` is v % 256 and the rest are the bytes of v / 256 |
| Codec.BytesToHex | Quantum_project_fs/app.py:170 | `bytes.hex()` writes two lower-case hex digits per byte |
| Codec.BytesToHexValue | Quantum_project_fs/app.py:170 | the hex rendering reads back as the big-endian value of the bytes |
| Statistics.Concat | Quantum_project_fs/app.py:20 | `"".join` of binary strings is a binary string |
| Statistics.Keys | Quantum_project_fs/app.py:95 | `list(counts.keys())` lists the outcomes of the dictionary in order, each once when the keys are distinct, and exactly the observed outcomes |
| Statistics.Count | Quantum_project_fs/app.py:21 | `s.count(c)` is at most len(s) |
| Statistics.ScoreSquaredIsDeviation | Quantum_project_fs/app.py:23-24 | the squared score is deviation^2 / (4 total), so it is zero if and only if observed is half of total |
| Statistics.MonobitTest | Quantum_project_fs/app.py:19-25 | ZeroDivisionError exactly when the outcomes have no bits; otherwise the total is the concatenation's length and the deviation at most the total |
| Statistics.CountAppend | Quantum_project_fs/app.py:20-21 | counting over a concatenation adds the counts |
| Statistics.MonobitCountsEachOutcome | Quantum_project_fs/app.py:20-21 | the ones of the joined string are the ones of the outcomes added up |
| Statistics.MonobitZeroIffBalanced | Quantum_project_fs/app.py:19-25 | the monobit score is zero if and only if ones are exactly half of the bits |
| Statistics.MonobitBalancedVector | Quantum_project_fs/app.py:19-25 | ["11110000", "00001111"] has 8 ones in 16 bits and score 0 |
| Statistics.CountRepeat | Quantum_project_fs/app.py:21 | a run of one character counts n or 0 |
| Statistics.Changes | Quantum_project_fs/app.py:30-32 | no bit change is counted exactly when every digit equals the first |
| Statistics.RunsScore | Quantum_project_fs/app.py:27-36 | ZeroDivisionError exactly when the joined string is empty; otherwise between 1 and len runs over len bits |
| Statistics.RunsTest | Quantum_project_fs/app.py:27-36 | the loop yields 1 + the number of bit changes over the joined string, or ZeroDivisionError for no bits |
| Statistics.RunsBounds | Quantum_project_fs/app.py:29-32 | a non-empty string has between 1 and len runs |
| Statistics.ExpandLast | Quantum_project_fs/app.py:29-32 | the spelled string ends in the last run's character |
| Statistics.RunLengthsSpell | Quantum_project_fs/app.py:29-32 | every string splits into maximal runs that spell it |
| Statistics.SameRunStep | Quantum_project_fs/app.py:31 | an equal next bit lengthens the last run and keeps the runs maximal |
| Statistics.NewRunStep | Quantum_project_fs/app.py:31-32 | a different next bit opens a new run and keeps the runs maximal |
| Statistics.ExpandAppend | Quantum_project_fs/app.py:29-32 | one more run appends its characters |
| Statistics.ExtendLastRun | Quantum_project_fs/app.py:31 | lengthening the last run appends one character and keeps maximality |
| Statistics.RepeatSnoc | Quantum_project_fs/app.py:31 | a run of n + 1 is a run of n plus one character |
| Statistics.LongerLastRun | Quantum_project_fs/app.py:31 | lengthening the last run keeps the runs maximal |
| Statistics.StartNewRun | Quantum_project_fs/app.py:31-32 | a run of a different character can follow maximal runs |
| Statistics.ChangesAppendRun | Quantum_project_fs/app.py:30-32 | appending a run adds one change exactly when its character differs from the last |
| Statistics.RunCountIsMaximalRuns | Quantum_project_fs/app.py:29-32 | `runs_test`'s count 1 + changes equals the number of maximal runs of any such decomposition |
| Statistics.TimesExpectedFourQubit | Quantum_project_fs/app.py:52-53 | k unobserved terms at expected count 62.5 add up to 62.5 k |
| Statistics.TermOfZero | Quantum_project_fs/app.py:53 | an unobserved key contributes `(0 - e)**2 / e` = e |
| Statistics.ExpectedCount | Quantum_project_fs/app.py:39-40 | `shots / 2**n` is zero for no shots and positive otherwise |
| Statistics.ObservedSumStep | Quantum_project_fs/app.py:47-48 | the first loop adds one term per observed count |
| Statistics.ChiSquared | Quantum_project_fs/app.py:39-40 | ZeroDivisionError exactly when there are no shots (the expected count is 0) |
| Statistics.ObservedKeys | Quantum_project_fs/app.py:43 | `set(counts.keys())` is empty exactly for an empty dictionary |
| Statistics.AllKeysSize | Quantum_project_fs/app.py:44 | the outcome space of n qubits has 2^n distinct keys |
| Statistics.ChiSquaredTest | Quantum_project_fs/app.py:38-55 | the two loops compute the chi-squared specification, including ZeroDivisionError for zero shots |
| Statistics.AddUnobserved | Quantum_project_fs/app.py:51-53 | the second loop adds e once per unobserved key, and divides by zero only when some key is unobserved and e is 0 |
| Statistics.NothingObserved | Quantum_project_fs/app.py:43-51 | with nothing observed some key is unobserved |
| Statistics.SumBelowConstant | Quantum_project_fs/app.py:52-53 | a sum of m equal terms is m copies of the term |
| Statistics.SumBelowUpdate | Quantum_project_fs/app.py:47-53 | changing one summand changes the sum by the difference |
| Statistics.KeySpaceSize | Quantum_project_fs/app.py:44 | `{format(i, '08b') for i in range(m)}` has m elements |
| Statistics.KeySpaceGrows | Quantum_project_fs/app.py:44 | the key space for m adds the new key `format(m - 1, '08b')` |
| Statistics.CountOfUnobserved | Quantum_project_fs/app.py:50-51 | an unobserved key has count 0 |
| Statistics.Format08bInjective | Quantum_project_fs/app.py:44 | different i give different `format(i, '08b')` |
| Statistics.OutcomeSumUpdate | Quantum_project_fs/app.py:47-53 | observing a new key changes the whole-space sum only at that key |
| Statistics.ObservedKeysAppend | Quantum_project_fs/app.py:43 | one more entry adds its key to the observed set |
| Statistics.ObservedPlusMissing | Quantum_project_fs/app.py:47-53 | observed terms plus one zero-count term per unobserved key equal the sum over the key space |
| Statistics.LastEntry | Quantum_project_fs/app.py:43 | the last key of distinct keys is not among the earlier ones |
| Statistics.ObservedPlusMissingBase | Quantum_project_fs/app.py:51-53 | with nothing observed the second loop alone covers the key space |
| Statistics.ObservedPlusMissingStep | Quantum_project_fs/app.py:47-53 | one more observed key keeps the decomposition |
| Statistics.MissingShrinks | Quantum_project_fs/app.py:51 | observing a key of the space leaves one unobserved key fewer |
| Statistics.ChiSquaredOverAllOutcomes | Quantum_project_fs/app.py:38-55 | for distinct keys from the key space, the statistic is the textbook sum over all outcomes |
| Statistics.StatisticOverAllOutcomes | Quantum_project_fs/app.py:38-55 | the same for a given expected count |
| Statistics.TermNonNegative | Quantum_project_fs/app.py:48 | a term is non-negative and zero if and only if the count equals the expected count |
| Statistics.ObservedSumZero | Quantum_project_fs/app.py:47-48 | the first loop's sum is non-negative and zero if and only if every count equals the expected count |
| Statistics.TimesPositive | Quantum_project_fs/app.py:52-53 | the second loop's sum is non-negative and zero if and only if no key is unobserved |
| Statistics.ChiSquaredZeroIff | Quantum_project_fs/app.py:38-55 | with shots, the statistic is non-negative, and zero if and only if every key is observed and every count is the expected one |
| Statistics.StatisticZeroIff | Quantum_project_fs/app.py:38-55 | the same for a given positive expected count |
| Statistics.ChiSquaredPositiveForPipeline | Quantum_project_fs/app.py:180 | with 8 qubits and 1000 shots the statistic is always positive |
| Statistics.NotAWholeCount | Quantum_project_fs/app.py:40 | 1000 / 256 is not a whole count |
| Statistics.ChiSquaredFourQubitVectors | Quantum_project_fs/app.py:38-55 | 1000 shots of one outcome over 4 qubits: 15062.5 for "0000", 15000.0 for "00000000" |
| Statistics.FourQubitExpected | Quantum_project_fs/app.py:39-40 | 4 qubits and 1000 shots: expected count 62.5, 16 keys |
| Statistics.FourQubitNarrowKey | Quantum_project_fs/app.py:38-55 | "0000" is not an '08b' key: 15062.5 |
| Statistics.FourQubitWideKey | Quantum_project_fs/app.py:38-55 | "00000000" is an '08b' key: 15000.0 |
| Statistics.FourQubitChi | Quantum_project_fs/app.py:38-55 | one outcome of 1000 shots with k keys unobserved gives 14062.5 + 62.5 k |
| Statistics.Format08bZero | Quantum_project_fs/app.py:44 | `format(0, '08b')` is "00000000" |
| Statistics.OneOutcomeStatistic | Quantum_project_fs/app.py:38-55 | a single observed outcome contributes its term, and every other key contributes e |
| Statistics.Total | Quantum_project_fs/app.py:86 | `sum(counts.values())` is at least every count |
| Statistics.MaxCount | Quantum_project_fs/app.py:87 | `max(counts.values())` is one of the counts and at least every count |
| Statistics.MaxProbability | Quantum_project_fs/app.py:85-87 | fails exactly when the total is 0: ValueError for an empty dictionary, ZeroDivisionError otherwise |
| Statistics.MaxCountBounds | Quantum_project_fs/app.py:86-87 | the largest count is at most the total and at least the total over the number of outcomes |
| Statistics.MaxProbabilityBounds | Quantum_project_fs/app.py:85-88 | `max_prob` is in (0, 1] and at least 1 / the number of outcomes, so `-log2(max_prob)` is defined |
| KeyStream.Tiled | Quantum_project_fs/app.py:159-162 | the tiling has exactly the requested length |
| KeyStream.TiledAppend | Quantum_project_fs/app.py:160-161 | appending a block to whole blocks extends the tiling |
| KeyStream.BlockOffset | Quantum_project_fs/app.py:160-161 | inside the appended block, position i is i mod the block width |
| KeyStream.KeyBlock | Quantum_project_fs/app.py:157 | `bin(int(superkey, 16))[2:].zfill(256)` is 256 binary digits of the digest's value |
| KeyStream.KeyBlockIsNibbles | Quantum_project_fs/app.py:157 | the key block is the digest written four bits per hex digit |
| KeyStream.FullKeyStream | Quantum_project_fs/app.py:159-162 | the append-then-cut loop yields the key block tiled to the text's length |
| KeyStream.FullKeyStreamBits | Quantum_project_fs/app.py:155-162 | key stream bit i is bit i % 4 of hex digit (i % 256) / 4 of the digest |
| KeyStream.FullKeyStreamShape | Quantum_project_fs/app.py:159-162 | the key stream is binary and as long as the text |
| KeyStream.ScriptHexStream | Quantum_project_fs/Quantum-Random-Number-Generator/main3.py:129-132 | hex digit j of the script's stream is digest digit j % 64, and the stream is empty only for an empty text |
| KeyStream.ScriptHexKeyStream | Quantum_project_fs/Quantum-Random-Number-Generator/main3.py:129-132 | the script's loop and cut yield that stream |
| KeyStream.ScriptKeyBits | Quantum_project_fs/Quantum-Random-Number-Generator/main3.py:133 | ValueError exactly for an empty hex stream; otherwise binary digits worth the stream's value, exactly max(bitLength, len(bin(value)) - 2) of them |
| KeyStream.ScriptHexLength | Quantum_project_fs/Quantum-Random-Number-Generator/main3.py:129-132 | the cut keeps at most bitLength hex digits, and at least bitLength / 4, enough to cover the text's bits |
| KeyStream.ScriptKeyStreamAgrees | Quantum_project_fs/Quantum-Random-Number-Generator/main3.py:129-133 | for whole 256-bit blocks the script's key stream equals the web application's |
| KeyStream.WholeBlocksAgree | Quantum_project_fs/Quantum-Random-Number-Generator/main3.py:129-133 | k tiles of the digest convert to k tiles of the key block |
| KeyStream.TiledHex | Quantum_project_fs/Quantum-Random-Number-Generator/main3.py:131 | tiling the digest gives hex digits |
| KeyStream.TiledNibbles | Quantum_project_fs/Quantum-Random-Number-Generator/main3.py:131-133 | expanding k tiles of the digest gives k tiles of the key block |
| KeyStream.NibblesAt | Quantum_project_fs/Quantum-Random-Number-Generator/main3.py:131-133 | the two agree bit by bit |
| KeyStream.ScriptKeyStreamShortText | Quantum_project_fs/Quantum-Random-Number-Generator/main3.py:129-133 | for one character and the digest "00000001" then 56 zeros, the script's key is "00000001" but the web application's is "00000000" |
| KeyStream.LowDigestScriptBits | Quantum_project_fs/Quantum-Random-Number-Generator/main3.py:129-133 | the script keeps 8 hex digits of that digest and zero-fills their value to "00000001" |
| KeyStream.LowDigestAppBits | Quantum_project_fs/app.py:157-162 | the web application's first 8 key bits for that digest are "00000000" |
| KeyStream.ZeroDigitBit | Quantum_project_fs/app.py:157 | a '0' digest digit gives four '0' key bits |
| KeyStream.HexZeros | Quantum_project_fs/Quantum-Random-Number-Generator/main3.py:133 | hex zeros have value 0 |
| Pipeline.CipherBits | Quantum_project_fs/app.py:164 | the ciphertext is binary and as long as the text's bits |
| Pipeline.DecryptRestores | Quantum_project_fs/app.py:164-168 | decrypting restores the text's bits, and the decoded text is the original if and only if every code point is below 256 |
| Pipeline.CipherTextLength | Quantum_project_fs/app.py:167 | a Latin-1 text and its ciphertext decode to as many characters |
| Pipeline.AppCipher | Quantum_project_fs/app.py:152-164 | the web application's ciphertext is binary and as long as the text's bits |
| Pipeline.CipherHex | Quantum_project_fs/app.py:170 | `binary_to_bytes(bits).hex()`: ValueError exactly for no bits; otherwise two hex digits per started octet, reading back as the bits' value |
| Pipeline.EncryptDemo | Quantum_project_fs/app.py:152-170 | ValueError exactly for an empty text (`int('', 2)`); otherwise the decoded ciphertext of the tiled key stream, the decrypted text (the original if and only if it is Latin-1), and hex of 2 digits per started byte that reads back as the ciphertext |
| Pipeline.ScoreOutcomes | Quantum_project_fs/app.py:177-180 | ZeroDivisionError exactly for outcomes without bits; otherwise the monobit, runs and 8-qubit, 1000-shot chi-squared specifications, with a positive chi-squared |
| Pipeline.RunEncryption | Quantum_project_fs/app.py:72-180 | fails exactly when the entropy step, the empty text or the bitless outcomes fail: ValueError for no outcomes (app.py:87), ZeroDivisionError for a zero total (app.py:81), ValueError for an empty text (app.py:150), ZeroDivisionError for bitless outcomes (app.py:24); otherwise `max_prob`, the report's texts, the hex (reads back as the ciphertext), and the three scores (chi-squared positive) |
| Pipeline.RunScript | Quantum_project_fs/Quantum-Random-Number-Generator/main3.py:115-149 | ValueError exactly for an empty text; otherwise the superkey, the script's key bits, and the encrypted and decrypted texts, which restore the text if and only if it is Latin-1 |
| Pipeline.ConcatOctets | Quantum_project_fs/Quantum-Random-Number-Generator/main3.py:124 | joining eight-digit lines gives 8 digits per line |
| Pipeline.FirstLines | Quantum_project_fs/Quantum-Random-Number-Generator/main3.py:123 | `lines[:32]` is the prefix of min(32, len(lines)) lines |
| Pipeline.SuperkeyInputLength | Quantum_project_fs/Quantum-Random-Number-Generator/main3.py:122-125 | `lines[:32]` joined has 8 digits per kept line, and 256 digits if and only if at least 32 lines were saved |

## Left out

- The quantum circuit and simulator run (app.py:61-75, main3.py:12-36): the last run's
  counts dictionary is an input (`Counts`, in insertion order).
- SHA-256 (app.py:155, main3.py:125): a parameter `sha256` that returns 64 lower-case hex
  digits. The `.encode()` of an ASCII bit string is the identity on its characters.
- Shannon entropy (app.py:77-83) and the `-log2` of min-entropy (app.py:88): floating-point
  logarithms. Only `max_prob` (app.py:85-87) is modelled, with bounds that make the
  logarithm defined.
- Plots, printing, the Flask routes and templates (app.py:100-138, 193 on): output only.
- main3.py's `input()` (main3.py:111): the text is a parameter.
- The file round trip through `random_bits.txt` (main3.py:67-70, 122-123): the saved lines
  are a parameter. The model assumes `splitlines()` gives back the written outcomes.
- main3.py's entropies (main3.py:44-58) are the same two functions as app.py's: only the
  `max_prob` of its min-entropy is modelled, by `Statistics.MaxProbability`. Its
  `try/except` around each run and its entropy lists (main3.py:33-61) are not modelled.
- `simple/app.py` is not part of this model.
- Statistics.MonobitTest: the score `abs(ones - total/2) / sqrt(total)` is given as the
  exact pair (observed, total) and its square (`TestScore.ScoreSquared`), because
  `math.sqrt` and floating-point rounding are not modelled. Reals are exact.
- Statistics.RunsTest: the same score representation as the monobit test.
- Statistics.ChiSquaredTest: the sum is over exact reals, not floats, so rounding and its
  order are not modelled. The second loop's iteration order over the set does not matter.
- Codec.BinaryToText: requires binary digits. `int(chunk, 2)` would raise `ValueError`
  otherwise, but every caller passes binary digits.
- Codec.Chr: only code points below 256, the only ones `binary_to_text` produces.
- Codec.ToBytesBig: requires the value to fit. The `OverflowError` of `to_bytes` cannot
  happen, because `binary_to_bytes` sizes the result from the string's length.
- Numerals.HexValue: returns 0 for the empty string where `int('', 16)` raises. Its callers
  (`ScriptKeyBits`, the digest) handle or exclude the empty string first.
- Pipeline.RunEncryption: the report carries `max_prob` instead of min-entropy and leaves out
  Shannon entropy (see above). Only the last run's counts are an input: the entropies of the
  100-, 200- and 500-shot runs (app.py:72-91), and their failures, are not modelled.
- Statistics.MaxProbability: the ratio is an exact real, not a float, so rounding of
  `max(...) / total` (and of `-log2` after it) is not modelled.
- Numerals.BinValue: returns 0 for the empty string where `int('', 2)` raises. Its callers
  (`BinaryToBytes`, `BinaryToText`) handle or never produce the empty string first.
