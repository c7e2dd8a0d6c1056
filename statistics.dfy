/** The statistical test functions `monobit_test`, `runs_test` and `chi_squared_test`, and
    the rational part (`max_prob`) of `min_entropy`, over the outcome counts of the last run. */
module Statistics {
  import opened Numerals
  import opened Results

  /** The counts dictionary returned for one run, in insertion order: outcome -> shots.
      A Python dict has distinct keys; `DistinctKeys` states it where it is needed. */
  type Counts = seq<(string, nat)>

  predicate DistinctKeys(counts: Counts)
  {
    forall i, j :: 0 <= i < j < |counts| ==> counts[i].0 != counts[j].0
  }

  /** `list(counts.keys())`: the distinct outcomes, not the draws weighted by count. */
  function Keys(counts: Counts): (ks: seq<string>)
    ensures |ks| == |counts| && forall i :: 0 <= i < |counts| ==> ks[i] == counts[i].0
    ensures DistinctKeys(counts) ==> forall i, j :: 0 <= i < j < |ks| ==> ks[i] != ks[j]
    ensures forall k :: k in ks <==> k in ObservedKeys(counts)
  {
    seq(|counts|, i requires 0 <= i < |counts| => counts[i].0)
  }

  /** `"".join(strings)` */
  function Concat(strings: seq<string>): (s: string)
    ensures (forall i :: 0 <= i < |strings| ==> IsBinary(strings[i])) ==> IsBinary(s)
  {
    if strings == [] then "" else Concat(strings[..|strings| - 1]) + strings[|strings| - 1]
  }

  /** `s.count(c)` for a single character. */
  function Count(s: string, c: char): (n: nat)
    ensures n <= |s|
  {
    if s == [] then 0 else Count(s[..|s| - 1], c) + (if s[|s| - 1] == c then 1 else 0)
  }

  /** What monobit and runs tests measure: an observed figure over `totalBits` bits. The
      source's score is `abs(observed - totalBits / 2) / sqrt(totalBits)`. */
  datatype TestScore = TestScore(observed: nat, totalBits: nat)
  {
    /** |2 observed - totalBits|: twice the numerator of the score, an integer. */
    function Deviation(): nat
    {
      if 2 * observed >= totalBits then 2 * observed - totalBits else totalBits - 2 * observed
    }

    /** The square of the source's score, which avoids `math.sqrt`. */
    function ScoreSquared(): real
      requires totalBits > 0
    {
      (observed as real - totalBits as real / 2.0) * (observed as real - totalBits as real / 2.0)
        / totalBits as real
    }
  }

  /** The squared score is Deviation^2 / (4 totalBits): it is zero exactly when the observed
      figure is half the number of bits. */
  lemma ScoreSquaredIsDeviation(t: TestScore)
    requires t.totalBits > 0
    ensures t.ScoreSquared() == (t.Deviation() * t.Deviation()) as real / (4 * t.totalBits) as real
    ensures t.ScoreSquared() == 0.0 <==> 2 * t.observed == t.totalBits
  {
    var n, d := t.totalBits as real, t.Deviation() as real;
    ScoreFormula(t.observed as real, n, d);
    DeviationRatio(t.Deviation(), t.totalBits);
    if t.ScoreSquared() == 0.0 {
      assert d * d == 0.0;
    }
  }

  /** (o - n/2)^2 / n in terms of d = |2 o - n|. */
  lemma ScoreFormula(o: real, n: real, d: real)
    requires n > 0.0 && (d == 2.0 * o - n || d == n - 2.0 * o)
    ensures (o - n / 2.0) * (o - n / 2.0) / n == d * d / (4.0 * n)
  {
  }

  lemma DeviationRatio(dev: nat, bits: nat)
    requires bits > 0
    ensures (dev * dev) as real / (4 * bits) as real == dev as real * dev as real / (4.0 * bits as real)
  {
  }

  // ---------------------------------------------------------------- monobit test

  /** `monobit_test`: counts the '1' characters of the concatenated outcomes. An empty
      concatenation divides by `sqrt(0)` and raises ZeroDivisionError. */
  function MonobitTest(bitstrings: seq<string>): (r: Result<TestScore>)
    ensures r.Failure? <==> Concat(bitstrings) == ""
    ensures r.Failure? ==> r.error == ZeroDivisionError
    ensures r.Success? ==> r.value.totalBits == |Concat(bitstrings)| > 0
    ensures r.Success? ==> r.value.Deviation() <= r.value.totalBits
  {
    var full := Concat(bitstrings);
    if |full| == 0 then Failure(ZeroDivisionError) else Success(TestScore(Count(full, '1'), |full|))
  }

  /** The ones of the concatenation are the ones of the outcomes added up. */
  function OnesPerOutcome(bitstrings: seq<string>): nat
  {
    if bitstrings == [] then 0
    else OnesPerOutcome(bitstrings[..|bitstrings| - 1]) + Count(bitstrings[|bitstrings| - 1], '1')
  }

  lemma {:induction false} CountAppend(a: string, b: string, c: char)
    ensures Count(a + b, c) == Count(a, c) + Count(b, c)
    decreases |b|
  {
    if b != [] {
      assert (a + b)[..|a + b| - 1] == a + b[..|b| - 1];
      CountAppend(a, b[..|b| - 1], c);
    } else {
      assert a + b == a;
    }
  }

  lemma {:induction false} MonobitCountsEachOutcome(bitstrings: seq<string>)
    ensures Count(Concat(bitstrings), '1') == OnesPerOutcome(bitstrings)
  {
    if bitstrings != [] {
      var init := bitstrings[..|bitstrings| - 1];
      MonobitCountsEachOutcome(init);
      CountAppend(Concat(init), bitstrings[|bitstrings| - 1], '1');
    }
  }

  /** The monobit score is zero exactly when ones make up half of the bits, and the ones and
      zeros of binary outcomes account for every bit. */
  lemma MonobitZeroIffBalanced(bitstrings: seq<string>)
    requires MonobitTest(bitstrings).Success?
    ensures var t := MonobitTest(bitstrings).value;
      t.ScoreSquared() == 0.0 <==> 2 * OnesPerOutcome(bitstrings) == |Concat(bitstrings)|
  {
    MonobitCountsEachOutcome(bitstrings);
    ScoreSquaredIsDeviation(MonobitTest(bitstrings).value);
  }

  /** The known vector ["11110000", "00001111"]: eight ones in sixteen bits, score 0. */
  lemma MonobitBalancedVector()
    ensures MonobitTest(["11110000", "00001111"]) == Success(TestScore(8, 16))
    ensures MonobitTest(["11110000", "00001111"]).value.Deviation() == 0
  {
    var bs := ["11110000", "00001111"];
    assert bs[..1] == ["11110000"] && bs[..1][..0] == [];
    assert Concat(bs) == "1111000000001111";
    MonobitCountsEachOutcome(bs);
    assert "11110000" == Repeat('1', 4) + Repeat('0', 4);
    assert "00001111" == Repeat('0', 4) + Repeat('1', 4);
    CountAppend(Repeat('1', 4), Repeat('0', 4), '1');
    CountAppend(Repeat('0', 4), Repeat('1', 4), '1');
    CountRepeat('1', '1', 4);
    CountRepeat('0', '1', 4);
  }

  lemma {:induction false} CountRepeat(d: char, c: char, n: nat)
    ensures Count(Repeat(d, n), c) == if c == d then n else 0
  {
    if n > 0 {
      assert Repeat(d, n)[..n - 1] == Repeat(d, n - 1);
      CountRepeat(d, c, n - 1);
    }
  }

  // ---------------------------------------------------------------- runs test

  /** The number of positions i with s[i] != s[i + 1]. */
  function Changes(s: string): (c: nat)
    ensures c == 0 <==> forall i :: 0 <= i < |s| ==> s[i] == s[0]
  {
    if |s| < 2 then 0 else Changes(s[..|s| - 1]) + (if s[|s| - 2] != s[|s| - 1] then 1 else 0)
  }

  /** What `runs_test` computes: 1 + Changes over the concatenation, and ZeroDivisionError
      when it is empty. */
  function RunsScore(bitstrings: seq<string>): (r: Result<TestScore>)
    ensures r.Failure? <==> Concat(bitstrings) == ""
    ensures r.Failure? ==> r.error == ZeroDivisionError
    ensures r.Success? ==> r.value.totalBits == |Concat(bitstrings)|
    ensures r.Success? ==> 1 <= r.value.observed <= r.value.totalBits
  {
    var full := Concat(bitstrings);
    if |full| == 0 then Failure(ZeroDivisionError)
    else
      RunsBounds(full);
      Success(TestScore(1 + Changes(full), |full|))
  }

  /** `runs_test`: start at one run and count one more at every change of bit. */
  method RunsTest(bitstrings: seq<string>) returns (r: Result<TestScore>)
    ensures r == RunsScore(bitstrings)
  {
    var full := Concat(bitstrings);
    var runs := 1;
    var last := if |full| == 0 then 0 else |full| - 1;
    for i := 0 to last
      invariant runs == 1 + Changes(full[..if |full| == 0 then 0 else i + 1])
    {
      assert full[..i + 2][..i + 1] == full[..i + 1];
      if full[i] != full[i + 1] {
        runs := runs + 1;
      }
    }
    assert |full| > 0 ==> full[..last + 1] == full;
    var totalBits := |full|;
    if totalBits == 0 {
      return Failure(ZeroDivisionError);
    }
    return Success(TestScore(runs, totalBits));
  }

  /** For a non-empty string there is at least one run and at most one run per bit. */
  lemma {:induction false} RunsBounds(s: string)
    requires s != ""
    ensures 1 <= 1 + Changes(s) <= |s|
  {
    if |s| >= 2 {
      RunsBounds(s[..|s| - 1]);
    }
  }

  /** The string that a sequence of (character, length) runs spells out. */
  function Expand(runs: seq<(char, nat)>): string
  {
    if runs == [] then "" else Expand(runs[..|runs| - 1]) + Repeat(runs[|runs| - 1].0, runs[|runs| - 1].1)
  }

  /** Maximal runs: none is empty and no two neighbours repeat the same character, checked
      run by run from the left. */
  ghost predicate MaximalRuns(runs: seq<(char, nat)>)
  {
    runs == [] ||
    (MaximalRuns(runs[..|runs| - 1]) && runs[|runs| - 1].1 > 0 &&
     (|runs| == 1 || runs[|runs| - 2].0 != runs[|runs| - 1].0))
  }

  /** The decomposition of s into its maximal runs, built left to right. */
  function RunLengths(s: string): seq<(char, nat)>
  {
    if s == [] then []
    else
      var runs := RunLengths(s[..|s| - 1]);
      var c := s[|s| - 1];
      if runs != [] && runs[|runs| - 1].0 == c then runs[..|runs| - 1] + [(c, runs[|runs| - 1].1 + 1)]
      else runs + [(c, 1)]
  }

  lemma {:induction false} ExpandLast(runs: seq<(char, nat)>)
    requires MaximalRuns(runs) && runs != []
    ensures |Expand(runs)| > 0 && Expand(runs)[|Expand(runs)| - 1] == runs[|runs| - 1].0
  {
  }

  /** Every string has a decomposition into maximal runs. */
  lemma {:induction false} RunLengthsSpell(s: string)
    ensures MaximalRuns(RunLengths(s)) && Expand(RunLengths(s)) == s
    ensures s != [] ==> RunLengths(s) != [] && RunLengths(s)[|RunLengths(s)| - 1].0 == s[|s| - 1]
  {
    if s != [] {
      var init, c := s[..|s| - 1], s[|s| - 1];
      RunLengthsSpell(init);
      var runs := RunLengths(init);
      assert s == init + [c];
      if runs != [] && runs[|runs| - 1].0 == c {
        assert RunLengths(s) == runs[..|runs| - 1] + [(c, runs[|runs| - 1].1 + 1)];
        SameRunStep(runs, init, c);
      } else {
        assert RunLengths(s) == runs + [(c, 1)];
        NewRunStep(runs, init, c);
      }
    }
  }

  /** A next character equal to the last run's lengthens that run. */
  lemma SameRunStep(runs: seq<(char, nat)>, init: string, c: char)
    requires MaximalRuns(runs) && Expand(runs) == init
    requires runs != [] && runs[|runs| - 1].0 == c
    ensures var q := runs[..|runs| - 1] + [(c, runs[|runs| - 1].1 + 1)];
      MaximalRuns(q) && Expand(q) == init + [c] && q[|q| - 1].0 == c
  {
    var p, n := runs[..|runs| - 1], runs[|runs| - 1].1;
    assert runs == p + [(c, n)];
    ExtendLastRun(p, c, n);
  }

  /** A next character different from the last run's starts a new run. */
  lemma NewRunStep(runs: seq<(char, nat)>, init: string, c: char)
    requires MaximalRuns(runs) && Expand(runs) == init
    requires runs == [] || runs[|runs| - 1].0 != c
    ensures MaximalRuns(runs + [(c, 1)]) && Expand(runs + [(c, 1)]) == init + [c]
  {
    ExpandAppend(runs, (c, 1));
    assert Repeat(c, 1) == [c];
    StartNewRun(runs, c);
  }

  lemma ExpandAppend(runs: seq<(char, nat)>, r: (char, nat))
    ensures Expand(runs + [r]) == Expand(runs) + Repeat(r.0, r.1)
  {
    assert (runs + [r])[..|runs|] == runs;
  }

  /** One more character equal to the last run's lengthens that run. */
  lemma ExtendLastRun(p: seq<(char, nat)>, c: char, n: nat)
    requires MaximalRuns(p + [(c, n)])
    ensures MaximalRuns(p + [(c, n + 1)]) && Expand(p + [(c, n + 1)]) == Expand(p + [(c, n)]) + [c]
  {
    ExpandAppend(p, (c, n));
    ExpandAppend(p, (c, n + 1));
    RepeatSnoc(c, n);
    AppendAssoc(Expand(p), Repeat(c, n), c);
    LongerLastRun(p, c, n);
  }

  lemma AppendAssoc(e: string, r: string, c: char)
    ensures e + (r + [c]) == (e + r) + [c]
  {
  }

  lemma RepeatSnoc(c: char, n: nat)
    ensures Repeat(c, n + 1) == Repeat(c, n) + [c]
  {
  }

  /** Lengthening the last run keeps the runs maximal. */
  lemma LongerLastRun(p: seq<(char, nat)>, c: char, n: nat)
    requires MaximalRuns(p + [(c, n)])
    ensures MaximalRuns(p + [(c, n + 1)])
  {
    assert (p + [(c, n)])[..|p|] == p;
    assert (p + [(c, n + 1)])[..|p|] == p;
  }

  /** A character different from the last run's starts a new run of length one. */
  lemma StartNewRun(runs: seq<(char, nat)>, c: char)
    requires MaximalRuns(runs) && (runs == [] || runs[|runs| - 1].0 != c)
    ensures MaximalRuns(runs + [(c, 1)])
  {
    var q := runs + [(c, 1)];
    assert q[..|runs|] == runs;
  }

  lemma {:induction false} ChangesAppendRun(x: string, c: char, n: nat)
    requires n > 0
    ensures Changes(x + Repeat(c, n)) == Changes(x) + (if x != [] && x[|x| - 1] != c then 1 else 0)
  {
    var y := x + Repeat(c, n);
    assert y[..|y| - 1] == if n == 1 then x else x + Repeat(c, n - 1);
    if n > 1 {
      ChangesAppendRun(x, c, n - 1);
    }
  }

  /** `runs_test` counts maximal runs: any decomposition of a non-empty string into maximal
      runs has exactly 1 + Changes(s) runs. */
  lemma {:induction false} RunCountIsMaximalRuns(runs: seq<(char, nat)>)
    requires MaximalRuns(runs) && runs != []
    ensures |runs| == 1 + Changes(Expand(runs))
  {
    var p, c, n := runs[..|runs| - 1], runs[|runs| - 1].0, runs[|runs| - 1].1;
    assert MaximalRuns(p);
    ChangesAppendRun(Expand(p), c, n);
    if p == [] {
      assert Changes(Expand(p)) == 0;
    } else {
      RunCountIsMaximalRuns(p);
      ExpandLast(p);
      assert p[|p| - 1].0 != c by {
        assert runs[|runs| - 2].0 != runs[|runs| - 1].0;
      }
    }
  }

  // ---------------------------------------------------------------- chi-squared test

  /** `{format(i, '08b') for i in range(m)}` */
  function KeySpace(m: nat): set<string>
  {
    set i | 0 <= i < m :: Format08b(i)
  }

  /** The outcome space of `chi_squared_test`: `{format(i, '08b') for i in range(2**n)}`;
      the '08b' width is fixed whatever the number of qubits. */
  function AllKeys(numQubits: nat): set<string>
  {
    KeySpace(Pow2(numQubits))
  }

  /** The outcome space holds 2^n distinct keys. */
  lemma AllKeysSize(numQubits: nat)
    ensures |AllKeys(numQubits)| == Pow2(numQubits)
  {
    KeySpaceSize(Pow2(numQubits));
  }

  /** `set(counts.keys())` */
  function ObservedKeys(counts: Counts): (ks: set<string>)
    ensures ks == {} <==> counts == []
  {
    var ks := set i | 0 <= i < |counts| :: counts[i].0;
    assert counts != [] ==> counts[0].0 in ks;
    ks
  }

  /** One summand: `(observed - expected)**2 / expected`. */
  function Term(observed: real, expected: real): real
    requires expected != 0.0
  {
    (observed - expected) * (observed - expected) / expected
  }

  /** k copies of x added up. */
  function Times(k: nat, x: real): real
  {
    if k == 0 then 0.0 else Times(k - 1, x) + x
  }

  /** k unobserved outcomes at the expected count 62.5 of 1000 shots over 16 outcomes; it
      serves only the four-qubit lemmas below, where a constant factor keeps the sums linear. */
  lemma {:induction false} TimesExpectedFourQubit(k: nat)
    ensures Times(k, 62.5) == k as real * 62.5
  {
    if k > 0 {
      TimesExpectedFourQubit(k - 1);
    }
  }

  /** A zero count contributes the expected count itself. */
  lemma TermOfZero(expected: real)
    requires expected != 0.0
    ensures Term(0.0, expected) == expected
  {
    calc {
      Term(0.0, expected);
      (expected * expected) / expected;
      expected * (expected / expected);
      expected;
    }
  }

  /** `shots / 2**n` is zero exactly for zero shots, and positive otherwise. */
  lemma ExpectedCount(shots: nat, numQubits: nat)
    ensures shots == 0 ==> shots as real / Pow2(numQubits) as real == 0.0
    ensures shots > 0 ==> shots as real / Pow2(numQubits) as real > 0.0
  {
  }

  /** The summand of one count, `(count - e)**2 / e`, as a function of the count. */
  function Terms(expected: real): nat -> real
    requires expected != 0.0
  {
    c => Term(c as real, expected)
  }

  /** t(count) added up over the entries of a counts dictionary. */
  function SumCounts(counts: Counts, t: nat -> real): real
  {
    if counts == [] then 0.0 else SumCounts(counts[..|counts| - 1], t) + t(counts[|counts| - 1].1)
  }

  /** The first loop of `chi_squared_test`, over the observed counts. */
  function ObservedSum(counts: Counts, expected: real): real
    requires expected != 0.0
  {
    SumCounts(counts, Terms(expected))
  }

  /** The statistic for an expected count e: the terms of the observed counts, plus one term
      of a zero count, `(0 - e)**2 / e`, for every key of the outcome space that was not
      observed. */
  function Statistic(counts: Counts, numQubits: nat, expected: real): real
    requires expected != 0.0
  {
    ObservedSum(counts, expected) + Times(|AllKeys(numQubits) - ObservedKeys(counts)|, Term(0.0, expected))
  }

  lemma ObservedSumStep(counts: Counts, j: nat, expected: real)
    requires j < |counts| && expected != 0.0
    ensures ObservedSum(counts[..j + 1], expected)
      == ObservedSum(counts[..j], expected) + Term(counts[j].1 as real, expected)
  {
    assert counts[..j + 1][..j] == counts[..j];
  }

  /** What `chi_squared_test` returns. Zero shots make the expected count zero, and every term
      then divides by it. */
  function ChiSquared(counts: Counts, numQubits: nat, shots: nat): (r: Result<real>)
    ensures r.Failure? <==> shots == 0
    ensures r.Failure? ==> r.error == ZeroDivisionError
  {
    if shots == 0 then Failure(ZeroDivisionError)
    else Success(Statistic(counts, numQubits, shots as real / Pow2(numQubits) as real))
  }

  /** `chi_squared_test`: one loop over the observed counts, one over the unobserved keys. */
  method ChiSquaredTest(counts: Counts, numQubits: nat, shots: nat) returns (r: Result<real>)
    ensures r == ChiSquared(counts, numQubits, shots)
  {
    var possibleOutcomes := Pow2(numQubits);
    var expected := shots as real / possibleOutcomes as real;
    ExpectedCount(shots, numQubits);
    var statistic := 0.0;
    var observedKeys := ObservedKeys(counts);
    var allPossibleKeys := AllKeys(numQubits);
    for j := 0 to |counts|
      invariant shots == 0 ==> j == 0
      invariant shots > 0 ==> statistic == ObservedSum(counts[..j], expected)
    {
      if expected == 0.0 {
        return Failure(ZeroDivisionError);
      }
      var count := counts[j].1 as real;
      ObservedSumStep(counts, j, expected);
      statistic := statistic + Term(count, expected);
    }
    assert counts[..|counts|] == counts;
    var unobservedKeys := allPossibleKeys - observedKeys;
    assert shots == 0 ==> unobservedKeys != {} by {
      if shots == 0 {
        NothingObserved(numQubits);
      }
    }
    r := AddUnobserved(statistic, unobservedKeys, expected);
  }

  /** The second loop of `chi_squared_test`: `(0 - e)**2 / e` once per unobserved key; the
      first of them raises ZeroDivisionError when e is zero. */
  method AddUnobserved(statistic: real, unobservedKeys: set<string>, expected: real)
    returns (r: Result<real>)
    ensures unobservedKeys == {} ==> r == Success(statistic)
    ensures unobservedKeys != {} && expected == 0.0 ==> r == Failure(ZeroDivisionError)
    ensures expected != 0.0 ==>
      r == Success(statistic + Times(|unobservedKeys|, Term(0.0, expected)))
  {
    var sum, keys := statistic, unobservedKeys;
    ghost var done := 0;
    while keys != {}
      invariant done + |keys| == |unobservedKeys|
      invariant expected == 0.0 ==> done == 0 && sum == statistic
      invariant expected != 0.0 ==> sum == statistic + Times(done, Term(0.0, expected))
      decreases |keys|
    {
      if expected == 0.0 {
        return Failure(ZeroDivisionError);
      }
      var key :| key in keys;
      keys := keys - {key};
      sum := sum + Term(0.0, expected);
      done := done + 1;
    }
    return Success(sum);
  }

  /** With nothing observed, every key of the outcome space is unobserved. */
  lemma NothingObserved(numQubits: nat)
    ensures |AllKeys(numQubits) - ObservedKeys([])| > 0
  {
    assert Format08b(0) in AllKeys(numQubits) - ObservedKeys([]);
  }

  // -- the statistic summed over the whole outcome space

  /** The count recorded for an outcome, 0 when it was not observed. */
  function CountOf(counts: Counts, key: string): nat
  {
    if counts == [] then 0
    else if counts[|counts| - 1].0 == key then counts[|counts| - 1].1
    else CountOf(counts[..|counts| - 1], key)
  }

  /** f(0) + ... + f(m - 1) */
  function SumBelow(f: nat -> real, m: nat): real
  {
    if m == 0 then 0.0 else SumBelow(f, m - 1) + f(m - 1)
  }

  lemma {:induction false} SumBelowConstant(f: nat -> real, c: real, m: nat)
    requires forall i: nat :: i < m ==> f(i) == c
    ensures SumBelow(f, m) == Times(m, c)
  {
    if m > 0 {
      SumBelowConstant(f, c, m - 1);
    }
  }

  /** Two summands that agree everywhere below m except at j differ by the summand at j. */
  lemma {:induction false} SumBelowUpdate(f: nat -> real, g: nat -> real, j: nat, m: nat)
    requires forall i: nat :: i < m && i != j ==> f(i) == g(i)
    ensures SumBelow(f, m) == if j < m then SumBelow(g, m) - g(j) + f(j) else SumBelow(g, m)
  {
    if m > 0 {
      SumBelowUpdate(f, g, j, m - 1);
    }
  }

  /** t of the recorded count of outcome format(i, '08b') (0 when unobserved). */
  function OutcomeTerms(counts: Counts, t: nat -> real): nat -> real
  {
    (i: nat) => t(CountOf(counts, Format08b(i)))
  }

  /** Sum over the outcomes format(i, '08b'), i < m, of the term of their count. */
  function AllOutcomesSum(counts: Counts, expected: real, m: nat): real
    requires expected != 0.0
  {
    SumBelow(OutcomeTerms(counts, Terms(expected)), m)
  }

  lemma {:induction false} KeySpaceSize(m: nat)
    ensures |KeySpace(m)| == m
  {
    if m > 0 {
      KeySpaceSize(m - 1);
      KeySpaceGrows(m);
    }
  }

  /** The key space for m outcomes adds one new key to that for m - 1. */
  lemma KeySpaceGrows(m: nat)
    requires m > 0
    ensures KeySpace(m) == KeySpace(m - 1) + {Format08b(m - 1)}
    ensures Format08b(m - 1) !in KeySpace(m - 1)
  {
    assert KeySpace(m) == KeySpace(m - 1) + {Format08b(m - 1)};
    forall i | 0 <= i < m - 1 ensures Format08b(i) != Format08b(m - 1) {
      if Format08b(i) == Format08b(m - 1) {
        Format08bInjective(i, m - 1);
      }
    }
  }

  lemma {:induction false} CountOfUnobserved(counts: Counts, key: string)
    requires key !in ObservedKeys(counts)
    ensures CountOf(counts, key) == 0
  {
    if counts != [] {
      var init := counts[..|counts| - 1];
      assert counts[|counts| - 1].0 in ObservedKeys(counts);
      assert ObservedKeys(init) <= ObservedKeys(counts) by {
        forall k | k in ObservedKeys(init) ensures k in ObservedKeys(counts) {
          var i :| 0 <= i < |init| && init[i].0 == k;
          assert counts[i].0 == k;
        }
      }
      CountOfUnobserved(init, key);
    }
  }

  lemma Format08bInjective(i: nat, j: nat)
    requires Format08b(i) == Format08b(j)
    ensures i == j
  {
    Format08bValue(i);
    Format08bValue(j);
  }

  /** Appending the count of a new key changes the sum over the outcome space only at that
      key, whatever the summand t. */
  lemma OutcomeSumUpdate(counts: Counts, key: string, count: nat, t: nat -> real, m: nat)
    requires key !in ObservedKeys(counts)
    ensures key in KeySpace(m) ==>
      SumBelow(OutcomeTerms(counts + [(key, count)], t), m)
        == SumBelow(OutcomeTerms(counts, t), m) - t(0) + t(count)
    ensures key !in KeySpace(m) ==>
      SumBelow(OutcomeTerms(counts + [(key, count)], t), m) == SumBelow(OutcomeTerms(counts, t), m)
  {
    var extended := counts + [(key, count)];
    assert extended[..|extended| - 1] == counts;
    var f, g := OutcomeTerms(extended, t), OutcomeTerms(counts, t);
    var j: nat := m;
    if key in KeySpace(m) {
      j :| j < m && Format08b(j) == key;
      CountOfUnobserved(counts, key);
      assert CountOf(extended, key) == count;
      assert f(j) == t(CountOf(extended, key));
      assert g(j) == t(CountOf(counts, key));
    }
    forall i: nat | i < m && i != j ensures f(i) == g(i) {
      assert Format08b(i) in KeySpace(m);
      if Format08b(i) == key {
        Format08bInjective(i, j);
      }
      assert CountOf(extended, Format08b(i)) == CountOf(counts, Format08b(i));
    }
    SumBelowUpdate(f, g, j, m);
  }

  /** The observed keys of a dictionary grown by one entry. */
  lemma ObservedKeysAppend(counts: Counts, key: string, count: nat)
    ensures ObservedKeys(counts + [(key, count)]) == ObservedKeys(counts) + {key}
  {
    var extended := counts + [(key, count)];
    forall k | k in ObservedKeys(extended) ensures k in ObservedKeys(counts) + {key} {
      var i :| 0 <= i < |extended| && extended[i].0 == k;
      if i < |counts| { assert counts[i].0 == k; }
    }
    forall k | k in ObservedKeys(counts) ensures k in ObservedKeys(extended) {
      var i :| 0 <= i < |counts| && counts[i].0 == k;
      assert extended[i].0 == k;
    }
    assert extended[|counts|].0 == key;
  }

  /** The observed summands plus t(0) per unobserved key of KeySpace(m) add up to the sum
      over the whole of KeySpace(m), whatever the summand t. */
  lemma {:induction false} ObservedPlusMissing(counts: Counts, t: nat -> real, m: nat)
    requires DistinctKeys(counts)
    requires ObservedKeys(counts) <= KeySpace(m)
    ensures SumCounts(counts, t) + Times(|KeySpace(m) - ObservedKeys(counts)|, t(0))
      == SumBelow(OutcomeTerms(counts, t), m)
  {
    if counts == [] {
      ObservedPlusMissingBase(t, m);
    } else {
      var init, key, count := counts[..|counts| - 1], counts[|counts| - 1].0, counts[|counts| - 1].1;
      assert counts == init + [(key, count)];
      LastEntry(counts, KeySpace(m));
      ObservedPlusMissing(init, t, m);
      ObservedPlusMissingStep(init, key, count, t, m);
    }
  }

  /** Splitting the last entry off a dictionary with distinct keys drawn from `space`. */
  lemma LastEntry(counts: Counts, space: set<string>)
    requires counts != [] && DistinctKeys(counts) && ObservedKeys(counts) <= space
    ensures var init, key := counts[..|counts| - 1], counts[|counts| - 1].0;
      key !in ObservedKeys(init) && key in space && DistinctKeys(init) && ObservedKeys(init) <= space
  {
    var init, key, count := counts[..|counts| - 1], counts[|counts| - 1].0, counts[|counts| - 1].1;
    assert counts == init + [(key, count)];
    ObservedKeysAppend(init, key, count);
    forall i | 0 <= i < |init| ensures init[i].0 != key {
      assert counts[i].0 != counts[|counts| - 1].0;
    }
  }

  /** The base case of ObservedPlusMissing: nothing observed. */
  lemma ObservedPlusMissingBase(t: nat -> real, m: nat)
    ensures SumCounts([], t) + Times(|KeySpace(m) - ObservedKeys([])|, t(0))
      == SumBelow(OutcomeTerms([], t), m)
  {
    forall i: nat | i < m ensures OutcomeTerms([], t)(i) == t(0) {
      assert CountOf([], Format08b(i)) == 0;
    }
    SumBelowConstant(OutcomeTerms([], t), t(0), m);
    KeySpaceSize(m);
    assert KeySpace(m) - ObservedKeys([]) == KeySpace(m);
  }

  /** The inductive step of ObservedPlusMissing: one more observed key. */
  lemma ObservedPlusMissingStep(init: Counts, key: string, count: nat, t: nat -> real, m: nat)
    requires key !in ObservedKeys(init) && key in KeySpace(m)
    requires SumCounts(init, t) + Times(|KeySpace(m) - ObservedKeys(init)|, t(0))
      == SumBelow(OutcomeTerms(init, t), m)
    ensures SumCounts(init + [(key, count)], t)
        + Times(|KeySpace(m) - ObservedKeys(init + [(key, count)])|, t(0))
      == SumBelow(OutcomeTerms(init + [(key, count)], t), m)
  {
    var counts := init + [(key, count)];
    var before := |KeySpace(m) - ObservedKeys(init)|;
    var after := |KeySpace(m) - ObservedKeys(counts)|;
    assert before == after + 1 by {
      MissingShrinks(init, key, count, m);
    }
    assert Times(before, t(0)) == Times(after, t(0)) + t(0);
    assert SumCounts(counts, t) == SumCounts(init, t) + t(count) by {
      assert counts[..|counts| - 1] == init;
    }
    OutcomeSumUpdate(init, key, count, t, m);
  }

  /** Observing one more key of the key space leaves one unobserved key fewer. */
  lemma MissingShrinks(counts: Counts, key: string, count: nat, m: nat)
    requires key !in ObservedKeys(counts) && key in KeySpace(m)
    ensures |KeySpace(m) - ObservedKeys(counts + [(key, count)])| + 1 == |KeySpace(m) - ObservedKeys(counts)|
  {
    ObservedKeysAppend(counts, key, count);
    var before := KeySpace(m) - ObservedKeys(counts);
    var after := KeySpace(m) - ObservedKeys(counts + [(key, count)]);
    assert after == before - {key};
    assert before == after + {key};
  }

  /** The decomposition: when the keys are distinct outcomes of the key space, the statistic
      of `chi_squared_test` is the sum over all 2^n outcomes of (count - e)^2 / e, an
      unobserved outcome counting 0. */
  lemma ChiSquaredOverAllOutcomes(counts: Counts, numQubits: nat, shots: nat)
    requires shots > 0 && DistinctKeys(counts)
    requires ObservedKeys(counts) <= AllKeys(numQubits)
    ensures ChiSquared(counts, numQubits, shots)
      == Success(AllOutcomesSum(counts, shots as real / Pow2(numQubits) as real, Pow2(numQubits)))
  {
    var e := shots as real / Pow2(numQubits) as real;
    assert e != 0.0 by { ExpectedCount(shots, numQubits); }
    assert ChiSquared(counts, numQubits, shots) == Success(Statistic(counts, numQubits, e));
    StatisticOverAllOutcomes(counts, numQubits, e);
  }

  lemma StatisticOverAllOutcomes(counts: Counts, numQubits: nat, expected: real)
    requires expected != 0.0 && DistinctKeys(counts)
    requires ObservedKeys(counts) <= AllKeys(numQubits)
    ensures Statistic(counts, numQubits, expected) == AllOutcomesSum(counts, expected, Pow2(numQubits))
  {
    ObservedPlusMissing(counts, Terms(expected), Pow2(numQubits));
    assert Terms(expected)(0) == Term(0.0, expected);
  }

  // -- values of the statistic

  /** A term is never negative, and it is zero exactly when the count is the expected one. */
  lemma TermNonNegative(observed: real, expected: real)
    requires expected > 0.0
    ensures Term(observed, expected) >= 0.0
    ensures Term(observed, expected) == 0.0 <==> observed == expected
  {
    SquareOverPositive(observed - expected, expected);
  }

  lemma SquareOverPositive(d: real, e: real)
    requires e > 0.0
    ensures d * d / e >= 0.0
    ensures d * d / e == 0.0 <==> d == 0.0
  {
    if d > 0.0 {
      ProductOverPositive(d, d, e);
    } else if d < 0.0 {
      ProductOverPositive(-d, -d, e);
      assert (-d) * (-d) == d * d;
    }
  }

  lemma ProductOverPositive(x: real, y: real, e: real)
    requires x > 0.0 && y > 0.0 && e > 0.0
    ensures x * y / e > 0.0
  {
    var p := x * y;
    assert p > 0.0;
    var q := p / e;
    assert q * e == p;
  }

  lemma {:induction false} ObservedSumZero(counts: Counts, expected: real)
    requires expected > 0.0
    ensures ObservedSum(counts, expected) >= 0.0
    ensures ObservedSum(counts, expected) == 0.0 <==>
      forall i :: 0 <= i < |counts| ==> counts[i].1 as real == expected
  {
    if counts != [] {
      var init := counts[..|counts| - 1];
      ObservedSumZero(init, expected);
      TermNonNegative(counts[|counts| - 1].1 as real, expected);
      if ObservedSum(counts, expected) == 0.0 {
        forall i | 0 <= i < |counts| ensures counts[i].1 as real == expected {
          if i < |init| { assert init[i] == counts[i]; }
        }
      }
      if forall i :: 0 <= i < |counts| ==> counts[i].1 as real == expected {
        assert forall i :: 0 <= i < |init| ==> init[i].1 as real == expected by {
          forall i | 0 <= i < |init| ensures init[i].1 as real == expected {
            assert init[i] == counts[i];
          }
        }
      }
    }
  }

  lemma {:induction false} TimesPositive(k: nat, x: real)
    requires x > 0.0
    ensures Times(k, x) >= 0.0
    ensures Times(k, x) == 0.0 <==> k == 0
  {
    if k > 0 {
      TimesPositive(k - 1, x);
    }
  }

  lemma EmptyDifference(a: set<string>, b: set<string>)
    ensures |a - b| == 0 <==> a <= b
  {
    if |a - b| == 0 {
      assert a - b == {};
      forall x | x in a ensures x in b {
        assert x !in a - b;
      }
    } else {
      var x :| x in a - b;
    }
  }

  /** The statistic is never negative, and it is zero exactly when every outcome of the key
      space was observed and every observed count equals the expected count. */
  lemma ChiSquaredZeroIff(counts: Counts, numQubits: nat, shots: nat)
    requires shots > 0
    ensures ChiSquared(counts, numQubits, shots).Success?
    ensures ChiSquared(counts, numQubits, shots).value >= 0.0
    ensures ChiSquared(counts, numQubits, shots).value == 0.0 <==>
      AllKeys(numQubits) <= ObservedKeys(counts) &&
      forall i :: 0 <= i < |counts| ==> counts[i].1 as real == shots as real / Pow2(numQubits) as real
  {
    var e := shots as real / Pow2(numQubits) as real;
    assert e > 0.0 by { ExpectedCount(shots, numQubits); }
    assert ChiSquared(counts, numQubits, shots) == Success(Statistic(counts, numQubits, e));
    StatisticZeroIff(counts, numQubits, e);
  }

  lemma StatisticZeroIff(counts: Counts, numQubits: nat, expected: real)
    requires expected > 0.0
    ensures Statistic(counts, numQubits, expected) >= 0.0
    ensures Statistic(counts, numQubits, expected) == 0.0 <==>
      AllKeys(numQubits) <= ObservedKeys(counts) &&
      forall i :: 0 <= i < |counts| ==> counts[i].1 as real == expected
  {
    var missing := |AllKeys(numQubits) - ObservedKeys(counts)|;
    ObservedSumZero(counts, expected);
    TermOfZero(expected);
    TimesPositive(missing, Term(0.0, expected));
    EmptyDifference(AllKeys(numQubits), ObservedKeys(counts));
  }

  /** With the pipeline's arguments (8 qubits, 1000 shots) the expected count 1000/256 is not
      a whole number, so no counts dictionary scores 0. */
  lemma ChiSquaredPositiveForPipeline(counts: Counts)
    ensures ChiSquared(counts, 8, 1000).Success? && ChiSquared(counts, 8, 1000).value > 0.0
  {
    var e := 1000.0 / 256.0;
    assert Pow2(8) == 256;
    assert ChiSquared(counts, 8, 1000) == Success(Statistic(counts, 8, e));
    StatisticZeroIff(counts, 8, e);
    if Statistic(counts, 8, e) == 0.0 {
      assert Format08b(0) in AllKeys(8);
      assert counts != [];
      NotAWholeCount(counts[0].1);
      assert false;
    }
  }

  /** 1000 / 256 = 3.90625 is not a whole number of shots. */
  lemma NotAWholeCount(c: nat)
    ensures c as real != 1000.0 / 256.0
  {
    assert 1000.0 / 256.0 == 3.90625;
    if c <= 3 {
      assert c as real <= 3.0;
    } else {
      assert c as real >= 4.0;
    }
  }

  /** The '08b' key space does not depend on the width of the outcomes: with 4 qubits and
      1000 shots in one outcome, a 4-digit outcome "0000" is not in the key space, so all 16
      keys count as unobserved (14062.5 + 16 * 62.5), while "00000000" is key 0 of it
      (14062.5 + 15 * 62.5). */
  lemma ChiSquaredFourQubitVectors()
    ensures ChiSquared([("0000", 1000)], 4, 1000) == Success(15062.5)
    ensures ChiSquared([("00000000", 1000)], 4, 1000) == Success(15000.0)
  {
    FourQubitNarrowKey();
    FourQubitWideKey();
  }

  /** 1000 shots over 16 outcomes: expected count 62.5, and a term of 14062.5 for 1000. */
  lemma FourQubitExpected()
    ensures 1000 as real / Pow2(4) as real == 62.5
    ensures Term(1000.0, 62.5) == 14062.5
    ensures |AllKeys(4)| == 16
  {
    assert Pow2(4) == 16;
    KeySpaceSize(16);
  }

  lemma FourQubitNarrowKey()
    ensures ChiSquared([("0000", 1000)], 4, 1000) == Success(15062.5)
  {
    var all := AllKeys(4);
    assert |all - {"0000"}| == 16 by {
      FourQubitExpected();
      assert "0000" !in all by {
        forall i | 0 <= i < Pow2(4) ensures Format08b(i) != "0000" {
          Format08bValue(i);
        }
      }
      assert all - {"0000"} == all;
    }
    FourQubitChi("0000", 16);
    TimesExpectedFourQubit(16);
  }

  lemma FourQubitWideKey()
    ensures ChiSquared([("00000000", 1000)], 4, 1000) == Success(15000.0)
  {
    var all := AllKeys(4);
    assert |all - {"00000000"}| == 15 by {
      FourQubitExpected();
      assert "00000000" in all by {
        Format08bZero();
      }
      RemoveOne(all, "00000000");
    }
    FourQubitChi("00000000", 15);
    TimesExpectedFourQubit(15);
  }

  /** 1000 shots of one outcome over 4 qubits, with k keys of the key space unobserved. */
  lemma FourQubitChi(key: string, k: nat)
    requires |AllKeys(4) - {key}| == k
    ensures ChiSquared([(key, 1000)], 4, 1000) == Success(14062.5 + Times(k, 62.5))
  {
    assert ChiSquared([(key, 1000)], 4, 1000) == Success(Statistic([(key, 1000)], 4, 62.5)) by {
      FourQubitExpected();
    }
    assert Term(1000.0, 62.5) == 14062.5 by {
      FourQubitExpected();
    }
    OneOutcomeStatistic(key, 1000, 4, 62.5);
  }

  lemma Format08bZero()
    ensures Format08b(0) == "00000000"
  {
    assert Binary(0) == "0";
  }

  lemma RemoveOne(keys: set<string>, key: string)
    requires key in keys
    ensures |keys - {key}| == |keys| - 1
  {
    assert keys == (keys - {key}) + {key};
  }

  /** The statistic of a counts dictionary with a single outcome. */
  lemma OneOutcomeStatistic(key: string, count: nat, numQubits: nat, e: real)
    requires e != 0.0
    ensures Statistic([(key, count)], numQubits, e)
      == Term(count as real, e) + Times(|AllKeys(numQubits) - {key}|, e)
  {
    var counts := [(key, count)];
    assert ObservedKeys(counts) == {key} by {
      ObservedKeysAppend([], key, count);
      assert [] + [(key, count)] == counts;
    }
    assert ObservedSum(counts, e) == Term(count as real, e) by {
      assert counts[..0] == [];
      assert SumCounts(counts, Terms(e)) == SumCounts([], Terms(e)) + Terms(e)(count);
      assert Terms(e)(count) == Term(count as real, e);
    }
    TermOfZero(e);
  }

  // ---------------------------------------------------------------- min-entropy's max_prob

  /** `sum(counts.values())` */
  function Total(counts: Counts): (t: nat)
    ensures forall i :: 0 <= i < |counts| ==> counts[i].1 <= t
  {
    if counts == [] then 0 else Total(counts[..|counts| - 1]) + counts[|counts| - 1].1
  }

  /** `max(counts.values())` of a non-empty dictionary. */
  function MaxCount(counts: Counts): (m: nat)
    requires counts != []
    ensures exists i :: 0 <= i < |counts| && counts[i].1 == m
    ensures forall i :: 0 <= i < |counts| ==> counts[i].1 <= m
  {
    if |counts| == 1 then counts[0].1
    else
      var m := MaxCount(counts[..|counts| - 1]);
      if counts[|counts| - 1].1 > m then counts[|counts| - 1].1 else m
  }

  /** `max_prob = max(counts.values()) / total` in `min_entropy`: `max` of no values raises
      ValueError, a zero total raises ZeroDivisionError. */
  function MaxProbability(counts: Counts): (r: Result<real>)
    ensures r.Failure? <==> Total(counts) == 0
    ensures counts == [] ==> r == Failure(ValueError)
    ensures counts != [] && Total(counts) == 0 ==> r == Failure(ZeroDivisionError)
  {
    if counts == [] then Failure(ValueError)
    else if Total(counts) == 0 then Failure(ZeroDivisionError)
    else Success(MaxCount(counts) as real / Total(counts) as real)
  }

  lemma {:induction false} MaxCountBounds(counts: Counts)
    requires counts != []
    ensures MaxCount(counts) <= Total(counts)
    ensures MaxCount(counts) * |counts| >= Total(counts)
    ensures Total(counts) > 0 ==> MaxCount(counts) > 0
  {
    if |counts| > 1 {
      var init := counts[..|counts| - 1];
      MaxCountBounds(init);
      assert Total(counts) == Total(init) + counts[|counts| - 1].1;
      MaxStep(MaxCount(init), MaxCount(counts), counts[|counts| - 1].1, |init|, Total(init));
    }
  }

  /** One more count c, with a maximum mm at least the old maximum m and at least c. */
  lemma MaxStep(m: nat, mm: nat, c: nat, k: nat, t: nat)
    requires m * k >= t && m <= mm && c <= mm
    ensures mm * (k + 1) >= t + c
  {
    MulMonotone(m, mm, k);
  }

  lemma MulMonotone(a: nat, b: nat, k: nat)
    requires a <= b
    ensures a * k <= b * k
  {
  }

  /** The most likely outcome has a probability in (0, 1] and at least 1 / (number of
      distinct outcomes), so min-entropy lies in [0, log2 |counts|]. */
  lemma MaxProbabilityBounds(counts: Counts)
    requires MaxProbability(counts).Success?
    ensures 0.0 < MaxProbability(counts).value <= 1.0
    ensures MaxProbability(counts).value * |counts| as real >= 1.0
  {
    MaxCountBounds(counts);
    RatioBounds(MaxCount(counts), Total(counts), |counts|);
  }

  /** For 0 < m <= t <= m k, the ratio m / t is in (0, 1] and at least 1 / k. */
  lemma RatioBounds(m: nat, t: nat, k: nat)
    requires 0 < m <= t && m * k >= t
    ensures 0.0 < m as real / t as real <= 1.0 && (m as real / t as real) * k as real >= 1.0
  {
    var mr, tr, kr := m as real, t as real, k as real;
    assert mr * kr >= tr by {
      assert (m * k) as real == mr * kr;
    }
    var q := mr / tr;
    assert q * tr == mr;
    assert q * kr * tr == mr * kr;
  }
}
