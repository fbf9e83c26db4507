/** The BabyRSA solver: bind the first nine numeric tokens of the challenge
    output to N, e, ct, a, b, c, d, x, y; recover the primes p and q from the
    linear relations a*p + b*q = x and c*p + d*q = y by Cramer's rule, refusing
    a singular or non-integral solution; check p * q == N; then derive the
    private exponent from the totient and decrypt ct into its minimal
    big-endian bytes. */
module Solve {
  import opened Results
  import opened NumberTheory
  import opened PyInt
  import opened Tokens

  /** The named integers of the challenge output. */
  datatype Values = Values(n: int, e: int, ct: int, a: int, b: int, c: int, d: int, x: int, y: int)

  /** The values in the order of the key list: N, e, ct, a, b, c, d, x, y. */
  function Fields(v: Values): seq<int> {
    [v.n, v.e, v.ct, v.a, v.b, v.c, v.d, v.x, v.y]
  }

  /** Number of names to bind. */
  const KeyCount: nat := 9

  /** The integers of the numeric tokens of text, in textual order. */
  function Numbers(text: string): seq<nat> {
    var runs := DigitRuns(text);
    seq(|runs|, j requires 0 <= j < |runs| => DecimalValue(runs[j]))
  }

  /** parse_values on text already read: fewer than nine tokens is an error,
      otherwise the first nine are bound to the names in key order and any
      further tokens are ignored. */
  function ParseValues(text: string): (r: Result<Values>)
    ensures r.Err? <==> |DigitRuns(text)| < KeyCount
    ensures r.Err? ==> r.error == InsufficientData
    ensures r.Ok? ==> Fields(r.value) == Numbers(text)[..KeyCount]
    ensures r.Ok? ==> forall j :: 0 <= j < KeyCount ==> Fields(r.value)[j] >= 0
  {
    var nums := Numbers(text);
    if |nums| < KeyCount then Err(InsufficientData)
    else Ok(Values(nums[0], nums[1], nums[2], nums[3], nums[4], nums[5], nums[6], nums[7], nums[8]))
  }

  /** Whatever separators surround the numerals of a text, parsing binds the
      value of the j-th numeral to the j-th name, or fails when there are
      fewer than nine numerals. */
  lemma ParseSeparated(gaps: seq<string>, runs: seq<string>)
    requires Separated(gaps, runs)
    ensures |runs| < KeyCount ==> ParseValues(Interleave(gaps, runs)) == Err(InsufficientData)
    ensures |runs| >= KeyCount ==>
              && ParseValues(Interleave(gaps, runs)).Ok?
              && forall j :: 0 <= j < KeyCount ==>
                   Fields(ParseValues(Interleave(gaps, runs)).value)[j] == DecimalValue(runs[j])
  {
    DigitRunsUnique(gaps, runs);
  }

  /** Determinant of the coefficient matrix [[a, b], [c, d]]. */
  function Det(v: Values): int {
    v.a * v.d - v.b * v.c
  }

  /** (p, q) satisfies both linear relations. */
  predicate Solves(v: Values, p: int, q: int) {
    v.a * p + v.b * q == v.x && v.c * p + v.d * q == v.y
  }

  /** recover_primes: Cramer's rule over exact rationals. Python's
      Fraction(n, det) has denominator 1 exactly when det divides n,
      and then int() of it is the exact quotient. */
  function RecoverPrimes(v: Values): (r: Result<(int, int)>)
    ensures r == Err(SingularSystem) <==> Det(v) == 0
    ensures r == Err(NonIntegral) <==>
              Det(v) != 0 && ((v.x * v.d - v.b * v.y) % Det(v) != 0 || (v.a * v.y - v.x * v.c) % Det(v) != 0)
    ensures r.Err? ==> r.error == SingularSystem || r.error == NonIntegral
    ensures r.Ok? ==> Solves(v, r.value.0, r.value.1)
  {
    var det := Det(v);
    if det == 0 then Err(SingularSystem)
    else
      var pNum, qNum := v.x * v.d - v.b * v.y, v.a * v.y - v.x * v.c;
      if pNum % det != 0 || qNum % det != 0 then Err(NonIntegral)
      else
        var p, q := pNum / det, qNum / det;
        CramerSolves(v, p, q);
        Ok((p, q))
  }

  lemma MulCancel(k: int, u: int, w: int)
    requires k != 0 && k * u == k * w
    ensures u == w
  {
    assert k * (u - w) == 0;
  }

  /** The Cramer quotients, when exact, satisfy both relations. */
  lemma CramerSolves(v: Values, p: int, q: int)
    requires Det(v) != 0
    requires Det(v) * p == v.x * v.d - v.b * v.y && Det(v) * q == v.a * v.y - v.x * v.c
    ensures Solves(v, p, q)
  {
    var det, a, b, c, d, x, y := Det(v), v.a, v.b, v.c, v.d, v.x, v.y;
    assert det * (a * p + b * q) == a * (det * p) + b * (det * q);
    assert a * (x * d - b * y) + b * (a * y - x * c) == det * x;
    MulCancel(det, a * p + b * q, x);
    assert det * (c * p + d * q) == c * (det * p) + d * (det * q);
    assert c * (x * d - b * y) + d * (a * y - x * c) == det * y;
    MulCancel(det, c * p + d * q, y);
  }

  /** Every integer solution is the Cramer one: det * p and det * q are the Cramer numerators. */
  lemma SolutionIsCramer(v: Values, p: int, q: int)
    requires Solves(v, p, q)
    ensures Det(v) * p == v.x * v.d - v.b * v.y
    ensures Det(v) * q == v.a * v.y - v.x * v.c
  {
    var a, b, c, d := v.a, v.b, v.c, v.d;
    assert (a * p + b * q) * d - b * (c * p + d * q) == (a * d - b * c) * p;
    assert a * (c * p + d * q) - (a * p + b * q) * c == (a * d - b * c) * q;
  }

  /** With a non-singular matrix, recover_primes finds every integer solution,
      and the solution it returns is the only one. */
  lemma RecoverPrimesComplete(v: Values, p: int, q: int)
    requires Det(v) != 0 && Solves(v, p, q)
    ensures RecoverPrimes(v) == Ok((p, q))
  {
    SolutionIsCramer(v, p, q);
    DivExact(Det(v), p);
    DivExact(Det(v), q);
  }

  /** Round trip: feeding x = a*p + b*q and y = c*p + d*q gives back exactly (p, q). */
  lemma RecoverPrimesRoundTrip(v: Values, p: int, q: int)
    requires Det(v) != 0
    ensures RecoverPrimes(v.(x := v.a * p + v.b * q, y := v.c * p + v.d * q)) == Ok((p, q))
  {
    RecoverPrimesComplete(v.(x := v.a * p + v.b * q, y := v.c * p + v.d * q), p, q);
  }

  /** A non-integral quotient is reported, never rounded: then no integer pair solves the system. */
  lemma NonIntegralMeansNoSolution(v: Values, p: int, q: int)
    requires RecoverPrimes(v) == Err(NonIntegral)
    ensures !Solves(v, p, q)
  {
    if Solves(v, p, q) {
      RecoverPrimesComplete(v, p, q);
      assert false;
    }
  }

  /** Euler's totient of N = p * q for primes p and q. */
  function Totient(p: int, q: int): int {
    (p - 1) * (q - 1)
  }

  /** rsa_decrypt: phi = (p - 1)(q - 1), d_key = pow(e, -1, phi),
      m = pow(ct, d_key, N), and m as (m.bit_length() + 7) // 8 big-endian bytes. */
  function RsaDecrypt(v: Values, p: int, q: int): Result<seq<byte>> {
    var phi := Totient(p, q);
    var dKey :- PowMod3(v.e, -1, phi);
    var m :- PowMod3(v.ct, dKey, v.n);
    ToBytes(m, MinimalLength(Abs(m)))
  }

  /** Decryption is the composition of its three steps: whatever pow gives for the
      private exponent and the plaintext, the result is the plaintext's minimal bytes. */
  lemma RsaDecryptSteps(v: Values, p: int, q: int, dKey: int, m: int)
    requires PowMod3(v.e, -1, Totient(p, q)) == Ok(dKey)
    requires PowMod3(v.ct, dKey, v.n) == Ok(m)
    ensures RsaDecrypt(v, p, q) == ToBytes(m, MinimalLength(Abs(m)))
  {
  }

  /** pow(e, -1, phi) for phi > 1 is the private exponent: the inverse of e modulo phi,
      or a ValueError exactly when e and phi are not coprime. */
  lemma PrivateExponent(e: int, phi: int)
    requires phi > 1
    ensures PowMod3(e, -1, phi).Ok? <==> Gcd(e % phi, phi) == 1
    ensures PowMod3(e, -1, phi).Err? ==> PowMod3(e, -1, phi).error == NotInvertible
    ensures PowMod3(e, -1, phi).Ok? ==> IsInverse(e, PowMod3(e, -1, phi).value, phi)
  {
    var r := PowMod3(e, -1, phi);
    PowMod3Value(e, -1, phi);
    assert Pow(e, 1) == e;
    if r.Ok? {
      assert r.value * e == e * r.value;
    }
  }

  /** Decryption with a positive modulus and a totient above one succeeds exactly when
      e is invertible modulo phi; the bytes are then ct^d_key mod N for the private
      exponent d_key, in minimal big-endian form. */
  lemma RsaDecryptCorrect(v: Values, p: int, q: int)
    requires v.n > 0 && Totient(p, q) > 1
    ensures RsaDecrypt(v, p, q).Ok? <==> Gcd(v.e % Totient(p, q), Totient(p, q)) == 1
    ensures RsaDecrypt(v, p, q).Err? ==> RsaDecrypt(v, p, q).error == NotInvertible
    ensures RsaDecrypt(v, p, q).Ok? ==>
              exists dKey :: IsInverse(v.e, dKey, Totient(p, q)) &&
                             FromBytesBE(RsaDecrypt(v, p, q).value) == Pow(v.ct, dKey) % v.n
    ensures RsaDecrypt(v, p, q).Ok? ==>
              FromBytesBE(RsaDecrypt(v, p, q).value) < v.n && NoLeadingZero(RsaDecrypt(v, p, q).value)
  {
    var phi := Totient(p, q);
    PrivateExponent(v.e, phi);
    var dk := PowMod3(v.e, -1, phi);
    if dk.Ok? {
      PowMod3Value(v.ct, dk.value, v.n);
      var m := PowMod3(v.ct, dk.value, v.n).value;
      MinimalEncoding(m);
      assert RsaDecrypt(v, p, q) == ToBytes(m, MinimalLength(m));
    }
  }

  /** Decryption never succeeds with a zero totient or a zero modulus, and whatever
      it returns has no leading zero byte and lies below |N|. */
  lemma RsaDecryptErrors(v: Values, p: int, q: int)
    ensures Totient(p, q) == 0 ==> RsaDecrypt(v, p, q) == Err(ZeroModulus)
    ensures v.n == 0 ==> RsaDecrypt(v, p, q).Err?
    ensures RsaDecrypt(v, p, q).Ok? ==>
              FromBytesBE(RsaDecrypt(v, p, q).value) < Abs(v.n) && NoLeadingZero(RsaDecrypt(v, p, q).value)
  {
    var dk := PowMod3(v.e, -1, Totient(p, q));
    if dk.Ok? {
      var mr := PowMod3(v.ct, dk.value, v.n);
      if mr.Ok? && mr.value >= 0 {
        MinimalEncoding(mr.value);
      }
    }
  }

  /** main, after reading the file: parse, recover the primes, halt unless
      p * q == N, then decrypt. */
  function Run(text: string): (r: Result<seq<byte>>)
    ensures r == Err(InsufficientData) <==> |DigitRuns(text)| < KeyCount
    ensures r == Err(PrimesMismatch) <==>
              && ParseValues(text).Ok?
              && RecoverPrimes(ParseValues(text).value).Ok?
              && var (p, q) := RecoverPrimes(ParseValues(text).value).value;
                 p * q != ParseValues(text).value.n
    ensures ParseValues(text).Ok? && RecoverPrimes(ParseValues(text).value).Err? ==>
              r == Err(RecoverPrimes(ParseValues(text).value).error)
    ensures r.Ok? ==>
              && ParseValues(text).Ok?
              && RecoverPrimes(ParseValues(text).value).Ok?
              && var (p, q) := RecoverPrimes(ParseValues(text).value).value;
                 && p * q == ParseValues(text).value.n
                 && r == RsaDecrypt(ParseValues(text).value, p, q)
  {
    var v :- ParseValues(text);
    var pq :- RecoverPrimes(v);
    var (p, q) := pq;
    if p * q != v.n then Err(PrimesMismatch)
    else
      RsaDecryptErrorKinds(v, p, q);
      RsaDecrypt(v, p, q)
  }

  /** Once the text parses to v and (p, q) solves v's non-singular system, the
      pipeline's outcome is decided by the check p * q == N alone. */
  lemma RunParsed(text: string, v: Values, p: int, q: int)
    requires ParseValues(text) == Ok(v) && Det(v) != 0 && Solves(v, p, q)
    ensures p * q == v.n ==> Run(text) == RsaDecrypt(v, p, q)
    ensures p * q != v.n ==> Run(text) == Err(PrimesMismatch)
  {
    RecoverPrimesComplete(v, p, q);
  }

  /** Decryption fails only with the errors of pow and to_bytes. */
  lemma RsaDecryptErrorKinds(v: Values, p: int, q: int)
    ensures RsaDecrypt(v, p, q).Err? ==>
              RsaDecrypt(v, p, q).error in {ZeroModulus, NotInvertible, NegativeUnsigned, TooBigToConvert}
  {
  }

  /** The checked pipeline: decrypting the text reached the decryption step only with
      primes that multiply to N, and a success is the minimal encoding of a value below N. */
  lemma RunCorrect(text: string)
    ensures Run(text).Ok? ==>
              && ParseValues(text).Ok?
              && var v := ParseValues(text).value;
                 && RecoverPrimes(v).Ok?
                 && var (p, q) := RecoverPrimes(v).value;
                    && Solves(v, p, q) && p * q == v.n
                    && FromBytesBE(Run(text).value) < v.n
                    && NoLeadingZero(Run(text).value)
  {
    if Run(text).Ok? {
      var v := ParseValues(text).value;
      var (p, q) := RecoverPrimes(v).value;
      RsaDecryptErrors(v, p, q);
    }
  }
}
