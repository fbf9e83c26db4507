/** Concrete runs of the solver on small inputs: the textbook key
    p = 61, q = 53, N = 3233, e = 17 (phi = 3120, d = 2753), whose ciphertext
    2790 is the encryption of 65, the letter "A". The coefficients
    a = 2, b = 3, c = 1, d = 1 have determinant -1, and x = 281, y = 114
    are 2*61 + 3*53 and 61 + 53. */
module Scenarios {
  import opened Results
  import opened NumberTheory
  import opened PyInt
  import opened Tokens
  import opened Solve

  /** The numerals of the challenge output, in order. */
  const Runs: seq<string> := ["3233", "17", "2790", "2", "3", "1", "1", "281", "114"]

  /** The labels and line breaks between them. */
  const Labels: seq<string> :=
    ["N = ", "\ne = ", "\nct = ", "\na = ", "\nb = ", "\nc = ", "\nd = ", "\nx = ", "\ny = ", "\n"]

  lemma LabelsSeparateRuns()
    ensures Separated(Labels, Runs)
  {
    forall j | 0 <= j < |Labels| ensures NoDigits(Labels[j]) {
    }
    forall j | 0 <= j < |Runs| ensures |Runs[j]| > 0 && AllDigits(Runs[j]) {
    }
  }

  lemma LongNumerals()
    ensures DecimalValue("3233") == 3233 && DecimalValue("2790") == 2790
    ensures DecimalValue("4000") == 4000
  {
    assert "3233"[..3] == "323" && "323"[..2] == "32" && "32"[..1] == "3" && "3"[..0] == "";
    assert "2790"[..3] == "279" && "279"[..2] == "27" && "27"[..1] == "2" && "2"[..0] == "";
    assert "4000"[..3] == "400" && "400"[..2] == "40" && "40"[..1] == "4" && "4"[..0] == "";
  }

  lemma ShortNumerals()
    ensures DecimalValue("281") == 281 && DecimalValue("114") == 114 && DecimalValue("17") == 17
    ensures DecimalValue("1") == 1 && DecimalValue("2") == 2 && DecimalValue("3") == 3
  {
    assert "281"[..2] == "28" && "28"[..1] == "2" && "2"[..0] == "";
    assert "114"[..2] == "11" && "11"[..1] == "1" && "1"[..0] == "";
    assert "17"[..1] == "1";
    assert "1"[..0] == "" && "2"[..0] == "" && "3"[..0] == "";
  }

  /** The text parses to the textbook values with primes 61 and 53. */
  lemma ParseTextbook()
    ensures ParseValues(Interleave(Labels, Runs)) == Ok(Values(3233, 17, 2790, 2, 3, 1, 1, 281, 114))
  {
    LabelsSeparateRuns();
    ParseSeparated(Labels, Runs);
    LongNumerals();
    ShortNumerals();
    var v := ParseValues(Interleave(Labels, Runs)).value;
    assert Fields(v) == Fields(Values(3233, 17, 2790, 2, 3, 1, 1, 281, 114));
  }

  /** The private exponent of the textbook key is 2753. */
  lemma TextbookPrivateExponent()
    ensures PowMod3(17, -1, 3120) == Ok(2753)
  {
    assert Gcd(17 % 3120, 3120) == 1 by {
      assert Gcd(17, 3120) == Gcd(3120, 17) == Gcd(17, 9) == Gcd(9, 8) == Gcd(8, 1) == Gcd(1, 0);
    }
    PrivateExponent(17, 3120);
    assert IsInverse(17, 2753, 3120);
    InverseUnique(17, PowMod3(17, -1, 3120).value, 2753, 3120);
  }

  /** Decryption with it: 2790^2753 mod 3233 is 65, by the squaring chain of 2753. */
  lemma TextbookPlaintext()
    ensures PowMod3(2790, 2753, 3233) == Ok(65)
  {
    assert ModPow(2790, 1, 3233) == 2790;
    assert ModPow(2790, 2, 3233) == 2269;
    assert ModPow(2790, 4, 3233) == 1425;
    assert ModPow(2790, 5, 3233) == 2393;
    assert ModPow(2790, 10, 3233) == 806;
    assert ModPow(2790, 20, 3233) == 3036;
    assert ModPow(2790, 21, 3233) == 3213;
    assert ModPow(2790, 42, 3233) == 400;
    assert ModPow(2790, 43, 3233) == 615;
    assert ModPow(2790, 86, 3233) == 3197;
    assert ModPow(2790, 172, 3233) == 1296;
    assert ModPow(2790, 344, 3233) == 1689;
    assert ModPow(2790, 688, 3233) == 1215;
    assert ModPow(2790, 1376, 3233) == 1977;
    assert ModPow(2790, 2752, 3233) == 3065;
    assert ModPow(2790, 2753, 3233) == 65;
  }

  /** The textbook values decrypt to the single byte 0x41, the letter "A". */
  lemma TextbookDecrypt()
    ensures RsaDecrypt(Values(3233, 17, 2790, 2, 3, 1, 1, 281, 114), 61, 53) == Ok([0x41])
  {
    assert Totient(61, 53) == 3120;
    TextbookPrivateExponent();
    TextbookPlaintext();
    RsaDecryptSteps(Values(3233, 17, 2790, 2, 3, 1, 1, 281, 114), 61, 53, 2753, 65);
    TextbookBytes();
  }

  /** 65 has seven binary digits and so fits in one byte, 0x41. */
  lemma TextbookBytes()
    ensures ToBytes(65, MinimalLength(Abs(65))) == Ok([0x41])
  {
    assert BitLength(65) == 7;
    assert MinimalLength(Abs(65)) == 1;
    assert ToBytesBE(65, 1) == [0x41];
  }

  /** Any text that parses to the textbook values decrypts to 0x41. */
  lemma DecryptsTextbook(text: string)
    requires ParseValues(text) == Ok(Values(3233, 17, 2790, 2, 3, 1, 1, 281, 114))
    ensures Run(text) == Ok([0x41])
  {
    RunParsed(text, Values(3233, 17, 2790, 2, 3, 1, 1, 281, 114), 61, 53);
    TextbookDecrypt();
  }

  /** End to end: the challenge text decrypts to the single byte 0x41. */
  lemma EndToEnd()
    ensures Run(Interleave(Labels, Runs)) == Ok([0x41])
  {
    ParseTextbook();
    DecryptsTextbook(Interleave(Labels, Runs));
  }

  /** Any text that parses to the textbook values but with N = 4000 stops at the consistency check. */
  lemma HaltsOnMismatch(text: string)
    requires ParseValues(text) == Ok(Values(4000, 17, 2790, 2, 3, 1, 1, 281, 114))
    ensures Run(text) == Err(PrimesMismatch)
  {
    RunParsed(text, Values(4000, 17, 2790, 2, 3, 1, 1, 281, 114), 61, 53);
  }

  /** With N = 4000 instead of 3233 the pipeline halts before decrypting. */
  lemma MismatchedModulus()
    ensures Run(Interleave(Labels, ["4000"] + Runs[1..])) == Err(PrimesMismatch)
  {
    var runs := ["4000"] + Runs[1..];
    assert Separated(Labels, runs) by {
      LabelsSeparateRuns();
      forall j | 0 <= j < |runs| ensures |runs[j]| > 0 && AllDigits(runs[j]) {
        if j > 0 {
          assert runs[j] == Runs[j];
        }
      }
    }
    ParseSeparated(Labels, runs);
    LongNumerals();
    ShortNumerals();
    var v := ParseValues(Interleave(Labels, runs)).value;
    assert Fields(v) == Fields(Values(4000, 17, 2790, 2, 3, 1, 1, 281, 114));
    HaltsOnMismatch(Interleave(Labels, runs));
  }

  /** Eight numerals are not enough: the error comes before any arithmetic. */
  lemma TooFewNumbers()
    ensures Run(Interleave(Labels[..9], Runs[..8])) == Err(InsufficientData)
  {
    assert Separated(Labels[..9], Runs[..8]) by {
      LabelsSeparateRuns();
      forall j | 0 <= j < 9 ensures NoDigits(Labels[..9][j]) {
        assert Labels[..9][j] == Labels[j];
      }
      forall j | 0 <= j < 8 ensures |Runs[..8][j]| > 0 && AllDigits(Runs[..8][j]) {
        assert Runs[..8][j] == Runs[j];
      }
    }
    DigitRunsUnique(Labels[..9], Runs[..8]);
  }

  /** a = 1, b = 0, c = 0, d = 2, x = 1, y = 1 gives q = 1/2: a non-integral result. */
  lemma HalfIsNotIntegral()
    ensures RecoverPrimes(Values(3233, 17, 2790, 1, 0, 0, 2, 1, 1)) == Err(NonIntegral)
  {
  }

  /** The non-integral error of recover_primes is what the whole pipeline reports. */
  lemma HaltsOnHalf(text: string)
    requires ParseValues(text) == Ok(Values(3233, 17, 2790, 1, 0, 0, 2, 1, 1))
    ensures Run(text) == Err(NonIntegral)
  {
    HalfIsNotIntegral();
  }
}
