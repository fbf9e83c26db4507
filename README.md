# BabyRSA solver, modelled in Dafny

`solve.py` solves a small RSA challenge. The challenge output lists nine
integers: the modulus `N`, the public exponent `e` and the ciphertext `ct` of
an RSA key, and two linear relations `a*p + b*q = x`, `c*p + d*q = y` between
the secret primes. The script:

- takes the first nine runs of decimal digits of the text, in order, as
  `N, e, ct, a, b, c, d, x, y`, and fails when there are fewer than nine;
- recovers `p` and `q` by Cramer's rule with exact rationals, and refuses a
  singular matrix and a non-integral solution;
- halts unless `p * q == N`;
- computes the totient `(p - 1)(q - 1)`, the private exponent
  `pow(e, -1, phi)` and the plaintext `pow(ct, d_key, N)`;
- returns the plaintext as `(bit_length + 7) // 8` big-endian bytes.

The model is purely functional, as the script is. Each Python exception it
covers becomes an `Err` of the `Results.Error` datatype, one constructor per exception
that the modelled part of the script can raise:

| Constructor | Python exception |
|---|---|
| `InsufficientData` | the `ValueError` of `parse_values` |
| `SingularSystem` | the singular-matrix `ValueError` of `recover_primes` |
| `NonIntegral` | the non-integral `ValueError` of `recover_primes` |
| `PrimesMismatch` | the `AssertionError` of `main` |
| `ZeroModulus` | the `ValueError` of `pow` for a zero modulus |
| `NotInvertible` | the `ValueError` of `pow` for a base that is not invertible |
| `NegativeUnsigned` | the `OverflowError` of `to_bytes` for a negative integer |
| `TooBigToConvert` | the `OverflowError` of `to_bytes` for an integer that does not fit |

Modules:

- `Results`: the error kinds and a failure-compatible `Result`.
- `NumberTheory`: arithmetic facts the built-ins rest on.
  - `Pow` is the reference exponentiation.
  - `Gcd` is Euclid's algorithm.
  - `ExtGcd` and `Inverse` give Bezout coefficients and the modular inverse.
  - `ModPow` is square-and-multiply, proved equal to `Pow(b, k) % m`.
- `PyInt`: the Python built-ins on `int` that the script uses.
  - `PowMod3` is three-argument `pow`, following CPython's order of checks.
    - A zero modulus is an error.
    - A negative modulus gives results in `(mod, 0]`.
    - A modulus of absolute value 1 gives 0.
    - A negative exponent inverts the base first.
  - `BitLength` is `int.bit_length`.
  - `ToBytes` is unsigned big-endian `int.to_bytes`.
- `Tokens`: `re.findall(r"[0-9]+", text)` as `DigitRuns`, and Python's `int`
  of a digit string as `DecimalValue`.
- `Solve`: `parse_values` after the file has been read (`ParseValues`),
  `recover_primes` (`RecoverPrimes`), `rsa_decrypt` (`RsaDecrypt`), and `main`
  after argument parsing (`Run`).
- `Scenarios`: the textbook key `p = 61`, `q = 53`, `N = 3233`, `e = 17`,
  `ct = 2790` worked through the whole pipeline, the mismatched-modulus and
  too-few-numbers failures, and a non-integral system.

`Fraction(n, det).denominator == 1` is modelled as "`det` divides `n`".
`int()` of that fraction is then the exact quotient. Dafny's Euclidean division
gives the same exact quotient for either sign of `det`.

When `m == 0`, the code produces the empty byte string, because
`(0).bit_length()` is 0 and `to_bytes(0, "big")` gives `b""`. The model
does the same (`PyInt.MinimalEncoding`: the encoding is empty exactly when
`m == 0`).

## Model

| member | source | states |
|---|---|---|
| Tokens.DigitRuns | solve.py:15 | every token is a non-empty string of ASCII digits |
| Tokens.DigitRunsSplit | solve.py:15 | every text is its gaps and its digit runs interleaved, the runs being maximal (gaps hold no digit and inner gaps are non-empty) |
| Tokens.DigitRunsUnique | solve.py:15 | for any such split of a text, DigitRuns returns exactly its runs: the tokens are the maximal digit runs in textual order |
| Tokens.DecimalValueOfDecimal | solve.py:29 | int() of the decimal numeral of n is n |
| Tokens.LeadingZeroIgnored | solve.py:29 | int() ignores a leading zero |
| Solve.ParseValues | solve.py:15-29 | error exactly when there are fewer than nine tokens; otherwise N, e, ct, a, b, c, d, x, y are the values of the first nine tokens in order, all non-negative |
| Solve.ParseSeparated | solve.py:15-29 | for a text built from separated runs, the j-th name is bound to the j-th run's value, or parsing fails when there are fewer than nine runs |
| Solve.RecoverPrimes | solve.py:31-41 | singular-matrix error iff det == 0; non-integral error iff det != 0 and det does not divide a Cramer numerator; a returned pair satisfies both linear relations |
| Solve.CramerSolves | solve.py:37-41 | exact Cramer quotients satisfy both relations |
| Solve.SolutionIsCramer | solve.py:34-38 | any integer solution times det equals the Cramer numerators |
| Solve.RecoverPrimesComplete | solve.py:34-41 | with det != 0, any integer solution is the one returned, so the solution is unique |
| Solve.RecoverPrimesRoundTrip | solve.py:31-41 | relations generated from (p, q) return exactly (p, q) |
| Solve.NonIntegralMeansNoSolution | solve.py:39-40 | after a non-integral error no integer pair solves the system |
| Solve.PrivateExponent | solve.py:45-46 | for phi > 1, pow(e, -1, phi) succeeds iff gcd(e mod phi, phi) == 1, fails with the not-invertible error otherwise, and returns d with 0 <= d < phi and e*d = 1 mod phi |
| Solve.RsaDecryptCorrect | solve.py:43-48 | for N > 0 and phi > 1: success iff e is invertible modulo phi, otherwise the not-invertible error; on success the bytes decode to ct^d mod N for the inverse d of e, lie below N, and have no leading zero byte |
| Solve.RsaDecryptErrors | solve.py:45-48 | a zero totient gives the zero-modulus error and N == 0 fails; any result decodes below abs(N) with no leading zero byte |
| Solve.RsaDecryptErrorKinds | solve.py:43-48 | decryption fails only with the errors of pow and to_bytes |
| Solve.Run | solve.py:60-63 | too-few-tokens error iff fewer than nine tokens; a singular or non-integral error of recover_primes reaches the caller unchanged; mismatch error iff parsing and recovery succeed but p*q != N; a success went through both stages with p*q == N and is rsa_decrypt of those primes |
| Solve.RunParsed | solve.py:60-63 | once the text parses and (p, q) solves a non-singular system, the outcome is rsa_decrypt when p*q == N and the mismatch error otherwise |
| Solve.RunCorrect | solve.py:60-63 | a success came from primes solving both relations with p*q == N, and its bytes decode below N with no leading zero byte |
| NumberTheory.ExtGcd | solve.py:46 | returns the gcd with Bezout coefficients s*a + t*b == gcd |
| NumberTheory.Inverse | solve.py:46 | for m > 1 and gcd(a mod m, m) == 1, a residue d in [0, m) with a*d = 1 mod m |
| NumberTheory.InverseUnique | solve.py:46 | modulo m there is at most one inverse |
| NumberTheory.NoInverseWithoutCoprimality | solve.py:46 | when gcd(a mod m, m) != 1, no d has a*d = 1 mod m, which is why pow refuses |
| NumberTheory.GcdDivides | solve.py:46 | Gcd is a positive common divisor |
| NumberTheory.ModPowIsPow | solve.py:47 | square-and-multiply equals b^k mod m |
| PyInt.PowMod3 | solve.py:46-47 | zero-modulus error iff mod == 0; not-invertible error iff abs(mod) > 1, exp < 0 and base is not invertible; no other errors; results in [0, mod) for mod > 0 and (mod, 0] for mod < 0 |
| PyInt.PowMod3Value | solve.py:46-47 | for exp >= 0: equals base^exp mod mod for positive mod, and is congruent to base^exp for any non-zero mod; for exp < 0 and abs(mod) > 1: the result times base^(-exp) is 1 modulo abs(mod) |
| PyInt.BitLength | solve.py:48 | 2^(r-1) <= n < 2^r for n > 0, and 0 for n == 0 |
| PyInt.ToBytes | solve.py:48 | succeeds iff 0 <= i < 256^length; a negative integer and a too-big integer give their overflow errors; a success has length bytes that decode back to i |
| PyInt.DecodeEncode | solve.py:48 | decoding the big-endian bytes of n < 256^len gives n |
| PyInt.EncodeDecode | solve.py:48 | encoding a byte string's value in as many bytes gives the string back |
| PyInt.LeadingByte | solve.py:48 | the leading byte is non-zero iff n >= 256^(len-1) |
| PyInt.MinimalLengthBounds | solve.py:48 | (bit_length + 7) // 8 bytes hold n, and for n > 0 one byte fewer does not |
| PyInt.MinimalEncoding | solve.py:48 | the minimal to_bytes never overflows, decodes back to n, has no leading zero byte, and is empty exactly when n == 0 |
| PyInt.MinimalEncodingUnique | solve.py:48 | the minimal encoding is the only byte string without a leading zero byte that decodes to n |
| Scenarios.ParseTextbook | solve.py:15-29 | the labelled challenge text parses to N=3233, e=17, ct=2790, a=2, b=3, c=1, d=1, x=281, y=114 |
| Scenarios.TextbookPrivateExponent | solve.py:46 | pow(17, -1, 3120) is 2753 |
| Scenarios.TextbookPlaintext | solve.py:47 | pow(2790, 2753, 3233) is 65 |
| Scenarios.TextbookBytes | solve.py:48 | 65 becomes the single byte 0x41 |
| Scenarios.TextbookDecrypt | solve.py:43-48 | the textbook values with p=61, q=53 decrypt to 0x41 |
| Scenarios.DecryptsTextbook | solve.py:60-63 | any text parsing to the textbook values runs to 0x41 |
| Scenarios.EndToEnd | solve.py:60-63 | the challenge text runs to the single byte 0x41 |
| Scenarios.HaltsOnMismatch | solve.py:62 | with N=4000 the primes 61 and 53 fail the consistency check |
| Scenarios.MismatchedModulus | solve.py:62 | the challenge text with N=4000 halts with the mismatch error |
| Scenarios.TooFewNumbers | solve.py:27-28 | a text with eight numerals fails with the too-few-tokens error |
| Scenarios.HalfIsNotIntegral | solve.py:39-40 | q = 1/2 is reported as non-integral |
| Scenarios.HaltsOnHalf | solve.py:60-61 | any text parsing to that system ends the pipeline with the non-integral error |

## Left out

- Reading the file (solve.py:13-14): `Run` and `ParseValues` take the text already read. Text decoding and I/O errors are not modelled.
- Argument parsing (solve.py:51-58): the default path `output.txt` and the command line are I/O.
- Printing the plaintext and `bytes.decode()` (solve.py:64): output and UTF-8 decoding are not modelled. A non-UTF-8 plaintext would raise there.
- Regular expressions and `fractions.Fraction` are not modelled as libraries. `re.findall` is characterised by its result (maximal ASCII digit runs). `Fraction` is characterised through divisibility.
- Python's limit on converting digit strings of more than 4300 digits with `int()` (Python 3.11 and later) is not modelled: `DecimalValue` accepts any length.
- Under `python -O` the `assert` at solve.py:62 is stripped. The model always performs the check.
- Whether the recovered plaintext really encrypts to `ct` (`m^e = ct mod N`) is not stated: it depends on `p` and `q` being prime, which the script never checks.
- Running time, and the efficiency of CPython's exponentiation and inversion, are not modelled: `PowMod3` computes the same value by square-and-multiply.
