/** The Python built-ins on `int` that rsa_decrypt calls: three-argument `pow`,
    `int.bit_length` and `int.to_bytes(length, "big")`, with the errors CPython
    raises for them. */
module PyInt {
  import opened Results
  import opened NumberTheory

  /** Python's `pow(base, exp, mod)`. CPython checks in this order: a zero
      modulus is a ValueError; a negative modulus is replaced by its absolute
      value m and makes the result lie in (mod, 0]; m == 1 gives 0 at once;
      a negative exponent replaces the base by its inverse modulo m (a
      ValueError when there is none) and negates the exponent. */
  function PowMod3(base: int, exp: int, mod: int): (r: Result<int>)
    ensures r == Err(ZeroModulus) <==> mod == 0
    ensures r == Err(NotInvertible) <==>
              mod != 0 && Abs(mod) > 1 && exp < 0 && Gcd(base % Abs(mod), Abs(mod)) != 1
    ensures r.Err? ==> r.error == ZeroModulus || r.error == NotInvertible
    ensures r.Ok? && mod > 0 ==> 0 <= r.value < mod
    ensures r.Ok? && mod < 0 ==> mod < r.value <= 0
  {
    if mod == 0 then Err(ZeroModulus)
    else
      var m := Abs(mod);
      if m == 1 then Ok(0)
      else if exp < 0 && Gcd(base % m, m) != 1 then Err(NotInvertible)
      else
        var b := if exp < 0 then Inverse(base, m) else base;
        var z := ModPow(b, Abs(exp), m);
        Ok(if mod < 0 && z != 0 then z - m else z)
  }

  /** What pow computes: for a non-negative exponent the power, reduced into the
      modulus's range; for a negative exponent with modulus of absolute value
      above one, a residue whose product with base^(-exp) is 1 modulo the modulus. */
  lemma PowMod3Value(base: int, exp: int, mod: int)
    ensures mod > 0 && exp >= 0 ==> PowMod3(base, exp, mod) == Ok(Pow(base, exp) % mod)
    ensures mod != 0 && exp >= 0 ==>
              PowMod3(base, exp, mod).Ok? && (PowMod3(base, exp, mod).value - Pow(base, exp)) % Abs(mod) == 0
    ensures mod > 1 && exp < 0 && PowMod3(base, exp, mod).Ok? ==>
              (PowMod3(base, exp, mod).value * Pow(base, -exp)) % mod == 1
    ensures mod < -1 && exp < 0 && PowMod3(base, exp, mod).Ok? ==>
              (PowMod3(base, exp, mod).value * Pow(base, -exp)) % Abs(mod) == 1
  {
    if mod != 0 {
      var m := Abs(mod);
      if m == 1 {
        ModAddMultiple(1, -Pow(base, Abs(exp)), 0);
      } else if exp >= 0 {
        ModPowIsPow(base, exp, m);
        ResidueCongruent(base, exp, m);
      } else if Gcd(base % m, m) == 1 {
        var inv := Inverse(base, m);
        ModPowIsPow(inv, -exp, m);
        InversePowers(base, inv, -exp, m);
        ShiftedResidue(ModPow(inv, -exp, m), Pow(base, -exp), m);
      }
    }
  }

  /** Subtracting m from a residue does not change its products modulo m. */
  lemma ShiftedResidue(z: int, p: int, m: int)
    requires m > 1
    ensures ((z - m) * p) % m == (z * p) % m
  {
    assert (z - m) * p == m * (-p) + z * p;
    ModAddMultiple(m, -p, z * p);
  }

  /** Powers of an inverse are inverses of the powers. */
  lemma InversePowers(base: int, inv: int, k: nat, m: int)
    requires m > 1 && IsInverse(base, inv, m)
    ensures ((Pow(inv, k) % m) * Pow(base, k)) % m == 1
  {
    assert (Pow(inv, k) % m) * Pow(base, k) == Pow(base, k) * (Pow(inv, k) % m);
    MulModRight(Pow(base, k), Pow(inv, k), m);
    PowProduct(base, inv, k);
    PowMod(base * inv, k, m);
    PowOfOne(k);
    DivModUnique(1, m, 0, 1);
  }

  /** The residue of a power, with or without m subtracted, is congruent to it modulo m. */
  lemma ResidueCongruent(base: int, k: nat, m: int)
    requires m > 1
    ensures (Pow(base, k) % m - Pow(base, k)) % m == 0
    ensures (Pow(base, k) % m - m - Pow(base, k)) % m == 0
  {
    var p := Pow(base, k);
    assert p % m - p == m * (-(p / m)) + 0;
    ModAddMultiple(m, -(p / m), 0);
    assert p % m - m - p == m * (-(p / m) - 1) + 0;
    ModAddMultiple(m, -(p / m) - 1, 0);
  }

  /** Python's `int.bit_length` of a non-negative integer: the number of binary digits, 0 for 0. */
  function BitLength(n: nat): (r: nat)
    ensures n < Pow(2, r)
    ensures n > 0 ==> r > 0 && Pow(2, r - 1) <= n
    ensures n == 0 ==> r == 0
    decreases n
  {
    if n == 0 then 0 else 1 + BitLength(n / 2)
  }

  type byte = b: int | 0 <= b < 256

  /** The unsigned big-endian value of a byte string, most significant byte first. */
  function FromBytesBE(bs: seq<byte>): (n: nat)
    ensures n < Pow(256, |bs|)
    decreases |bs|
  {
    if bs == [] then 0 else FromBytesBE(bs[..|bs| - 1]) * 256 + bs[|bs| - 1]
  }

  /** The len-byte big-endian digits of n: the last byte is n modulo 256, the rest encode n / 256. */
  function ToBytesBE(n: nat, len: nat): (r: seq<byte>)
    ensures |r| == len
    decreases len
  {
    if len == 0 then [] else ToBytesBE(n / 256, len - 1) + [(n % 256) as byte]
  }

  /** Encoding in len bytes and decoding again gives back every n below 256^len. */
  lemma {:induction false} DecodeEncode(n: nat, len: nat)
    requires n < Pow(256, len)
    ensures FromBytesBE(ToBytesBE(n, len)) == n
    decreases len
  {
    if len > 0 {
      var r := ToBytesBE(n, len);
      assert r[..len - 1] == ToBytesBE(n / 256, len - 1);
      DecodeEncode(n / 256, len - 1);
    }
  }

  /** Decoding a byte string and encoding it in as many bytes gives it back. */
  lemma {:induction false} EncodeDecode(bs: seq<byte>)
    ensures ToBytesBE(FromBytesBE(bs), |bs|) == bs
    decreases |bs|
  {
    if bs != [] {
      var init := bs[..|bs| - 1];
      var n := FromBytesBE(bs);
      DivModUnique(n, 256, FromBytesBE(init), bs[|bs| - 1]);
      EncodeDecode(init);
      assert bs == init + [bs[|bs| - 1]];
    }
  }

  /** The leading byte of a len-byte encoding is non-zero exactly when n needs all len bytes. */
  lemma {:induction false} LeadingByte(n: nat, len: nat)
    requires len > 0 && n < Pow(256, len)
    ensures ToBytesBE(n, len)[0] != 0 <==> Pow(256, len - 1) <= n
    decreases len
  {
    if len == 1 {
      DivModUnique(n, 256, 0, n);
    } else {
      assert ToBytesBE(n, len)[0] == ToBytesBE(n / 256, len - 1)[0];
      assert Pow(256, len) == 256 * Pow(256, len - 1);
      assert Pow(256, len - 1) == 256 * Pow(256, len - 2);
      LeadingByte(n / 256, len - 1);
    }
  }

  /** Python's unsigned `int.to_bytes(length, "big")`: OverflowError for a negative
      integer and for one that does not fit in length bytes. */
  function ToBytes(i: int, length: nat): (r: Result<seq<byte>>)
    ensures r.Ok? <==> 0 <= i < Pow(256, length)
    ensures i < 0 ==> r == Err(NegativeUnsigned)
    ensures 0 <= i && Pow(256, length) <= i ==> r == Err(TooBigToConvert)
    ensures r.Ok? ==> |r.value| == length && FromBytesBE(r.value) == i
  {
    if i < 0 then Err(NegativeUnsigned)
    else if i >= Pow(256, length) then Err(TooBigToConvert)
    else
      DecodeEncode(i, length);
      Ok(ToBytesBE(i, length))
  }

  /** The byte count rsa_decrypt asks for, `(n.bit_length() + 7) // 8`:
      the fewest whole bytes that hold n's binary digits. */
  function MinimalLength(n: nat): nat {
    (BitLength(n) + 7) / 8
  }

  /** A big-endian string in canonical form: no superfluous leading zero byte. */
  predicate NoLeadingZero(bs: seq<byte>) {
    bs == [] || bs[0] != 0
  }

  lemma Pow256(k: nat)
    ensures Pow(256, k) == Pow(2, 8 * k)
  {
    PowMul(2, 8, k);
    assert Pow(2, 8) == 256;
  }

  /** The minimal length always fits and is tight: 256^(len-1) <= n < 256^len for n > 0. */
  lemma MinimalLengthBounds(n: nat)
    ensures n < Pow(256, MinimalLength(n))
    ensures n > 0 ==> MinimalLength(n) > 0 && Pow(256, MinimalLength(n) - 1) <= n
    ensures n == 0 ==> MinimalLength(n) == 0
  {
    var bl, len := BitLength(n), MinimalLength(n);
    Pow256(len);
    if bl < 8 * len {
      PowStrictlyIncreasing(2, bl, 8 * len);
    }
    if n > 0 {
      Pow256(len - 1);
      if 8 * (len - 1) < bl - 1 {
        PowStrictlyIncreasing(2, 8 * (len - 1), bl - 1);
      }
    }
  }

  /** `n.to_bytes((n.bit_length() + 7) // 8, "big")` never overflows, decodes back to n,
      has no leading zero byte, and is empty exactly for n == 0. */
  lemma MinimalEncoding(n: nat)
    ensures ToBytes(n, MinimalLength(n)).Ok?
    ensures FromBytesBE(ToBytes(n, MinimalLength(n)).value) == n
    ensures NoLeadingZero(ToBytes(n, MinimalLength(n)).value)
    ensures ToBytes(n, MinimalLength(n)).value == [] <==> n == 0
  {
    MinimalLengthBounds(n);
    if n > 0 {
      LeadingByte(n, MinimalLength(n));
    }
  }

  /** Two byte lengths that both hold n tightly are the same length. */
  lemma TightLengthUnique(n: nat, k: nat, j: nat)
    requires k > 0 && Pow(256, k - 1) <= n < Pow(256, k)
    requires j > 0 && Pow(256, j - 1) <= n < Pow(256, j)
    ensures k == j
  {
    if k < j {
      if k < j - 1 {
        PowStrictlyIncreasing(256, k, j - 1);
      }
    } else if j < k {
      if j < k - 1 {
        PowStrictlyIncreasing(256, j, k - 1);
      }
    }
  }

  /** The minimal encoding is the only byte string without a leading zero that decodes to n. */
  lemma MinimalEncodingUnique(n: nat, bs: seq<byte>)
    requires FromBytesBE(bs) == n && NoLeadingZero(bs)
    ensures ToBytes(n, MinimalLength(n)) == Ok(bs)
  {
    MinimalLengthBounds(n);
    EncodeDecode(bs);
    if bs != [] {
      PowPositive(256, |bs| - 1);
      LeadingByte(n, |bs|);
      TightLengthUnique(n, |bs|, MinimalLength(n));
    }
  }
}
