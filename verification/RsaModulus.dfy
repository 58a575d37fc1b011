/** The minimum-size check on RSA moduli, from raw big-endian bytes and from the integer. */
module RsaModulus {
  import opened Base

  const RSA_MIN_MODULUS_BITS := 2048

  /** Leading zero bits of a byte. */
  function LeadingZeros(b: byte): nat {
    if b >= 128 then 0 else if b >= 64 then 1 else if b >= 32 then 2 else if b >= 16 then 3
    else if b >= 8 then 4 else if b >= 4 then 5 else if b >= 2 then 6 else if b >= 1 then 7 else 8
  }

  /** Index of the first nonzero byte, or the length. */
  function FirstNonzero(m: seq<byte>): (i: nat)
    ensures i <= |m|
    ensures i < |m| ==> m[i] != 0
    ensures forall j | 0 <= j < i :: m[j] == 0
  {
    if m == [] || m[0] != 0 then 0 else 1 + FirstNonzero(m[1..])
  }

  /** Bits counted from the bytes, leading zero bytes ignored. */
  function ModulusBits(m: seq<byte>): nat {
    var significant := m[FirstNonzero(m)..];
    if significant == [] then 0 else (|significant| - 1) * 8 + (8 - LeadingZeros(significant[0]))
  }

  function ValidatePublicKeySize(m: seq<byte>): Result<(), HsmError> {
    if ModulusBits(m) < RSA_MIN_MODULUS_BITS then Err(KeySizeRange) else Ok(())
  }

  /** Bits of an integer. */
  function BitLength(n: nat): nat {
    if n == 0 then 0 else 1 + BitLength(n / 2)
  }

  /** The check on a parsed private key with modulus n. */
  function ValidatePrivateKeySize(n: nat): Result<(), HsmError> {
    if BitLength(n) < RSA_MIN_MODULUS_BITS then Err(KeySizeRange) else Ok(())
  }

  function Pow2(k: nat): nat {
    if k == 0 then 1 else 2 * Pow2(k - 1)
  }

  lemma {:induction false} Pow2Sum(a: nat, b: nat)
    ensures Pow2(a + b) == Pow2(a) * Pow2(b)
  {
    if a > 0 {
      Pow2Sum(a - 1, b);
    }
  }

  lemma {:induction false} Pow256IsPow2(k: nat)
    ensures Pow256(k) == Pow2(8 * k)
  {
    if k > 0 {
      Pow256IsPow2(k - 1);
      Pow2Sum(8, 8 * (k - 1));
      assert Pow2(4) == 16 && Pow2(8) == 256;
    }
  }

  /** The bit length of n is the one b with 2^(b-1) <= n < 2^b. */
  lemma {:induction false} BitLengthIs(n: nat, b: nat)
    requires b > 0 && Pow2(b - 1) <= n < Pow2(b)
    ensures BitLength(n) == b
  {
    if b > 1 {
      BitLengthIs(n / 2, b - 1);
    }
  }

  lemma {:induction false} BigEndianFront(s: seq<byte>)
    requires s != []
    ensures BigEndian(s) == s[0] * Pow256(|s| - 1) + BigEndian(s[1..])
    ensures BigEndian(s[1..]) < Pow256(|s| - 1)
  {
    if |s| > 1 {
      var n := |s| - 1;
      BigEndianFront(s[..n]);
      assert s[..n][1..] == s[1..][..n - 1];
      ShiftDigit(s[0], Pow256(n - 1), BigEndian(s[1..][..n - 1]));
      assert s[1..][n - 1] == s[n];
    }
  }

  lemma ShiftDigit(d: nat, p: nat, rest: nat)
    ensures (d * p + rest) * 256 == d * (256 * p) + rest * 256
  {
  }

  lemma {:induction false} LeadingZerosDoNotCount(m: seq<byte>)
    ensures BigEndian(m) == BigEndian(m[FirstNonzero(m)..])
  {
    if m != [] && m[0] == 0 {
      BigEndianFront(m);
      LeadingZerosDoNotCount(m[1..]);
      assert m[1..][FirstNonzero(m[1..])..] == m[FirstNonzero(m)..];
    } else {
      assert m[0..] == m;
    }
  }

  lemma ByteBits(b: byte)
    requires b != 0
    ensures 1 <= 8 - LeadingZeros(b)
    ensures Pow2(7 - LeadingZeros(b)) <= b < Pow2(8 - LeadingZeros(b))
  {
    assert Pow2(2) == 4 && Pow2(4) == 16 && Pow2(6) == 64 && Pow2(8) == 256;
  }

  /** The count from the bytes is the true bit length of the integer, whatever the number of
      leading zero bytes. */
  lemma ModulusBitsIsBitLength(m: seq<byte>)
    ensures ModulusBits(m) == BitLength(BigEndian(m))
  {
    LeadingZerosDoNotCount(m);
    var s := m[FirstNonzero(m)..];
    if s != [] {
      SignificantBits(s);
    }
  }

  lemma SignificantBits(s: seq<byte>)
    requires s != [] && s[0] != 0
    ensures BitLength(BigEndian(s)) == (|s| - 1) * 8 + (8 - LeadingZeros(s[0]))
  {
    var k, t, p := |s| - 1, 8 - LeadingZeros(s[0]), Pow256(|s| - 1);
    BigEndianFront(s);
    ByteBits(s[0]);
    Scale(Pow2(t - 1), s[0], Pow2(t), p);
    assert Pow2(t - 1) * p <= BigEndian(s) < Pow2(t) * p;
    Pow256IsPow2(k);
    Pow2Sum(t - 1, 8 * k);
    Pow2Sum(t, 8 * k);
    BitLengthIs(BigEndian(s), t + 8 * k);
  }

  lemma Scale(low: nat, d: nat, high: nat, p: nat)
    requires low <= d < high
    ensures low * p <= d * p && d * p + p <= high * p
  {
    MulMonotone(low, d, p);
    MulMonotone(d + 1, high, p);
    assert (d + 1) * p == d * p + p;
  }

  lemma {:induction false} BitLengthAtLeast(n: nat, b: nat)
    ensures BitLength(n) > b <==> n >= Pow2(b)
  {
    if b > 0 {
      BitLengthAtLeast(n / 2, b - 1);
    }
  }

  /** Both checks accept exactly the moduli of at least 2^2047, and so agree with each other. */
  lemma SizeChecksAgree(m: seq<byte>)
    ensures ValidatePublicKeySize(m).Ok? <==> BigEndian(m) >= Pow2(RSA_MIN_MODULUS_BITS - 1)
    ensures ValidatePublicKeySize(m) == ValidatePrivateKeySize(BigEndian(m))
  {
    ModulusBitsIsBitLength(m);
    var b := RSA_MIN_MODULUS_BITS - 1;
    BitLengthAtLeast(BigEndian(m), b);
  }
}
