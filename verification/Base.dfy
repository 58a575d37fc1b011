/** Types shared by the component models. */
module Base {

  datatype Option<+T> = None | Some(value: T)

  datatype Result<+T, +E> = Ok(value: T) | Err(error: E)

  /** The error codes of the modelled functions; the last two are answers of the RSA library. */
  datatype HsmError =
    | GeneralError
    | KeySizeRange
    | DataLenRange
    | MechanismParamInvalid
    | KeyHandleInvalid
    | SignatureInvalid
    | EncryptedDataInvalid

  type byte = x: int | 0 <= x < 256

  const U64_MAX := 0xFFFF_FFFF_FFFF_FFFF
  const U64_MODULUS := 0x1_0000_0000_0000_0000

  /** The unsigned integer with big-endian digits s. */
  function BigEndian(s: seq<byte>): nat {
    if s == [] then 0 else BigEndian(s[..|s| - 1]) * 256 + s[|s| - 1]
  }

  function Pow256(w: nat): nat {
    if w == 0 then 1 else 256 * Pow256(w - 1)
  }

  /** The w low-order big-endian digits of n. */
  function ToBigEndian(n: nat, w: nat): (s: seq<byte>)
    ensures |s| == w
  {
    if w == 0 then [] else ToBigEndian(n / 256, w - 1) + [n % 256]
  }

  lemma {:induction false} BigEndianRoundTrip(n: nat, w: nat)
    requires n < Pow256(w)
    ensures BigEndian(ToBigEndian(n, w)) == n
  {
    if w > 0 {
      BigEndianRoundTrip(n / 256, w - 1);
      var s := ToBigEndian(n, w);
      assert s[..w - 1] == ToBigEndian(n / 256, w - 1);
    }
  }

  function Min(a: int, b: int): int {
    if a <= b then a else b
  }

  lemma {:induction false} SubsetSize<T>(a: set<T>, b: set<T>)
    requires a <= b
    ensures |a| <= |b|
  {
    if a != {} {
      var x :| x in a;
      SubsetSize(a - {x}, b - {x});
    }
  }

  lemma {:induction false} MulMonotone(a: nat, b: nat, p: nat)
    requires a <= b
    ensures a * p <= b * p
  {
    if a < b {
      MulMonotone(a, b - 1, p);
      assert b * p == (b - 1) * p + p;
    }
  }
}
