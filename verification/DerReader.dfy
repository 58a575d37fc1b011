/** The cursor that reads RSA public keys from DER. */
module DerReader {
  import opened Base

  const U32_MODULUS := 0x1_0000_0000

  /** A value and the position behind it, or nothing. */
  type Reading<T> = Option<(T, nat)>

  function ReadTag(d: seq<byte>, p: nat): Reading<byte> {
    if p >= |d| then None else Some((d[p], p + 1))
  }

  function ReadLength(d: seq<byte>, p: nat): (r: Reading<nat>)
    ensures r.Some? ==> p < r.value.1 <= |d| && r.value.0 < U32_MODULUS
  {
    if p >= |d| then None
    else if d[p] < 0x80 then Some((d[p] as nat, p + 1))
    else
      var n := d[p] - 0x80;
      if n > 4 || p + 1 + n > |d| then None
      else
        FourBytes(d[p + 1..p + 1 + n]);
        Some((BigEndian(d[p + 1..p + 1 + n]), p + 1 + n))
  }

  function EnterSequence(d: seq<byte>, p: nat): Reading<nat> {
    match ReadTag(d, p)
    case None => None
    case Some((tag, q)) => if tag != 0x30 then None else ReadLength(d, q)
  }

  function ReadBytes(d: seq<byte>, p: nat, len: nat): Reading<seq<byte>> {
    if p + len > |d| then None else Some((d[p..p + len], p + len))
  }

  /** An integer's content without the zero byte that keeps it positive. */
  function DropSignByte(content: seq<byte>): seq<byte> {
    if |content| > 1 && content[0] == 0 then content[1..] else content
  }

  /** As `DropSignByte`, except that the content of zero becomes empty. */
  function DropLeadingZero(content: seq<byte>): seq<byte> {
    if |content| > 0 && content[0] == 0 then content[1..] else content
  }

  function ReadInteger(d: seq<byte>, p: nat): Reading<seq<byte>> {
    match ReadTag(d, p)
    case None => None
    case Some((tag, q)) =>
      if tag != 0x02 then None
      else match ReadLength(d, q)
        case None => None
        case Some((len, content)) =>
          match ReadBytes(d, content, len)
          case None => None
          case Some((bytes, end)) => Some((DropSignByte(bytes), end))
  }

  datatype Key = Key(modulus: seq<byte>, exponent: seq<byte>)

  /** Two integers, the first one's tag already read. */
  function ReadPlainKey(d: seq<byte>, p: nat): Option<Key> {
    match ReadLength(d, p)
    case None => None
    case Some((len, content)) =>
      match ReadBytes(d, content, len)
      case None => None
      case Some((bytes, q)) =>
        match ReadInteger(d, q)
        case None => None
        case Some((exponent, _)) => Some(Key(DropLeadingZero(bytes), exponent))
  }

  function ReadTwoIntegers(d: seq<byte>, p: nat): Option<Key> {
    match ReadInteger(d, p)
    case None => None
    case Some((modulus, q)) =>
      match ReadInteger(d, q)
      case None => None
      case Some((exponent, _)) => Some(Key(modulus, exponent))
  }

  /** The bit string that holds a key; its byte of unused bits is skipped. */
  function ReadBitString(d: seq<byte>, p: nat): Option<Key> {
    match ReadTag(d, p)
    case None => None
    case Some((tag, q)) =>
      if tag != 0x03 then None
      else match ReadLength(d, q)
        case None => None
        case Some((_, q)) =>
          match EnterSequence(d, q + 1)
          case None => None
          case Some((_, q)) => ReadTwoIntegers(d, q)
  }

  /** The rest of a SubjectPublicKeyInfo, the tag of its algorithm already read. */
  function ReadWrappedKey(d: seq<byte>, p: nat): Option<Key> {
    match ReadLength(d, p)
    case None => None
    case Some((algLen, q)) => ReadBitString(d, q + algLen)
  }

  function ParseKey(d: seq<byte>): Option<Key> {
    match EnterSequence(d, 0)
    case None => None
    case Some((_, p)) =>
      match ReadTag(d, p)
      case None => None
      case Some((tag, q)) =>
        if tag == 0x02 then ReadPlainKey(d, q) else if tag == 0x30 then ReadWrappedKey(d, q) else None
  }

  lemma FourBytes(s: seq<byte>)
    requires |s| <= 4
    ensures BigEndian(s) < U32_MODULUS
  {
    BigEndianBound(s);
    PowersOf256();
    PowMonotone(|s|, 4);
  }

  lemma PowersOf256()
    ensures Pow256(4) == U32_MODULUS
  {
    assert Pow256(0) == 1;
    assert Pow256(1) == 256;
    assert Pow256(2) == 0x1_0000;
    assert Pow256(3) == 0x100_0000;
  }

  lemma {:induction false} BigEndianBound(s: seq<byte>)
    ensures BigEndian(s) < Pow256(|s|)
  {
    if s != [] {
      BigEndianBound(s[..|s| - 1]);
    }
  }

  lemma {:induction false} PowMonotone(a: nat, b: nat)
    requires a <= b
    ensures 1 <= Pow256(a) <= Pow256(b)
    decreases b
  {
    if a < b {
      PowMonotone(a, b - 1);
    } else if a > 0 {
      PowMonotone(a - 1, b - 1);
    }
  }

  /** The reader over a slice, which holds fewer than 2^63 bytes. Every access is inside the slice and
      no position overflows; after an error the position is not used any more. */
  class Reader {
    const data: seq<byte>
    var pos: nat

    ghost predicate Valid()
      reads this
    {
      |data| < U64_MODULUS / 2 && pos < |data| + U32_MODULUS
    }

    constructor (d: seq<byte>)
      requires |d| < U64_MODULUS / 2
      ensures Valid() && data == d && pos == 0
    {
      data := d;
      pos := 0;
    }

    method Tag() returns (r: Result<byte, HsmError>)
      requires Valid()
      modifies this
      ensures Valid()
      ensures match ReadTag(data, old(pos))
              case None => r == Err(GeneralError)
              case Some((tag, next)) => r == Ok(tag) && pos == next
    {
      if pos >= |data| {
        return Err(GeneralError);
      }
      r := Ok(data[pos]);
      pos := pos + 1;
    }

    method Length() returns (r: Result<nat, HsmError>)
      requires Valid()
      modifies this
      ensures Valid()
      ensures match ReadLength(data, old(pos))
              case None => r == Err(GeneralError)
              case Some((len, next)) => r == Ok(len) && pos == next
    {
      if pos >= |data| {
        return Err(GeneralError);
      }
      var first := data[pos];
      pos := pos + 1;
      if first < 0x80 {
        return Ok(first);
      }
      var numBytes := first - 0x80;
      if numBytes > 4 || pos + numBytes > |data| {
        return Err(GeneralError);
      }
      ghost var start := pos;
      var len: nat := 0;
      for i := 0 to numBytes
        invariant pos == start + i && len == BigEndian(data[start..pos])
      {
        assert data[start..pos + 1][..i] == data[start..pos];
        len := len * 256 + data[pos];
        pos := pos + 1;
      }
      r := Ok(len);
    }

    method Sequence() returns (r: Result<nat, HsmError>)
      requires Valid()
      modifies this
      ensures Valid()
      ensures match EnterSequence(data, old(pos))
              case None => r == Err(GeneralError)
              case Some((len, next)) => r == Ok(len) && pos == next
    {
      var tag := Tag();
      if tag.Err? || tag.value != 0x30 {
        return Err(GeneralError);
      }
      r := Length();
    }

    method Bytes(len: nat) returns (r: Result<seq<byte>, HsmError>)
      requires Valid() && len < U32_MODULUS
      modifies this
      ensures Valid()
      ensures match ReadBytes(data, old(pos), len)
              case None => r == Err(GeneralError)
              case Some((bytes, next)) => r == Ok(bytes) && pos == next
    {
      if pos + len > |data| {
        return Err(GeneralError);
      }
      r := Ok(data[pos..pos + len]);
      pos := pos + len;
    }

    method Integer() returns (r: Result<seq<byte>, HsmError>)
      requires Valid()
      modifies this
      ensures Valid()
      ensures match ReadInteger(data, old(pos))
              case None => r == Err(GeneralError)
              case Some((bytes, next)) => r == Ok(bytes) && pos == next
    {
      var tag := Tag();
      if tag.Err? || tag.value != 0x02 {
        return Err(GeneralError);
      }
      var len := Length();
      if len.Err? {
        return Err(GeneralError);
      }
      r := Bytes(len.value);
      if r.Ok? && |r.value| > 1 && r.value[0] == 0 {
        r := Ok(r.value[1..]);
      }
    }

    /** Unchecked; the next read notices. */
    method Skip(len: nat)
      requires Valid() && pos <= |data| && len < U32_MODULUS
      modifies this
      ensures Valid() && pos == old(pos) + len
    {
      pos := pos + len;
    }
  }

  function Answer(key: Option<Key>): Result<Key, HsmError> {
    match key
    case None => Err(GeneralError)
    case Some(key) => Ok(key)
  }

  /** The branch for RSAPublicKey. */
  method ParsePlain(reader: Reader) returns (r: Result<Key, HsmError>)
    requires reader.Valid()
    modifies reader
    ensures r == Answer(ReadPlainKey(reader.data, old(reader.pos)))
  {
    hide ReadInteger;
    var len := reader.Length();
    if len.Err? {
      return Err(GeneralError);
    }
    var modulus := reader.Bytes(len.value);
    if modulus.Err? {
      return Err(GeneralError);
    }
    var stripped := if modulus.value != [] && modulus.value[0] == 0 then modulus.value[1..] else modulus.value;
    var exponent := reader.Integer();
    if exponent.Err? {
      return Err(GeneralError);
    }
    r := Ok(Key(stripped, exponent.value));
  }

  /** The branch for SubjectPublicKeyInfo. */
  method ParseWrapped(reader: Reader) returns (r: Result<Key, HsmError>)
    requires reader.Valid()
    modifies reader
    ensures r == Answer(ReadWrappedKey(reader.data, old(reader.pos)))
  {
    hide ReadInteger, EnterSequence;
    var len := reader.Length();
    if len.Err? {
      return Err(GeneralError);
    }
    reader.Skip(len.value);
    var tag := reader.Tag();
    if tag.Err? || tag.value != 0x03 {
      return Err(GeneralError);
    }
    len := reader.Length();
    if len.Err? {
      return Err(GeneralError);
    }
    reader.Skip(1);
    len := reader.Sequence();
    if len.Err? {
      return Err(GeneralError);
    }
    var modulus := reader.Integer();
    if modulus.Err? {
      return Err(GeneralError);
    }
    var exponent := reader.Integer();
    if exponent.Err? {
      return Err(GeneralError);
    }
    r := Ok(Key(modulus.value, exponent.value));
  }

  method ParseRsaSpki(der: seq<byte>) returns (r: Result<Key, HsmError>)
    requires |der| < U64_MODULUS / 2
    ensures r == Answer(ParseKey(der))
  {
    hide EnterSequence, ReadPlainKey, ReadWrappedKey;
    var reader := new Reader(der);
    var len := reader.Sequence();
    if len.Err? {
      return Err(GeneralError);
    }
    var tag := reader.Tag();
    if tag.Err? {
      return Err(GeneralError);
    }
    if tag.value == 0x02 {
      r := ParsePlain(reader);
    } else if tag.value == 0x30 {
      r := ParseWrapped(reader);
    } else {
      r := Err(GeneralError);
    }
  }

  // ---------------------------------------------------------------------------
  // What is accepted
  // ---------------------------------------------------------------------------

  /** A length stands at p, as one byte or as a count of at most four bytes and these; the content
      starts behind it. */
  predicate LengthAt(d: seq<byte>, p: nat, len: nat, start: nat) {
    && p < start <= |d|
    && (|| (start == p + 1 && d[p] < 0x80 && len == d[p])
        || (start <= p + 5 && d[p] == 0x80 + (start - p - 1) && len == BigEndian(d[p + 1..start])))
  }

  predicate HeaderAt(d: seq<byte>, p: nat, tag: byte, len: nat, start: nat) {
    p < |d| && d[p] == tag && LengthAt(d, p + 1, len, start)
  }

  predicate IntegerAt(d: seq<byte>, p: nat, start: nat, end: nat) {
    start <= end <= |d| && HeaderAt(d, p, 0x02, end - start, start)
  }

  /** Where the contents of a key's parts start, and the lengths given for them. */
  datatype Layout = Layout(
    outerLen: nat, outer: nat, algLen: nat, alg: nat, bitsLen: nat, bits: nat, innerLen: nat, inner: nat,
    n: nat, nEnd: nat, e: nat, eEnd: nat)

  predicate PlainAt(d: seq<byte>, w: Layout) {
    && HeaderAt(d, 0, 0x30, w.outerLen, w.outer)
    && IntegerAt(d, w.outer, w.n, w.nEnd) && IntegerAt(d, w.nEnd, w.e, w.eEnd)
  }

  /** Only the length of the algorithm counts; those of the outer sequence, the bit string and the inner
      sequence are not compared with anything, nor is the byte before the inner sequence. */
  predicate WrappedAt(d: seq<byte>, w: Layout) {
    && HeaderAt(d, 0, 0x30, w.outerLen, w.outer)
    && HeaderAt(d, w.outer, 0x30, w.algLen, w.alg)
    && HeaderAt(d, w.alg + w.algLen, 0x03, w.bitsLen, w.bits)
    && HeaderAt(d, w.bits + 1, 0x30, w.innerLen, w.inner)
    && IntegerAt(d, w.inner, w.n, w.nEnd) && IntegerAt(d, w.nEnd, w.e, w.eEnd)
  }

  predicate KeyAt(d: seq<byte>, w: Layout, key: Key) {
    || (PlainAt(d, w) && key == Key(DropLeadingZero(d[w.n..w.nEnd]), DropSignByte(d[w.e..w.eEnd])))
    || (WrappedAt(d, w) && key == Key(DropSignByte(d[w.n..w.nEnd]), DropSignByte(d[w.e..w.eEnd])))
  }

  lemma LengthExactly(d: seq<byte>, p: nat, len: nat, start: nat)
    ensures ReadLength(d, p) == Some((len, start)) <==> LengthAt(d, p, len, start)
  {
  }

  lemma IntegerRead(d: seq<byte>, p: nat, start: nat, end: nat)
    requires IntegerAt(d, p, start, end)
    ensures ReadInteger(d, p) == Some((DropSignByte(d[start..end]), end))
  {
    hide ReadLength, LengthAt, DropSignByte;
    LengthExactly(d, p + 1, end - start, start);
  }

  lemma IntegerPlace(d: seq<byte>, p: nat) returns (start: nat, end: nat)
    requires ReadInteger(d, p).Some?
    ensures IntegerAt(d, p, start, end) && ReadInteger(d, p).value == (DropSignByte(d[start..end]), end)
  {
    hide LengthAt, DropSignByte;
    var (len, content) := ReadLength(d, p + 1).value;
    start, end := content, content + len;
    LengthExactly(d, p + 1, len, content);
  }

  lemma KeyRead(d: seq<byte>, w: Layout, key: Key)
    requires KeyAt(d, w, key)
    ensures ParseKey(d) == Some(key)
  {
    hide ReadLength, LengthAt, ReadInteger, DropSignByte, DropLeadingZero;
    LengthExactly(d, 1, w.outerLen, w.outer);
    IntegerRead(d, w.nEnd, w.e, w.eEnd);
    if PlainAt(d, w) {
      LengthExactly(d, w.outer + 1, w.nEnd - w.n, w.n);
    } else {
      LengthExactly(d, w.outer + 1, w.algLen, w.alg);
      LengthExactly(d, w.alg + w.algLen + 1, w.bitsLen, w.bits);
      LengthExactly(d, w.bits + 2, w.innerLen, w.inner);
      IntegerRead(d, w.inner, w.n, w.nEnd);
    }
  }

  lemma PlainPlace(d: seq<byte>, p: nat) returns (n: nat, nEnd: nat, e: nat, eEnd: nat)
    requires ReadPlainKey(d, p + 1).Some? && p < |d| && d[p] == 0x02
    ensures IntegerAt(d, p, n, nEnd) && IntegerAt(d, nEnd, e, eEnd)
    ensures ReadPlainKey(d, p + 1).value == Key(DropLeadingZero(d[n..nEnd]), DropSignByte(d[e..eEnd]))
  {
    hide LengthAt, DropSignByte, ReadInteger;
    var (len, content) := ReadLength(d, p + 1).value;
    n, nEnd := content, content + len;
    LengthExactly(d, p + 1, len, content);
    e, eEnd := IntegerPlace(d, nEnd);
  }

  lemma TwoPlaces(d: seq<byte>, p: nat) returns (n: nat, nEnd: nat, e: nat, eEnd: nat)
    requires ReadTwoIntegers(d, p).Some?
    ensures IntegerAt(d, p, n, nEnd) && IntegerAt(d, nEnd, e, eEnd)
    ensures ReadTwoIntegers(d, p).value == Key(DropSignByte(d[n..nEnd]), DropSignByte(d[e..eEnd]))
  {
    hide IntegerAt, DropSignByte, ReadInteger;
    n, nEnd := IntegerPlace(d, p);
    e, eEnd := IntegerPlace(d, nEnd);
  }

  lemma WrappedPlace(d: seq<byte>) returns (w: Layout)
    requires ParseKey(d).Some? && d[EnterSequence(d, 0).value.1] == 0x30
    ensures KeyAt(d, w, ParseKey(d).value)
  {
    hide ReadLength, LengthAt, DropSignByte, ReadTwoIntegers, IntegerAt;
    var (outerLen, outer) := ReadLength(d, 1).value;
    var (algLen, alg) := ReadLength(d, outer + 1).value;
    var (bitsLen, bits) := ReadLength(d, alg + algLen + 1).value;
    var (innerLen, inner) := ReadLength(d, bits + 2).value;
    LengthExactly(d, 1, outerLen, outer);
    LengthExactly(d, outer + 1, algLen, alg);
    LengthExactly(d, alg + algLen + 1, bitsLen, bits);
    LengthExactly(d, bits + 2, innerLen, inner);
    var n, nEnd, e, eEnd := TwoPlaces(d, inner);
    w := Layout(outerLen, outer, algLen, alg, bitsLen, bits, innerLen, inner, n, nEnd, e, eEnd);
    assert WrappedAt(d, w);
  }

  lemma KeyPlace(d: seq<byte>) returns (w: Layout)
    requires ParseKey(d).Some?
    ensures KeyAt(d, w, ParseKey(d).value)
  {
    hide LengthAt, DropSignByte, ReadPlainKey, ReadWrappedKey, IntegerAt;
    var (outerLen, outer) := ReadLength(d, 1).value;
    if d[outer] == 0x02 {
      LengthExactly(d, 1, outerLen, outer);
      var n, nEnd, e, eEnd := PlainPlace(d, outer);
      w := Layout(outerLen, outer, 0, 0, 0, 0, 0, 0, n, nEnd, e, eEnd);
      assert PlainAt(d, w);
    } else {
      w := WrappedPlace(d);
    }
  }

  /** Exactly the byte strings with these tags and lengths at these places are accepted, and the key is
      what stands there. */
  lemma AcceptedExactly(d: seq<byte>, key: Key)
    ensures ParseKey(d) == Some(key) <==> exists w :: KeyAt(d, w, key)
  {
    hide ParseKey, KeyAt;
    if ParseKey(d) == Some(key) {
      var w := KeyPlace(d);
    }
    if w :| KeyAt(d, w, key) {
      KeyRead(d, w, key);
    }
  }

  // ---------------------------------------------------------------------------
  // Encodings
  // ---------------------------------------------------------------------------

  /** The number of bytes that hold n. */
  function Width(n: nat): nat {
    if n == 0 then 0 else 1 + Width(n / 256)
  }

  /** Section 8.1.3 of X.690 has a length for n: the first byte 0xFF is reserved. */
  predicate Encodable(n: nat) {
    Width(n) < 127
  }

  /** The shortest form of a length, section 10.1 of X.690. */
  function EncodeLength(n: nat): (s: seq<byte>)
    requires Encodable(n)
  {
    if n < 0x80 then [n] else [0x80 + Width(n)] + ToBigEndian(n, Width(n))
  }

  function Encode(tag: byte, content: seq<byte>): seq<byte>
    requires Encodable(|content|)
  {
    [tag] + EncodeLength(|content|) + content
  }

  /** The content of the DER integer with this unsigned value, given without leading zeros. */
  function IntegerContent(magnitude: seq<byte>): seq<byte> {
    if magnitude == [] || magnitude[0] >= 0x80 then [0] + magnitude else magnitude
  }

  lemma {:induction false} WidthBound(n: nat)
    ensures n < Pow256(Width(n)) && (0 < n ==> Pow256(Width(n) - 1) <= n)
  {
    if n > 0 {
      WidthBound(n / 256);
    }
  }

  lemma WidthFour(n: nat)
    ensures Width(n) <= 4 <==> n < U32_MODULUS
  {
    WidthBound(n);
    PowersOf256();
    if Width(n) <= 4 {
      PowMonotone(Width(n), 4);
    } else {
      PowMonotone(4, Width(n) - 1);
    }
  }

  /** The bytes x stand at position p. */
  ghost predicate At(d: seq<byte>, p: nat, x: seq<byte>) {
    p + |x| <= |d| && d[p..p + |x|] == x
  }

  lemma AtParts(d: seq<byte>, p: nat, x: seq<byte>, y: seq<byte>)
    requires At(d, p, x + y)
    ensures At(d, p, x) && At(d, p + |x|, y)
  {
    assert d[p..p + |x|] == d[p..p + |x + y|][..|x|];
    assert d[p + |x|..p + |x| + |y|] == d[p..p + |x + y|][|x|..];
  }

  lemma AtByte(d: seq<byte>, p: nat, b: byte)
    requires At(d, p, [b])
    ensures p < |d| && d[p] == b
  {
    assert d[p] == d[p..p + 1][0];
  }

  /** A length is read back exactly if it is below 2^32; longer ones are refused. */
  lemma ReadLengthOf(d: seq<byte>, p: nat, n: nat)
    requires Encodable(n) && At(d, p, EncodeLength(n))
    ensures ReadLength(d, p) == if n < U32_MODULUS then Some((n, p + |EncodeLength(n)|)) else None
  {
    WidthFour(n);
    if n < 0x80 {
      AtByte(d, p, n);
    } else {
      var w := Width(n);
      AtParts(d, p, [0x80 + w], ToBigEndian(n, w));
      AtByte(d, p, 0x80 + w);
      if w <= 4 {
        WidthBound(n);
        BigEndianRoundTrip(n, w);
      }
    }
  }

  /** Tag and length of an encoded element, and where its content starts. */
  lemma ReadHeaderOf(d: seq<byte>, p: nat, tag: byte, content: seq<byte>)
    requires Encodable(|content|) && At(d, p, Encode(tag, content))
    ensures ReadTag(d, p) == Some((tag, p + 1))
    ensures var start := p + 1 + |EncodeLength(|content|)|;
            && At(d, start, content) && start + |content| == p + |Encode(tag, content)|
            && ReadLength(d, p + 1) == if |content| < U32_MODULUS then Some((|content|, start)) else None
  {
    hide EncodeLength;
    var length := EncodeLength(|content|);
    assert Encode(tag, content) == [tag] + (length + content);
    AtParts(d, p, [tag], length + content);
    AtByte(d, p, tag);
    AtParts(d, p + 1, length, content);
    ReadLengthOf(d, p + 1, |content|);
  }

  lemma ReadIntegerOf(d: seq<byte>, p: nat, content: seq<byte>)
    requires Encodable(|content|) && |content| < U32_MODULUS && At(d, p, Encode(0x02, content))
    ensures ReadInteger(d, p) == Some((DropSignByte(content), p + |Encode(0x02, content)|))
  {
    hide EncodeLength, Encode, ReadLength;
    ReadHeaderOf(d, p, 0x02, content);
  }

  // ---------------------------------------------------------------------------
  // Round trips
  // ---------------------------------------------------------------------------

  predicate Sized(n: seq<byte>, e: seq<byte>) {
    Encodable(|n|) && Encodable(|e|) && Encodable(|KeyBody(n, e)|)
  }

  /** Modulus and exponent of RSAPublicKey, appendix A.1.1 of RFC 8017, by their contents. */
  function KeyBody(n: seq<byte>, e: seq<byte>): seq<byte>
    requires Encodable(|n|) && Encodable(|e|)
  {
    Encode(0x02, n) + Encode(0x02, e)
  }

  function PlainKey(n: seq<byte>, e: seq<byte>): seq<byte>
    requires Sized(n, e)
  {
    Encode(0x30, KeyBody(n, e))
  }

  predicate WrappedSized(alg: seq<byte>, n: seq<byte>, e: seq<byte>) {
    && Sized(n, e) && Encodable(|alg|) && Encodable(1 + |PlainKey(n, e)|)
    && Encodable(|InfoBody(alg, n, e)|)
  }

  /** SubjectPublicKeyInfo, section 4.1 of RFC 5280: the algorithm, and the key as a bit string with
      no unused bits. */
  function InfoBody(alg: seq<byte>, n: seq<byte>, e: seq<byte>): seq<byte>
    requires Sized(n, e) && Encodable(|alg|) && Encodable(1 + |PlainKey(n, e)|)
  {
    Encode(0x30, alg) + Encode(0x03, [0] + PlainKey(n, e))
  }

  function WrappedKey(alg: seq<byte>, n: seq<byte>, e: seq<byte>): seq<byte>
    requires WrappedSized(alg, n, e)
  {
    Encode(0x30, InfoBody(alg, n, e))
  }

  lemma EncodeGrows(tag: byte, content: seq<byte>)
    requires Encodable(|content|)
    ensures |content| < |Encode(tag, content)|
  {
  }

  lemma StartsAt(x: seq<byte>, suffix: seq<byte>)
    ensures At(x + suffix, 0, x)
  {
  }

  lemma ReadKeyOf(d: seq<byte>, p: nat, n: seq<byte>, e: seq<byte>)
    requires Sized(n, e) && |KeyBody(n, e)| < U32_MODULUS && At(d, p, KeyBody(n, e))
    ensures ReadTwoIntegers(d, p) == Some(Key(DropSignByte(n), DropSignByte(e)))
    ensures ReadTag(d, p) == Some((0x02, p + 1))
    ensures ReadPlainKey(d, p + 1) == Some(Key(DropLeadingZero(n), DropSignByte(e)))
  {
    hide Encode, EncodeLength, ReadInteger, ReadLength, Encodable;
    EncodeGrows(0x02, n);
    EncodeGrows(0x02, e);
    AtParts(d, p, Encode(0x02, n), Encode(0x02, e));
    ReadIntegerOf(d, p, n);
    ReadIntegerOf(d, p + |Encode(0x02, n)|, e);
    ReadHeaderOf(d, p, 0x02, n);
  }

  /** Parsing an encoded RSAPublicKey, whatever follows it, gives its integers back exactly if its
      body is shorter than 2^32 bytes; longer ones are refused. */
  lemma ParseOfPlainKey(n: seq<byte>, e: seq<byte>, suffix: seq<byte>)
    requires Sized(n, e)
    ensures ParseKey(PlainKey(n, e) + suffix) ==
            if |KeyBody(n, e)| < U32_MODULUS then Some(Key(DropLeadingZero(n), DropSignByte(e))) else None
  {
    hide Encode, EncodeLength, ReadPlainKey, ReadWrappedKey, ReadLength, Encodable, KeyBody;
    var d := PlainKey(n, e) + suffix;
    StartsAt(PlainKey(n, e), suffix);
    ReadHeaderOf(d, 0, 0x30, KeyBody(n, e));
    if |KeyBody(n, e)| < U32_MODULUS {
      ReadKeyOf(d, 1 + |EncodeLength(|KeyBody(n, e)|)|, n, e);
    }
  }

  lemma ReadBitStringOf(d: seq<byte>, p: nat, n: seq<byte>, e: seq<byte>)
    requires Sized(n, e) && Encodable(1 + |PlainKey(n, e)|) && 1 + |PlainKey(n, e)| < U32_MODULUS
    requires At(d, p, Encode(0x03, [0] + PlainKey(n, e)))
    ensures ReadBitString(d, p) == Some(Key(DropSignByte(n), DropSignByte(e)))
  {
    hide Encode, EncodeLength, ReadTwoIntegers, ReadLength, ReadTag, Encodable, KeyBody, At, DropSignByte;
    var key, body := PlainKey(n, e), KeyBody(n, e);
    EncodeGrows(0x30, body);
    ReadHeaderOf(d, p, 0x03, [0] + key);
    var content := p + 1 + |EncodeLength(1 + |key|)|;
    AtParts(d, content, [0], key);
    ReadHeaderOf(d, content + 1, 0x30, body);
    ReadKeyOf(d, content + 2 + |EncodeLength(|body|)|, n, e);
  }

  lemma ReadWrappedOf(d: seq<byte>, p: nat, alg: seq<byte>, n: seq<byte>, e: seq<byte>)
    requires WrappedSized(alg, n, e) && |InfoBody(alg, n, e)| < U32_MODULUS && At(d, p, InfoBody(alg, n, e))
    ensures ReadTag(d, p) == Some((0x30, p + 1))
    ensures ReadWrappedKey(d, p + 1) == Some(Key(DropSignByte(n), DropSignByte(e)))
  {
    hide Encode, EncodeLength, ReadBitString, ReadLength, ReadTag, Encodable, PlainKey, At, DropSignByte;
    var bits := [0] + PlainKey(n, e);
    EncodeGrows(0x30, alg);
    EncodeGrows(0x03, bits);
    AtParts(d, p, Encode(0x30, alg), Encode(0x03, bits));
    ReadHeaderOf(d, p, 0x30, alg);
    ReadBitStringOf(d, p + |Encode(0x30, alg)|, n, e);
  }

  /** The same for a key wrapped in SubjectPublicKeyInfo with any algorithm identifier. */
  lemma ParseOfWrappedKey(alg: seq<byte>, n: seq<byte>, e: seq<byte>, suffix: seq<byte>)
    requires WrappedSized(alg, n, e)
    ensures ParseKey(WrappedKey(alg, n, e) + suffix) ==
            if |InfoBody(alg, n, e)| < U32_MODULUS then Some(Key(DropSignByte(n), DropSignByte(e))) else None
  {
    hide Encode, EncodeLength, ReadPlainKey, ReadWrappedKey, ReadLength, Encodable, InfoBody;
    var d := WrappedKey(alg, n, e) + suffix;
    StartsAt(WrappedKey(alg, n, e), suffix);
    ReadHeaderOf(d, 0, 0x30, InfoBody(alg, n, e));
    if |InfoBody(alg, n, e)| < U32_MODULUS {
      ReadWrappedOf(d, 1 + |EncodeLength(|InfoBody(alg, n, e)|)|, alg, n, e);
    }
  }

  /** No leading zero byte, and not zero. */
  predicate Minimal(magnitude: seq<byte>) {
    magnitude != [] && magnitude[0] != 0
  }

  /** Both encodings of every nonzero modulus and exponent come back as they were. */
  lemma KeyRoundTrip(alg: seq<byte>, modulus: seq<byte>, exponent: seq<byte>, suffix: seq<byte>)
    requires Minimal(modulus) && Minimal(exponent)
    requires WrappedSized(alg, IntegerContent(modulus), IntegerContent(exponent))
    ensures var n, e := IntegerContent(modulus), IntegerContent(exponent);
            && (ParseKey(PlainKey(n, e) + suffix) == Some(Key(modulus, exponent))
                <==> |KeyBody(n, e)| < U32_MODULUS)
            && (ParseKey(WrappedKey(alg, n, e) + suffix) == Some(Key(modulus, exponent))
                <==> |InfoBody(alg, n, e)| < U32_MODULUS)
  {
    hide ParseKey, PlainKey, WrappedKey, KeyBody, InfoBody;
    var n, e := IntegerContent(modulus), IntegerContent(exponent);
    ParseOfPlainKey(n, e, suffix);
    ParseOfWrappedKey(alg, n, e, suffix);
  }

  /** The two forms of one key are read alike unless the modulus is zero: then the plain form gives
      no byte and the wrapped one a zero byte. */
  lemma FormsAgreeExactly(alg: seq<byte>, n: seq<byte>, e: seq<byte>)
    requires WrappedSized(alg, n, e) && |InfoBody(alg, n, e)| < U32_MODULUS
    ensures ParseKey(PlainKey(n, e)) == ParseKey(WrappedKey(alg, n, e)) <==> n != [0]
    ensures n == [0] ==> ParseKey(PlainKey(n, e)) == Some(Key([], DropSignByte(e)))
    ensures n == [0] ==> ParseKey(WrappedKey(alg, n, e)) == Some(Key([0], DropSignByte(e)))
  {
    hide ParseKey, PlainKey, WrappedKey, KeyBody, InfoBody, Encodable;
    ParseOfPlainKey(n, e, []);
    ParseOfWrappedKey(alg, n, e, []);
    assert PlainKey(n, e) + [] == PlainKey(n, e);
    assert WrappedKey(alg, n, e) + [] == WrappedKey(alg, n, e);
    BodyShorter(alg, n, e);
  }

  lemma BodyShorter(alg: seq<byte>, n: seq<byte>, e: seq<byte>)
    requires WrappedSized(alg, n, e)
    ensures |KeyBody(n, e)| < |InfoBody(alg, n, e)|
  {
    hide Encode, EncodeLength, Encodable, KeyBody;
    EncodeGrows(0x30, KeyBody(n, e));
    EncodeGrows(0x03, [0] + PlainKey(n, e));
  }
}
