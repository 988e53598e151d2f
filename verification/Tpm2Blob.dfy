/** The codec of a sealed blob: fixed header fields, then two length-prefixed byte strings. */
module Tpm2Blob {
  import opened Bytes
  import opened Text

  datatype Blob = Blob(pcrMask: u32, pcrBank: u16, primaryAlg: u16, private: seq<byte>, public: seq<byte>)

  /** Lengths are written as 32 bits, whatever they are. */
  function Prefixed(s: seq<byte>): seq<byte> { LittleEndian(|s|, 4) + s }

  function Serialized(b: Blob): seq<byte>
  {
    LittleEndian(b.pcrMask, 4) + LittleEndian(b.pcrBank, 2) + LittleEndian(b.primaryAlg, 2)
    + Prefixed(b.private) + Prefixed(b.public)
  }

  method Serialize(b: Blob) returns (buf: seq<byte>)
    ensures buf == Serialized(b)
  {
    buf := [];
    buf := buf + LittleEndian(b.pcrMask, 4);
    buf := buf + LittleEndian(b.pcrBank, 2);
    buf := buf + LittleEndian(b.primaryAlg, 2);
    ghost var header := buf;
    assert header == LittleEndian(b.pcrMask, 4) + LittleEndian(b.pcrBank, 2) + LittleEndian(b.primaryAlg, 2);
    buf := buf + LittleEndian(|b.private|, 4);
    buf := buf + b.private;
    assert buf == header + Prefixed(b.private);
    ghost var front := buf;
    buf := buf + LittleEndian(|b.public|, 4);
    buf := buf + b.public;
    assert buf == front + Prefixed(b.public);
  }

  lemma LittleEndianBytes(n: nat)
    ensures LittleEndian(n, 2) == [n % 0x100, n / 0x100 % 0x100]
    ensures LittleEndian(n, 4) == [n % 0x100, n / 0x100 % 0x100, n / 0x1_0000 % 0x100, n / 0x100_0000 % 0x100]
  {
    assert n / 0x100 / 0x100 == n / 0x1_0000 && n / 0x1_0000 / 0x100 == n / 0x100_0000;
    assert LittleEndian(n / 0x100_0000, 1) == [n / 0x100_0000 % 0x100];
    assert LittleEndian(n / 0x1_0000, 2) == [n / 0x1_0000 % 0x100] + LittleEndian(n / 0x100_0000, 1);
    assert LittleEndian(n / 0x100, 3) == [n / 0x100 % 0x100] + LittleEndian(n / 0x1_0000, 2);
    assert LittleEndian(n / 0x100, 1) == [n / 0x100 % 0x100];
  }

  /** The bytes of a blob: mask, bank, algorithm, and each part after its length, least significant bytes first. */
  lemma SerializedBytes(b: Blob)
    ensures var m, p, q := b.pcrMask, |b.private|, |b.public|;
      Serialized(b)
      == [m % 0x100, m / 0x100 % 0x100, m / 0x1_0000 % 0x100, m / 0x100_0000 % 0x100,
          b.pcrBank % 0x100, b.pcrBank / 0x100 % 0x100, b.primaryAlg % 0x100, b.primaryAlg / 0x100 % 0x100,
          p % 0x100, p / 0x100 % 0x100, p / 0x1_0000 % 0x100, p / 0x100_0000 % 0x100]
         + b.private + [q % 0x100, q / 0x100 % 0x100, q / 0x1_0000 % 0x100, q / 0x100_0000 % 0x100] + b.public
  {
    hide LittleEndian;
    LittleEndianBytes(b.pcrMask);
    LittleEndianBytes(b.pcrBank);
    LittleEndianBytes(b.primaryAlg);
    LittleEndianBytes(|b.private|);
    LittleEndianBytes(|b.public|);
  }

  function Field(data: seq<byte>, pos: nat, width: nat): nat
    requires pos + width <= |data|
  {
    FromLittleEndian(data[pos..pos + width])
  }

  lemma FieldBound(data: seq<byte>, pos: nat, width: nat)
    requires pos + width <= |data| && width in {2, 4}
    ensures Field(data, pos, width) < if width == 2 then 0x1_0000 else 0x1_0000_0000
  {
    LittleEndianOfBytes(data[pos..pos + width]);
    Capacities();
  }

  /** The lengths that 32 bits hold. */
  predicate InRange(b: Blob) { |b.private| < 0x1_0000_0000 && |b.public| < 0x1_0000_0000 }

  lemma FieldOf(data: seq<byte>, pos: nat, width: nat, n: nat)
    requires pos + width <= |data| && data[pos..pos + width] == LittleEndian(n, width)
    requires (width == 2 && n < 0x1_0000) || (width == 4 && n < 0x1_0000_0000)
    ensures Field(data, pos, width) == n
  {
    Capacities();
    LittleEndianRoundTrip(n, width);
  }

  /** Where the parts of a serialized blob lie. */
  lemma Layout(data: seq<byte>, b: Blob)
    requires Serialized(b) <= data
    ensures var p, q := |b.private|, |b.public|;
      && |data| >= 16 + p + q && |Serialized(b)| == 16 + p + q
      && data[0..4] == LittleEndian(b.pcrMask, 4) && data[4..6] == LittleEndian(b.pcrBank, 2)
      && data[6..8] == LittleEndian(b.primaryAlg, 2) && data[8..12] == LittleEndian(p, 4)
      && data[12..12 + p] == b.private && data[12 + p..16 + p] == LittleEndian(q, 4)
      && data[16 + p..16 + p + q] == b.public
  {
    hide LittleEndian;
    var s := Serialized(b);
    forall i, j | 0 <= i <= j <= |s|
      ensures data[i..j] == s[i..j]
    {
    }
  }

  /** A blob on the front of the data shows in every field that is read. */
  lemma Fields(data: seq<byte>, b: Blob)
    requires Serialized(b) <= data && InRange(b)
    ensures var p, q := |b.private|, |b.public|;
      && |data| >= 16 + p + q && |Serialized(b)| == 16 + p + q
      && Field(data, 0, 4) == b.pcrMask && Field(data, 4, 2) == b.pcrBank && Field(data, 6, 2) == b.primaryAlg
      && Field(data, 8, 4) == p && data[12..12 + p] == b.private
      && Field(data, 12 + p, 4) == q && data[16 + p..16 + p + q] == b.public
  {
    hide LittleEndian, Serialized, Field;
    var p, q := |b.private|, |b.public|;
    Layout(data, b);
    FieldOf(data, 0, 4, b.pcrMask);
    FieldOf(data, 4, 2, b.pcrBank);
    FieldOf(data, 6, 2, b.primaryAlg);
    FieldOf(data, 8, 4, p);
    FieldOf(data, 12 + p, 4, q);
  }

  /** Every field read writes the bytes it was read from. */
  lemma Rewrites(data: seq<byte>, p: nat, q: nat, b: Blob)
    requires |data| >= 16 + p + q
    requires b.pcrMask == Field(data, 0, 4) && b.pcrBank == Field(data, 4, 2) && b.primaryAlg == Field(data, 6, 2)
    requires p == Field(data, 8, 4) && b.private == data[12..12 + p]
    requires q == Field(data, 12 + p, 4) && b.public == data[16 + p..16 + p + q]
    ensures Serialized(b) == data[..16 + p + q]
  {
    hide LittleEndian;
    LittleEndianOfBytes(data[0..4]);
    LittleEndianOfBytes(data[4..6]);
    LittleEndianOfBytes(data[6..8]);
    LittleEndianOfBytes(data[8..12]);
    LittleEndianOfBytes(data[12 + p..12 + p + 4]);
    assert data[12 + p..12 + p + 4] == data[12 + p..16 + p];
    assert data[..8] == data[0..4] + data[4..6] + data[6..8];
    assert data[..12 + p] == data[..8] + (data[8..12] + data[12..12 + p]);
    assert data[..16 + p + q] == data[..12 + p] + (data[12 + p..16 + p] + data[16 + p..16 + p + q]);
  }

  /**
   Reads a blob off the front of the data and says how many bytes it took.  What is read writes back
   those bytes, and every blob on the front of the data, whatever follows it, is read.
   */
  method Deserialize(data: seq<byte>) returns (r: Option<(Blob, nat)>)
    ensures r.Some? ==> InRange(r.value.0) && r.value.1 <= |data| && Serialized(r.value.0) == data[..r.value.1]
    ensures forall b: Blob :: InRange(b) && Serialized(b) <= data ==> r == Some((b, |Serialized(b)|))
  {
    hide Serialized, Field;
    forall b: Blob | InRange(b) && Serialized(b) <= data
      ensures var p, q := |b.private|, |b.public|;
        && |data| >= 16 + p + q && |Serialized(b)| == 16 + p + q
        && Field(data, 0, 4) == b.pcrMask && Field(data, 4, 2) == b.pcrBank && Field(data, 6, 2) == b.primaryAlg
        && Field(data, 8, 4) == p && data[12..12 + p] == b.private
        && Field(data, 12 + p, 4) == q && data[16 + p..16 + p + q] == b.public
    {
      Fields(data, b);
    }
    if |data| < 16 {
      return None;
    }
    FieldBound(data, 0, 4);
    FieldBound(data, 4, 2);
    FieldBound(data, 6, 2);
    FieldBound(data, 8, 4);
    var pcrMask, pcrBank, primaryAlg := Field(data, 0, 4), Field(data, 4, 2), Field(data, 6, 2);
    var privateLen := Field(data, 8, 4);
    var pos := 12;
    if |data| < pos + privateLen + 4 {
      return None;
    }
    var private := data[pos..pos + privateLen];
    pos := pos + privateLen;
    FieldBound(data, pos, 4);
    var publicLen := Field(data, pos, 4);
    pos := pos + 4;
    if |data| < pos + publicLen {
      return None;
    }
    var public := data[pos..pos + publicLen];
    pos := pos + publicLen;
    var blob := Blob(pcrMask, pcrBank, primaryAlg, private, public);
    Rewrites(data, privateLen, publicLen, blob);
    r := Some((blob, pos));
  }

  /** No blob is a proper front of another: the data determine the blob. */
  lemma OneReading(data: seq<byte>, a: Blob, b: Blob)
    requires Serialized(a) <= data && Serialized(b) <= data && InRange(a) && InRange(b)
    ensures a == b
  {
    hide Serialized, Field;
    Fields(data, a);
    Fields(data, b);
  }
}
