/** The vector's binary format: every element as eight bytes, big-endian,
    two's complement, elements in order (Go's `binary.BigEndian.PutUint64`
    and `binary.BigEndian.Uint64` applied to `uint64(x)` and `int(u)`). */
module Codec {
  import opened Machine

  const Width: nat := 8

  function Pow256(n: nat): (p: nat)
    ensures p > 0
  {
    if n == 0 then 1 else 256 * Pow256(n - 1)
  }

  lemma Pow256Width()
    ensures Pow256(Width) == Two64
  {
  }

  /** The low `n` base-256 digits of `u`, most significant first. */
  function BigEndian(u: nat, n: nat): (bs: seq<Byte>)
    ensures |bs| == n
    ensures n > 0 ==> bs[n - 1] == u % 256
  {
    if n == 0 then [] else BigEndian(u / 256, n - 1) + [u % 256]
  }

  /** The number whose big-endian base-256 digits are `bs`. */
  function FromBigEndian(bs: seq<Byte>): (u: nat)
    ensures u < Pow256(|bs|)
  {
    if bs == [] then 0
    else
      var hi := FromBigEndian(bs[..|bs| - 1]);
      assert hi + 1 <= Pow256(|bs| - 1);
      assert (hi + 1) * 256 <= Pow256(|bs| - 1) * 256;
      hi * 256 + bs[|bs| - 1]
  }

  /** Reading back the digits of a number that fits in `n` digits gives the number. */
  lemma {:induction false} BigEndianRoundTrip(u: nat, n: nat)
    requires u < Pow256(n)
    ensures FromBigEndian(BigEndian(u, n)) == u
  {
    if n > 0 {
      var q := u / 256;
      assert u == q * 256 + u % 256;
      assert q * 256 <= u < Pow256(n - 1) * 256;
      BigEndianRoundTrip(q, n - 1);
      var bs := BigEndian(u, n);
      assert bs[..n - 1] == BigEndian(q, n - 1);
    }
  }

  /** Writing out the number a byte string denotes gives the byte string back. */
  lemma {:induction false} FromBigEndianRoundTrip(bs: seq<Byte>)
    ensures BigEndian(FromBigEndian(bs), |bs|) == bs
  {
    if bs != [] {
      var init, last := bs[..|bs| - 1], bs[|bs| - 1];
      var u := FromBigEndian(bs);
      assert u == FromBigEndian(init) * 256 + last;
      assert u / 256 == FromBigEndian(init);
      assert u % 256 == last;
      FromBigEndianRoundTrip(init);
      assert bs == init + [last];
    }
  }

  /** One element's eight bytes: `PutUint64(b, uint64(x))`. */
  function EncodeInt(x: Int64): (bs: seq<Byte>)
    ensures |bs| == Width
  {
    BigEndian(ToUnsigned(x), Width)
  }

  /** One element from eight bytes: `int(Uint64(b))`. */
  function DecodeInt(bs: seq<Byte>): (x: Int64)
    requires |bs| == Width
    ensures (FromBigEndian(bs) - x) % Two64 == 0
    ensures FromBigEndian(bs) < Two63 ==> x == FromBigEndian(bs)
  {
    Pow256Width();
    ToSigned(FromBigEndian(bs))
  }

  /** The eight bytes of an element read as a big-endian number are the
      element's two's-complement bit pattern. */
  lemma EncodeIntValue(x: Int64)
    ensures FromBigEndian(EncodeInt(x)) == ToUnsigned(x)
  {
    Pow256Width();
    BigEndianRoundTrip(ToUnsigned(x), Width);
  }

  /** Decoding an encoded element gives the element back. */
  lemma DecodeEncodeInt(x: Int64)
    ensures DecodeInt(EncodeInt(x)) == x
  {
    EncodeIntValue(x);
  }

  /** Every eight-byte block is the encoding of the element it decodes to. */
  lemma EncodeDecodeInt(bs: seq<Byte>)
    requires |bs| == Width
    ensures EncodeInt(DecodeInt(bs)) == bs
  {
    Pow256Width();
    FromBigEndianRoundTrip(bs);
    SignedUnsignedRoundTrip(FromBigEndian(bs));
  }

  /** A small non-negative element is seven zero bytes followed by itself. */
  lemma EncodeSmall(x: Int64)
    requires 0 <= x < 256
    ensures EncodeInt(x) == [0, 0, 0, 0, 0, 0, 0, x]
  {
    assert ToUnsigned(x) / 256 == 0 && ToUnsigned(x) % 256 == x;
    assert BigEndian(0, 7) == [0, 0, 0, 0, 0, 0, 0];
  }

  /** What `Serialized` produces for a sequence of elements. */
  function Serialize(s: seq<Int64>): (b: seq<Byte>)
    ensures |b| == Width * |s|
  {
    if s == [] then [] else Serialize(s[..|s| - 1]) + EncodeInt(s[|s| - 1])
  }

  /** What the decoding loop of `DeserializeFrom` appends for a buffer whose
      length is a multiple of eight. */
  function Deserialize(b: seq<Byte>): (s: seq<Int64>)
    requires |b| % Width == 0
    ensures |s| == |b| / Width
  {
    if b == [] then [] else Deserialize(b[..|b| - Width]) + [DecodeInt(b[|b| - Width..])]
  }

  /** Element `k` occupies bytes `8k .. 8k+8` of the serialization, in order. */
  lemma {:induction false} SerializeBlock(s: seq<Int64>, k: nat)
    requires k < |s|
    ensures Serialize(s)[Width * k .. Width * k + Width] == EncodeInt(s[k])
  {
    var init := s[..|s| - 1];
    assert Serialize(s) == Serialize(init) + EncodeInt(s[|s| - 1]);
    if k < |s| - 1 {
      SerializeBlock(init, k);
      assert Serialize(s)[Width * k .. Width * k + Width] == Serialize(init)[Width * k .. Width * k + Width];
    } else {
      assert Serialize(s)[Width * k..] == EncodeInt(s[|s| - 1]);
    }
  }

  /** Decoding the serialization of a sequence gives the sequence back. */
  lemma {:induction false} DeserializeSerialize(s: seq<Int64>)
    ensures Deserialize(Serialize(s)) == s
  {
    if s != [] {
      var init, last := s[..|s| - 1], s[|s| - 1];
      var b := Serialize(s);
      assert b[..|b| - Width] == Serialize(init);
      assert b[|b| - Width..] == EncodeInt(last);
      DeserializeSerialize(init);
      DecodeEncodeInt(last);
      assert s == init + [last];
    }
  }

  /** Serializing what a well-sized buffer decodes to gives the buffer back. */
  lemma {:induction false} SerializeDeserialize(b: seq<Byte>)
    requires |b| % Width == 0
    ensures Serialize(Deserialize(b)) == b
  {
    if b != [] {
      var s := Deserialize(b);
      var init, last := b[..|b| - Width], b[|b| - Width..];
      assert s[..|s| - 1] == Deserialize(init);
      assert s[|s| - 1] == DecodeInt(last);
      SerializeDeserialize(init);
      EncodeDecodeInt(last);
      assert b == init + last;
    }
  }
}
