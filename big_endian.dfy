/**
 * Big-endian integers as java.nio.ByteBuffer reads them: `getLong` takes eight
 * bytes and `getInt` four, most significant first, as two's-complement values.
 */
module BigEndian {

  /** An octet as the partition stores it. */
  newtype byte = b: int | 0 <= b < 256

  const TWO_TO_32: nat := 0x1_0000_0000
  const TWO_TO_64: nat := 0x1_0000_0000_0000_0000
  const INT_MIN: int := -0x8000_0000
  const INT_MAX: int := 0x7FFF_FFFF
  const LONG_MIN: int := -0x8000_0000_0000_0000
  const LONG_MAX: int := 0x7FFF_FFFF_FFFF_FFFF

  /** 256 to the power `n`: the number of values `n` bytes can hold. */
  function Pow256(n: nat): (r: nat)
    ensures r >= 1
  {
    if n == 0 then 1 else 256 * Pow256(n - 1)
  }

  lemma Pow256Widths()
    ensures Pow256(4) == TWO_TO_32
    ensures Pow256(8) == TWO_TO_64
  {
  }

  /** The unsigned value of `s`, first byte most significant. */
  function Decode(s: seq<byte>): (r: nat)
    ensures r < Pow256(|s|)
  {
    if s == [] then 0
    else
      var high := Decode(s[..|s| - 1]);
      assert high <= Pow256(|s| - 1) - 1;
      high * 256 + s[|s| - 1] as nat
  }

  /** The `width` bytes that hold `n`, most significant first. */
  function Encode(n: nat, width: nat): (r: seq<byte>)
    requires n < Pow256(width)
    ensures |r| == width
  {
    if width == 0 then []
    else Encode(n / 256, width - 1) + [(n % 256) as byte]
  }

  lemma ShiftBound(n: nat, width: nat)
    requires width > 0 && n < Pow256(width)
    ensures n / 256 < Pow256(width - 1)
  {
  }

  lemma {:induction false} DecodeEncode(n: nat, width: nat)
    requires n < Pow256(width)
    ensures Decode(Encode(n, width)) == n
  {
    if width > 0 {
      var s := Encode(n, width);
      var high, low := n / 256, n % 256;
      ShiftBound(n, width);
      var init := Encode(high, width - 1);
      assert s == init + [low as byte];
      assert s[..width - 1] == init;
      DecodeEncode(high, width - 1);
      var d := Decode(init);
      assert d == high;
      assert Decode(s) == d * 256 + low;
    }
  }

  lemma {:induction false} EncodeDecode(s: seq<byte>)
    ensures Encode(Decode(s), |s|) == s
  {
    if s != [] {
      var init, last := s[..|s| - 1], s[|s| - 1];
      var n := Decode(s);
      assert n / 256 == Decode(init) && n % 256 == last as nat;
      EncodeDecode(init);
      assert s == init + [last];
    }
  }

  /** Two byte strings of one width are equal exactly when their values are. */
  lemma DecodeInjective(s: seq<byte>, t: seq<byte>)
    requires |s| == |t|
    ensures Decode(s) == Decode(t) <==> s == t
  {
  }

  /** A 64-bit two's-complement reading of an unsigned value. */
  function ToSigned64(u: nat): (r: int)
    requires u < TWO_TO_64
    ensures LONG_MIN <= r <= LONG_MAX
    ensures (r - u) % TWO_TO_64 == 0
    ensures r >= 0 <==> u < TWO_TO_64 / 2
  {
    if u < TWO_TO_64 / 2 then u else u - TWO_TO_64
  }

  /** A 32-bit two's-complement reading of an unsigned value. */
  function ToSigned32(u: nat): (r: int)
    requires u < TWO_TO_32
    ensures INT_MIN <= r <= INT_MAX
    ensures (r - u) % TWO_TO_32 == 0
    ensures r >= 0 <==> u < TWO_TO_32 / 2
  {
    if u < TWO_TO_32 / 2 then u else u - TWO_TO_32
  }

  /** `ByteBuffer.getLong` at absolute position `offset`. */
  function GetLong(s: seq<byte>, offset: nat): (r: int)
    requires offset + 8 <= |s|
    ensures r >= 0 <==> s[offset] < 128
  {
    Pow256Widths();
    var u := Decode(s[offset..offset + 8]);
    HighByteSign(s[offset..offset + 8]);
    ToSigned64(u)
  }

  /** `ByteBuffer.getInt` at absolute position `offset`. */
  function GetInt(s: seq<byte>, offset: nat): (r: int)
    requires offset + 4 <= |s|
    ensures r >= 0 <==> s[offset] < 128
  {
    Pow256Widths();
    HighByteSign(s[offset..offset + 4]);
    ToSigned32(Decode(s[offset..offset + 4]))
  }

  /** The value of a byte string lies in the upper half of its range exactly when its first byte has the top bit set. */
  lemma {:induction false} HighByteSign(s: seq<byte>)
    requires |s| >= 1
    ensures Decode(s) < Pow256(|s|) / 2 <==> s[0] < 0x80
  {
    if |s| == 1 {
      assert s[..0] == [];
    } else {
      var init := s[..|s| - 1];
      assert init[0] == s[0];
      HighByteSign(init);
      assert Pow256(|s|) / 2 == (Pow256(|init|) / 2) * 256 by {
        assert Pow256(|init|) == 256 * Pow256(|init| - 1);
      }
    }
  }
}
