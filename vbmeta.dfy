/**
 * The pure half of the vbmeta flag-patching engine: the AvbVBMetaImageHeader
 * layout of libavb's avb_vbmeta_image.h (the first 256 bytes of a vbmeta
 * partition), the format check, the decoding of the two data-block sizes and
 * the flags word, the padded image size, the patch status and the fingerprint
 * that does not depend on the patch status.
 *
 * A partition, or the scratch copy of one, is a `seq<byte>`. A read of the
 * form `dd bs=1 skip=k count=c` is `Read(d, k, c)`: it stops at the end of the
 * partition and yields nothing past it.
 */
module Vbmeta {
  import opened Results
  import opened BigEndian

  const HEADER_SIZE: nat := 256          // AVB_VBMETA_IMAGE_HEADER_SIZE
  const BLOCK_SIZE: nat := 4096          // avbtool's image block size
  const AUTH_SIZE_OFFSET: nat := 12      // authentication_data_block_size, u64
  const AUX_SIZE_OFFSET: nat := 20       // auxiliary_data_block_size, u64
  const FLAGS_OFFSET: nat := 120         // flags, u32
  const FLAGS_BYTE_OFFSET: nat := 123    // least significant byte of flags
  const RELEASE_OFFSET: nat := 128       // release_string, 48 bytes
  const RELEASE_SIZE: nat := 48

  const MAGIC: seq<byte> := [0x41, 0x56, 0x42, 0x30]                 // "AVB0"
  const AVBTOOL: seq<byte> := [0x61, 0x76, 0x62, 0x74, 0x6f, 0x6f, 0x6c]  // "avbtool"

  /** The flags value the engine writes to unlock verification (hashtree and verification disabled). */
  const FLAGS_PATCHED: byte := 0x03
  const FLAGS_STOCK: byte := 0x00

  datatype PatchStatus = Stock | Patched

  datatype Error =
    | UnexpectedFormat   // the magic or the release string did not match
    | EmptyRead          // a shell read produced no output line, so taking its first line threw

  function Min(a: int, b: int): int { if a <= b then a else b }

  /** `dd bs=1 skip=skip count=count` on a partition holding `d`. */
  function Read(d: seq<byte>, skip: nat, count: nat): (r: seq<byte>)
    ensures |r| == Min(count, if skip <= |d| then |d| - skip else 0)
    ensures forall i :: 0 <= i < |r| ==> r[i] == d[skip + i]
  {
    d[Min(skip, |d|)..Min(skip + count, |d|)]
  }

  // ---------------------------------------------------------------------------
  // Format check: the engine goes on only when hasMagic() && hasAvbRelease()

  /** The layout condition that makes bytes a vbmeta image for this engine. */
  ghost predicate IsVbmeta(d: seq<byte>)
  {
    |d| >= RELEASE_OFFSET + |AVBTOOL| &&
    d[..|MAGIC|] == MAGIC &&
    d[RELEASE_OFFSET..RELEASE_OFFSET + |AVBTOOL|] == AVBTOOL
  }

  function StartsWith(s: seq<byte>, prefix: seq<byte>): bool
  {
    |prefix| <= |s| && s[..|prefix|] == prefix
  }

  /**
   * The check at the head of `refresh` and `setFlags`: the four bytes at 0
   * must read back as the line "AVB0", and the first line of the 48 bytes at
   * offset 128 must start with "avbtool". Neither literal holds a line break,
   * so comparing the first line is comparing the bytes. A read past the end
   * of the partition yields no line at all, and taking its first line throws.
   */
  function CheckFormat(d: seq<byte>): (r: Outcome<Error>)
    ensures r.Pass? <==> IsVbmeta(d)
    ensures r.Fail? && r.error == EmptyRead <==>
            |d| == 0 || (|MAGIC| <= |d| <= RELEASE_OFFSET && d[..|MAGIC|] == MAGIC)
  {
    var magic := Read(d, 0, |MAGIC|);
    if magic == [] then Fail(EmptyRead)
    else if magic != MAGIC then Fail(UnexpectedFormat)
    else
      var release := Read(d, RELEASE_OFFSET, RELEASE_SIZE);
      if release == [] then Fail(EmptyRead)
      else if !StartsWith(release, AVBTOOL) then Fail(UnexpectedFormat)
      else Pass
  }

  // ---------------------------------------------------------------------------
  // Header fields and the padded image size

  /** `authentication_data_block_size`, read as a signed `Long`: negative exactly when its top byte has the high bit set. */
  function AuthenticationDataBlockSize(h: seq<byte>): (r: int)
    requires |h| >= AUTH_SIZE_OFFSET + 8
    ensures LONG_MIN <= r <= LONG_MAX
    ensures r >= 0 <==> h[AUTH_SIZE_OFFSET] < 0x80
  {
    GetLong(h, AUTH_SIZE_OFFSET)
  }

  /** `auxiliary_data_block_size`, read as a signed `Long`. */
  function AuxiliaryDataBlockSize(h: seq<byte>): (r: int)
    requires |h| >= AUX_SIZE_OFFSET + 8
    ensures LONG_MIN <= r <= LONG_MAX
    ensures r >= 0 <==> h[AUX_SIZE_OFFSET] < 0x80
  {
    GetLong(h, AUX_SIZE_OFFSET)
  }

  /** `flags`, read as a signed `Int`. */
  function Flags(h: seq<byte>): (r: int)
    requires |h| >= FLAGS_OFFSET + 4
    ensures INT_MIN <= r <= INT_MAX
    ensures r >= 0 <==> h[FLAGS_OFFSET] < 0x80
  {
    GetInt(h, FLAGS_OFFSET)
  }

  /** Kotlin's `Long` arithmetic: the two's-complement 64-bit value congruent to `x`. */
  function Wrap64(x: int): (r: int)
    ensures LONG_MIN <= r <= LONG_MAX
    ensures (r - x) % TWO_TO_64 == 0
    ensures LONG_MIN <= x <= LONG_MAX ==> r == x
  {
    if LONG_MIN <= x <= LONG_MAX then x else (x - LONG_MIN) % TWO_TO_64 + LONG_MIN
  }

  /** Kotlin's `%`: the remainder of division truncated toward zero, which takes the sign of `a`. */
  function TruncRem(a: int, b: int): (r: int)
    requires b > 0
    ensures -b < r < b
    ensures a >= 0 ==> r >= 0
    ensures a <= 0 ==> r <= 0
    ensures IsMultiple(a - r, b)
    ensures r == 0 <==> IsMultiple(a, b)
  {
    if a >= 0 then
      assert a - a % b == (a / b) * b;
      ProductIsMultiple(a / b, b);
      a % b
    else
      assert -a - (-a) % b == ((-a) / b) * b;
      assert a + (-a) % b == -((-a) / b) * b;
      ProductIsMultiple(-((-a) / b), b);
      NegatedMultiple(a, b);
      -((-a) % b)
  }

  predicate IsMultiple(m: int, size: int)
    requires size > 0
  {
    m % size == 0
  }

  lemma ProductIsMultiple(k: int, b: int)
    requires b > 0
    ensures IsMultiple(k * b, b)
  {
    var q := (k * b) / b;
    ProductsApart(q, k, b);
    ProductsApart(k, q, b);
  }

  lemma MultipleIsProduct(x: int, b: int)
    requires b > 0 && IsMultiple(x, b)
    ensures x == (x / b) * b
  {
  }

  lemma ProductsApart(i: int, j: int, b: int)
    requires b > 0
    ensures i < j ==> j * b - i * b >= b
  {
    if i < j {
      assert j * b - i * b == (j - i - 1) * b + b;
      assert (j - i - 1) * b >= 0;
    }
  }

  /** Two distinct multiples of `b` lie at least `b` apart; the next one up is `x + b`. */
  lemma MultiplesApart(x: int, y: int, b: int)
    requires b > 0 && IsMultiple(x, b) && IsMultiple(y, b)
    ensures x < y ==> y - x >= b
    ensures IsMultiple(x + b, b)
  {
    var i, j := x / b, y / b;
    MultipleIsProduct(x, b);
    MultipleIsProduct(y, b);
    ProductsApart(i, j, b);
    assert x + b == (i + 1) * b;
    ProductIsMultiple(i + 1, b);
  }

  lemma NegatedMultiple(a: int, b: int)
    requires b > 0
    ensures IsMultiple(a, b) <==> IsMultiple(-a, b)
  {
    if IsMultiple(a, b) {
      MultipleIsProduct(a, b);
      assert -a == -(a / b) * b;
      ProductIsMultiple(-(a / b), b);
    }
    if IsMultiple(-a, b) {
      MultipleIsProduct(-a, b);
      assert a == -((-a) / b) * b;
      ProductIsMultiple(-((-a) / b), b);
    }
  }
  /**
   * `roundToMultiple(number, size)`: unchanged when the remainder is zero,
   * otherwise `number + size - remainder`. The result is a multiple of `size`
   * and never below `number`; for a non-negative `number` it is less than one
   * block above it.
   */
  function RoundToMultiple(number: int, size: int): (r: int)
    requires size > 0
    ensures IsMultiple(r, size)
    ensures r >= number
    ensures number >= 0 ==> r < number + size
    ensures IsMultiple(number, size) <==> r == number
  {
    var remainder := TruncRem(number, size);
    if remainder == 0 then number
    else
      MultiplesApart(number - remainder, number - remainder, size);
      number + size - remainder
  }

  /** For a non-negative `number`, no multiple of `size` at or above `number` is below the rounded value. */
  lemma RoundToMultipleIsLeast(number: int, size: int, m: int)
    requires size > 0 && number >= 0
    requires IsMultiple(m, size) && m >= number
    ensures RoundToMultiple(number, size) <= m
  {
    MultiplesApart(m, RoundToMultiple(number, size), size);
  }

  /**
   * For a negative `number` that is not already a multiple, the truncating
   * remainder makes `roundToMultiple` overshoot by one block: one block less
   * is still a multiple at or above `number`.
   */
  lemma RoundToMultipleNegativeOvershoots(number: int, size: int)
    requires size > 0 && number < 0 && !IsMultiple(number, size)
    ensures IsMultiple(RoundToMultiple(number, size) - size, size)
    ensures RoundToMultiple(number, size) - size >= number
    ensures RoundToMultiple(number, size) - 2 * size < number
  {
  }

  /** Both block sizes are non-negative and their padded sum fits a `Long`. */
  predicate SizesInRange(auth: int, aux: int)
  {
    auth >= 0 && aux >= 0 && HEADER_SIZE + auth + aux + BLOCK_SIZE <= LONG_MAX + 1
  }

  /**
   * `roundToMultiple(256 + auth + aux, 4096)` evaluated in Kotlin `Long`
   * arithmetic. Without overflow it is a positive multiple of 4096 that covers
   * the header and both data blocks, less than one block above them.
   */
  function ImageSizeOf(auth: int, aux: int): (size: int)
    ensures LONG_MIN <= size <= LONG_MAX
    ensures SizesInRange(auth, aux) ==>
      IsMultiple(size, BLOCK_SIZE) && size > 0 &&
      HEADER_SIZE + auth + aux <= size < HEADER_SIZE + auth + aux + BLOCK_SIZE
  {
    Wrap64(RoundToMultiple(Wrap64(HEADER_SIZE + auth + aux), BLOCK_SIZE))
  }

  /** The padded image size a header announces. */
  function ImageSize(h: seq<byte>): int
    requires |h| >= AUX_SIZE_OFFSET + 8
  {
    ImageSizeOf(AuthenticationDataBlockSize(h), AuxiliaryDataBlockSize(h))
  }

  /** Without overflow the image size is the least multiple of 4096 that covers the header and both data blocks. */
  lemma ImageSizeIsLeast(auth: int, aux: int, m: int)
    requires SizesInRange(auth, aux)
    requires IsMultiple(m, BLOCK_SIZE) && m >= HEADER_SIZE + auth + aux
    ensures ImageSizeOf(auth, aux) <= m
  {
    RoundToMultipleIsLeast(HEADER_SIZE + auth + aux, BLOCK_SIZE, m);
  }

  // ---------------------------------------------------------------------------
  // Patch status

  /** `refresh`: Patched exactly when the 32-bit flags word equals 3. */
  function StatusOfFlags(flags: int): (s: PatchStatus)
  {
    if flags == 3 then Patched else Stock
  }

  /** The status `refresh` reads: Patched exactly when bytes 120..123 are 00 00 00 03. */
  function WordStatus(h: seq<byte>): (s: PatchStatus)
    requires |h| >= FLAGS_OFFSET + 4
    ensures s == Patched <==> h[FLAGS_OFFSET..FLAGS_OFFSET + 4] == [0, 0, 0, 3]
  {
    FlagsWordIsThree(h);
    StatusOfFlags(Flags(h))
  }

  /** `refreshPatchStatus`: Patched exactly when `xxd -p` of byte 123 prints "03". */
  function ByteStatus(b: byte): PatchStatus
  {
    if b == FLAGS_PATCHED then Patched else Stock
  }

  /** The byte `setFlags` writes for a target status; reading it back gives that status. */
  function FlagByte(s: PatchStatus): (b: byte)
    ensures ByteStatus(b) == s
    ensures b == FLAGS_STOCK || b == FLAGS_PATCHED
  {
    match s
    case Patched => FLAGS_PATCHED
    case Stock => FLAGS_STOCK
  }

  /** Reading the flags byte back and writing the byte for that status gives the byte again. */
  lemma FlagByteRoundTrip(b: byte)
    requires b == FLAGS_STOCK || b == FLAGS_PATCHED
    ensures FlagByte(ByteStatus(b)) == b
  {
  }

  /** The flags word reads 3 exactly when its four bytes are 00 00 00 03. */
  lemma FlagsWordIsThree(h: seq<byte>)
    requires |h| >= FLAGS_OFFSET + 4
    ensures Flags(h) == 3 <==> h[FLAGS_OFFSET..FLAGS_OFFSET + 4] == [0, 0, 0, 3]
  {
    var w := h[FLAGS_OFFSET..FLAGS_OFFSET + 4];
    Pow256Widths();
    var three: seq<byte> := [0, 0, 0, 3];
    assert Encode(3, 4) == three by {
      assert Encode(0, 1) == [0];
      assert Encode(0, 2) == [0, 0];
      assert Encode(0, 3) == [0, 0, 0];
    }
    DecodeEncode(3, 4);
    DecodeInjective(w, three);
  }

  /**
   * The word check of `refresh` and the byte check of `refreshPatchStatus`
   * agree exactly when byte 123 is not 0x03 or the three bytes above it are zero.
   */
  lemma StatusChecksAgree(h: seq<byte>)
    requires |h| >= FLAGS_OFFSET + 4
    ensures WordStatus(h) == ByteStatus(h[FLAGS_BYTE_OFFSET]) <==>
            h[FLAGS_BYTE_OFFSET] != FLAGS_PATCHED || h[FLAGS_OFFSET..FLAGS_BYTE_OFFSET] == [0, 0, 0]
  {
    FlagsWordIsThree(h);
    var w := h[FLAGS_OFFSET..FLAGS_OFFSET + 4];
    assert w[3] == h[FLAGS_BYTE_OFFSET];
    assert w[..3] == h[FLAGS_OFFSET..FLAGS_BYTE_OFFSET];
    if h[FLAGS_BYTE_OFFSET] == FLAGS_PATCHED && h[FLAGS_OFFSET..FLAGS_BYTE_OFFSET] == [0, 0, 0] {
      assert w == w[..3] + [w[3]];
    }
  }

  /** Flags 00 00 01 03: `refreshPatchStatus` reports Patched while `refresh` reports Stock. */
  lemma StatusChecksDisagreeOnHighFlags(h: seq<byte>)
    requires |h| >= FLAGS_OFFSET + 4
    requires h[FLAGS_OFFSET..FLAGS_OFFSET + 4] == [0, 0, 1, 3]
    ensures ByteStatus(h[FLAGS_BYTE_OFFSET]) == Patched && WordStatus(h) == Stock
  {
    StatusChecksAgree(h);
    assert h[FLAGS_OFFSET + 2] == 1;
  }

  // ---------------------------------------------------------------------------
  // The fingerprint

  /** The hash input: `dd bs=1 count=n` stops at the end of the partition and reads nothing for n <= 0. */
  function Prefix(d: seq<byte>, n: int): (r: seq<byte>)
    ensures |r| <= |d| && r == d[..|r|]
    ensures 0 <= n <= |d| ==> |r| == n
    ensures n >= |d| ==> r == d
    ensures n <= 0 ==> r == []
  {
    if n <= 0 then [] else d[..Min(n, |d|)]
  }

  /**
   * The engine built over the scratch copy `image` (`isImage = true`): it
   * re-reads the header of the copy and, when the copy reads as Patched,
   * clears byte 123 of the copy before hashing its first `imageSize` bytes.
   */
  function ImageHash(image: seq<byte>, sha1sum: seq<byte> -> string): string
    requires IsVbmeta(image)
  {
    var imageSize := ImageSize(image);
    if WordStatus(image) == Patched then
      sha1sum(Prefix(image[FLAGS_BYTE_OFFSET := FLAGS_STOCK], imageSize))
    else
      sha1sum(Prefix(image, imageSize))
  }

  /**
   * The `sha1` that `refresh` computes for a partition holding `d`, whose
   * format check passed. A Patched partition is not hashed in place: its
   * first `imageSize` bytes are copied to a scratch image, and the engine
   * over that copy supplies the hash; its own format check can fail.
   */
  function Fingerprint(d: seq<byte>, sha1sum: seq<byte> -> string): (r: Result<string, Error>)
    requires IsVbmeta(d)
    ensures r.Failure? ==> WordStatus(d) == Patched && CheckFormat(Prefix(d, ImageSize(d))) == Fail(r.error)
  {
    var imageSize := ImageSize(d);
    if WordStatus(d) == Patched then
      var copy := Prefix(d, imageSize);
      match CheckFormat(copy)
      case Fail(e) => Failure(e)
      case Pass => Success(ImageHash(copy, sha1sum))
    else
      Success(sha1sum(Prefix(d, imageSize)))
  }

  /** What a successful `refresh` leaves in the engine's fields. */
  datatype Reading = Reading(status: PatchStatus, sha1: string)

  /** The outcome of `refresh` on a partition holding `d`. */
  function Inspect(d: seq<byte>, sha1sum: seq<byte> -> string): (r: Result<Reading, Error>)
    ensures r.Success? ==> IsVbmeta(d) && r.value.status == WordStatus(d)
  {
    match CheckFormat(d)
    case Fail(e) => Failure(e)
    case Pass =>
      match Fingerprint(d, sha1sum)
      case Failure(e) => Failure(e)
      case Success(h) => Success(Reading(WordStatus(d), h))
  }

  /**
   * The fingerprint is the hash of the first `imageSize` bytes with the flags
   * byte read as 0x00 when the header says Patched. It fails only for a
   * Patched header whose image size leaves the copy too short to hold the
   * release string.
   */
  lemma FingerprintIsCanonical(d: seq<byte>, sha1sum: seq<byte> -> string)
    requires IsVbmeta(d)
    ensures var p := Prefix(d, ImageSize(d));
      Fingerprint(d, sha1sum) ==
        if WordStatus(d) == Stock then Success(sha1sum(p))
        else if |p| < RELEASE_OFFSET + |AVBTOOL| then Failure(CheckFormat(p).error)
        else Success(sha1sum(p[FLAGS_BYTE_OFFSET := FLAGS_STOCK]))
  {
    var n := ImageSize(d);
    var p := Prefix(d, n);
    if WordStatus(d) == Patched && |p| >= RELEASE_OFFSET + |AVBTOOL| {
      PrefixKeepsFormat(d, p);
      HeaderOfPrefix(d, p);
      assert |p| <= n;
      assert Prefix(p[FLAGS_BYTE_OFFSET := FLAGS_STOCK], ImageSize(p)) == p[FLAGS_BYTE_OFFSET := FLAGS_STOCK];
    }
  }

  /** A prefix that still holds the release string passes the format check. */
  lemma PrefixKeepsFormat(d: seq<byte>, p: seq<byte>)
    requires IsVbmeta(d) && RELEASE_OFFSET + |AVBTOOL| <= |p| <= |d| && p == d[..|p|]
    ensures IsVbmeta(p) && CheckFormat(p) == Pass
  {
    assert p[..|MAGIC|] == d[..|MAGIC|];
    assert p[RELEASE_OFFSET..RELEASE_OFFSET + |AVBTOOL|] == d[RELEASE_OFFSET..RELEASE_OFFSET + |AVBTOOL|];
  }

  /** A prefix that still holds the header fields reads the same header values. */
  lemma HeaderOfPrefix(d: seq<byte>, p: seq<byte>)
    requires |p| >= FLAGS_OFFSET + 4 && |p| <= |d| && p == d[..|p|]
    ensures ImageSize(p) == ImageSize(d) && WordStatus(p) == WordStatus(d)
  {
    assert p[AUTH_SIZE_OFFSET..AUTH_SIZE_OFFSET + 8] == d[AUTH_SIZE_OFFSET..AUTH_SIZE_OFFSET + 8];
    assert p[AUX_SIZE_OFFSET..AUX_SIZE_OFFSET + 8] == d[AUX_SIZE_OFFSET..AUX_SIZE_OFFSET + 8];
    assert p[FLAGS_OFFSET..FLAGS_OFFSET + 4] == d[FLAGS_OFFSET..FLAGS_OFFSET + 4];
  }

  predicate SizesInRangeOf(h: seq<byte>)
    requires |h| >= AUX_SIZE_OFFSET + 8
  {
    SizesInRange(AuthenticationDataBlockSize(h), AuxiliaryDataBlockSize(h))
  }

  /**
   * The fingerprint does not depend on the patch state: for a header whose
   * upper flag bytes are zero and whose sizes do not overflow, writing 0x00 or
   * 0x03 at offset 123 leaves the same fingerprint, the hash of the first
   * `imageSize` bytes with a Stock flags byte.
   */
  lemma FingerprintIgnoresPatch(d: seq<byte>, v: byte, sha1sum: seq<byte> -> string)
    requires IsVbmeta(d) && SizesInRangeOf(d)
    requires d[FLAGS_OFFSET..FLAGS_BYTE_OFFSET] == [0, 0, 0]
    requires v == FLAGS_STOCK || v == FLAGS_PATCHED
    ensures IsVbmeta(d[FLAGS_BYTE_OFFSET := v])
    ensures Fingerprint(d[FLAGS_BYTE_OFFSET := v], sha1sum) ==
            Success(sha1sum(Prefix(d[FLAGS_BYTE_OFFSET := FLAGS_STOCK], ImageSize(d))))
  {
    var e := d[FLAGS_BYTE_OFFSET := v];
    assert e[..|MAGIC|] == d[..|MAGIC|];
    assert e[RELEASE_OFFSET..RELEASE_OFFSET + |AVBTOOL|] == d[RELEASE_OFFSET..RELEASE_OFFSET + |AVBTOOL|];
    assert e[AUTH_SIZE_OFFSET..AUTH_SIZE_OFFSET + 8] == d[AUTH_SIZE_OFFSET..AUTH_SIZE_OFFSET + 8];
    assert e[AUX_SIZE_OFFSET..AUX_SIZE_OFFSET + 8] == d[AUX_SIZE_OFFSET..AUX_SIZE_OFFSET + 8];
    var n := ImageSize(d);
    assert ImageSize(e) == n;
    var p := Prefix(e, n);
    assert |p| >= RELEASE_OFFSET + |AVBTOOL|;
    FingerprintIsCanonical(e, sha1sum);
    StatusChecksAgree(e);
    assert e[FLAGS_OFFSET..FLAGS_BYTE_OFFSET] == [0, 0, 0];
    assert e[FLAGS_BYTE_OFFSET := FLAGS_STOCK] == d[FLAGS_BYTE_OFFSET := FLAGS_STOCK];
    if v == FLAGS_PATCHED {
      assert WordStatus(e) == Patched;
      assert p[FLAGS_BYTE_OFFSET := FLAGS_STOCK] == Prefix(d[FLAGS_BYTE_OFFSET := FLAGS_STOCK], n);
    } else {
      assert WordStatus(e) == Stock;
      assert e == d[FLAGS_BYTE_OFFSET := FLAGS_STOCK];
    }
  }

  /**
   * The nested engine over a copy whose upper flag bytes are zero hashes the
   * copy with a Stock flags byte, whichever of 0x00 and 0x03 it holds.
   */
  lemma ImageHashIgnoresPatch(image: seq<byte>, sha1sum: seq<byte> -> string)
    requires IsVbmeta(image) && image[FLAGS_OFFSET..FLAGS_BYTE_OFFSET] == [0, 0, 0]
    requires image[FLAGS_BYTE_OFFSET] == FLAGS_STOCK || image[FLAGS_BYTE_OFFSET] == FLAGS_PATCHED
    ensures ImageHash(image, sha1sum) == sha1sum(Prefix(image[FLAGS_BYTE_OFFSET := FLAGS_STOCK], ImageSize(image)))
  {
    StatusChecksAgree(image);
    if image[FLAGS_BYTE_OFFSET] == FLAGS_STOCK {
      assert image[FLAGS_BYTE_OFFSET := FLAGS_STOCK] == image;
    }
  }

  /** A vbmeta partition whose block sizes are non-negative and do not overflow always refreshes. */
  lemma RefreshSucceedsOnSaneHeader(d: seq<byte>, sha1sum: seq<byte> -> string)
    requires IsVbmeta(d) && SizesInRangeOf(d)
    ensures Inspect(d, sha1sum).Success?
  {
    FingerprintIsCanonical(d, sha1sum);
  }
}
