/**
 * Concrete headers: an avbtool-made header with chosen block sizes and
 * flags word, and the values the engine derives from it.
 */
module Scenarios {
  import opened Results
  import opened BigEndian
  import opened Vbmeta

  function Zeros(n: nat): (z: seq<byte>)
    ensures |z| == n && forall i :: 0 <= i < n ==> z[i] == 0
  {
    seq(n, _ => 0)
  }

  /** A 256-byte header: magic, version, the two block sizes, the flags word and the release string "avbtool". */
  function SampleHeader(auth: nat, aux: nat, flags: nat): (h: seq<byte>)
    requires auth < TWO_TO_64 / 2 && aux < TWO_TO_64 / 2 && flags < TWO_TO_32
    ensures |h| == HEADER_SIZE
  {
    Pow256Widths();
    MAGIC + Zeros(8) + Encode(auth, 8) + Encode(aux, 8) + Zeros(92) +
    Encode(flags, 4) + Zeros(4) + AVBTOOL + Zeros(41) + Zeros(80)
  }

  /** The fields of a sample header read back as they were written, and it passes the format check. */
  lemma SampleHeaderFields(auth: nat, aux: nat, flags: nat)
    requires auth < TWO_TO_64 / 2 && aux < TWO_TO_64 / 2 && flags < TWO_TO_32
    ensures var h := SampleHeader(auth, aux, flags);
      CheckFormat(h) == Pass &&
      AuthenticationDataBlockSize(h) == auth && AuxiliaryDataBlockSize(h) == aux &&
      (flags < TWO_TO_32 / 2 ==> Flags(h) == flags)
  {
    Pow256Widths();
    var h := SampleHeader(auth, aux, flags);
    assert h[..4] == MAGIC;
    assert h[AUTH_SIZE_OFFSET..AUTH_SIZE_OFFSET + 8] == Encode(auth, 8);
    assert h[AUX_SIZE_OFFSET..AUX_SIZE_OFFSET + 8] == Encode(aux, 8);
    assert h[FLAGS_OFFSET..FLAGS_OFFSET + 4] == Encode(flags, 4);
    assert h[RELEASE_OFFSET..RELEASE_OFFSET + |AVBTOOL|] == AVBTOOL;
    DecodeEncode(auth, 8);
    DecodeEncode(aux, 8);
    DecodeEncode(flags, 4);
  }

  /** auth 0, aux 1000, flags 3: the image is one 4096-byte block and the slot reads as Patched. */
  lemma PatchedSingleBlock()
    ensures var h := SampleHeader(0, 1000, 3);
      CheckFormat(h) == Pass && ImageSize(h) == 4096 && WordStatus(h) == Patched
  {
    SampleHeaderFields(0, 1000, 3);
  }

  /** auth 0, aux 4096, flags 0: 256 + 4096 bytes round up to two blocks and the slot reads as Stock. */
  lemma StockTwoBlocks()
    ensures var h := SampleHeader(0, 4096, 0);
      CheckFormat(h) == Pass && ImageSize(h) == 8192 && WordStatus(h) == Stock
  {
    SampleHeaderFields(0, 4096, 0);
  }

  /** The magic "XXXX" fails the format check, so neither `refresh` nor `setFlags` reads further or writes. */
  lemma WrongMagicRejected(auth: nat, aux: nat, flags: nat)
    requires auth < TWO_TO_64 / 2 && aux < TWO_TO_64 / 2 && flags < TWO_TO_32
    ensures var h := SampleHeader(auth, aux, flags);
      CheckFormat([0x58, 0x58, 0x58, 0x58] + h[4..]) == Fail(UnexpectedFormat)
  {
  }
}
