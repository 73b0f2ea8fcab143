/** The 26-byte DRO header (`8sHHIIBBBBBB`, little-endian) and its
    signature check.  Only the signature is validated; the delay codes and
    the codemap length are the fields the transcoder depends on. */
module Header {
  import opened Dro

  /** The ASCII bytes of "DBRAWOPL". */
  const Magic: seq<Byte> := [0x44, 0x42, 0x52, 0x41, 0x57, 0x4F, 0x50, 0x4C]

  const HeaderSize: nat := 26

  datatype DroHeader = DroHeader(
    signature: seq<Byte>,
    versionMajor: nat,
    versionMinor: nat,
    lengthPairs: nat,
    lengthMs: nat,
    hardwareType: Byte,
    format: Byte,
    compression: Byte,
    shortDelayCode: Byte,
    longDelayCode: Byte,
    codemapLength: Byte)

  /** Every field fits its slot in the packed layout. */
  predicate Fits(h: DroHeader) {
    && |h.signature| == 8
    && h.versionMajor < Pow256(2) && h.versionMinor < Pow256(2)
    && h.lengthPairs < Pow256(4) && h.lengthMs < Pow256(4)
  }

  function Pow256(n: nat): (r: nat)
    ensures r >= 1
  {
    if n == 0 then 1 else 256 * Pow256(n - 1)
  }

  // ---------------------------------------------------------------------
  // Little-endian unsigned integers

  /** The unsigned integer whose little-endian bytes are `bytes`. */
  function LeDecode(bytes: seq<Byte>): (x: nat)
    ensures x < Pow256(|bytes|)
  {
    if |bytes| == 0 then 0 else bytes[0] as nat + 256 * LeDecode(bytes[1..])
  }

  /** The `n` little-endian bytes of `x`. */
  function LeEncode(x: nat, n: nat): (bytes: seq<Byte>)
    requires x < Pow256(n)
    ensures |bytes| == n
  {
    if n == 0 then [] else [(x % 256) as Byte] + LeEncode(x / 256, n - 1)
  }

  lemma {:induction false} DecodeEncode(x: nat, n: nat)
    requires x < Pow256(n)
    ensures LeDecode(LeEncode(x, n)) == x
  {
    if n > 0 {
      var bytes := LeEncode(x, n);
      assert bytes[1..] == LeEncode(x / 256, n - 1);
      DecodeEncode(x / 256, n - 1);
      assert bytes[0] as nat == x % 256;
    }
  }

  lemma {:induction false} EncodeDecode(bytes: seq<Byte>)
    ensures LeEncode(LeDecode(bytes), |bytes|) == bytes
  {
    if |bytes| > 0 {
      var x := LeDecode(bytes);
      var rest := LeDecode(bytes[1..]);
      assert x == bytes[0] as nat + 256 * rest;
      assert x % 256 == bytes[0] as nat;
      assert x / 256 == rest;
      EncodeDecode(bytes[1..]);
    }
  }

  // ---------------------------------------------------------------------
  // The header

  /** Unpacks the header chunk and checks its signature.  A chunk that is
      not exactly 26 bytes long cannot be unpacked. */
  function ParseHeader(chunk: seq<Byte>): (r: Result<DroHeader>)
    ensures |chunk| != HeaderSize ==> r == Failure(ShortHeader)
    ensures |chunk| == HeaderSize ==> (r.Failure? <==> chunk[..8] != Magic)
    ensures |chunk| == HeaderSize && r.Failure? ==> r.error == BadSignature
    ensures r.Success? ==> Fits(r.value) && r.value.signature == Magic
    ensures r.Success? ==> r.value.versionMajor == LeDecode(chunk[8..10]) && r.value.versionMinor == LeDecode(chunk[10..12])
    ensures r.Success? ==> r.value.lengthPairs == LeDecode(chunk[12..16]) && r.value.lengthMs == LeDecode(chunk[16..20])
    ensures r.Success? ==> r.value.hardwareType == chunk[20] && r.value.format == chunk[21] && r.value.compression == chunk[22]
    ensures r.Success? ==> r.value.shortDelayCode == chunk[23] && r.value.longDelayCode == chunk[24]
    ensures r.Success? ==> r.value.codemapLength == chunk[25]
  {
    if |chunk| != HeaderSize then
      Failure(ShortHeader)
    else
      var h := DroHeader(
        chunk[0..8],
        LeDecode(chunk[8..10]), LeDecode(chunk[10..12]),
        LeDecode(chunk[12..16]), LeDecode(chunk[16..20]),
        chunk[20], chunk[21], chunk[22], chunk[23], chunk[24], chunk[25]);
      if h.signature != Magic then Failure(BadSignature) else Success(h)
  }

  /** Packs a header into its 26 bytes. */
  function EncodeHeader(h: DroHeader): (chunk: seq<Byte>)
    requires Fits(h)
    ensures |chunk| == HeaderSize
    ensures chunk[..8] == h.signature
    ensures chunk[8..10] == LeEncode(h.versionMajor, 2) && chunk[10..12] == LeEncode(h.versionMinor, 2)
    ensures chunk[12..16] == LeEncode(h.lengthPairs, 4) && chunk[16..20] == LeEncode(h.lengthMs, 4)
    ensures chunk[20..] == [h.hardwareType, h.format, h.compression,
                            h.shortDelayCode, h.longDelayCode, h.codemapLength]
  {
    h.signature
      + LeEncode(h.versionMajor, 2) + LeEncode(h.versionMinor, 2)
      + LeEncode(h.lengthPairs, 4) + LeEncode(h.lengthMs, 4)
      + [h.hardwareType, h.format, h.compression,
         h.shortDelayCode, h.longDelayCode, h.codemapLength]
  }

  /** A header with the right signature survives packing and unpacking. */
  lemma ParseEncode(h: DroHeader)
    requires Fits(h) && h.signature == Magic
    ensures ParseHeader(EncodeHeader(h)) == Success(h)
  {
    var chunk := EncodeHeader(h);
    assert chunk[8..10] == LeEncode(h.versionMajor, 2);
    assert chunk[10..12] == LeEncode(h.versionMinor, 2);
    assert chunk[12..16] == LeEncode(h.lengthPairs, 4);
    assert chunk[16..20] == LeEncode(h.lengthMs, 4);
    DecodeEncode(h.versionMajor, 2);
    DecodeEncode(h.versionMinor, 2);
    DecodeEncode(h.lengthPairs, 4);
    DecodeEncode(h.lengthMs, 4);
  }

  /** An accepted chunk is exactly the packing of the header read from it,
      so re-emitting the chunk re-emits the header. */
  lemma EncodeParse(chunk: seq<Byte>)
    requires ParseHeader(chunk).Success?
    ensures EncodeHeader(ParseHeader(chunk).value) == chunk
  {
    EncodeDecode(chunk[8..10]);
    EncodeDecode(chunk[10..12]);
    EncodeDecode(chunk[12..16]);
    EncodeDecode(chunk[16..20]);
    assert chunk == chunk[0..8] + chunk[8..10] + chunk[10..12] + chunk[12..16] + chunk[16..20] + chunk[20..];
  }
}
