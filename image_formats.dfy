/**
 * What the two image-type classifiers (imghdr.py and imghdr_monkeypatch.py)
 * share: bytes, the result kinds, the magic-byte signatures they test, and
 * the file read they both perform (`open(path, 'rb').read(32)`).
 */
module ImageFormats {
  import opened Wrappers
  import opened Seqs

  newtype byte = b: int | 0 <= b < 256

  /** The image types the classifiers can name. */
  datatype ImageKind = Jpeg | Png | Gif | Bmp | Webp

  /** The string the Python functions return for each kind. */
  function Name(k: ImageKind): string {
    match k
    case Jpeg => "jpeg"
    case Png => "png"
    case Gif => "gif"
    case Bmp => "bmp"
    case Webp => "webp"
  }

  /** The returned strings tell the kinds apart: a caller comparing names compares kinds. */
  lemma NamesDistinct(k1: ImageKind, k2: ImageKind)
    ensures Name(k1) == Name(k2) <==> k1 == k2
    ensures Name(k1) in {"jpeg", "png", "gif", "bmp", "webp"}
  {
    if k1 != k2 {
      assert Name(k1)[0] != Name(k2)[0];
    }
  }

  /** The number of bytes both classifiers read, and the least they accept. */
  const HeaderLength: nat := 32

  const JpegMagic: seq<byte> := [0xFF, 0xD8, 0xFF]
  /** "\x89PNG\r\n\x1a\n" */
  const PngMagic: seq<byte> := [0x89, 0x50, 0x4E, 0x47, 0x0D, 0x0A, 0x1A, 0x0A]
  /** "GIF87a" */
  const Gif87aMagic: seq<byte> := [0x47, 0x49, 0x46, 0x38, 0x37, 0x61]
  /** "GIF89a" */
  const Gif89aMagic: seq<byte> := [0x47, 0x49, 0x46, 0x38, 0x39, 0x61]
  /** "BM" */
  const BmpMagic: seq<byte> := [0x42, 0x4D]
  /** "RIFF" */
  const RiffMagic: seq<byte> := [0x52, 0x49, 0x46, 0x46]
  /** "WEBP" */
  const WebpTag: seq<byte> := [0x57, 0x45, 0x42, 0x50]

  predicate IsJpeg(h: seq<byte>) { StartsWith(h, JpegMagic) }
  predicate IsPng(h: seq<byte>) { StartsWith(h, PngMagic) }
  predicate IsGif(h: seq<byte>) { StartsWith(h, Gif87aMagic) || StartsWith(h, Gif89aMagic) }
  predicate IsBmp(h: seq<byte>) { StartsWith(h, BmpMagic) }

  /** `h.startswith(b'RIFF') and h[8:12] == b'WEBP'` (a shorter slice never equals the tag). */
  predicate IsWebp(h: seq<byte>) {
    StartsWith(h, RiffMagic) && |h| >= 12 && h[8..12] == WebpTag
  }

  /** None of the four signatures that both classifiers test. */
  predicate NoCommonSignature(h: seq<byte>) {
    !IsJpeg(h) && !IsPng(h) && !IsGif(h) && !IsBmp(h)
  }

  /**
   * The header a classifier reads: `None` when the path is not a file or
   * cannot be opened, otherwise at most the first 32 bytes of the contents.
   */
  function ReadHead(file: Option<seq<byte>>): (head: Option<seq<byte>>)
    ensures head.Some? <==> file.Some?
    ensures head.Some? ==>
      |head.value| == (if |file.value| < HeaderLength then |file.value| else HeaderLength)
      && StartsWith(file.value, head.value)
  {
    match file
    case None => None
    case Some(contents) =>
      Some(if |contents| < HeaderLength then contents else contents[..HeaderLength])
  }

  /** A file long enough to be classified. */
  predicate IsLong(file: Option<seq<byte>>) {
    file.Some? && |file.value| >= HeaderLength
  }

  /**
   * Each signature test gives the same answer on the 32-byte header as on
   * the whole contents, so the classifiers' contracts can speak of the file.
   */
  lemma HeaderSignatures(c: seq<byte>)
    requires |c| >= HeaderLength
    ensures var h := c[..HeaderLength];
      && (IsJpeg(h) <==> IsJpeg(c)) && (IsPng(h) <==> IsPng(c)) && (IsGif(h) <==> IsGif(c))
      && (IsBmp(h) <==> IsBmp(c)) && (IsWebp(h) <==> IsWebp(c))
  {
    var h := c[..HeaderLength];
    assert h[..3] == c[..3];
    assert h[..8] == c[..8];
    assert h[..6] == c[..6];
    assert h[..2] == c[..2];
    assert h[..4] == c[..4];
    assert h[8..12] == c[8..12];
  }

  /** The signatures exclude each other: their first bytes all differ. */
  lemma SignaturesDisjoint(h: seq<byte>)
    ensures IsJpeg(h) ==> !IsPng(h) && !IsGif(h) && !IsBmp(h) && !IsWebp(h)
    ensures IsPng(h) ==> !IsGif(h) && !IsBmp(h) && !IsWebp(h)
    ensures IsGif(h) ==> !IsBmp(h) && !IsWebp(h)
    ensures IsBmp(h) ==> !IsWebp(h)
  {
    if |h| > 0 {
      if IsJpeg(h) { assert h[0] == JpegMagic[0]; }
      if IsPng(h) { assert h[0] == PngMagic[0]; }
      if IsGif(h) { assert h[0] == 0x47; }
      if IsBmp(h) { assert h[0] == BmpMagic[0]; }
      if IsWebp(h) { assert h[0] == RiffMagic[0]; }
    }
  }
}
