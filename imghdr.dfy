/**
 * The replacement `imghdr` module (imghdr.py): guess an image type from the
 * first 32 bytes of a file. The file read is abstracted as `Option` of the
 * file's contents (`None` when the path is not a file or cannot be opened).
 */
module Imghdr {
  import opened Wrappers
  import opened ImageFormats

  /**
   * `what(file_path)`: no answer for a missing or short file; otherwise the
   * first signature that the header starts with, and "jpeg" when none does.
   */
  function What(file: Option<seq<byte>>): (r: Option<ImageKind>)
    ensures r.None? <==> !IsLong(file)
    ensures r == Some(Jpeg) <==>
      IsLong(file) && (IsJpeg(file.value) || (NoCommonSignature(file.value) && !IsWebp(file.value)))
    ensures r == Some(Png) <==> IsLong(file) && IsPng(file.value)
    ensures r == Some(Gif) <==> IsLong(file) && IsGif(file.value)
    ensures r == Some(Bmp) <==> IsLong(file) && IsBmp(file.value)
    ensures r == Some(Webp) <==> IsLong(file) && IsWebp(file.value)
  {
    match ReadHead(file)
    case None => None
    case Some(head) =>
      if |head| < HeaderLength then None
      else
        HeaderSignatures(file.value);
        SignaturesDisjoint(file.value);
        if IsJpeg(head) then Some(Jpeg)
        else if IsPng(head) then Some(Png)
        else if IsGif(head) then Some(Gif)
        else if IsBmp(head) then Some(Bmp)
        else if IsWebp(head) then Some(Webp)
        else Some(Jpeg)
  }

  /** Every file of 32 bytes or more gets an answer; unrecognised headers read as "jpeg". */
  lemma LongFileClassified(c: seq<byte>)
    requires |c| >= HeaderLength
    ensures What(Some(c)).Some?
    ensures NoCommonSignature(c) && !IsWebp(c) ==> What(Some(c)) == Some(Jpeg)
  {
  }

  /** The answer depends on the first 32 bytes only. */
  lemma HeaderDetermines(a: seq<byte>, b: seq<byte>)
    requires |a| >= HeaderLength && |b| >= HeaderLength && a[..HeaderLength] == b[..HeaderLength]
    ensures What(Some(a)) == What(Some(b))
  {
  }

  /** In fact only the first 12 bytes are ever looked at. */
  lemma TwelveBytesDetermine(a: seq<byte>, b: seq<byte>)
    requires |a| >= HeaderLength && |b| >= HeaderLength && a[..12] == b[..12]
    ensures What(Some(a)) == What(Some(b))
  {
    assert a[..3] == b[..3];
    assert a[..8] == b[..8];
    assert a[..6] == b[..6];
    assert a[..2] == b[..2];
    assert a[..4] == b[..4];
    assert a[8..12] == b[8..12];
  }
}
