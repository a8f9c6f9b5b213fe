/**
 * `ImghdrModule.what` (imghdr_monkeypatch.py): the same classifier as
 * imghdr.py, installed in place of the standard module, but without the
 * RIFF/WEBP branch.
 */
module ImghdrMonkeypatch {
  import opened Wrappers
  import opened ImageFormats
  import Imghdr

  /**
   * `ImghdrModule.what(filepath)`: no answer for a missing or short file;
   * otherwise JPEG, PNG, GIF or BMP by signature, and "jpeg" by default.
   */
  function What(file: Option<seq<byte>>): (r: Option<ImageKind>)
    ensures r.None? <==> !IsLong(file)
    ensures r != Some(Webp)
    ensures r == Some(Jpeg) <==> IsLong(file) && (IsJpeg(file.value) || NoCommonSignature(file.value))
    ensures r == Some(Png) <==> IsLong(file) && IsPng(file.value)
    ensures r == Some(Gif) <==> IsLong(file) && IsGif(file.value)
    ensures r == Some(Bmp) <==> IsLong(file) && IsBmp(file.value)
  {
    match ReadHead(file)
    case None => None
    case Some(head) =>
      if |head| < HeaderLength then None
      else
        HeaderSignatures(file.value);
        SignaturesDisjoint(file.value);
        if IsJpeg(head) then Some(Jpeg)
        else if IsPng(head) then Some(Png)
        else if IsGif(head) then Some(Gif)
        else if IsBmp(head) then Some(Bmp)
        else Some(Jpeg)
  }

  /** A RIFF/WEBP header falls through to the default and reads as "jpeg". */
  lemma WebpReadsAsJpeg(c: seq<byte>)
    requires |c| >= HeaderLength && IsWebp(c)
    ensures What(Some(c)) == Some(Jpeg)
  {
    SignaturesDisjoint(c);
  }

  /**
   * The two classifiers agree on every input except a long RIFF/WEBP file,
   * which imghdr.py calls "webp" and this copy calls "jpeg".
   */
  lemma AgreesWithImghdr(file: Option<seq<byte>>)
    ensures What(file) == Imghdr.What(file) <==> Imghdr.What(file) != Some(Webp)
    ensures Imghdr.What(file) == Some(Webp) ==> What(file) == Some(Jpeg)
    ensures What(file) != Imghdr.What(file) ==> IsLong(file) && IsWebp(file.value)
  {
    if IsLong(file) {
      SignaturesDisjoint(file.value);
    }
  }

  /** Only the first 8 bytes are ever looked at; PNG is the only test that needs more than 6. */
  lemma EightBytesDetermine(a: seq<byte>, b: seq<byte>)
    requires |a| >= HeaderLength && |b| >= HeaderLength && a[..8] == b[..8]
    ensures What(Some(a)) == What(Some(b))
  {
    assert a[..3] == b[..3];
    assert a[..6] == b[..6];
    assert a[..2] == b[..2];
  }
}
