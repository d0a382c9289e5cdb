/** The multer upload filter for book images: the `/jpeg|jpg|png/` test
    applied to the lower-cased file extension and to the MIME type as sent,
    and the upload size limit. */
module UploadFilter {
  import opened Text
  import BookImage

  const RejectMessage: string := "Solo se permiten imágenes en formato JPG, JPEG o PNG"

  /** The upload limit, 2 MiB. */
  const MaxUploadSize: nat := 2 * 1024 * 1024

  /** The pattern matches somewhere in `s`: an unanchored alternation. */
  predicate MatchesAllowed(s: string) {
    Contains(s, "jpeg") || Contains(s, "jpg") || Contains(s, "png")
  }

  /** One alternative of the pattern matches at position `i`. */
  predicate MatchesAt(s: string, i: int) {
    OccursAt(s, "jpeg", i) || OccursAt(s, "jpg", i) || OccursAt(s, "png", i)
  }

  /** `/jpeg|jpg|png/.test(s)`: try each position from the left, each
      alternative in turn, and stop at the first match. */
  method TestAllowed(s: string) returns (found: bool)
    ensures found <==> (exists i :: 0 <= i <= |s| && MatchesAt(s, i))
    ensures found <==> MatchesAllowed(s)
  {
    var i := 0;
    found := false;
    while i < |s| && !found
      invariant 0 <= i <= |s|
      invariant found ==> 0 < i && MatchesAt(s, i - 1)
      invariant !found ==> forall j :: 0 <= j < i ==> !MatchesAt(s, j)
    {
      var tail := s[i..];
      found := HasPrefix(tail, "jpeg") || HasPrefix(tail, "jpg") || HasPrefix(tail, "png");
      i := i + 1;
    }
    if found {
      assert MatchesAt(s, i - 1);
    } else {
      assert forall j :: i <= j <= |s| ==> !MatchesAt(s, j) by {
        forall j | i <= j <= |s| ensures !MatchesAt(s, j) {
          assert |s[j..]| == 0;
        }
      }
      assert !Contains(s, "jpeg") && !Contains(s, "jpg") && !Contains(s, "png") by {
        forall j | 0 <= j <= |s|
          ensures !OccursAt(s, "jpeg", j) && !OccursAt(s, "jpg", j) && !OccursAt(s, "png", j)
        {
          assert !MatchesAt(s, j);
        }
      }
    }
  }

  /** What the filter hands to its callback: `(null, true)` or an error and
      `false`. */
  datatype FilterDecision = Accept | Reject(message: string)

  /** The file is admitted exactly when both tests match. */
  predicate Admits(extension: string, mimeType: string) {
    MatchesAllowed(Lower(extension)) && MatchesAllowed(mimeType)
  }

  /** The filter callback; `extension` is the original name's extension. */
  method FileFilter(extension: string, mimeType: string) returns (d: FilterDecision)
    ensures d.Accept? <==> MatchesAllowed(Lower(extension)) && MatchesAllowed(mimeType)
    ensures d.Reject? ==> d.message == RejectMessage
  {
    var extOk := TestAllowed(Lower(extension));
    var mimeOk := TestAllowed(mimeType);
    if extOk && mimeOk {
      d := Accept;
    } else {
      d := Reject(RejectMessage);
    }
  }

  /** A file the size limit lets through. */
  predicate WithinUploadLimit(size: nat) {
    size <= MaxUploadSize
  }

  /** The extension test ignores case: an extension is admitted exactly when
      its lower-cased form is. */
  lemma ExtensionCaseIgnored(extension: string, mimeType: string)
    ensures Admits(extension, mimeType) == Admits(Lower(extension), mimeType)
  {
    LowerIdempotent(extension);
  }

  /** The matches are unanchored and the extension is lower-cased, so
      ".pngx" and ".PNG" pass, while the MIME type keeps its case, so
      "image/PNG" fails. */
  lemma PatternExamples()
    ensures MatchesAllowed(Lower(".pngx"))
    ensures MatchesAllowed(Lower(".PNG"))
    ensures MatchesAllowed("image/jpeg")
    ensures !MatchesAllowed("image/PNG")
    ensures Admits(".PNG", "image/png") && !Admits(".PNG", "image/PNG")
  {
    assert Lower(".pngx") == ".pngx";
    assert OccursAt(".pngx", "png", 1);
    assert Lower(".PNG") == ".png";
    assert OccursAt(".png", "png", 1);
    assert OccursAt("image/png", "png", 6);
    assert OccursAt("image/jpeg", "jpeg", 6);
    MissingFirstCharNoOccurrence("image/PNG", "jpeg");
    MissingFirstCharNoOccurrence("image/PNG", "jpg");
    MissingFirstCharNoOccurrence("image/PNG", "png");
  }

  /** The page's rule and the multer configuration disagree: the page stores
      images of up to 5,000,000 bytes of any `image/` type, while the
      configuration accepts at most 2,097,152 bytes, and only extensions and
      MIME types that contain "jpeg", "jpg" or "png" somewhere. */
  lemma ClientAcceptsWhatUploadConfigRejects()
    ensures MaxUploadSize == 2097152
    ensures BookImage.Acceptable(BookImage.SelectedFile(2097153, "image/png"))
         && !WithinUploadLimit(2097153)
    ensures BookImage.Acceptable(BookImage.SelectedFile(1000, "image/gif"))
         && !Admits(".gif", "image/gif")
  {
    assert Lower(".gif") == ".gif";
    MissingFirstCharNoOccurrence(".gif", "jpeg");
    MissingFirstCharNoOccurrence(".gif", "jpg");
    MissingFirstCharNoOccurrence(".gif", "png");
  }
}
