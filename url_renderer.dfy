/**
 * The URL cell of the files grid (src/app/components/shared/url.renderer.ts):
 * case-insensitive tests on the end or start of the URL pick the icon, and
 * only image URLs open a preview.
 */
module UrlRenderer {
  import opened Text

  /** The alternatives of `/\.(gif|jpe?g|tiff?|png|webp|bmp)$/i`, spelt out. */
  const ImageExtensions: seq<string> := ["gif", "jpg", "jpeg", "tif", "tiff", "png", "webp", "bmp"]

  /** `/\.(docx?|xlsx?|pptx?|pdf)$/i`. */
  const DocumentExtensions: seq<string> := ["doc", "docx", "xls", "xlsx", "ppt", "pptx", "pdf"]

  /** `/\.(mp4|webm|ogg|mp3|wav)$/i`. */
  const MultimediaExtensions: seq<string> := ["mp4", "webm", "ogg", "mp3", "wav"]

  /** `/\.(zip|rar|7z|tar|gz|bz2)$/i`. */
  const ArchiveExtensions: seq<string> := ["zip", "rar", "7z", "tar", "gz", "bz2"]

  /** The URL ends with a dot and `ext`, letter case ignored (`\.ext$` with the `i` flag). */
  predicate EndsWithExtension(url: string, ext: string)
  {
    |ext| + 1 <= |url| && url[|url| - |ext| - 1] == '.' && HasAtIgnoringCase(url, |url| - |ext|, ext)
  }

  /** `\.(ext1|ext2|...)$` matches somewhere, which can only be at the end. */
  predicate EndsWithAnyExtension(url: string, exts: seq<string>)
  {
    exists ext :: ext in exts && EndsWithExtension(url, ext)
  }

  predicate IsImageUrl(url: string) { EndsWithAnyExtension(url, ImageExtensions) }

  predicate IsDocumentUrl(url: string) { EndsWithAnyExtension(url, DocumentExtensions) }

  predicate IsMultiMediaUrl(url: string) { EndsWithAnyExtension(url, MultimediaExtensions) }

  predicate IsArchiveUrl(url: string) { EndsWithAnyExtension(url, ArchiveExtensions) }

  /**
   * `/^data:image\/[a-z]+;base64,/i`: with the `i` flag `[a-z]` takes
   * upper-case letters too, and the whole prefix is compared ignoring case.
   */
  predicate IsBase64Url(url: string)
  {
    && HasAtIgnoringCase(url, 0, "data:image/")
    && LetterRun(url, 11) >= 1
    && HasAtIgnoringCase(url, 11 + LetterRun(url, 11), ";base64,")
  }

  // ---------------------------------------------------- exclusivity

  /** An extension made of lower-case letters and digits. */
  predicate IsPlainExtension(ext: string)
  {
    forall k :: 0 <= k < |ext| ==> ('a' <= ext[k] <= 'z' || IsDigit(ext[k]))
  }

  /** Every extension in the four lists is plain. */
  lemma ExtensionListsArePlain()
    ensures forall x :: x in ImageExtensions ==> IsPlainExtension(x)
    ensures forall x :: x in DocumentExtensions ==> IsPlainExtension(x)
    ensures forall x :: x in MultimediaExtensions ==> IsPlainExtension(x)
    ensures forall x :: x in ArchiveExtensions ==> IsPlainExtension(x)
  {
  }

  /** No position inside a plain extension at the end of the URL holds a dot. */
  lemma NoDotInExtension(url: string, ext: string)
    requires EndsWithExtension(url, ext) && IsPlainExtension(ext)
    ensures forall d :: |url| - |ext| <= d < |url| ==> url[d] != '.'
  {
    forall d | |url| - |ext| <= d < |url| ensures url[d] != '.' {
      assert Lower(url[d]) == Lower(ext[d - (|url| - |ext|)]);
    }
  }

  /** Two plain extensions that both end the URL are the same extension. */
  lemma {:induction false} SameSuffixSameExtension(url: string, x: string, y: string)
    requires EndsWithExtension(url, x) && IsPlainExtension(x)
    requires EndsWithExtension(url, y) && IsPlainExtension(y)
    ensures x == y
  {
    NoDotInExtension(url, x);
    NoDotInExtension(url, y);
    assert |x| == |y|;
    var p := |url| - |x|;
    forall k | 0 <= k < |x| ensures x[k] == y[k] {
      assert Lower(x[k]) == Lower(url[p + k]) == Lower(y[k]);
    }
  }

  /** No extension is in two of the lists. */
  lemma ExtensionListsAreDisjoint()
    ensures forall e :: e in ImageExtensions ==> e !in DocumentExtensions && e !in MultimediaExtensions && e !in ArchiveExtensions
    ensures forall e :: e in DocumentExtensions ==> e !in MultimediaExtensions && e !in ArchiveExtensions
    ensures forall e :: e in MultimediaExtensions ==> e !in ArchiveExtensions
  {
  }

  /** A URL that passes two of the extension tests passes them with one extension. */
  lemma SharedExtension(url: string, exts1: seq<string>, exts2: seq<string>)
    requires forall x :: x in exts1 ==> IsPlainExtension(x)
    requires forall x :: x in exts2 ==> IsPlainExtension(x)
    requires EndsWithAnyExtension(url, exts1) && EndsWithAnyExtension(url, exts2)
    ensures exists e :: e in exts1 && e in exts2
  {
    var x :| x in exts1 && EndsWithExtension(url, x);
    var y :| y in exts2 && EndsWithExtension(url, y);
    SameSuffixSameExtension(url, x, y);
  }

  /** The four extension tests never hold together: each URL is in at most one class. */
  lemma ExtensionClassesAreExclusive(url: string)
    ensures !(IsImageUrl(url) && IsDocumentUrl(url))
    ensures !(IsImageUrl(url) && IsMultiMediaUrl(url))
    ensures !(IsImageUrl(url) && IsArchiveUrl(url))
    ensures !(IsDocumentUrl(url) && IsMultiMediaUrl(url))
    ensures !(IsDocumentUrl(url) && IsArchiveUrl(url))
    ensures !(IsMultiMediaUrl(url) && IsArchiveUrl(url))
  {
    ExtensionListsArePlain();
    ExtensionListsAreDisjoint();
    if IsImageUrl(url) && IsDocumentUrl(url) { SharedExtension(url, ImageExtensions, DocumentExtensions); }
    if IsImageUrl(url) && IsMultiMediaUrl(url) { SharedExtension(url, ImageExtensions, MultimediaExtensions); }
    if IsImageUrl(url) && IsArchiveUrl(url) { SharedExtension(url, ImageExtensions, ArchiveExtensions); }
    if IsDocumentUrl(url) && IsMultiMediaUrl(url) { SharedExtension(url, DocumentExtensions, MultimediaExtensions); }
    if IsDocumentUrl(url) && IsArchiveUrl(url) { SharedExtension(url, DocumentExtensions, ArchiveExtensions); }
    if IsMultiMediaUrl(url) && IsArchiveUrl(url) { SharedExtension(url, MultimediaExtensions, ArchiveExtensions); }
  }

  /**
   * The URL cell.  `params` is the cell value the grid passed to agInit
   * (None before the first call).
   */
  class UrlRendererComponent {
    var params: Option<string>
    var isImage: bool
    var fileIcon: string

    constructor ()
      ensures params.None? && !isImage && fileIcon == "insert_drive_file"
    {
      params := None;
      isImage := false;
      fileIcon := "insert_drive_file";
    }

    /**
     * `setIcon(url)`: the image icon follows the `isImage` field, not the
     * argument; otherwise the one extension class the URL is in decides.
     */
    function SetIcon(url: string): (icon: string)
      reads this
      ensures icon in {"image", "description", "movie", "folder_zip", "insert_drive_file"}
      ensures icon == "image" <==> isImage
      ensures icon == "description" <==> !isImage && IsDocumentUrl(url)
      ensures icon == "movie" <==> !isImage && IsMultiMediaUrl(url)
      ensures icon == "folder_zip" <==> !isImage && IsArchiveUrl(url)
      ensures icon == "insert_drive_file" <==>
        !isImage && !IsDocumentUrl(url) && !IsMultiMediaUrl(url) && !IsArchiveUrl(url)
    {
      ExtensionClassesAreExclusive(url);
      if isImage then "image"
      else if IsDocumentUrl(url) then "description"
      else if IsMultiMediaUrl(url) then "movie"
      else if IsArchiveUrl(url) then "folder_zip"
      else "insert_drive_file"
    }

    /** `agInit(params)`: remember the cell, decide whether it is an image, pick the icon. */
    method AgInit(value: string)
      modifies this
      ensures params == Some(value)
      ensures isImage <==> IsImageUrl(value) || IsBase64Url(value)
      ensures fileIcon == SetIcon(value)
    {
      params := Some(value);
      isImage := IsImageUrl(value) || IsBase64Url(value);
      fileIcon := SetIcon(value);
    }

    /** `refresh`: the grid always re-creates the cell. */
    method Refresh(value: string) returns (refreshed: bool)
      ensures !refreshed
    {
      return false;
    }

    /** `openImagePreview(url)`: the dialog opens, showing `url`, only for an image. */
    method OpenImagePreview(url: string) returns (dialogImage: Option<string>)
      ensures dialogImage.Some? <==> isImage
      ensures dialogImage.Some? ==> dialogImage.value == url
    {
      if !isImage {
        return None;
      }
      return Some(url);
    }
  }

  /**
   * A `?` after the last dot defeats every anchored extension test: a plain
   * extension has no `?`, so it cannot reach the end of the URL.
   */
  lemma QueryDefeatsExtension(url: string, q: nat, ext: string)
    requires q < |url| && url[q] == '?'
    requires forall d :: q < d < |url| ==> url[d] != '.'
    requires IsPlainExtension(ext)
    ensures !EndsWithExtension(url, ext)
  {
    var p := |url| - |ext|;
    if |ext| + 1 <= |url| && url[p - 1] == '.' {
      assert p <= q;
      assert Lower(url[q]) == '?';
      assert Lower(ext[q - p]) != '?';
    }
  }

  /** So a URL with a query after its extension gets the generic icon. */
  lemma QueryAfterExtensionIsGeneric(c: UrlRendererComponent)
    requires !c.isImage
    ensures c.SetIcon("http://h/a.pdf?x=1") == "insert_drive_file"
  {
    var url := "http://h/a.pdf?x=1";
    ExtensionListsArePlain();
    assert url[14] == '?' && url[15] == 'x' && url[16] == '=' && url[17] == '1';
    forall ext | IsPlainExtension(ext) ensures !EndsWithExtension(url, ext) {
      QueryDefeatsExtension(url, 14, ext);
    }
  }

  /** The extension tests ignore letter case. */
  lemma UpperCaseExtension()
    ensures IsImageUrl("http://h/A.JPG")
    ensures IsArchiveUrl("x.Tar")
  {
    assert EndsWithExtension("http://h/A.JPG", "jpg");
    assert EndsWithExtension("x.Tar", "tar");
  }

  /** An upper-case example URL, used below. */
  const UpperCaseDataUri := "Data:Image/PNG;Base64,iV"

  /** Its prefix is `data:image/` up to letter case. */
  lemma UpperCaseDataUriPrefix()
    ensures HasAtIgnoringCase(UpperCaseDataUri, 0, "data:image/")
  {
  }

  /** Its subtype has three letters, and `;base64,` follows them up to letter case. */
  lemma UpperCaseDataUriMarker()
    ensures LetterRun(UpperCaseDataUri, 11) == 3
    ensures HasAtIgnoringCase(UpperCaseDataUri, 14, ";base64,")
  {
    var u := UpperCaseDataUri;
    assert u[11] == 'P' && u[12] == 'N' && u[13] == 'G' && u[14] == ';';
  }

  /** The inline-image test ignores letter case. */
  lemma Base64UrlIgnoresCase()
    ensures IsBase64Url(UpperCaseDataUri)
  {
    UpperCaseDataUriPrefix();
    UpperCaseDataUriMarker();
  }

  /** The inline-image test needs at least one letter for the subtype. */
  lemma Base64UrlNeedsSubtype()
    ensures !IsBase64Url("data:image/;base64,iV")
  {
    var v := "data:image/;base64,iV";
    assert v[11] == ';';
  }
}
