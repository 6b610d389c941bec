/**
 * GetMimeType: the Content-Type for a file extension, from a fixed table,
 * with application/octet-stream for anything else. The extension keeps
 * its leading '.', and the lookup is exact.
 */
module Mime {
  import opened Ascii

  const MimeTypes: map<string, string> := map[
    ".txt" := "text/plain",
    ".html" := "text/html",
    ".css" := "text/css",
    ".js" := "application/javascript",
    ".json" := "application/json",
    ".xml" := "application/xml",
    ".gif" := "image/gif",
    ".jpg" := "image/jpeg",
    ".jpeg" := "image/jpeg",
    ".png" := "image/png",
    ".svg" := "image/svg+xml",
    ".bmp" := "image/bmp",
    ".ico" := "image/x-icon",
    ".webp" := "image/webp",
    ".mp3" := "audio/mpeg",
    ".wav" := "audio/wav",
    ".ogg" := "audio/ogg",
    ".mp4" := "video/mp4",
    ".webm" := "video/webm",
    ".avi" := "video/x-msvideo",
    ".mkv" := "video/x-matroska",
    ".zip" := "application/zip",
    ".rar" := "application/x-rar-compressed",
    ".tar" := "application/x-tar",
    ".gz" := "application/gzip",
    ".bz2" := "application/x-bzip2",
    ".7z" := "application/x-7z-compressed",
    ".pdf" := "application/pdf",
    ".doc" := "application/msword",
    ".docx" := "application/" + "vnd.openxmlformats-officedocument.wordprocessingml.document"
  ]

  const DefaultMimeType: string := "application/octet-stream"

  /** A media type: a non-empty type, '/', a non-empty subtype. */
  predicate IsMediaType(s: string)
  {
    exists i :: 0 < i < |s| - 1 && s[i] == '/'
  }

  function GetMimeType(extension: string): (r: string)
    ensures IsMediaType(r)
    ensures r == DefaultMimeType <==> extension !in MimeTypes
  {
    KnownTypesAreMediaTypes();
    assert DefaultMimeType[11] == '/';
    if extension in MimeTypes then MimeTypes[extension] else DefaultMimeType
  }

  /** Every type in the table is a media type, and none is the default. */
  lemma {:induction false} KnownTypesAreMediaTypes()
    ensures forall e :: e in MimeTypes ==> IsMediaType(MimeTypes[e]) && MimeTypes[e] != DefaultMimeType
  {
    assert "text/plain"[4] == '/';
    assert "text/html"[4] == '/';
    assert "text/css"[4] == '/';
    assert "application/javascript"[11] == '/';
    assert "application/json"[11] == '/';
    assert "application/xml"[11] == '/';
    assert "image/gif"[5] == '/';
    assert "image/jpeg"[5] == '/';
    assert "image/png"[5] == '/';
    assert "image/svg+xml"[5] == '/';
    assert "image/bmp"[5] == '/';
    assert "image/x-icon"[5] == '/';
    assert "image/webp"[5] == '/';
    assert "audio/mpeg"[5] == '/';
    assert "audio/wav"[5] == '/';
    assert "audio/ogg"[5] == '/';
    assert "video/mp4"[5] == '/';
    assert "video/webm"[5] == '/';
    assert "video/x-msvideo"[5] == '/';
    assert "video/x-matroska"[5] == '/';
    assert "application/zip"[11] == '/';
    assert "application/x-rar-compressed"[11] == '/';
    assert "application/x-tar"[11] == '/';
    assert "application/gzip"[11] == '/';
    assert "application/x-bzip2"[11] == '/';
    assert "application/x-7z-compressed"[11] == '/';
    assert "application/pdf"[11] == '/';
    assert "application/msword"[11] == '/';
    assert ("application/" + "vnd.openxmlformats-officedocument.wordprocessingml.document")[11] == '/';
    assert "application/octet-stream"[11] == '/';
  }

  /** .jpg and .jpeg are the two spellings of JPEG. */
  lemma JpegSpellings()
    ensures GetMimeType(".jpg") == GetMimeType(".jpeg") == "image/jpeg"
  {
  }

  /** Every extension in the table is written in lower case. */
  lemma KeysAreLowerCase()
    ensures forall e :: e in MimeTypes ==> IsLowerCase(e)
  {
  }

  /**
   * The lookup does not fold case: an extension with an upper-case letter
   * gets the default, as ".HTML" does while ".html" is text/html.
   */
  lemma LookupIsCaseSensitive(extension: string)
    requires !IsLowerCase(extension)
    ensures GetMimeType(extension) == DefaultMimeType
    ensures GetMimeType(".HTML") == DefaultMimeType && GetMimeType(".html") == "text/html"
  {
    KeysAreLowerCase();
    assert !IsLowerCase(".HTML") by {
      assert ToLower(".HTML"[1]) != ".HTML"[1];
    }
  }

  /** The extension is looked up with its '.'. */
  lemma LookupNeedsDot()
    ensures GetMimeType("html") == DefaultMimeType
  {
  }
}
