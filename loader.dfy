/**
 * Where the text comes from and what the preview shows: a present upload
 * wins over the text box; a PDF is the concatenation of its pages' text, a
 * plain-text file is its bytes decoded as UTF-8, and any other MIME type
 * yields no text. The PDF reader and the UTF-8 decoder are inputs.
 */
module Loader {
  import opened Wrappers
  import opened Chars
  import opened OptionSeq

  newtype byte = x: int | 0 <= x < 256

  /** An uploaded file: its MIME type and its bytes. */
  datatype Upload = Upload(mimeType: string, content: seq<byte>)

  /** Why no text could be loaded: the reader or the decoder raised. */
  datatype LoadError = PdfUnreadable | NotUtf8

  const PdfType: string := "application/pdf"
  const TextType: string := "text/plain"

  /** Longest preview shown before the ellipsis is added. */
  const PreviewLimit: nat := 800

  /** `"".join(page.extract_text() or "" for page in reader.pages)`: a page without text adds nothing. */
  function JoinPages(pages: seq<Option<string>>): (t: string)
    ensures (forall k :: 0 <= k < |pages| ==> pages[k].None?) ==> t == ""
  {
    if pages == [] then ""
    else (if pages[0].Some? then pages[0].value else "") + JoinPages(pages[1..])
  }

  /** The main text the app works on. */
  function LoadText(upload: Option<Upload>, textInput: string,
                    readPdf: seq<byte> -> Option<seq<Option<string>>>,
                    decodeUtf8: seq<byte> -> Option<string>): (r: Result<string, LoadError>)
    ensures r.Err? ==> upload.Some? && (upload.value.mimeType == PdfType || upload.value.mimeType == TextType)
  {
    match upload
    case Some(u) =>
      if u.mimeType == PdfType then
        match readPdf(u.content)
        case None => Err(PdfUnreadable)
        case Some(pages) => Ok(JoinPages(pages))
      else if u.mimeType == TextType then
        match decodeUtf8(u.content)
        case None => Err(NotUtf8)
        case Some(t) => Ok(t)
      else Ok("")
    case None => Ok(textInput)
  }

  /** `main_text[:800] + ("..." if len(main_text) > 800 else "")`. */
  function Preview(t: string): (p: string)
    ensures |p| <= PreviewLimit + 3
    ensures var n := if |t| <= PreviewLimit then |t| else PreviewLimit; n <= |p| && p[..n] == t[..n]
  {
    if |t| <= PreviewLimit then t else t[..PreviewLimit] + "..."
  }

  /** The preview is shown only when there is text; otherwise the app asks for some. */
  function ShownPreview(mainText: string): (r: Option<string>)
    ensures r.Some? <==> |mainText| > 0
    ensures r.Some? ==> |r.value| <= PreviewLimit + 3
  {
    if mainText == "" then None else Some(Preview(mainText))
  }

  /** Page text is concatenated in page order: joining is a homomorphism. */
  lemma {:induction false} JoinPagesAppend(a: seq<Option<string>>, b: seq<Option<string>>)
    ensures JoinPages(a + b) == JoinPages(a) + JoinPages(b)
    decreases |a|
  {
    if a == [] {
      assert a + b == b;
    } else {
      assert (a + b)[1..] == a[1..] + b;
      JoinPagesAppend(a[1..], b);
    }
  }

  /** The PDF text is the concatenation of the text of the pages that have some. */
  lemma {:induction false} JoinPagesSomes(pages: seq<Option<string>>)
    ensures JoinPages(pages) == Concat(Somes(pages))
    decreases |pages|
  {
    if pages != [] {
      var n := |pages| - 1;
      JoinPagesSomes(pages[..n]);
      assert pages == pages[..n] + [pages[n]];
      JoinPagesAppend(pages[..n], [pages[n]]);
      var last := if pages[n].Some? then [pages[n].value] else [];
      ConcatAppend(Somes(pages[..n]), last);
      assert Concat(last) == (if pages[n].Some? then pages[n].value else "");
    }
  }

  /** An upload, whatever it holds, wins over the text box. */
  lemma LoadPrecedence(u: Upload, t1: string, t2: string,
                       readPdf: seq<byte> -> Option<seq<Option<string>>>,
                       decodeUtf8: seq<byte> -> Option<string>)
    ensures LoadText(Some(u), t1, readPdf, decodeUtf8) == LoadText(Some(u), t2, readPdf, decodeUtf8)
  {
  }

  /**
   * Where the text comes from: the text box without an upload, the pages of
   * a PDF, the decoded bytes of a plain-text file, nothing for another type.
   */
  lemma LoadSources(upload: Option<Upload>, textInput: string,
                    readPdf: seq<byte> -> Option<seq<Option<string>>>,
                    decodeUtf8: seq<byte> -> Option<string>)
    ensures var r := LoadText(upload, textInput, readPdf, decodeUtf8);
      && (upload.None? ==> r == Ok(textInput))
      && (upload.Some? && upload.value.mimeType == PdfType && readPdf(upload.value.content).Some? ==>
            r == Ok(Concat(Somes(readPdf(upload.value.content).value))))
      && (upload.Some? && upload.value.mimeType == TextType && decodeUtf8(upload.value.content).Some? ==>
            r == Ok(decodeUtf8(upload.value.content).value))
      && (upload.Some? && upload.value.mimeType != PdfType && upload.value.mimeType != TextType ==>
            r == Ok(""))
  {
    if upload.Some? && readPdf(upload.value.content).Some? {
      JoinPagesSomes(readPdf(upload.value.content).value);
    }
  }

  /** Loading fails exactly when the PDF reader or the decoder of the uploaded file's type fails. */
  lemma LoadFails(upload: Option<Upload>, textInput: string,
                  readPdf: seq<byte> -> Option<seq<Option<string>>>,
                  decodeUtf8: seq<byte> -> Option<string>)
    ensures LoadText(upload, textInput, readPdf, decodeUtf8).Err?
      <==> upload.Some? &&
           ((upload.value.mimeType == PdfType && readPdf(upload.value.content).None?) ||
            (upload.value.mimeType == TextType && decodeUtf8(upload.value.content).None?))
  {
  }

  /**
   * A short text is shown whole; a long one is cut to its first 800
   * characters followed by an ellipsis.
   */
  lemma PreviewShape(t: string)
    ensures |t| <= PreviewLimit ==> Preview(t) == t
    ensures |t| > PreviewLimit ==>
      |Preview(t)| == PreviewLimit + 3 && Preview(t)[..PreviewLimit] == t[..PreviewLimit]
      && Preview(t)[PreviewLimit..] == "..."
  {
  }
}
