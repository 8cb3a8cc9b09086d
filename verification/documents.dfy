/** The document helpers: choosing a parser by file extension, the text each parser keeps,
    and the check that the extracted text is long enough to analyse. The Word and PDF
    libraries are not modelled; what they read from the file (the paragraphs, the page
    texts, or the message of the exception they raise) is given. */
module Documents {
  import opened Wrappers
  import opened Text

  /** What the parsers see of one uploaded file: the content as a string, for the text
      parser; the paragraphs the Word library reads, or its exception's message; the text of
      each page the PDF library extracts, or its exception's message. */
  datatype Upload = Upload(
    asText: string,
    paragraphs: Result<seq<string>, string>,
    pages: Result<seq<string>, string>)

  // ---------------------------------------------------------------------------------------
  // The extension
  // ---------------------------------------------------------------------------------------

  /** `file_name.lower().split('.')[-1]`. */
  function Extension(fileName: string): (r: string)
    ensures IsExtension(fileName, r)
  {
    var low := Lower(fileName);
    SplitLastSuffix(low, '.');
    LastPieceLacks(low, '.');
    LastPiece(low, '.')
  }

  /** `ext` is the lower-cased name's longest suffix with no dot: the whole name when it has
      no dot, otherwise what follows its last dot. */
  predicate IsExtension(fileName: string, ext: string) {
    Lacks(ext, '.') && EndsAfter(Lower(fileName), ext, '.')
  }

  lemma LastPieceLacks(s: string, c: char)
    ensures Lacks(LastPiece(s, c), c)
  {
    SplitLastLacks(s, c);
  }

  /** `last` ends `s`, and is either all of `s` or preceded by `c`. */
  predicate EndsAfter(s: string, last: string, c: char) {
    |last| <= |s| && s[|s| - |last|..] == last && (|last| == |s| || s[|s| - |last| - 1] == c)
  }

  function LastPiece(s: string, c: char): string {
    var ps := Split(s, [c]);
    ps[|ps| - 1]
  }

  /** The last piece of a split is a suffix of the text, and either the whole text or just
      after a separator. */
  lemma {:induction false} SplitLastSuffix(s: string, c: char)
    ensures EndsAfter(s, LastPiece(s, c), c)
    decreases |s|
  {
    match IndexOf(s, [c], 0)
    case None =>
      assert Split(s, [c]) == [s];
    case Some(i) =>
      SplitLastOfTail(s, c, i);
      SplitLastSuffix(s[i + 1..], c);
      SuffixOfTail(s, i + 1, LastPiece(s[i + 1..], c), c);
  }

  /** After the first separator at `i`, the last piece is the last piece of the rest. */
  lemma SplitLastOfTail(s: string, c: char, i: nat)
    requires IndexOf(s, [c], 0) == Some(i)
    ensures i < |s| && s[i] == c
    ensures LastPiece(s, c) == LastPiece(s[i + 1..], c)
  {
    assert PrefixFrom(s, i, [c], 0);
    assert Split(s, [c]) == [s[..i]] + Split(s[i + 1..], [c]);
  }

  /** What ends the rest after a separator at `j - 1` ends the text. */
  lemma SuffixOfTail(s: string, j: nat, last: string, c: char)
    requires 0 < j <= |s| && s[j - 1] == c
    requires EndsAfter(s[j..], last, c)
    ensures EndsAfter(s, last, c)
  {
    var tail := s[j..];
    assert s[|s| - |last|..] == tail[|tail| - |last|..];
    if |last| < |tail| {
      assert s[|s| - |last| - 1] == tail[|tail| - |last| - 1];
    }
  }

  /** The extension is determined by the name: two strings that both meet `IsExtension` are
      the same. */
  lemma ExtensionUnique(fileName: string, e1: string, e2: string)
    requires IsExtension(fileName, e1) && IsExtension(fileName, e2)
    ensures e1 == e2
  {
  }

  /** A name that lower-cases to a stem, a dot and a dot-free extension has that extension. */
  lemma ExtensionOf(fileName: string, stem: string, ext: string)
    requires Lower(fileName) == stem + "." + ext && Lacks(ext, '.')
    ensures Extension(fileName) == ext
  {
    var low := Lower(fileName);
    assert low[|low| - |ext|..] == ext;
    assert low[|low| - |ext| - 1] == '.';
    ExtensionUnique(fileName, Extension(fileName), ext);
  }

  // ---------------------------------------------------------------------------------------
  // The parsers
  // ---------------------------------------------------------------------------------------

  /** `parse_txt` on a string: the text with the whitespace at both ends removed. */
  function ParseTxt(text: string): (r: string)
    ensures Trimmed(r)
    ensures r == [] <==> AllSpace(text)
  {
    Strip(text)
  }

  /** Parsing a parsed text again changes nothing. */
  lemma ParseTxtIdempotent(text: string)
    ensures ParseTxt(ParseTxt(text)) == ParseTxt(text)
  {
    StripIdempotent(text);
  }

  /** The entries that are not whitespace only, in order. */
  function NonBlank(xs: seq<string>): (r: seq<string>)
    ensures |r| <= |xs|
    ensures forall k :: 0 <= k < |r| ==> !AllSpace(r[k]) && r[k] in xs
    ensures r == [] <==> forall k :: 0 <= k < |xs| ==> AllSpace(xs[k])
  {
    if xs == [] then []
    else
      var rest := NonBlank(xs[1..]);
      assert forall k :: 1 <= k < |xs| ==> xs[k] == xs[1..][k - 1];
      if AllSpace(xs[0]) then rest else [xs[0]] + rest
  }

  /** Dropping blank entries distributes over concatenation. */
  lemma {:induction false} NonBlankAppend(xs: seq<string>, ys: seq<string>)
    ensures NonBlank(xs + ys) == NonBlank(xs) + NonBlank(ys)
  {
    if xs == [] {
      assert xs + ys == ys;
    } else {
      assert (xs + ys)[0] == xs[0];
      assert (xs + ys)[1..] == xs[1..] + ys;
      NonBlankAppend(xs[1..], ys);
    }
  }

  /** Entries none of which is blank are all kept. */
  lemma {:induction false} NonBlankOfNonBlank(xs: seq<string>)
    requires forall k :: 0 <= k < |xs| ==> !AllSpace(xs[k])
    ensures NonBlank(xs) == xs
  {
    if xs != [] {
      NonBlankOfNonBlank(xs[1..]);
    }
  }

  /** A join with a non-blank entry is not blank, whatever the separator. */
  lemma {:induction false} JoinNotBlank(sep: string, xs: seq<string>, k: nat)
    requires k < |xs| && !AllSpace(xs[k])
    ensures !AllSpace(Join(sep, xs))
  {
    if |xs| > 1 {
      var j := Join(sep, xs);
      if k == 0 {
        var m :| 0 <= m < |xs[0]| && !IsSpace(xs[0][m]);
        assert j[m] == xs[0][m];
      } else {
        JoinNotBlank(sep, xs[1..], k - 1);
        var rest := Join(sep, xs[1..]);
        var m :| 0 <= m < |rest| && !IsSpace(rest[m]);
        assert j[|xs[0]| + |sep| + m] == rest[m];
      }
    }
  }

  /** The kept pages or paragraphs, joined with `sep` and trimmed. */
  function JoinKept(sep: string, xs: seq<string>): (r: string)
    ensures Trimmed(r)
    ensures r == [] <==> forall k :: 0 <= k < |xs| ==> AllSpace(xs[k])
  {
    var kept := NonBlank(xs);
    if kept != [] then
      JoinNotBlank(sep, kept, 0);
      Strip(Join(sep, kept))
    else Strip(Join(sep, kept))
  }

  const ParagraphBreak: string := "\n\n"

  /** The paragraph handling of `parse_docx`: the paragraphs that are not whitespace only,
      separated by blank lines, trimmed. The text is empty exactly when every paragraph is
      blank. */
  function ParseDocx(paragraphs: seq<string>): (r: string)
    ensures Trimmed(r)
    ensures r == [] <==> forall k :: 0 <= k < |paragraphs| ==> AllSpace(paragraphs[k])
  {
    JoinKept(ParagraphBreak, paragraphs)
  }

  const PageBreak: string := "\n\n--- Page " + "Break ---\n\n"

  /** The page handling of `parse_pdf`: the page texts that are not whitespace only, separated
      by a page-break line, trimmed. */
  function ParsePdf(pages: seq<string>): (r: string)
    ensures Trimmed(r)
    ensures r == [] <==> forall k :: 0 <= k < |pages| ==> AllSpace(pages[k])
  {
    JoinKept(PageBreak, pages)
  }

  /** Blank paragraphs make no difference to the text: inserting them anywhere gives the same
      result. */
  lemma BlankParagraphsIgnored(before: seq<string>, blank: string, after: seq<string>)
    requires AllSpace(blank)
    ensures ParseDocx(before + [blank] + after) == ParseDocx(before + after)
  {
    assert before + [blank] + after == before + ([blank] + after);
    NonBlankAppend(before, [blank] + after);
    NonBlankAppend([blank], after);
    NonBlankAppend(before, after);
    assert NonBlank([blank]) == [];
  }

  /** One non-blank paragraph gives that paragraph trimmed. */
  lemma OneParagraph(p: string)
    requires !AllSpace(p)
    ensures ParseDocx([p]) == ParseTxt(p)
  {
    NonBlankOfNonBlank([p]);
  }

  // ---------------------------------------------------------------------------------------
  // Dispatch
  // ---------------------------------------------------------------------------------------

  const DocxErrorPrefix: string := "Error parsing " + "DOCX file: "
  const PdfErrorPrefix: string := "Error parsing " + "PDF file: "

  /** The `ValueError` message for an extension no parser handles. */
  function UnsupportedMessage(ext: string): string {
    "Unsupported file " + "format: ." + ext + ". Supported " + "formats: .txt, " + ".docx, .pdf"
  }

  predicate Supported(ext: string) {
    ext == "txt" || ext == "docx" || ext == "pdf"
  }

  /** `parse_document`: the parser chosen by the extension, or the unsupported-format error.
      A library failure surfaces as that parser's error message. */
  function ParseDocument(fileName: string, upload: Upload): (r: Result<string, string>)
    ensures var ext := Extension(fileName);
      && (!Supported(ext) <==> r == Failure(UnsupportedMessage(ext)))
      && (ext == "txt" ==> r == Success(ParseTxt(upload.asText)))
      && (ext == "docx" ==> r == match upload.paragraphs
            case Success(ps) => Success(ParseDocx(ps))
            case Failure(m) => Failure(DocxErrorPrefix + m))
      && (ext == "pdf" ==> r == match upload.pages
            case Success(ps) => Success(ParsePdf(ps))
            case Failure(m) => Failure(PdfErrorPrefix + m))
  {
    var ext := Extension(fileName);
    if ext == "txt" then Success(ParseTxt(upload.asText))
    else if ext == "docx" then
      match upload.paragraphs
      case Success(ps) => Success(ParseDocx(ps))
      case Failure(m) =>
        assert (DocxErrorPrefix + m)[0] == 'E' && UnsupportedMessage(ext)[0] == 'U';
        Failure(DocxErrorPrefix + m)
    else if ext == "pdf" then
      match upload.pages
      case Success(ps) => Success(ParsePdf(ps))
      case Failure(m) =>
        assert (PdfErrorPrefix + m)[0] == 'E' && UnsupportedMessage(ext)[0] == 'U';
        Failure(PdfErrorPrefix + m)
    else Failure(UnsupportedMessage(ext))
  }

  // ---------------------------------------------------------------------------------------
  // Validation
  // ---------------------------------------------------------------------------------------

  const DefaultMinLength: int := 50
  const NoTextMessage: string := "No text content " + "found in the document"
  const ValidMessage: string := "Text validation " + "successful"

  function TooShortMessage(minLength: int): string {
    "Text too short " + "(minimum " + IntToString(minLength) + " characters required)"
  }

  /** `validate_text`: valid exactly when the trimmed text is non-empty and at least
      `minLength` characters long; a blank text gets the no-content message, a short one the
      message naming the minimum. */
  function ValidateText(text: string, minLength: int): (r: (bool, string))
    ensures r.0 <==> Strip(text) != [] && |Strip(text)| >= minLength
    ensures AllSpace(text) ==> r == (false, NoTextMessage)
    ensures !AllSpace(text) && |Strip(text)| < minLength ==> r == (false, TooShortMessage(minLength))
    ensures r.0 ==> r.1 == ValidMessage
  {
    if text == [] || Strip(text) == [] then (false, NoTextMessage)
    else if |Strip(text)| < minLength then (false, TooShortMessage(minLength))
    else (true, ValidMessage)
  }

  /** With the default minimum, a text passes exactly when it has at least 50 characters
      once trimmed, and a short one is told that the minimum is 50. */
  lemma DefaultValidation(text: string)
    ensures ValidateText(text, DefaultMinLength).0 <==> |Strip(text)| >= 50
    ensures !AllSpace(text) && |Strip(text)| < 50 ==>
              ValidateText(text, DefaultMinLength).1 == "Text too short " + "(minimum " + "50" + " characters required)"
  {
    assert NatToString(5) == "5";
    assert NatToString(50) == NatToString(5) + "0";
  }

  /** Validating the parsed text gives the same verdict and message as validating the text
      before trimming. */
  lemma ValidateParsed(text: string, minLength: int)
    ensures ValidateText(ParseTxt(text), minLength) == ValidateText(text, minLength)
  {
    StripIdempotent(text);
  }
}
