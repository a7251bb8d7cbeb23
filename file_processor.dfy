/**
 * Text extraction for uploaded files (`FileProcessor`). The file type is the extension of the
 * path, lower-cased once when the processor is created; `ExtractText` dispatches on it to the
 * PDF, Word, plain-text, OCR or HTML extractor and rejects every other type. What the parsing
 * libraries read from the file is an input of the model (`FileContents`).
 */
module FileProcessing {
  import opened Wrappers
  import opened Text

  // ---------------------------------------------------------------------------
  // Extensions
  // ---------------------------------------------------------------------------

  /** The directory separator of the Unix platform the service runs on. */
  predicate IsDirectorySeparator(c: char) {
    c == '/'
  }

  /** The position of the last '.' among the first `i` characters that comes after every
      directory separator among them. */
  function LastDot(path: string, i: nat): (r: Option<nat>)
    requires i <= |path|
    ensures r.Some? ==> r.value < i && path[r.value] == '.'
    ensures r.Some? ==> forall k :: r.value < k < i ==> path[k] != '.' && !IsDirectorySeparator(path[k])
    ensures r.None? ==> forall k :: 0 <= k < i && path[k] == '.' ==>
                          exists m :: k < m < i && IsDirectorySeparator(path[m])
    decreases i
  {
    if i == 0 then None
    else if path[i - 1] == '.' then Some(i - 1)
    else if IsDirectorySeparator(path[i - 1]) then None
    else LastDot(path, i - 1)
  }

  /** `Path.GetExtension`: from the last '.' of the file name to the end, or "" when the file
      name has no '.' or ends with one. */
  function GetExtension(path: string): string {
    match LastDot(path, |path|)
    case None => ""
    case Some(d) => if d == |path| - 1 then "" else path[d..]
  }

  /** The extension is "" or a '.' followed by at least one character, none of them a '.' or a
      directory separator, that ends the path. */
  lemma GetExtensionShape(path: string)
    ensures var ext := GetExtension(path);
      ext == "" || (|ext| >= 2 && ext[0] == '.' && ext == path[|path| - |ext|..]
                    && forall k :: 0 < k < |ext| ==> ext[k] != '.' && !IsDirectorySeparator(ext[k]))
  {
    var ext := GetExtension(path);
    if ext != "" {
      var d := LastDot(path, |path|).value;
      assert ext == path[d..];
      forall k | 0 < k < |ext| ensures ext[k] != '.' && !IsDirectorySeparator(ext[k]) {
        assert ext[k] == path[d + k];
      }
    }
  }

  /** A file name that ends in '.' and a non-empty name without dots or separators has that
      extension, whatever comes before it. */
  lemma GetExtensionOf(stem: string, name: string)
    requires |name| > 0
    requires forall k :: 0 <= k < |name| ==> name[k] != '.' && !IsDirectorySeparator(name[k])
    ensures GetExtension(stem + "." + name) == "." + name
  {
    var path := stem + "." + name;
    var d := |stem|;
    assert path[d] == '.';
    assert forall k :: d < k < |path| ==> path[k] == name[k - d - 1];
    LastDotSkips(path, d, |path|);
    assert path[d..] == "." + name;
  }

  lemma {:induction false} LastDotSkips(path: string, d: nat, i: nat)
    requires d < i <= |path| && path[d] == '.'
    requires forall k :: d < k < i ==> path[k] != '.' && !IsDirectorySeparator(path[k])
    ensures LastDot(path, i) == Some(d)
    decreases i
  {
    if i - 1 != d {
      LastDotSkips(path, d, i - 1);
    }
  }

  /** `LastDot` only looks at dots and separators, which lower-casing keeps in place. */
  lemma {:induction false} LastDotOfLower(path: string, i: nat)
    requires i <= |path|
    ensures LastDot(Lower(path), i) == LastDot(path, i)
    decreases i
  {
    if i > 0 {
      assert Lower(path)[i - 1] == LowerChar(path[i - 1]);
      LastDotOfLower(path, i - 1);
    }
  }

  /** Lower-casing the path lower-cases its extension and nothing else that matters. */
  lemma GetExtensionOfLower(path: string)
    ensures GetExtension(Lower(path)) == Lower(GetExtension(path))
  {
    LastDotOfLower(path, |path|);
    match LastDot(path, |path|)
    case None =>
    case Some(d) =>
      if d != |path| - 1 {
        assert Lower(path)[d..] == Lower(path[d..]);
      }
  }

  lemma {:induction false} LowerIdempotent(s: string)
    ensures Lower(Lower(s)) == Lower(s)
    decreases |s|
  {
    if |s| > 0 {
      LowerIdempotent(s[1..]);
      assert Lower(s) == [LowerChar(s[0])] + Lower(s[1..]);
      assert Lower(Lower(s)) == [LowerChar(LowerChar(s[0]))] + Lower(Lower(s[1..]));
    }
  }

  // ---------------------------------------------------------------------------
  // The processor
  // ---------------------------------------------------------------------------

  /** `FileProcessor`: the path and the lower-cased extension, both fixed at creation. */
  datatype FileProcessor = FileProcessor(filePath: string, fileType: string)

  /** The constructor `FileProcessor(filePath)`. */
  function NewFileProcessor(filePath: string): (p: FileProcessor)
    ensures p.filePath == filePath
    ensures Lower(p.fileType) == p.fileType
  {
    LowerIdempotent(GetExtension(filePath));
    FileProcessor(filePath, Lower(GetExtension(filePath)))
  }

  /** `NewFileProcessor` looks at the path's extension without regard to letter case: paths
      that differ only in case get the same file type. */
  lemma FileTypeIgnoresCase(a: string, b: string)
    requires Lower(a) == Lower(b)
    ensures NewFileProcessor(a).fileType == NewFileProcessor(b).fileType
  {
    GetExtensionOfLower(a);
    GetExtensionOfLower(b);
  }

  /** The extractors of the `ExtractText` switch. */
  datatype Extractor = Pdf | Docx | Txt | Image | Html

  /** The arms of the `ExtractText` switch. */
  function SelectExtractor(fileType: string): (r: Option<Extractor>)
    ensures r.None? <==> fileType !in {".pdf", ".docx", ".txt", ".jpg", ".png", ".html", ".htm"}
  {
    if fileType == ".pdf" then Some(Pdf)
    else if fileType == ".docx" then Some(Docx)
    else if fileType == ".txt" then Some(Txt)
    else if fileType == ".jpg" || fileType == ".png" then Some(Image)
    else if fileType == ".html" || fileType == ".htm" then Some(Html)
    else None
  }

  /** What the parsing libraries read from the file: the text of each PDF page (pages 1..N in
      order), the Word body's inner text, the file's text, the OCR text and the HTML document's
      inner text. */
  datatype FileContents = FileContents(
    pdfPages: seq<string>,
    docxBodyText: string,
    fileText: string,
    ocrText: string,
    htmlInnerText: string)

  const UnsupportedMessage: string := "Unsupported file type: "

  /** The result of `ExtractText`: the extracted text, or the message of the
      `NotSupportedException`. */
  function ExtractTextSpec(p: FileProcessor, contents: FileContents): Result<string, string> {
    match SelectExtractor(p.fileType)
    case None => Failure(UnsupportedMessage + p.fileType)
    case Some(Pdf) => Success(PdfText(contents.pdfPages))
    case Some(Docx) => Success(contents.docxBodyText)
    case Some(Txt) => Success(contents.fileText)
    case Some(Image) => Success(contents.ocrText)
    case Some(Html) => Success(HtmlNormalize(contents.htmlInnerText))
  }

  /** `ExtractText`. */
  method ExtractText(p: FileProcessor, contents: FileContents) returns (r: Result<string, string>)
    ensures r == ExtractTextSpec(p, contents)
  {
    match SelectExtractor(p.fileType)
    case None => r := Failure(UnsupportedMessage + p.fileType);
    case Some(Pdf) =>
      var text := ExtractTextFromPdf(contents.pdfPages);
      r := Success(text);
    case Some(Docx) => r := Success(contents.docxBodyText);
    case Some(Txt) => r := Success(contents.fileText);
    case Some(Image) => r := Success(contents.ocrText);
    case Some(Html) => r := Success(ExtractTextFromHtml(contents.htmlInnerText));
  }

  /** Extraction fails exactly for the unsupported types, and the error names the type. */
  lemma ExtractTextOutcome(p: FileProcessor, contents: FileContents)
    ensures ExtractTextSpec(p, contents).Failure? <==>
            p.fileType !in {".pdf", ".docx", ".txt", ".jpg", ".png", ".html", ".htm"}
    ensures ExtractTextSpec(p, contents).Failure? ==>
            ExtractTextSpec(p, contents).error == UnsupportedMessage + p.fileType
  {
  }

  /** A processor created for an upper-case extension dispatches like the lower-case one. */
  lemma UpperCasePdf(stem: string)
    ensures NewFileProcessor(stem + ".PDF").fileType == ".pdf"
    ensures SelectExtractor(NewFileProcessor(stem + ".PDF").fileType) == Some(Pdf)
  {
    GetExtensionOf(stem, "PDF");
    assert stem + "." + "PDF" == stem + ".PDF";
    var l := Lower(".PDF");
    assert l[0] == '.' && l[1] == 'p' && l[2] == 'd' && l[3] == 'f';
    assert l == ".pdf";
  }

  // ---------------------------------------------------------------------------
  // PDF
  // ---------------------------------------------------------------------------

  /** Each page's text followed by a line break, pages in order. */
  function PdfText(pages: seq<string>): string
    decreases |pages|
  {
    if |pages| == 0 then "" else PdfText(pages[..|pages| - 1]) + pages[|pages| - 1] + "\n"
  }

  /** `ExtractTextFromPdf`: `text += page + "\n"` for pages 1..N. */
  method ExtractTextFromPdf(pages: seq<string>) returns (text: string)
    ensures text == PdfText(pages)
  {
    text := "";
    var i := 1;
    while i <= |pages|
      invariant 1 <= i <= |pages| + 1
      invariant text == PdfText(pages[..i - 1])
    {
      assert pages[..i][..i - 1] == pages[..i - 1];
      text := text + pages[i - 1] + "\n";
      i := i + 1;
    }
    assert pages[..|pages|] == pages;
  }

  lemma {:induction false} JoinSnoc(pieces: seq<string>, x: string, sep: char)
    requires |pieces| >= 1
    ensures Join(pieces + [x], sep) == Join(pieces, sep) + [sep] + x
    decreases |pieces|
  {
    if |pieces| > 1 {
      assert (pieces + [x])[1..] == pieces[1..] + [x];
      JoinSnoc(pieces[1..], x, sep);
    }
  }

  /** The PDF text is the pages joined by line breaks, with a final line break. */
  lemma {:induction false} PdfTextIsJoin(pages: seq<string>)
    ensures PdfText(pages) == Join(pages + [""], '\n')
    decreases |pages|
  {
    if |pages| > 0 {
      var init := pages[..|pages| - 1];
      var last := pages[|pages| - 1];
      PdfTextIsJoin(init);
      assert pages + [""] == (init + [last]) + [""];
      JoinSnoc(init + [last], "", '\n');
      if |init| > 0 {
        JoinSnoc(init, last, '\n');
        JoinSnoc(init, "", '\n');
      }
    }
  }

  predicate IsNewLine(c: char) {
    c == '\n'
  }

  /** The pages can be read back from the PDF text when they contain no line break: splitting
      at line breaks gives the pages and one empty piece after the final break. */
  lemma PdfPagesRecovered(pages: seq<string>)
    requires forall k, j :: 0 <= k < |pages| && 0 <= j < |pages[k]| ==> pages[k][j] != '\n'
    ensures SplitWhere(PdfText(pages), IsNewLine) == pages + [""]
  {
    PdfTextIsJoin(pages);
    var pieces := pages + [""];
    forall k, j | 0 <= k < |pieces| && 0 <= j < |pieces[k]| ensures !IsNewLine(pieces[k][j]) {
      assert pieces[k] == pages[k];
    }
    SplitJoin(pieces, '\n', IsNewLine);
  }

  /** The text of the pages of two documents one after the other. */
  lemma {:induction false} PdfTextConcat(a: seq<string>, b: seq<string>)
    ensures PdfText(a + b) == PdfText(a) + PdfText(b)
    decreases |b|
  {
    if |b| == 0 {
      assert a + b == a;
    } else {
      var init, last := b[..|b| - 1], b[|b| - 1];
      PdfTextConcat(a, init);
      assert (a + b)[..|a + b| - 1] == a + init;
      assert (a + b)[|a + b| - 1] == last;
      var x, y, z := PdfText(a), PdfText(init), last + "\n";
      assert PdfText(a + b) == (x + y) + z;
      assert PdfText(b) == y + z;
      assert (x + y) + z == x + (y + z);
    }
  }

  // ---------------------------------------------------------------------------
  // HTML
  // ---------------------------------------------------------------------------

  /** `Regex.Replace(innerText, "\\s+", " ").Trim()`. */
  function HtmlNormalize(s: string): string {
    Trim(CollapseRuns(s, IsWhiteSpace))
  }

  /** `ExtractTextFromHtml`, given the document's inner text. */
  function ExtractTextFromHtml(innerText: string): (r: string)
    ensures r == "" || (!IsWhiteSpace(r[0]) && !IsWhiteSpace(r[|r| - 1]))
    ensures Collapsed(r, IsWhiteSpace)
  {
    HtmlNormalizeShape(innerText);
    HtmlNormalize(innerText)
  }

  /** Dropping separators from both ends of a collapsed text leaves it collapsed, and
      neither end of the result is a separator. */
  lemma DropEndsCollapsed(c: string, p: char -> bool)
    requires Collapsed(c, p)
    ensures var r := DropWhileEnd(DropWhile(c, p), p);
      Collapsed(r, p) && (r == "" || (!p(r[0]) && !p(r[|r| - 1])))
  {
    var d := DropWhile(c, p);
    CollapsedSlice(c, p, |c| - |d|, |c|);
    assert c[|c| - |d|..|c|] == d;
    var r := DropWhileEnd(d, p);
    CollapsedSlice(d, p, 0, |r|);
    assert d[0..|r|] == r;
    if r != "" {
      assert r[0] == d[0];
    }
  }

  /** Dropping characters that `keep` rejects from both ends keeps the filtered text. */
  lemma DropEndsKeeps(c: string, p: char -> bool, keep: char -> bool)
    requires forall x :: keep(x) ==> !p(x)
    ensures Filter(DropWhileEnd(DropWhile(c, p), p), keep) == Filter(c, keep)
  {
    var d := DropWhile(c, p);
    SliceKeeps(c, |c| - |d|, |c|, keep);
    assert c[|c| - |d|..|c|] == d;
    var r := DropWhileEnd(d, p);
    SliceKeeps(d, 0, |r|, keep);
    assert d[0..|r|] == r;
  }

  /** Cutting characters that `keep` rejects off both ends keeps the filtered text. */
  lemma {:induction false} SliceKeeps(c: string, a: nat, b: nat, keep: char -> bool)
    requires a <= b <= |c|
    requires forall i :: 0 <= i < a ==> !keep(c[i])
    requires forall i :: b <= i < |c| ==> !keep(c[i])
    ensures Filter(c[a..b], keep) == Filter(c, keep)
  {
    var front, mid, back := c[..a], c[a..b], c[b..];
    assert c == front + (mid + back);
    FilterConcat(front, mid + back, keep);
    FilterConcat(mid, back, keep);
    FilterNone(front, keep);
    FilterNone(back, keep);
  }

  /** The normalised text neither starts nor ends with white space, every white-space character
      in it is a space, and no two white-space characters are adjacent. */
  lemma HtmlNormalizeShape(s: string)
    ensures var r := HtmlNormalize(s);
      && (r == "" || (!IsWhiteSpace(r[0]) && !IsWhiteSpace(r[|r| - 1])))
      && Collapsed(r, IsWhiteSpace)
  {
    var c := CollapseRuns(s, IsWhiteSpace);
    CollapseRunsShape(s, IsWhiteSpace);
    assert Collapsed(c, IsWhiteSpace);
    DropEndsCollapsed(c, IsWhiteSpace);
    assert HtmlNormalize(s) == DropWhileEnd(DropWhile(c, IsWhiteSpace), IsWhiteSpace);
  }

  /** Normalisation keeps the characters that are not white space, in their order. */
  lemma HtmlNormalizeKeepsText(s: string)
    ensures Filter(HtmlNormalize(s), IsNotWhiteSpace) == Filter(s, IsNotWhiteSpace)
  {
    var c := CollapseRuns(s, IsWhiteSpace);
    CollapseRunsKeeps(s, IsWhiteSpace, IsNotWhiteSpace);
    DropEndsKeeps(c, IsWhiteSpace, IsNotWhiteSpace);
    assert HtmlNormalize(s) == DropWhileEnd(DropWhile(c, IsWhiteSpace), IsWhiteSpace);
  }

  /** Normalising twice is normalising once. */
  lemma HtmlNormalizeIdempotent(s: string)
    ensures HtmlNormalize(HtmlNormalize(s)) == HtmlNormalize(s)
  {
    var r := HtmlNormalize(s);
    HtmlNormalizeShape(s);
    CollapseRunsOfCollapsed(r, IsWhiteSpace);
    assert DropWhile(r, IsWhiteSpace) == r;
    assert DropWhileEnd(r, IsWhiteSpace) == r;
  }
}
