/** `extract_text_from_file`: choose a document reader from the file name's
    extension and assemble the resume text from what that reader yields. */
module Extraction {
  import opened Wrappers
  import opened Strings
  import opened CaseFold
  import opened Pieces

  /** What a third-party document library yields: a value, or the message of
      the exception it raised. It is an input to the helper, kept apart from
      the helper's own `Result`: a `Raised` message is the library's, before
      the helper adds its error prefix, and a page's `Raised` may sit inside
      a `Returned` page list. */
  datatype Lib<+T> = Returned(value: T) | Raised(message: string)

  /** An uploaded resume: its file name, and what each library would yield
      when asked to read its content. Only the library that the name selects
      is ever consulted.
      - pdfPages: `PdfReader(f).pages`, and for each page `page.extract_text()`;
      - docxParagraphs: the `text` of each of `docx.Document(f).paragraphs`;
      - docText: `textract.process(...)` on a temporary copy, decoded as UTF-8. */
  datatype UploadedFile = UploadedFile(
    name: string,
    pdfPages: Lib<seq<Lib<string>>>,
    docxParagraphs: Lib<seq<string>>,
    docText: Lib<string>)

  const ErrorPrefix: string := "Error extracting text: "
  const PdfEmpty: string := "PDF file is empty"
  const PdfNoText: string := "No text could be extracted from the PDF"
  const DocxNoText: string := "No text found in DOCX file"
  const DocNoText: string := "No text found in DOC file"
  const UnsupportedType: string := "Unsupported file type. Only PDF, DOC, and DOCX are allowed."

  /** `name.split('.')[-1].lower()`: the lower-cased text after the last `.`,
      or the whole lower-cased name when it has no `.`. */
  function FileType(name: string): (t: string)
    ensures |t| <= |name| && '.' !in t
    ensures t == Lower(name[|name| - |t|..])
    ensures |t| < |name| ==> name[|name| - |t| - 1] == '.'
  {
    var seg := LastSegment(name, '.');
    LowerKeeps(seg, '.');
    Lower(seg)
  }

  /** The file type is the last piece that Python's `split('.')` produces. */
  lemma FileTypeIsLastPiece(name: string)
    ensures var parts := Split(name, '.'); FileType(name) == Lower(parts[|parts| - 1])
  {
    LastOfSplit(name, '.');
  }

  predicate NonEmpty(t: string) { t != [] }

  predicate NotBlank(t: string) { Strip(t) != [] }

  /** The index of the first page whose `extract_text()` raises, or the
      number of pages when every page can be read. */
  function FirstRaised(pages: seq<Lib<string>>): (k: nat)
    ensures k <= |pages|
    ensures forall j :: 0 <= j < k ==> pages[j].Returned?
    ensures k < |pages| ==> pages[k].Raised?
  {
    if pages == [] || pages[0].Raised? then 0 else 1 + FirstRaised(pages[1..])
  }

  /** The text of every page, read in page order; the first page whose
      `extract_text()` raises ends the reading with that exception. */
  function PageTexts(pages: seq<Lib<string>>): (r: Result<seq<string>>)
    ensures r.Ok? <==> forall i :: 0 <= i < |pages| ==> pages[i].Returned?
    ensures r.Ok? ==> |r.value| == |pages| && forall i :: 0 <= i < |pages| ==> r.value[i] == pages[i].value
    ensures r.Err? ==> r == Err(pages[FirstRaised(pages)].message)
  {
    var k := FirstRaised(pages);
    if k < |pages| then Err(pages[k].message)
    else Ok(seq(|pages|, i requires 0 <= i < |pages| => pages[i].value))
  }

  /** The PDF branch: zero pages is an error; otherwise the non-empty page
      texts, in page order, joined with one space; an error if there are none. */
  function PdfText(pdf: Lib<seq<Lib<string>>>): (r: Result<string>)
    ensures pdf == Returned([]) ==> r == Err(PdfEmpty)
    ensures pdf.Raised? ==> r == Err(pdf.message)
    ensures pdf.Returned? && pdf.value != [] && PageTexts(pdf.value).Err? ==>
              r == Err(PageTexts(pdf.value).message)
    ensures r.Ok? ==> r.value != []
  {
    match pdf
    case Raised(m) => Err(m)
    case Returned(pages) =>
      if |pages| == 0 then Err(PdfEmpty)
      else match PageTexts(pages)
        case Err(m) => Err(m)
        case Ok(texts) =>
          var kept := Filter(NonEmpty, texts);
          if kept == [] then Err(PdfNoText)
          else
            JoinContains(" ", kept, 0);
            Ok(Join(" ", kept))
  }

  /** The DOCX branch: the paragraphs whose stripped text is non-empty, kept
      unstripped and in order, joined with newlines; an error if there are none. */
  function DocxText(docx: Lib<seq<string>>): (r: Result<string>)
    ensures docx.Raised? ==> r == Err(docx.message)
    ensures docx.Returned? ==>
              (r.Ok? <==> exists i :: 0 <= i < |docx.value| && !Blank(docx.value[i]))
    ensures docx.Returned? && r.Err? ==> r.message == DocxNoText
    ensures r.Ok? ==> !Blank(r.value)
  {
    match docx
    case Raised(m) => Err(m)
    case Returned(paras) =>
      var kept := Filter(NotBlank, paras);
      KeptIffSomeNotBlank(paras);
      if kept == [] then Err(DocxNoText)
      else
        JoinOfKeptNotBlank(kept);
        Ok(Join("\n", kept))
  }

  lemma KeptIffSomeNotBlank(paras: seq<string>)
    ensures Filter(NotBlank, paras) != [] <==> exists i :: 0 <= i < |paras| && !Blank(paras[i])
  {
    var kept := Filter(NotBlank, paras);
    if kept != [] {
      var x := kept[0];
      assert x in kept;
      var i :| 0 <= i < |paras| && paras[i] == x;
      assert Strip(paras[i]) != [];
    } else {
      forall i | 0 <= i < |paras| ensures Blank(paras[i]) {
        assert paras[i] in paras && paras[i] !in kept;
        assert Strip(paras[i]) == [];
      }
    }
  }

  lemma JoinOfKeptNotBlank(kept: seq<string>)
    requires kept != [] && forall x :: x in kept ==> NotBlank(x)
    ensures !Blank(Join("\n", kept))
  {
    assert kept[0] in kept;
    JoinContains("\n", kept, 0);
    if Blank(Join("\n", kept)) {
      InfixOfBlank(kept[0], Join("\n", kept));
    }
  }

  /** The DOC branch: the decoded text, unchanged, unless it is blank. */
  function DocText(doc: Lib<string>): (r: Result<string>)
    ensures doc.Raised? ==> r == Err(doc.message)
    ensures doc.Returned? ==> r == if Blank(doc.value) then Err(DocNoText) else Ok(doc.value)
  {
    match doc
    case Raised(m) => Err(m)
    case Returned(t) => if Strip(t) == [] then Err(DocNoText) else Ok(t)
  }

  /** `extract_text_from_file`: dispatch on the file type; every failure,
      whichever branch raised it, comes back as one error whose message
      starts with "Error extracting text: ". */
  function ExtractText(f: UploadedFile): (r: Result<string>)
    ensures r.Err? ==> StartsWith(ErrorPrefix, r.message)
    ensures FileType(f.name) !in {"pdf", "docx", "doc"} ==> r == Err(ErrorPrefix + UnsupportedType)
    ensures FileType(f.name) == "pdf" && r.Ok? ==> r.value != []
    ensures FileType(f.name) == "docx" && r.Ok? ==> !Blank(r.value)
    ensures FileType(f.name) == "doc" ==>
              r == match f.docText
                   case Raised(m) => Err(ErrorPrefix + m)
                   case Returned(t) => if Blank(t) then Err(ErrorPrefix + DocNoText) else Ok(t)
  {
    var t := FileType(f.name);
    var inner :=
      if t == "pdf" then PdfText(f.pdfPages)
      else if t == "docx" then DocxText(f.docxParagraphs)
      else if t == "doc" then DocText(f.docText)
      else Err(UnsupportedType);
    match inner
    case Ok(text) => Ok(text)
    case Err(m) => Err(ErrorPrefix + m)
  }

  /** A readable PDF with at least one page fails exactly when every page
      text is empty. */
  lemma PdfFailsIffNoText(pages: seq<Lib<string>>)
    requires |pages| > 0 && forall i :: 0 <= i < |pages| ==> pages[i].Returned?
    ensures PdfText(Returned(pages)).Ok? <==> exists i :: 0 <= i < |pages| && pages[i].value != []
    ensures PdfText(Returned(pages)).Err? ==> PdfText(Returned(pages)).message == PdfNoText
  {
    var texts := PageTexts(pages).value;
    var kept := Filter(NonEmpty, texts);
    if kept != [] {
      assert kept[0] in texts;
    } else {
      forall i | 0 <= i < |pages| ensures pages[i].value == [] {
        assert texts[i] !in kept;
      }
    }
  }

  /** Page order is kept: the text of a PDF whose pages are those of `a`
      followed by those of `b` is the text of `a`, one space, the text of `b`. */
  lemma PdfPagesInOrder(a: seq<Lib<string>>, b: seq<Lib<string>>)
    requires PdfText(Returned(a)).Ok? && PdfText(Returned(b)).Ok?
    ensures PdfText(Returned(a + b)) == Ok(PdfText(Returned(a)).value + " " + PdfText(Returned(b)).value)
  {
    var ta, tb := PageTexts(a).value, PageTexts(b).value;
    PageTextsAppend(a, b);
    FilterAppend(NonEmpty, ta, tb);
    JoinAppend(" ", Filter(NonEmpty, ta), Filter(NonEmpty, tb));
  }

  lemma PageTextsAppend(a: seq<Lib<string>>, b: seq<Lib<string>>)
    requires PageTexts(a).Ok? && PageTexts(b).Ok?
    ensures PageTexts(a + b) == Ok(PageTexts(a).value + PageTexts(b).value)
  {
    var ab := a + b;
    forall i | 0 <= i < |ab| ensures ab[i].Returned? {
      if i >= |a| { assert ab[i] == b[i - |a|]; }
    }
    var r := PageTexts(ab).value;
    var t := PageTexts(a).value + PageTexts(b).value;
    assert PageTexts(ab).Ok?;
    forall i | 0 <= i < |ab| ensures r[i] == t[i] {
      if i >= |a| { assert ab[i] == b[i - |a|]; }
    }
    assert r == t;
  }

  /** A single readable page gives its own text, or the no-text error when
      that text is empty. */
  lemma PdfSinglePage(t: string)
    ensures PdfText(Returned([Returned(t)])) == if t == [] then Err(PdfNoText) else Ok(t)
  {
    var pages := [Returned(t)];
    assert FirstRaised(pages) == 1;
    var texts := PageTexts(pages).value;
    assert |texts| == 1 && texts[0] == t;
    assert texts == [t];
    assert Filter(NonEmpty, [t]) == if t == [] then [] else [t] by {
      assert [t][..0] == [];
    }
  }

  /** A page with empty text contributes nothing, wherever it stands. */
  lemma PdfEmptyPageSkipped(a: seq<Lib<string>>)
    requires PdfText(Returned(a)).Ok?
    ensures PdfText(Returned(a + [Returned([])])) == PdfText(Returned(a))
    ensures PdfText(Returned([Returned([])] + a)) == PdfText(Returned(a))
  {
    var e := [Returned([])];
    assert FirstRaised(e) == 1;
    var te := PageTexts(e).value;
    assert |te| == 1 && te[0] == [];
    assert Filter(NonEmpty, te) == [] by {
      assert te[..0] == [];
    }
    var ta := PageTexts(a).value;
    PageTextsAppend(a, e);
    FilterAppend(NonEmpty, ta, te);
    assert Filter(NonEmpty, ta) + [] == Filter(NonEmpty, ta);
    PageTextsAppend(e, a);
    FilterAppend(NonEmpty, te, ta);
    assert [] + Filter(NonEmpty, ta) == Filter(NonEmpty, ta);
  }

  /** Paragraph order is kept: a DOCX whose paragraphs are those of `a`
      followed by those of `b` gives the text of `a`, a newline, the text of `b`. */
  lemma DocxParagraphsInOrder(a: seq<string>, b: seq<string>)
    requires DocxText(Returned(a)).Ok? && DocxText(Returned(b)).Ok?
    ensures DocxText(Returned(a + b)) == Ok(DocxText(Returned(a)).value + "\n" + DocxText(Returned(b)).value)
  {
    FilterAppend(NotBlank, a, b);
    JoinAppend("\n", Filter(NotBlank, a), Filter(NotBlank, b));
  }

  /** A single paragraph gives its own, unstripped, text, or the no-text
      error when it is blank. */
  lemma DocxSingleParagraph(t: string)
    ensures DocxText(Returned([t])) == if Blank(t) then Err(DocxNoText) else Ok(t)
  {
    assert Filter(NotBlank, [t]) == if Strip(t) == [] then [] else [t] by {
      assert [t][..0] == [];
    }
  }

  /** A blank paragraph contributes nothing, wherever it stands. */
  lemma DocxBlankParagraphSkipped(a: seq<string>, b: string)
    requires DocxText(Returned(a)).Ok? && Blank(b)
    ensures DocxText(Returned(a + [b])) == DocxText(Returned(a))
    ensures DocxText(Returned([b] + a)) == DocxText(Returned(a))
  {
    assert Filter(NotBlank, [b]) == [] by {
      assert [b][..0] == [];
    }
    FilterAppend(NotBlank, a, [b]);
    assert Filter(NotBlank, a) + [] == Filter(NotBlank, a);
    FilterAppend(NotBlank, [b], a);
    assert [] + Filter(NotBlank, a) == Filter(NotBlank, a);
  }

  /** Unlike the DOCX and DOC branches, the PDF branch keeps a page whose
      text is only whitespace, so a PDF can yield a blank resume text. */
  lemma PdfKeepsBlankPage(name: string)
    requires FileType(name) == "pdf"
    ensures ExtractText(UploadedFile(name, Returned([Returned(" ")]), Raised(""), Raised(""))) == Ok(" ")
  {
    var pages := [Returned(" ")];
    assert FirstRaised(pages) == 1;
    var texts := PageTexts(pages).value;
    assert |texts| == 1 && texts[0] == " ";
    assert texts == [" "];
    assert Filter(NonEmpty, [" "]) == [" "] by {
      assert [" "][..0] == [];
    }
  }

  /** The file type is the lower-cased text after the last `.` ... */
  lemma FileTypeAfterLastDot(name: string, k: nat)
    requires k < |name| && name[k] == '.' && '.' !in name[k + 1..]
    ensures FileType(name) == Lower(name[k + 1..])
  {
    LastSegmentAfter(name, '.', k);
  }

  /** ... or the whole lower-cased name when it has no `.`. */
  lemma FileTypeWithoutDot(name: string)
    requires '.' !in name
    ensures FileType(name) == Lower(name)
  {
    LastSegmentWhole(name, '.');
  }

  /** The extension is matched case-insensitively; a name without a `.` is
      its own type, so a file called "pdf" is read as a PDF; a trailing `.`
      gives the empty, unsupported type. */
  lemma FileTypeExamples()
    ensures FileType("cv.PDF") == "pdf"
    ensures FileType("pdf") == "pdf"
    ensures FileType("cv.") == ""
  {
    FileTypeAfterLastDot("cv.PDF", 2);
    assert "cv.PDF"[3..] == "PDF";
    FileTypeWithoutDot("pdf");
    FileTypeAfterLastDot("cv.", 2);
  }
}
