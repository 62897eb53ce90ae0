# Resume matcher: verified model of `helper.py`

The repository is a resume screening tool. The user uploads a resume as a PDF, DOCX or DOC
file and pastes a job description. The tool extracts the resume text and builds an
applicant-tracking-system prompt from the two texts. It sends the prompt to Google's Gemini
model and checks the JSON analysis that comes back. This project models, in Dafny, the three
pieces of logic that `helper.py` writes itself, and proves what they promise:

- **Text extraction** (`extract_text_from_file`, module `Extraction`). The file type is the
  lower-cased text after the last `.` of the file name. PDF pages keep their non-empty texts,
  joined with one space. DOCX paragraphs keep the ones that are not blank, unstripped and
  joined with newlines. A DOC's decoded text is kept unchanged unless it is blank. Every
  failure is reported as one error whose message starts `Error extracting text: `.
- **Prompt construction** (`prepare_prompt`, module `Prompt`). The function rejects an empty
  resume or job description. Otherwise it fills a fixed template with the two stripped texts.
- **Answer handling** (`get_gemini_response` after the service call, module `Response`).
  An empty answer is an error. An answer that parses as JSON must carry `JD Match`,
  `MissingKeywords`, `MatchingKeywords` and `Profile Summary`, checked in that order. It is
  then returned unchanged. An answer that does not parse is cut down to the span from its
  first `{` to its last `}`, which is returned without further checks. Every failure starts
  `Error generating response: `.

The Python string operations involved are modelled in `Strings` (`isspace`, `strip`,
`startswith`, substring `in`), `CaseFold` (`lower`) and `Pieces` (`split`, `join`,
`split(...)[-1]`, filtering comprehensions). Library and service results are inputs:

- Each document library's output is a `Lib<T>` value: the returned value, or the message of
  the exception it raised.
- `json.loads` is a `ParseOutcome`. It keeps only what the field test `field in value` looks
  at.

Where the code behaves in ways a reader may not expect, the model follows the code as written:

- `prepare_prompt` rejects only the empty string. A whitespace-only resume or job
  description is accepted, and its hole in the prompt is left empty (`BlankInputsAccepted`).
- The PDF branch filters pages by truthiness, not by `strip()`. A PDF whose only text is
  whitespace therefore yields a blank resume text (`PdfKeepsBlankPage`). DOCX and DOC
  results are never blank.
- A file name without a `.` is its own type, so a file called `pdf` is read as a PDF
  (`FileTypeExamples`).
- The field check uses Python's `in`. An answer that parses to a JSON string passes when the
  string mentions all four names, because `in` on a string is a substring test
  (`StringAnswerAccepted`). An answer that parses to a number fails with a `TypeError`
  message (`NumberAnswerRejected`). A JSON array passes when it contains the four names as
  elements.
- The prompt does not determine its inputs. A resume containing the template's
  job-description heading can produce the same prompt as a different pair of inputs
  (`PromptAmbiguous`).

## Model

| member | source | states |
|---|---|---|
| `Strings.Strip` | helper.py:82 | `strip()` returns the part of its input between a whitespace-only prefix and a whitespace-only suffix, and that part neither starts nor ends with whitespace. It is empty exactly when the input is blank. |
| `Strings.StripIdempotent` | helper.py:139-140 | Stripping an already stripped text changes nothing. |
| `CaseFold.Lower` | helper.py:58 | `lower()` keeps the length and folds each character by itself, leaving no upper-case letter. |
| `CaseFold.LowerKeeps` | helper.py:58 | A character that is not a letter, such as `.`, occurs in the lower-cased text iff it occurs in the original. |
| `Pieces.Split` | helper.py:58 | `split(sep)` gives at least one piece, and no piece contains the separator. |
| `Pieces.JoinSplit` | helper.py:58 | Round trip: joining the pieces of `split(sep)` with `sep` gives back the original string. |
| `Pieces.LastSegment` | helper.py:58 | The last segment is a suffix of the name that contains no `.`. It is either the whole name or is preceded by a `.`. |
| `Pieces.LastOfSplit` | helper.py:58 | `split('.')[-1]` is exactly the last segment. |
| `Pieces.LastSegmentAfter` | helper.py:58 | When position k holds the last `.`, the last segment is everything after k. |
| `Pieces.LastSegmentWhole` | helper.py:58 | A name without `.` is its own last segment. |
| `Pieces.Join` | helper.py:67 | `join` of no pieces is empty, and `join` of one piece is that piece. |
| `Pieces.JoinAppend` | helper.py:67 | Joining two non-empty lists puts exactly one separator between their joins. |
| `Pieces.JoinContains` | helper.py:74 | Every piece occurs verbatim in the joined text. |
| `Pieces.Filter` | helper.py:64 | The comprehension keeps exactly the elements satisfying the test and never grows the list. |
| `Pieces.FilterAppend` | helper.py:71 | Filtering distributes over concatenation, so the original order is kept. |
| `Extraction.FileType` | helper.py:58 | The type is the lower-cased suffix of the name after the last `.` (none in it), or the whole lower-cased name. |
| `Extraction.FileTypeIsLastPiece` | helper.py:58 | The type is the lower-cased last piece of `name.split('.')`. |
| `Extraction.FileTypeAfterLastDot` | helper.py:58 | With the last `.` at position k, the type is the lower-cased text after k. |
| `Extraction.FileTypeWithoutDot` | helper.py:58 | A name without `.` has the lower-cased name as its type. |
| `Extraction.FileTypeExamples` | helper.py:58-60 | `cv.PDF` has type `pdf`, the bare name `pdf` has type `pdf`, and `cv.` has the empty type. |
| `Extraction.FirstRaised` | helper.py:64 | Gives the first page whose text extraction raises, or the page count when none raises. |
| `Extraction.PageTexts` | helper.py:64 | Reading the pages succeeds iff every page is readable, giving each page's text in order. Otherwise it fails with the first failing page's exception. |
| `Extraction.PageTextsAppend` | helper.py:64 | The texts read from two runs of pages are the texts of the first run followed by those of the second. |
| `Extraction.PdfText` | helper.py:60-67 | Zero pages gives "PDF file is empty". A reader failure is passed through, and so is the exception of the first page whose text extraction raises. A successful PDF text is never empty. |
| `Extraction.PdfFailsIffNoText` | helper.py:64-66 | A readable PDF with pages succeeds iff some page text is non-empty. Otherwise the error is "No text could be extracted from the PDF". |
| `Extraction.PdfSinglePage` | helper.py:64-67 | One page gives exactly its text, or the no-text error when that text is empty. |
| `Extraction.PdfEmptyPageSkipped` | helper.py:64 | A page with empty text, placed before or after the others, changes nothing. |
| `Extraction.PdfPagesInOrder` | helper.py:64-67 | Pages `a` then `b` give the text of `a`, one space, then the text of `b`. |
| `Extraction.PdfKeepsBlankPage` | helper.py:64 | A PDF whose only page text is a space yields that space: whitespace-only page text is kept. |
| `Extraction.DocxText` | helper.py:69-74 | Succeeds iff some paragraph is not blank. A successful text is never blank. Otherwise the error is "No text found in DOCX file", or the reader's exception is passed through. |
| `Extraction.KeptIffSomeNotBlank` | helper.py:71-72 | Some paragraph is kept iff some paragraph is not blank. |
| `Extraction.JoinOfKeptNotBlank` | helper.py:71-74 | Newline-joining non-blank paragraphs never gives a blank text. |
| `Extraction.DocxSingleParagraph` | helper.py:71-74 | One paragraph gives its unstripped text, or the no-text error when it is blank. |
| `Extraction.DocxBlankParagraphSkipped` | helper.py:71 | A blank paragraph, placed before or after the others, changes nothing. |
| `Extraction.DocxParagraphsInOrder` | helper.py:71-74 | Paragraphs `a` then `b` give the text of `a`, a newline, then the text of `b`. |
| `Extraction.DocText` | helper.py:76-84 | The decoded text is returned unchanged exactly when it is not blank. A blank text gives "No text found in DOC file", and a failure of the extractor is passed through. |
| `Extraction.ExtractText` | helper.py:55-90 | Every error starts with "Error extracting text: ". A type other than pdf, docx or doc gives the unsupported-type error whatever the content. PDF results are non-empty, DOCX results are not blank, and DOC is the text unchanged unless it is blank. |
| `Prompt.Fill` | helper.py:138-141 | The filled template starts with the head, holds the resume right after it, then the middle, then the job description, and ends with the tail. |
| `Prompt.PreparePrompt` | helper.py:93-141 | Fails, with the fixed message, iff an input is the empty string. Otherwise it is the analysis template filled with the two stripped inputs. |
| `Prompt.PromptCarriesInputs` | helper.py:138-141 | An accepted prompt contains the stripped resume verbatim, followed later by the stripped job description verbatim. |
| `Prompt.TailNamesEveryField` | helper.py:122-135 | The answer format names all five fields. |
| `Prompt.PromptNamesEveryField` | helper.py:98-136 | Every accepted prompt names all five fields of the expected answer. |
| `Prompt.BlankInputsAccepted` | helper.py:95-96 | Whitespace-only inputs pass the check and leave their holes empty. |
| `Prompt.FillShifts` | helper.py:138-141 | Text ending a resume with the middle part can equally start the job description: both fill alike. |
| `Prompt.PromptAmbiguous` | helper.py:138-141 | Two different input pairs can yield the same prompt. |
| `Response.FirstMissing` | helper.py:36-38 | Gives the first required field the answer lacks, with all earlier fields present, or the field count when none is missing. |
| `Response.CheckFields` | helper.py:35-38 | The check passes iff no field is missing. Otherwise it names the first missing field, in list order. On a number, boolean or null it fails with Python's `TypeError` message. |
| `Response.FirstIndex` | helper.py:45-46 | Gives the position of the first occurrence of the character, or the length when there is none. |
| `Response.LastIndex` | helper.py:45-46 | Gives the position of the last occurrence of the character, or -1 when there is none. |
| `Response.Repair` | helper.py:44-50 | The search fails iff no `}` follows a `{`. Otherwise the result starts with `{`, ends with `}`, and is the contiguous span from the first `{` with no `}` after it. |
| `Response.RepairIdempotent` | helper.py:45-48 | Repairing a repaired span returns it unchanged. |
| `Response.RepairLeftmostLongest` | helper.py:45-46 | Any `{`…`}` match implies the repair succeeds. The repaired span starts no later than that match and ends no earlier. |
| `Response.HandleResponse` | helper.py:26-53 | An empty answer fails before parsing. A parsed object is accepted iff it has all four required keys, and is then returned unchanged. An unparsable answer succeeds iff it has a brace span, and returns that span. A parsed answer that fails the field check reports the first missing key, or the scalar's TypeError. An answer with no brace span reports "Could not extract valid JSON response". Other parse exceptions pass through. Every error starts with "Error generating response: ". |
| `Response.ScoreExplanationOptional` | helper.py:35-40 | An object with only the four required keys is accepted. |
| `Response.FirstAbsentFieldNamed` | helper.py:36-42 | An object lacking `MissingKeywords` and `MatchingKeywords` fails naming `MissingKeywords`, and repair is not attempted. |
| `Response.StringAnswerAccepted` | helper.py:32-40 | A JSON string mentioning the four names passes the field check. |
| `Response.NumberAnswerRejected` | helper.py:36-37 | A JSON number fails on the first membership test with "argument of type 'int' is not iterable". |
| `Response.RepairedSpanNotChecked` | helper.py:42-48 | The unparsable answer `Sure: {}` yields `{}`, although that span has none of the required fields. |

## Left out

- The service client (helper.py:8-24): `configure_genai`, model selection, the temperature-0
  generation config and the network call. The answer text is an input to
  `HandleResponse`. A missing response object (`not response`) is not modelled, only an
  empty text.
- The document libraries (PyPDF2, python-docx, textract) and UTF-8 decoding. Their results,
  or the messages of their exceptions, are the `Lib` values of an `UploadedFile`. Each
  page's `extract_text()` is assumed to give the same text on both of its calls in the
  comprehension.
- The DOC temporary file (helper.py:78-81) is file-system I/O. The model does not capture
  that the file is left behind when textract raises, because `os.remove` is then skipped.
- `json.loads` is an oracle (`ParseOutcome`), not a parser. `re.search` is specified by its
  effect (first `{` to last `}`), not by a regular-expression engine.
- The wording of the prompt template (helper.py:98-136) is abbreviated: the instructions
  in `Prompt.Head`, and the descriptions of the "Profile Summary" and "ScoreExplanation"
  fields in `Prompt.AfterSummary` and `Prompt.FormatOutro`. Only the two holes, the headings around
  them and the five field names are kept verbatim.
- `CaseFold.Lower`: folds only ASCII letters. Python's full Unicode `lower()` maps no other
  character to one of the letters of `pdf`, `doc` or `docx`, so the dispatch is unchanged.
  Unsupported extensions are never echoed.
- `Extraction.ExtractText`: for PDF and DOCX its own contract states only that the result is
  non-empty or not blank. The exact text is stated by the `Pdf*` and `Docx*` lemmas about
  `PdfText` and `DocxText`, which `ExtractText` returns with only the error prefix added.
- app.py (the Streamlit page) is not part of this model. This includes its busy flag, its
  display defaults such as the `ScoreExplanation` placeholder, and its second `json.loads`
  of the returned text.
