# Paragraph scraper: text-to-record model

This project models the core of a small document scraper
(`central_scraper.py`). The scraper turns an SEC filing, a local HTML
file, a PDF or a web page into one JSON record. It works in three steps.

- Extraction produces raw text. The three HTML extractors join the text of
  every non-empty `<p>` with a blank line (`"\n\n"`). The PDF extractor
  appends each page's text plus `"\n"` and strips the result.
- `create_json_entry` cuts the raw text at each `"\n\n"`, strips every
  piece and drops the empty ones. It numbers the survivors
  `Paragraph_1 … Paragraph_n` and stores them with the metadata and the
  untouched raw text.
- The record is written to `<document name, spaces as underscores>.json`.

The model has three modules.

- `PyStr` (`py_str.dfy`) defines the Python string operations the code
  relies on: `str.isspace` (the full Unicode set Python uses), `strip`,
  `split("\n\n")`, `join`, `replace(' ', '_')` and `str(n)`. `IsSpace` is a
  definition: the table of code points Python treats as whitespace. The other
  operations are characterised by lemmas about their results. For example,
  `Strip(s)` is shown to be the only stripped infix of `s` with
  whitespace around it. `SplitBlankLines` is shown to be the only way to
  cut `s` into pieces that contain no `"\n\n"` and, except for the last,
  do not end in `"\n"`.
- `Scraper` (`scraper.dfy`) holds the segmenter, the record, the
  extractors' join (with the `"Error: …"` text they return on a caught
  exception) and the file name rule.
- `PdfText` (`pdf_text.dfy`) holds the page loop of
  `extract_text_from_pdf`. It is a method with a loop invariant, proved
  against a function of the pages.

The code adds one `"\n"` after each page (`central_scraper.py:15`). When
every page's text is non-empty and has no leading or trailing whitespace,
pages are separated by a single newline, not by a blank line
(`PdfTwoPages`), and clean pages become a single paragraph
(`PdfTextIsOneParagraph`). A page whose own text ends in `"\n"` still
leaves a blank line at its boundary, and the segmenter cuts there
(`PdfPageEndingInNewline`).

## Model

| member | source | states |
|---|---|---|
| PyStr.IsSpace | central_scraper.py:81 | a definition, not a proved property: the code points `str.isspace()` accepts, which are what the bare `strip()` at lines 17 and 81 removes (U+0009–000D, U+001C–001F, U+0020, U+0085, U+00A0, U+1680, U+2000–200A, U+2028, U+2029, U+202F, U+205F, U+3000) |
| PyStr.LStrip | central_scraper.py:81 | the result is a suffix of the input, everything cut off is whitespace, and the result does not start with whitespace |
| PyStr.RStrip | central_scraper.py:81 | the result is a prefix of the input, everything cut off is whitespace, and the result does not end with whitespace |
| PyStr.LStripAt | central_scraper.py:81 | when `s[..i]` is whitespace and `s[i]` is not (or `i` is the end), `lstrip()` returns `s[i..]` |
| PyStr.RStripAt | central_scraper.py:81 | when `s[j..]` is whitespace and `s[j - 1]` is not (or `j` is 0), `rstrip()` returns `s[..j]` |
| PyStr.Strip | central_scraper.py:81 | `p.strip()` has no leading or trailing whitespace and is no longer than `p` |
| PyStr.StripAllSpace | central_scraper.py:81 | a string of whitespace strips to `""` |
| PyStr.StripNonEmptyInfix | central_scraper.py:81 | when `s[i..j]` starts and ends with non-whitespace and only whitespace is around it, `strip()` returns exactly `s[i..j]` |
| PyStr.RStripSuffixAt | central_scraper.py:81 | right-stripping the suffix `s[i..]` stops at `j` when `s[j..]` is whitespace and `s[j - 1]` is not |
| PyStr.RStripOfSuffix | central_scraper.py:81 | right-stripping a suffix `s[i..]` leaves an infix of `s` with only whitespace after it |
| PyStr.StripUnique | central_scraper.py:81 | if `s[i..j]` is stripped and everything outside it is whitespace, then `strip()` returns exactly `s[i..j]` |
| PyStr.StripInfix | central_scraper.py:81 | `strip()` returns an infix of its input with only whitespace on both sides (the converse of StripUnique) |
| PyStr.StripStripped | central_scraper.py:81 | stripping an already stripped string changes nothing |
| PyStr.StripEmptyIff | central_scraper.py:81 | `p.strip()` is empty, so the `if p.strip()` filter drops `p`, exactly when `p` is all whitespace |
| PyStr.StripKeepsNoBlankLine | central_scraper.py:81 | stripping never creates a `"\n\n"` |
| PyStr.AllSpaceConcat | central_scraper.py:81 | a concatenation is all whitespace exactly when both parts are |
| PyStr.Join | central_scraper.py:33 | `sep.join(parts)` (also at lines 57 and 73); characterised by JoinNone, JoinOne and JoinAppend, which together fix it, and by JoinSplit / SplitJoin |
| PyStr.JoinNone | central_scraper.py:33 | joining no pieces gives `""`, as for a page without any `<p>` text |
| PyStr.JoinOne | central_scraper.py:33 | a single piece joins to itself, with no separator |
| PyStr.JoinAllSpace | central_scraper.py:33 | with a whitespace separator, the join is all whitespace exactly when every piece is |
| PyStr.JoinAppend | central_scraper.py:33 | joining one more piece on the right adds the separator and that piece |
| PyStr.JoinEnds | central_scraper.py:33 | the join starts with the first piece and ends with the last |
| PyStr.JoinStripped | central_scraper.py:33 | non-empty stripped pieces give a non-empty stripped join |
| PyStr.JoinNewlineNoBlankLine | central_scraper.py:15 | clean pieces joined with a single newline contain no `"\n\n"` |
| PyStr.SplitBlankLines | central_scraper.py:81 | `split("\n\n")` returns at least one piece; a single piece is the whole input; otherwise the first piece followed by `"\n\n"` is a prefix of the input |
| PyStr.JoinConsFirst | central_scraper.py:81 | a character put in front of the first piece ends up in front of the join |
| PyStr.JoinSplit | central_scraper.py:81 | joining the pieces of `split("\n\n")` with `"\n\n"` gives back the input |
| PyStr.SplitShape | central_scraper.py:81 | no piece contains `"\n\n"`, and no piece except the last ends in `"\n"`, because the split scans left to right |
| PyStr.SplitPiecesBlank | central_scraper.py:81 | a boundary at the very start adds an empty first piece and keeps that shape |
| PyStr.SplitPiecesCons | central_scraper.py:81 | a character in front of the first piece keeps that shape unless it completes a boundary |
| PyStr.SplitJoin | central_scraper.py:81 | pieces of that shape, joined with `"\n\n"` and split again, come back unchanged, so the split is the only decomposition of that shape |
| PyStr.SplitNoBlankLine | central_scraper.py:81 | a string without `"\n\n"` splits into itself alone |
| PyStr.SplitAfterPiece | central_scraper.py:81 | a leading piece followed by `"\n\n"` is cut off as the first piece |
| PyStr.NoBlankLineInfix | central_scraper.py:81 | an infix of a string without `"\n\n"` has none either |
| PyStr.NoBlankLineCons | central_scraper.py:81 | putting a character in front keeps a string free of `"\n\n"` unless both are newlines |
| PyStr.ReplaceSpaces | central_scraper.py:148 | `replace(' ', '_')` keeps the length, turns every space into `_`, and leaves every other character in place |
| PyStr.DigitChar | central_scraper.py:90 | a digit prints as the character of that digit |
| PyStr.Decimal | central_scraper.py:90 | `str(n)` is a non-empty string of decimal digits: exactly one digit for n < 10, at least two for n >= 10, and no leading zero whenever it has more than one digit |
| PyStr.DecimalRoundTrip | central_scraper.py:90 | reading `str(n)` back as a decimal number gives `n` |
| PyStr.DecimalInjective | central_scraper.py:90 | different numbers print differently |
| Scraper.StripNonBlank | central_scraper.py:81 | the comprehension keeps at most as many items as it is given, and each one is non-empty and stripped |
| Scraper.Kept | central_scraper.py:81 | one piece contributes at most one item to the comprehension, and that item is non-empty and stripped |
| Scraper.KeptClean | central_scraper.py:81 | the same fact for every item one piece contributes |
| Scraper.CleanConcat | central_scraper.py:81 | two lists of non-empty stripped texts concatenate to one |
| Scraper.KeptEmptyIff | central_scraper.py:81 | a piece contributes nothing exactly when it is whitespace only |
| Scraper.KeptNoBlankLine | central_scraper.py:81 | a piece without `"\n\n"` contributes an item without it |
| Scraper.NoBlankLinesConcat | central_scraper.py:81 | two lists of texts without `"\n\n"` concatenate to one |
| Scraper.StripNonBlankAppend | central_scraper.py:81 | cleaning a concatenation cleans each half in turn, so relative order is preserved |
| Scraper.StripNonBlankNoBlankLine | central_scraper.py:81 | pieces without `"\n\n"` give paragraphs without it |
| Scraper.StripNonBlankEmptyIff | central_scraper.py:81 | nothing survives exactly when every piece is whitespace only |
| Scraper.StripNonBlankClean | central_scraper.py:81 | pieces that are already non-empty and stripped pass through unchanged |
| Scraper.Paragraphs | central_scraper.py:81 | the segmenter `[p.strip() for p in raw_text.split("\n\n") if p.strip()]`: at most one paragraph per piece, each non-empty and stripped; characterised by ParagraphsClean, ParagraphsEmptyIff, ParagraphsOfJoin and EntryParagraphAt |
| Scraper.ParagraphsClean | central_scraper.py:81 | every paragraph is non-empty, stripped and free of `"\n\n"` |
| Scraper.ParagraphsEmptyIff | central_scraper.py:81 | an empty or all-whitespace raw text, and only such a text, yields no paragraph |
| Scraper.ParagraphsOfJoin | central_scraper.py:81 | paragraphs that are non-empty, stripped and free of `"\n\n"`, joined with `"\n\n"` and segmented again, come back unchanged and in order |
| Scraper.ParagraphsOfThree | central_scraper.py:81 | `"A\n\nB\n\nC"` gives `["A", "B", "C"]` |
| Scraper.ParagraphsOfWhitespace | central_scraper.py:81 | `"  \n\n  "` gives no paragraph |
| Scraper.ParagraphsOfOne | central_scraper.py:81 | a non-empty stripped text without `"\n\n"` is a single paragraph, itself |
| Scraper.ParagraphsOfJoinSplitsInnerBlankLine | central_scraper.py:31-33 | the round trip needs its precondition: an extracted paragraph `a + "\n\n" + b` with clean parts comes back as the two paragraphs `a` and `b` |
| Scraper.ParagraphKey | central_scraper.py:90 | the key `f"Paragraph_{i+1}"` for the paragraph at 0-based index `i`, written here with the 1-based index; characterised by ParagraphKeyInjective |
| Scraper.ParagraphKeyInjective | central_scraper.py:90 | `Paragraph_i` and `Paragraph_j` are the same key only when `i == j` |
| Scraper.ParagraphKeysInjective | central_scraper.py:90 | the same fact, for all pairs of indices at once |
| Scraper.IndexedContent | central_scraper.py:90 | the keys of the dictionary are exactly `Paragraph_1 … Paragraph_n` for n paragraphs |
| Scraper.IndexedContentAt | central_scraper.py:90 | `Paragraph_i` holds the i-th paragraph (`enumerate` counts from 0, the key from 1) |
| Scraper.CreateJsonEntry | central_scraper.py:78-91 | the name, type, link, issuer and resource name are copied unchecked (empty strings included); `section_content` is the raw text unchanged; the keys of `content` are exactly `Paragraph_1 … Paragraph_n`, one per clean segment of the raw text |
| Scraper.EntryParagraphAt | central_scraper.py:81-90 | `Paragraph_i` of `content` holds the i-th non-blank `"\n\n"`-separated piece of the raw text, stripped |
| Scraper.EntryValuesClean | central_scraper.py:81-90 | every value in `content` is non-empty, has no leading or trailing whitespace and contains no `"\n\n"` |
| Scraper.EntryContentEmptyIff | central_scraper.py:81-90 | `content` is empty exactly when the raw text is empty or all whitespace; `section_content` still holds the raw text |
| Scraper.ScrapedText | central_scraper.py:33-35 | what an HTML extractor returns: its paragraphs joined with `"\n\n"`, or `"Error: "` and the caught exception's message (the same at lines 57-59 and 73-75); characterised by ScrapedParagraphsRoundTrip and ScrapedErrorIsOneParagraph |
| Scraper.ScrapedParagraphsRoundTrip | central_scraper.py:31-33 | paragraphs an extractor joins with `"\n\n"` end up in the record key by key, as long as each is non-empty, stripped and free of `"\n\n"` (the same join is at lines 55-57 and 71-73) |
| Scraper.ScrapedErrorIsOneParagraph | central_scraper.py:34-35 | a caught exception whose message has no `"\n\n"` becomes the single paragraph `"Error: …"`, stripped (the same at lines 58-59 and 74-75) |
| Scraper.JsonFileName | central_scraper.py:148 | the file name is the document name with every space replaced by `_`, followed by `.json`; it contains no space and its length is the name's length plus 5 |
| Scraper.JsonFileNameCollides | central_scraper.py:148 | two document names give the same file, so the later run overwrites the earlier file, exactly when they agree up to spaces versus underscores |
| PdfText.PageText | central_scraper.py:12-15 | the accumulator after the given pages: at least one character per page, ending in `"\n"` once a page has been read; characterised by PageTextIsJoin and PageTextAllSpaceIff |
| PdfText.ExtractTextFromPdf | central_scraper.py:12-17 | the loop's result is the strip of page₁+"\n"+page₂+"\n"+…, pages in order; it has no leading or trailing whitespace; zero pages give `""` |
| PdfText.PageTextIsJoin | central_scraper.py:12-15 | for at least one page, the accumulated text is the pages joined with `"\n"`, plus a final `"\n"` |
| PdfText.PageTextAllSpaceIff | central_scraper.py:14-15 | the accumulated text is whitespace only exactly when every page's text is |
| PdfText.PdfTextEmptyIff | central_scraper.py:12-17 | the result is empty exactly when every page's text is whitespace only; this is the case in which the caller gives up (line 124) |
| PdfText.StripFinalNewline | central_scraper.py:17 | when the joined pages are non-empty and stripped, the final strip removes only the trailing newline |
| PdfText.PdfTextIsJoin | central_scraper.py:14-17 | non-empty stripped pages give exactly their `"\n"`-join: the final strip removes only the last newline |
| PdfText.PdfTextIsOneParagraph | central_scraper.py:15-17 | pages that are non-empty, stripped and free of `"\n\n"` give a text that the segmenter keeps as a single paragraph, their `"\n"`-join |
| PdfText.PdfPageEndingInNewline | central_scraper.py:15-17 | a clean page `a` whose text ends in `"\n"`, followed by a clean page `b`, gives `a + "\n\n" + b`, which the segmenter cuts into the two paragraphs `a` and `b` |
| PdfText.PdfTwoPages | central_scraper.py:15-17 | two clean pages `a` and `b` give `a + "\n" + b`: one newline, not a blank line |

## Left out

- HTTP fetching, the `User-Agent` header and `raise_for_status` (lines 25-26, 64-66) are network I/O. The model starts from what the request and the parser produced.
- BeautifulSoup parsing is left out: `find_all("p")`, `get_text(separator=' ', strip=True)`, the removal of `script`/`style` elements and the removal of table attributes (lines 28-31, 43-55, 68-71). This is third-party library behaviour. An extractor's outcome is modelled as `Scraper.Extraction`: either the list of paragraph texts, or the message of the caught exception.
- Exception messages are parameters, because their text comes from the libraries. Exceptions that the SEC and website extractors do not catch (anything other than a `RequestException`) are not modelled; they would end the program.
- PyMuPDF's `fitz.open` and `page.get_text` (lines 11, 15) are library calls. The document is the sequence of its pages' texts. The `None` returned when PDF extraction raises (lines 18-20) is not modelled.
- `os.path.splitext(os.path.basename(...))` (lines 115, 128) is platform path logic. The document name is a parameter.
- The interactive `main` is user interface and file I/O (lines 94-160): the menu, `input`, `print`, the per-mode constants, the `{"company": …, "documents": [...]}` envelope and `json.dump`. Only the file-name rule (line 148) is modelled. Only the abort on empty PDF text (line 124) is characterised, by `PdfText.PdfTextEmptyIff`.
- Scraper.CreateJsonEntry: `content` is a Dafny `map`, which has no order. The Python dict keeps insertion order, and that order fixes the order in which `json.dump` writes the keys. In the model the 1-based index in `Paragraph_i` carries that order instead.
- Strings are sequences of Dafny `char`, which are Unicode scalar values. A Python `str` can also hold lone surrogates (U+D800–DFFF); such strings are not modelled.
- Scraper.JsonFileName: states the string Python builds. What the file system then does with it (a `/` in the name, an over-long name) is not modelled.
