/** `extract_text_from_pdf`: the text of a PDF is built page by page, each
    page's text followed by a newline, and stripped at the end. The PDF
    library is not modelled; the document is the sequence of its pages'
    texts, in page order. */
module PdfText {
  import opened PyStr
  import opened Scraper

  /** The accumulator once the pages given have been appended:
      page_1 + "\n" + page_2 + "\n" + ... + page_n + "\n". */
  function PageText(pages: seq<string>): (r: string)
    ensures |r| >= |pages|
    ensures pages != [] ==> r[|r| - 1] == '\n'
    decreases |pages|
  {
    if pages == [] then "" else PageText(pages[..|pages| - 1]) + pages[|pages| - 1] + "\n"
  }

  /** The loop over the document's pages and the final strip. */
  method ExtractTextFromPdf(pages: seq<string>) returns (text: string)
    ensures text == Strip(PageText(pages))
    ensures IsStripped(text)
    ensures pages == [] ==> text == ""
  {
    var acc := "";
    for i := 0 to |pages|
      invariant acc == PageText(pages[..i])
    {
      acc := acc + pages[i] + "\n";
      assert pages[..i + 1][..i] == pages[..i];
    }
    assert pages[..|pages|] == pages;
    text := Strip(acc);
  }

  /** The accumulated text is the pages joined with one newline, plus a
      final newline. */
  lemma {:induction false} PageTextIsJoin(pages: seq<string>)
    requires pages != []
    ensures PageText(pages) == Join("\n", pages) + "\n"
    decreases |pages|
  {
    if |pages| > 1 {
      var init := pages[..|pages| - 1];
      PageTextIsJoin(init);
      JoinAppend("\n", init, pages[|pages| - 1]);
      assert init + [pages[|pages| - 1]] == pages;
    }
  }

  /** The accumulated text is whitespace only exactly when every page is. */
  lemma {:induction false} PageTextAllSpaceIff(pages: seq<string>)
    ensures AllSpace(PageText(pages)) <==> forall k :: 0 <= k < |pages| ==> AllSpace(pages[k])
    decreases |pages|
  {
    if pages != [] {
      var init, last := pages[..|pages| - 1], pages[|pages| - 1];
      PageTextAllSpaceIff(init);
      assert PageText(pages) == (PageText(init) + last) + "\n";
      AllSpaceConcat(PageText(init) + last, "\n");
      AllSpaceConcat(PageText(init), last);
      assert AllSpace("\n") by {
        assert IsSpace('\n');
      }
      assert pages == init + [last];
      assert (forall k :: 0 <= k < |pages| ==> AllSpace(pages[k])) <==>
        (forall k :: 0 <= k < |init| ==> AllSpace(init[k])) && AllSpace(last);
    }
  }

  /** The result is empty, which makes the caller give up without writing
      a file, exactly when every page's text is whitespace only. */
  lemma PdfTextEmptyIff(pages: seq<string>)
    ensures Strip(PageText(pages)) == "" <==> forall k :: 0 <= k < |pages| ==> AllSpace(pages[k])
  {
    StripEmptyIff(PageText(pages));
    PageTextAllSpaceIff(pages);
  }

  /** The final strip only takes off the last page's newline when the
      joined pages already start and end with text. */
  lemma StripFinalNewline(j: string)
    requires j != "" && IsStripped(j)
    ensures Strip(j + "\n") == j
  {
    var t := j + "\n";
    assert t[..0] == [] && t[|j|..] == "\n" && t[0..|j|] == j;
    assert IsSpace('\n');
    StripUnique(t, 0, |j|);
  }

  /** Non-empty stripped pages give their "\n"-join once stripped. */
  lemma PdfTextIsJoin(pages: seq<string>)
    requires pages != []
    requires forall k :: 0 <= k < |pages| ==> pages[k] != "" && IsStripped(pages[k])
    ensures Strip(PageText(pages)) == Join("\n", pages)
  {
    PageTextIsJoin(pages);
    JoinStripped("\n", pages);
    StripFinalNewline(Join("\n", pages));
  }

  /** Pages are separated by a single newline, so clean pages that hold no
      blank line of their own give a text the segmenter keeps as one
      paragraph: the whole document. */
  lemma PdfTextIsOneParagraph(pages: seq<string>)
    requires pages != []
    requires forall k :: 0 <= k < |pages| ==> pages[k] != "" && IsStripped(pages[k]) && NoBlankLine(pages[k])
    ensures Paragraphs(Strip(PageText(pages))) == [Join("\n", pages)]
  {
    PdfTextIsJoin(pages);
    JoinStripped("\n", pages);
    JoinNewlineNoBlankLine(pages);
    ParagraphsOfOne(Join("\n", pages));
  }

  /** Two pages come out separated by one newline, not by a blank line. */
  lemma PdfTwoPages(a: string, b: string)
    requires a != "" && IsStripped(a) && b != "" && IsStripped(b)
    ensures Strip(PageText([a, b])) == a + "\n" + b
  {
    PdfTextIsJoin([a, b]);
    assert [a, b][1..] == [b];
  }

  /** A page whose own text ends in a newline still leaves a blank line at
      its boundary, and the segmenter cuts there. */
  lemma PdfPageEndingInNewline(a: string, b: string)
    requires a != "" && IsStripped(a) && NoBlankLine(a)
    requires b != "" && IsStripped(b) && NoBlankLine(b)
    ensures Strip(PageText([a + "\n", b])) == a + "\n\n" + b
    ensures Paragraphs(Strip(PageText([a + "\n", b]))) == [a, b]
  {
    var pages := [a + "\n", b];
    var j := a + "\n\n" + b;
    PageTextIsJoin(pages);
    assert Join("\n", pages) == (a + "\n") + "\n" + b by {
      assert pages[1..] == [b];
    }
    NewlinePairAssoc(a, b);
    assert Join("\n\n", [a, b]) == j by {
      assert [a, b][1..] == [b];
    }
    JoinStripped("\n\n", [a, b]);
    StripFinalNewline(j);
    ParagraphsOfJoin([a, b]);
  }

  lemma NewlinePairAssoc(a: string, b: string)
    ensures (a + "\n") + "\n" + b == a + "\n\n" + b
  {
  }
}
