/** The text-to-record step of the scraper: cutting raw text into paragraphs,
    building the document record with its `Paragraph_i` mapping, the
    blank-line join every HTML extractor uses to produce that raw text, and
    the name of the JSON file the record is written to. */
module Scraper {
  import opened PyStr

  // ---------------------------------------------------------------------
  // Paragraph segmentation

  /** `[p.strip() for p in pieces if p.strip()]`: strip every piece and keep
      those that are not empty afterwards, in their original order. */
  function StripNonBlank(pieces: seq<string>): (r: seq<string>)
    ensures |r| <= |pieces|
    ensures forall k :: 0 <= k < |r| ==> r[k] != "" && IsStripped(r[k])
    decreases |pieces|
  {
    if |pieces| == 0 then []
    else
      var k, rest := Kept(pieces[0]), StripNonBlank(pieces[1..]);
      KeptClean(pieces[0]);
      CleanConcat(k, rest);
      k + rest
  }

  /** What the comprehension keeps of one piece. */
  function Kept(p: string): (r: seq<string>)
    ensures |r| <= 1
    ensures |r| == 1 ==> r[0] != "" && IsStripped(r[0])
  {
    if Strip(p) != "" then [Strip(p)] else []
  }

  /** What one piece contributes is non-empty and stripped. */
  lemma KeptClean(p: string)
    ensures forall k :: 0 <= k < |Kept(p)| ==> Kept(p)[k] != "" && IsStripped(Kept(p)[k])
  {
  }

  /** Two lists of non-empty stripped texts concatenate to one. */
  lemma CleanConcat(x: seq<string>, y: seq<string>)
    requires forall j :: 0 <= j < |x| ==> x[j] != "" && IsStripped(x[j])
    requires forall j :: 0 <= j < |y| ==> y[j] != "" && IsStripped(y[j])
    ensures forall j :: 0 <= j < |x + y| ==> (x + y)[j] != "" && IsStripped((x + y)[j])
  {
    forall j | 0 <= j < |x + y| ensures (x + y)[j] != "" && IsStripped((x + y)[j]) {
      if j >= |x| {
        assert (x + y)[j] == y[j - |x|];
      }
    }
  }

  /** The paragraph list of a raw text: its "\n\n"-separated pieces,
      stripped, whitespace-only pieces dropped. */
  function Paragraphs(rawText: string): (r: seq<string>)
    ensures |r| <= |SplitBlankLines(rawText)|
    ensures forall k :: 0 <= k < |r| ==> r[k] != "" && IsStripped(r[k])
  {
    StripNonBlank(SplitBlankLines(rawText))
  }

  /** Keeping order: cleaning a concatenation cleans each half in turn. */
  lemma {:induction false} StripNonBlankAppend(a: seq<string>, b: seq<string>)
    ensures StripNonBlank(a + b) == StripNonBlank(a) + StripNonBlank(b)
    decreases |a|
  {
    if |a| > 0 {
      var ab := a + b;
      assert ab[0] == a[0] && ab[1..] == a[1..] + b;
      StripNonBlankAppend(a[1..], b);
      var k, x, y := Kept(a[0]), StripNonBlank(a[1..]), StripNonBlank(b);
      assert StripNonBlank(ab) == Kept(ab[0]) + StripNonBlank(ab[1..]);
      assert StripNonBlank(a) == k + x;
      assert k + (x + y) == (k + x) + y;
    } else {
      assert a + b == b;
    }
  }

  /** Pieces without the boundary give paragraphs without it. */
  lemma {:induction false} StripNonBlankNoBlankLine(pieces: seq<string>)
    requires forall k :: 0 <= k < |pieces| ==> NoBlankLine(pieces[k])
    ensures forall k :: 0 <= k < |StripNonBlank(pieces)| ==> NoBlankLine(StripNonBlank(pieces)[k])
    decreases |pieces|
  {
    if |pieces| > 0 {
      var k, r := Kept(pieces[0]), StripNonBlank(pieces[1..]);
      assert StripNonBlank(pieces) == k + r;
      KeptNoBlankLine(pieces[0]);
      StripNonBlankNoBlankLine(pieces[1..]);
      NoBlankLinesConcat(k, r);
    }
  }

  /** Nothing survives exactly when every piece is whitespace only. */
  lemma {:induction false} StripNonBlankEmptyIff(pieces: seq<string>)
    ensures StripNonBlank(pieces) == [] <==> forall k :: 0 <= k < |pieces| ==> AllSpace(pieces[k])
    decreases |pieces|
  {
    if |pieces| > 0 {
      var rest := pieces[1..];
      assert StripNonBlank(pieces) == Kept(pieces[0]) + StripNonBlank(rest);
      KeptEmptyIff(pieces[0]);
      StripNonBlankEmptyIff(rest);
      AllBlankCons(pieces);
    }
  }

  /** A piece without "\n\n" contributes nothing with one. */
  lemma KeptNoBlankLine(p: string)
    requires NoBlankLine(p)
    ensures forall j :: 0 <= j < |Kept(p)| ==> NoBlankLine(Kept(p)[j])
  {
    StripKeepsNoBlankLine(p);
  }

  /** Two lists of texts without "\n\n" concatenate to one. */
  lemma NoBlankLinesConcat(x: seq<string>, y: seq<string>)
    requires forall j :: 0 <= j < |x| ==> NoBlankLine(x[j])
    requires forall j :: 0 <= j < |y| ==> NoBlankLine(y[j])
    ensures forall j :: 0 <= j < |x + y| ==> NoBlankLine((x + y)[j])
  {
    forall j | 0 <= j < |x + y| ensures NoBlankLine((x + y)[j]) {
      if j >= |x| {
        assert (x + y)[j] == y[j - |x|];
      }
    }
  }

  /** One piece contributes nothing exactly when it is whitespace only. */
  lemma KeptEmptyIff(p: string)
    ensures Kept(p) == [] <==> AllSpace(p)
  {
    StripEmptyIff(p);
  }

  /** Every piece is whitespace only when the first and all the rest are. */
  lemma AllBlankCons(pieces: seq<string>)
    requires pieces != []
    ensures (forall k :: 0 <= k < |pieces| ==> AllSpace(pieces[k])) <==>
      AllSpace(pieces[0]) && forall k :: 0 <= k < |pieces| - 1 ==> AllSpace(pieces[1..][k])
  {
    assert forall k :: 1 <= k < |pieces| ==> pieces[k] == pieces[1..][k - 1];
  }

  /** Pieces that are already clean pass through unchanged. */
  lemma {:induction false} StripNonBlankClean(pieces: seq<string>)
    requires forall k :: 0 <= k < |pieces| ==> pieces[k] != "" && IsStripped(pieces[k])
    ensures StripNonBlank(pieces) == pieces
    decreases |pieces|
  {
    if |pieces| > 0 {
      StripStripped(pieces[0]);
      StripNonBlankClean(pieces[1..]);
      assert [pieces[0]] + pieces[1..] == pieces;
    }
  }

  /** Every paragraph is non-empty, carries no surrounding whitespace and
      holds no blank-line boundary of its own. */
  lemma ParagraphsClean(rawText: string)
    ensures forall k :: 0 <= k < |Paragraphs(rawText)| ==>
      Paragraphs(rawText)[k] != "" && IsStripped(Paragraphs(rawText)[k]) && NoBlankLine(Paragraphs(rawText)[k])
  {
    SplitShape(rawText);
    StripNonBlankNoBlankLine(SplitBlankLines(rawText));
  }

  /** An empty or all-whitespace raw text, and only such a text, yields no
      paragraph. */
  lemma ParagraphsEmptyIff(rawText: string)
    ensures Paragraphs(rawText) == [] <==> AllSpace(rawText)
  {
    var pieces := SplitBlankLines(rawText);
    StripNonBlankEmptyIff(pieces);
    assert AllSpace("\n\n") by {
      assert IsSpace('\n');
    }
    JoinAllSpace("\n\n", pieces);
    JoinSplit(rawText);
  }

  /** The round trip between the extractors and the segmenter: paragraphs
      that are non-empty, stripped and free of "\n\n" survive being joined
      with "\n\n" and segmented again, unchanged and in order. */
  lemma ParagraphsOfJoin(ps: seq<string>)
    requires forall k :: 0 <= k < |ps| ==> ps[k] != "" && IsStripped(ps[k]) && NoBlankLine(ps[k])
    ensures Paragraphs(Join("\n\n", ps)) == ps
  {
    if ps == [] {
      assert SplitBlankLines("") == [""];
      StripEmptyIff("");
    } else {
      assert SplitPieces(ps) by {
        forall k | 0 <= k < |ps| - 1 ensures ps[k][|ps[k]| - 1] != '\n' {
          assert IsSpace('\n');
        }
      }
      SplitJoin(ps);
      StripNonBlankClean(ps);
    }
  }

  /** Three blank-line separated paragraphs come out as three. */
  lemma ParagraphsOfThree()
    ensures Paragraphs("A\n\nB\n\nC") == ["A", "B", "C"]
  {
    var ps := ["A", "B", "C"];
    assert Join("\n\n", ps) == "A\n\nB\n\nC";
    ParagraphsOfJoin(ps);
  }

  /** A text of spaces and newlines comes out as no paragraph at all. */
  lemma ParagraphsOfWhitespace()
    ensures Paragraphs("  \n\n  ") == []
  {
    var t := "  \n\n  ";
    assert AllSpace(t) by {
      assert IsSpace(' ') && IsSpace('\n');
      assert forall i :: 0 <= i < |t| ==> t[i] == ' ' || t[i] == '\n';
    }
    ParagraphsEmptyIff(t);
  }

  /** A clean text without a blank line is a single paragraph. */
  lemma ParagraphsOfOne(t: string)
    requires t != "" && IsStripped(t) && NoBlankLine(t)
    ensures Paragraphs(t) == [t]
  {
    assert Join("\n\n", [t]) == t;
    ParagraphsOfJoin([t]);
  }

  /** The round trip needs its precondition: an extracted paragraph that
      itself holds a blank line between two clean parts comes back as those
      two parts. */
  lemma ParagraphsOfJoinSplitsInnerBlankLine(a: string, b: string)
    requires a != "" && IsStripped(a) && NoBlankLine(a)
    requires b != "" && IsStripped(b) && NoBlankLine(b)
    ensures Paragraphs(Join("\n\n", [a + "\n\n" + b])) == [a, b]
  {
    assert Join("\n\n", [a + "\n\n" + b]) == Join("\n\n", [a, b]) by {
      assert [a, b][1..] == [b];
    }
    ParagraphsOfJoin([a, b]);
  }

  // ---------------------------------------------------------------------
  // The document record

  /** One entry of the output's "documents" list. `content` is the mapping
      "Paragraph_1" .. "Paragraph_n" to the paragraphs. */
  datatype DocumentRecord = DocumentRecord(
    documentName: string,
    documentType: string,
    documentLink: string,
    issuer: string,
    resourceName: string,
    sectionContent: string,
    content: map<string, string>)

  /** `f"Paragraph_{i}"`. */
  function ParagraphKey(i: nat): string {
    "Paragraph_" + Decimal(i)
  }

  lemma ParagraphKeyInjective(i: nat, j: nat)
    requires ParagraphKey(i) == ParagraphKey(j)
    ensures i == j
  {
    assert ParagraphKey(i)[10..] == Decimal(i);
    assert ParagraphKey(j)[10..] == Decimal(j);
    DecimalInjective(i, j);
  }

  lemma ParagraphKeysInjective()
    ensures forall i: nat, j: nat :: ParagraphKey(i) == ParagraphKey(j) ==> i == j
  {
    forall i: nat, j: nat | ParagraphKey(i) == ParagraphKey(j) ensures i == j {
      ParagraphKeyInjective(i, j);
    }
  }

  /** `{f"Paragraph_{i+1}": p for i, p in enumerate(ps)}`: its keys are
      exactly Paragraph_1 .. Paragraph_n for n = |ps|. */
  function IndexedContent(ps: seq<string>): (m: map<string, string>)
    ensures forall k :: k in m <==> exists i: nat :: 1 <= i <= |ps| && k == ParagraphKey(i)
  {
    ParagraphKeysInjective();
    map i: nat | 1 <= i <= |ps| :: ParagraphKey(i) := ps[i - 1]
  }

  /** Paragraph_i holds the i-th paragraph. */
  lemma IndexedContentAt(ps: seq<string>, i: nat)
    requires 1 <= i <= |ps|
    ensures ParagraphKey(i) in IndexedContent(ps) && IndexedContent(ps)[ParagraphKey(i)] == ps[i - 1]
  {
    ParagraphKeysInjective();
  }

  /** `create_json_entry`: the metadata and the raw text are passed through
      unchecked (empty strings included), and the content's keys are
      Paragraph_1 .. Paragraph_n, one per clean paragraph of the raw text. */
  function CreateJsonEntry(
    documentName: string, documentType: string, documentLink: string,
    issuer: string, resourceName: string, rawText: string): (r: DocumentRecord)
    ensures r.documentName == documentName && r.documentType == documentType
    ensures r.documentLink == documentLink && r.issuer == issuer
    ensures r.resourceName == resourceName
    ensures r.sectionContent == rawText
    ensures forall k :: k in r.content <==>
      exists i: nat :: 1 <= i <= |Paragraphs(rawText)| && k == ParagraphKey(i)
  {
    DocumentRecord(documentName, documentType, documentLink, issuer, resourceName, rawText,
                   IndexedContent(Paragraphs(rawText)))
  }

  /** Paragraph_i of the record is the i-th "\n\n"-separated piece of the
      raw text that is not blank, stripped. */
  lemma EntryParagraphAt(
    documentName: string, documentType: string, documentLink: string,
    issuer: string, resourceName: string, rawText: string, i: nat)
    requires 1 <= i <= |Paragraphs(rawText)|
    ensures var r := CreateJsonEntry(documentName, documentType, documentLink, issuer, resourceName, rawText);
      ParagraphKey(i) in r.content && r.content[ParagraphKey(i)] == Paragraphs(rawText)[i - 1]
  {
    IndexedContentAt(Paragraphs(rawText), i);
  }

  /** Every value in the content is non-empty, has no leading or trailing
      whitespace and holds no blank line of its own. */
  lemma EntryValuesClean(
    documentName: string, documentType: string, documentLink: string,
    issuer: string, resourceName: string, rawText: string)
    ensures var r := CreateJsonEntry(documentName, documentType, documentLink, issuer, resourceName, rawText);
      forall k :: k in r.content ==> r.content[k] != "" && IsStripped(r.content[k]) && NoBlankLine(r.content[k])
  {
    var r := CreateJsonEntry(documentName, documentType, documentLink, issuer, resourceName, rawText);
    var ps := Paragraphs(rawText);
    ParagraphsClean(rawText);
    forall k | k in r.content ensures r.content[k] != "" && IsStripped(r.content[k]) && NoBlankLine(r.content[k]) {
      var i: nat :| 1 <= i <= |ps| && k == ParagraphKey(i);
      IndexedContentAt(ps, i);
    }
  }

  /** An empty or all-whitespace raw text gives an empty content mapping,
      and nothing else does; the raw text is kept all the same. */
  lemma EntryContentEmptyIff(
    documentName: string, documentType: string, documentLink: string,
    issuer: string, resourceName: string, rawText: string)
    ensures var r := CreateJsonEntry(documentName, documentType, documentLink, issuer, resourceName, rawText);
      (r.content == map[] <==> AllSpace(rawText)) && r.sectionContent == rawText
  {
    ParagraphsEmptyIff(rawText);
    var r := CreateJsonEntry(documentName, documentType, documentLink, issuer, resourceName, rawText);
    if Paragraphs(rawText) != [] {
      assert ParagraphKey(1) in r.content;
    }
  }

  // ---------------------------------------------------------------------
  // The HTML extractors

  /** What one of the three HTML extractors obtained: the paragraph texts
      the parser found (each `<p>`'s text, stripped, empty ones dropped), or
      the message of the exception it caught. */
  datatype Extraction = Extracted(paragraphs: seq<string>) | Failed(message: string)

  /** The raw text an HTML extractor returns: the paragraphs joined with
      "\n\n", or "Error: " and the exception's message. */
  function ScrapedText(e: Extraction): string {
    match e
    case Extracted(ps) => Join("\n\n", ps)
    case Failed(message) => "Error: " + message
  }

  /** The producer/segmenter contract: what the extractor found is what
      ends up, key by key, in the record. */
  lemma ScrapedParagraphsRoundTrip(
    documentName: string, documentType: string, documentLink: string,
    issuer: string, resourceName: string, ps: seq<string>)
    requires forall k :: 0 <= k < |ps| ==> ps[k] != "" && IsStripped(ps[k]) && NoBlankLine(ps[k])
    ensures var r := CreateJsonEntry(documentName, documentType, documentLink, issuer,
                                     resourceName, ScrapedText(Extracted(ps)));
      r.content == IndexedContent(ps)
  {
    ParagraphsOfJoin(ps);
  }

  /** A caught exception whose message has no blank line becomes the single
      paragraph of the record. */
  lemma ScrapedErrorIsOneParagraph(message: string)
    requires NoBlankLine(message)
    ensures Paragraphs(ScrapedText(Failed(message))) == [Strip("Error: " + message)]
  {
    var t := "Error: " + message;
    assert NoBlankLine(t) by {
      forall k | 0 <= k < |t| - 1 ensures !(t[k] == '\n' && t[k + 1] == '\n') {
        if k >= 7 { assert t[k] == message[k - 7] && t[k + 1] == message[k - 6]; }
      }
    }
    SplitNoBlankLine(t);
    assert !IsSpace(t[0]);
    StripEmptyIff(t);
    assert StripNonBlank([t]) == [Strip(t)];
  }

  // ---------------------------------------------------------------------
  // The output file name

  /** `f"{document_name.replace(' ', '_')}.json"`. */
  function JsonFileName(documentName: string): (f: string)
    ensures |f| == |documentName| + 5
    ensures f[|documentName|..] == ".json"
    ensures ' ' !in f
    ensures forall i :: 0 <= i < |documentName| ==> f[i] == Underscored(documentName[i])
  {
    ReplaceSpaces(documentName) + ".json"
  }

  /** Two document names lead to the same file, the later overwriting the
      earlier, exactly when they agree up to spaces versus underscores. */
  lemma JsonFileNameCollides(a: string, b: string)
    ensures JsonFileName(a) == JsonFileName(b) <==>
      |a| == |b| && forall i :: 0 <= i < |a| ==> Underscored(a[i]) == Underscored(b[i])
  {
    if JsonFileName(a) == JsonFileName(b) {
      assert |a| == |b|;
      forall i | 0 <= i < |a| ensures Underscored(a[i]) == Underscored(b[i]) {
        assert JsonFileName(a)[i] == JsonFileName(b)[i];
      }
    }
    if |a| == |b| && forall i :: 0 <= i < |a| ==> Underscored(a[i]) == Underscored(b[i]) {
      assert ReplaceSpaces(a) == ReplaceSpaces(b);
    }
  }
}
