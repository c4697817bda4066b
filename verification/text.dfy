/**
  `extract_text_from_pdf` and `extract_text_from_docx`, after the document has
  been read: the page texts and the paragraph texts are the inputs.
 */
module TextExtraction {
  import opened Strings

  /** The PDF text: each page's text followed by a newline, pages in order. */
  function PdfText(pages: seq<string>): (text: string)
    ensures |text| == SumLengths(pages) + |pages|
    decreases |pages|
  {
    if |pages| == 0 then ""
    else
      var before := pages[..|pages| - 1];
      var last := pages[|pages| - 1];
      SumLengthsSnoc(before, last);
      assert before + [last] == pages;
      PdfText(before) + last + "\n"
  }

  /** The DOCX text: the paragraph texts joined by newlines. */
  function DocxText(paragraphs: seq<string>): (text: string)
    ensures |paragraphs| == 0 ==> text == ""
    ensures |paragraphs| >= 1 ==> |text| == SumLengths(paragraphs) + |paragraphs| - 1
  {
    Join(paragraphs, '\n')
  }

  /** Every page's text is followed by a newline: the PDF text is the DOCX-style join plus one final newline. */
  lemma {:induction false} PdfTextIsJoinPlusNewline(pages: seq<string>)
    requires |pages| >= 1
    ensures PdfText(pages) == Join(pages, '\n') + "\n"
    decreases |pages|
  {
    var before := pages[..|pages| - 1];
    var last := pages[|pages| - 1];
    assert pages == before + [last];
    assert PdfText(pages) == PdfText(before) + last + "\n";
    if |before| >= 1 {
      PdfTextIsJoinPlusNewline(before);
      JoinSnoc(before, last, '\n');
      var joined := Join(before, '\n');
      assert PdfText(before) + last == joined + ['\n'] + last;
    } else {
      assert Join(pages, '\n') == last;
    }
  }

  /** Paragraphs without newlines come back from the DOCX text by splitting on newlines. */
  lemma DocxTextSplits(paragraphs: seq<string>)
    requires |paragraphs| >= 1
    requires forall k :: 0 <= k < |paragraphs| ==> '\n' !in paragraphs[k]
    ensures Split(DocxText(paragraphs), '\n') == paragraphs
  {
    SplitJoin(paragraphs, '\n');
  }

  /** Pages without newlines come back from the PDF text by splitting, followed by one empty piece. */
  lemma PdfTextSplits(pages: seq<string>)
    requires forall k :: 0 <= k < |pages| ==> '\n' !in pages[k]
    ensures Split(PdfText(pages), '\n') == pages + [""]
  {
    var parts := pages + [""];
    assert forall k :: 0 <= k < |parts| ==> '\n' !in parts[k];
    if |pages| == 0 {
      assert Join(parts, '\n') == "";
    } else {
      PdfTextIsJoinPlusNewline(pages);
      JoinSnoc(pages, "", '\n');
      assert Join(pages, '\n') + "\n" == Join(pages, '\n') + ['\n'] + "";
    }
    SplitJoin(parts, '\n');
  }
}
