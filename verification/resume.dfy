/**
  `parse_resume` and the file-type rule of `browse_file`: pick the reader by
  type, pull the contact details and skills out of the text, and scrape jobs
  only when there is at least one skill.
 */
module Resume {
  import opened Wrappers
  import opened Strings
  import opened TextExtraction
  import opened Contact
  import opened Skills
  import opened JobScraper

  /** `file_path.split(".")[-1]`: what follows the last dot, or the whole path when it has none. */
  function Extension(path: string): (ext: string)
    ensures '.' !in ext
    ensures IsPieceAfterSep(path, ext, '.')
  {
    SplitLast(path, '.');
    Last(Split(path, '.'))
  }

  /** The extension is exactly `pdf` when the path is `pdf` itself or ends in `.pdf` (case-sensitively). */
  lemma ExtensionIsPdf(path: string)
    ensures Extension(path) == "pdf" <==> path == "pdf" || (|path| >= 4 && path[|path| - 4..] == ".pdf")
  {
    var ext := Extension(path);
    var n := |path|;
    assert ext == path[n - |ext|..];
    assert '.' !in ext;
    if ext == "pdf" && |ext| < n {
      assert path[n - 4] == '.';
      assert path[n - 4..] == [path[n - 4]] + path[n - 3..];
    }
    if path == "pdf" {
      assert '.' !in path;
    }
    if n >= 4 && path[n - 4..] == ".pdf" {
      assert path[n - 4] == '.' && path[n - 3] == 'p' && path[n - 2] == 'd' && path[n - 1] == 'f';
      assert forall j :: n - |ext| <= j < n ==> path[j] in ext;
      assert forall j :: n - 3 <= j < n ==> path[j] != '.';
      assert |ext| == 3;
      assert path[n - 3..] == "pdf";
    }
  }

  /** The type `browse_file` passes on: `"pdf"` for a `.pdf` extension, `"docx"` for anything else. */
  function FileTypeOf(path: string): (fileType: string)
    ensures fileType == "pdf" || fileType == "docx"
    ensures fileType == "pdf" <==> path == "pdf" || (|path| >= 4 && path[|path| - 4..] == ".pdf")
  {
    ExtensionIsPdf(path);
    if Extension(path) == "pdf" then "pdf" else "docx"
  }

  /**
    The document text. The PDF reader is used exactly when the type is `"pdf"`;
    a reader that raised makes `parse_resume` raise with the same error.
   */
  function DocumentText(fileType: string, pdfPages: Result<seq<string>>, docxParagraphs: Result<seq<string>>): (r: Result<string>)
    ensures var read := if fileType == "pdf" then pdfPages else docxParagraphs;
      && (r.Err? <==> read.Err?)
      && (r.Err? ==> r.message == read.message)
    ensures fileType == "pdf" && pdfPages.Ok? ==> r == Ok(PdfText(pdfPages.value))
    ensures fileType != "pdf" && docxParagraphs.Ok? ==> r == Ok(DocxText(docxParagraphs.value))
  {
    if fileType == "pdf" then
      match pdfPages
      case Ok(pages) => Ok(PdfText(pages))
      case Err(e) => Err(e)
    else
      match docxParagraphs
      case Ok(paragraphs) => Ok(DocxText(paragraphs))
      case Err(e) => Err(e)
  }

  /** Only the reader the type selects matters. */
  lemma DispatchByType(fileType: string, pdf: Result<seq<string>>, pdf': Result<seq<string>>,
                       docx: Result<seq<string>>, docx': Result<seq<string>>)
    ensures fileType == "pdf" ==> DocumentText(fileType, pdf, docx) == DocumentText(fileType, pdf, docx')
    ensures fileType != "pdf" ==> DocumentText(fileType, pdf, docx) == DocumentText(fileType, pdf', docx)
  {
  }

  /** The dictionary `parse_resume` returns. */
  datatype Parsed = Parsed(email: Option<string>, phone: Option<string>, skills: seq<string>, jobs: seq<string>)

  /**
    `parse_resume(file_path, file_type)`. The readers' outputs, the tokenizer and
    the job pages are inputs; `visited` is `None` when no browser was started and
    otherwise the URLs it opened.
   */
  method ParseResume(fileType: string, pdfPages: Result<seq<string>>, docxParagraphs: Result<seq<string>>,
                     tokenize: string -> seq<string>, linksAt: string -> seq<string>)
    returns (r: Result<Parsed>, visited: Option<seq<string>>)
    ensures r.Err? <==> DocumentText(fileType, pdfPages, docxParagraphs).Err?
    ensures r.Err? ==> r.message == DocumentText(fileType, pdfPages, docxParagraphs).message && visited.None?
    ensures r.Ok? ==>
      var text := DocumentText(fileType, pdfPages, docxParagraphs).value;
      && r.value.email == ExtractEmail(text)
      && r.value.phone == ExtractPhone(text)
      && Distinct(r.value.skills)
      && (forall t :: t in r.value.skills <==> t in SkillKeywords && t in tokenize(text))
    ensures r.Ok? && |r.value.skills| == 0 ==> r.value.jobs == [] && visited.None?
    ensures r.Ok? && |r.value.skills| > 0 ==>
      r.value.jobs == ScrapeJobs(r.value.skills, linksAt) && visited == Some(Visits(r.value.skills))
  {
    var read := DocumentText(fileType, pdfPages, docxParagraphs);
    if read.Err? {
      return Err(read.message), None;
    }
    var text := read.value;
    var email := ExtractEmail(text);
    var phone := ExtractPhone(text);
    var skills := ExtractSkills(tokenize(text));
    var jobs: seq<string> := [];
    visited := None;
    if |skills| > 0 {
      jobs := ScrapeJobs(skills, linksAt);
      visited := Some(Visits(skills));
    }
    r := Ok(Parsed(email, phone, skills, jobs));
  }
}
