# Resume scanner: extraction pipeline and upload page

This project models the core of the automated resume scanner in Dafny. There are two parts.

- **The backend pipeline** (`backend/index.py`) works on the text of an uploaded resume:
  - it reads the text of a PDF or DOCX file;
  - it pulls out the first email address and the first phone number with two regular expressions;
  - it keeps the words of the text that are known skill keywords;
  - for each skill, it collects the first five LinkedIn job links.

  The desktop entry point picks the file type from the path's extension.
- **The React upload page** (`frontend/src/App.jsx`) is modelled as a state machine over `{file, loading, loadingMore, data, error}`. There is one transition per handler: choosing a file, uploading it, and loading more jobs.

The modules are:

- `Wrappers`: `Option` and `Result`.
- `Strings`: Python's `str.split` and `str.join` on one character, and their round trips.
- `Regex`: a small backtracking matcher for the patterns the extractors use. It covers character classes, literals, `?`, `+` and `\b`, plus an alternation. A fixed repetition such as `\d{10}` is spelt out as that many single-class atoms (`Contact.Digits`). A leftmost search over it gives `re.findall(...)[0]`.
- `Contact`: `extract_email` and `extract_phone` on that matcher. Each is also given a declarative description of the first match, and the two are proved equal.
- `Skills`: `extract_skills_spacy` over a token sequence.
- `TextExtraction`: how the page texts and paragraph texts are put together.
- `JobScraper`: `scrape_jobs` over an abstract "links on the page at this URL" function.
- `Resume`: `parse_resume` and the extension rule of `browse_file`.
- `App`: the page's handlers, the event-run invariant and the load-more crash (see Findings). `App.Step` uses the corrected load-more handler `App.LoadMoreSettled`, so `App.Step`, `App.Run`, `App.RunKeepsFileOk` and `App.UploadSendsAcceptableFile` describe the corrected page; `App.LoadMoreSettledAsWritten` and `App.StaleLoadMoreCrashes` describe the page as written.
- `Scenarios`: facts proved about the extractors on concrete texts.

Things outside the program's logic are inputs to the model:

- what the PDF and DOCX readers return;
- the tokens spaCy produces;
- the links each search page holds;
- the browser events and the way each `fetch` ended.

### Behaviour worth knowing

- The phone pattern accepts only ten unbroken digits, or `(ddd)` followed by at most one whitespace character and `ddd-dddd`. `Scenarios.DashedNumberIsNotAPhone` shows that `987-654-3210` is not found.
- A token counts as a skill only when its text equals a keyword exactly, case included (`Skills.FoundSkills`).
- Every skill found is scraped, and five links at most are kept per skill (`JobScraper.ScrapeJobs`). There is no cap on the number of skills or on the total number of jobs.
- PDF page texts each get a newline after them; DOCX paragraph texts get a newline between neighbours (`TextExtraction.PdfTextIsJoinPlusNewline`, `TextExtraction.DocxText`).

## Model

| member | source | states |
|---|---|---|
| Strings.Split | backend/index.py:103 | `split(".")` always gives at least one piece, and no piece contains the separator |
| Strings.Join | backend/index.py:41 | `"\n".join` is empty for no paragraphs, and otherwise has the paragraph lengths plus one separator between each pair of neighbours |
| Strings.JoinSplit | backend/index.py:103 | joining the pieces of a split gives back the original path |
| Strings.SplitJoin | backend/index.py:41 | splitting a join of separator-free pieces gives back the pieces |
| Strings.JoinSnoc | backend/index.py:41 | appending a paragraph adds exactly one separator and the paragraph at the end |
| Strings.SplitLast | backend/index.py:103 | the last piece `[-1]` is a separator-free suffix: either the whole string or the part after its last separator |
| Regex.Match | backend/index.py:46 | a match of a pattern starting at `i` ends at a position `k` with `i <= k <= |s|`, so `s[i..k]` is the matched span |
| Regex.GiveBack | backend/index.py:46 | backtracking from a run end `k` down to `lo` yields an end inside the text, past `lo` |
| Regex.GiveBackNone | backend/index.py:46 | backtracking fails exactly when the rest of the pattern matches after none of the run ends from `lo` to `k` |
| Regex.GiveBackLongest | backend/index.py:46 | backtracking gives back as little as possible: it continues from the longest run end after which the rest of the pattern matches |
| Regex.ManyNone | backend/index.py:46 | a greedy `+` fails exactly when the rest of the pattern can follow no non-empty run of its class |
| Regex.ManyLongest | backend/index.py:46 | a greedy `+` continues after the longest non-empty run of its class that the rest of the pattern can follow |
| Regex.RunEnd | backend/index.py:46 | a greedy `+` run ends at the first character outside the class, and every character before it is in the class |
| Regex.RunEndAt | backend/index.py:46 | any run that stops at a non-class character is the greedy run |
| Regex.MatchAny | backend/index.py:52 | an alternation matches at a position exactly when one of its branches does |
| Regex.MatchAnyTwo | backend/index.py:52 | a two-branch alternation takes the first branch when it matches, and tries the second only otherwise |
| Regex.SearchFrom | backend/index.py:47-48 | the search returns the leftmost start where the pattern matches, with nothing matching before it, and `None` exactly when no position matches |
| Regex.FirstMatch | backend/index.py:47-48 | `findall(...)[0] if matches else None` is `None` exactly when the pattern matches nowhere; otherwise it is the text `s[i..k]` of the match at the leftmost start `i` where some branch matches, `k` being where that match ends |
| Contact.EmailMatchAt | backend/index.py:46 | `[a-zA-Z0-9+_.-]+@[a-zA-Z0-9.-]+` matches at `i` exactly when a local-part run from `i` ends at an `@` followed by a domain character, and then it takes the whole domain run |
| Contact.GiveBackLocal | backend/index.py:46 | backtracking into the local-part run never yields a match, because no local character is `@` |
| Contact.SearchEmail | backend/index.py:46-48 | the leftmost email match is the span `IsFirstEmail` describes, and there is none exactly when the text has no `@` between a local character and a domain character |
| Contact.ExtractEmail | backend/index.py:44-48 | `None` exactly when no `@` has a local-part character right before it and a domain character right after it; otherwise the result is the first such span, maximal on both sides |
| Contact.FirstEmailIsExtracted | backend/index.py:44-48 | conversely, the span described as the first email is exactly what is returned |
| Contact.FirstEmailUnique | backend/index.py:46-48 | the first-email description fixes one span |
| Contact.LocallyFirstEmail | backend/index.py:46-48 | a span with no earlier `@`, a non-local character (or the start) before it and a non-domain character (or the end) after it is the first email |
| Contact.EmbeddedEmail | backend/index.py:44-48 | an address placed in text with no earlier `@` and non-matching neighbours is returned exactly, with no surrounding punctuation |
| Contact.NoAtNoEmail | backend/index.py:44-48 | text without an `@` yields `None` |
| Contact.EmailShape | backend/index.py:46 | a returned email has exactly one `@`, a non-empty local part over `[a-zA-Z0-9+_.-]` and a non-empty domain over `[a-zA-Z0-9.-]` |
| Contact.TenDigitMatch | backend/index.py:52 | `\b\d{10}\b` matches at `i` exactly when ten digits start there with no word character touching either end |
| Contact.ParenMatch | backend/index.py:52 | `\(\d{3}\)\s?\d{3}-\d{4}` matches `s[i..k]` exactly when it is `(ddd)`, at most one whitespace, then `ddd-dddd` |
| Contact.PhoneMatchAt | backend/index.py:52 | the phone alternation matches `s[i..k]` exactly when it is one of the two phone shapes |
| Contact.ExtractPhone | backend/index.py:50-54 | `None` exactly when no substring has a phone shape; otherwise the result is the phone-shaped substring that starts leftmost |
| Contact.FirstPhoneIsExtracted | backend/index.py:50-54 | conversely, a phone-shaped substring with none starting before it is exactly what is returned |
| Contact.PhoneAtUnique | backend/index.py:52 | at most one phone-shaped substring starts at a position |
| Contact.PhoneLength | backend/index.py:52 | a returned phone has 10, 13 or 14 characters |
| Skills.FoundSkills | backend/index.py:56-62 | the set built token by token holds exactly the keywords that occur as whole tokens, compared case-sensitively |
| Skills.ExtractSkills | backend/index.py:56-63 | the returned list has no duplicates, and it holds a string exactly when that string is a keyword and some token equals it |
| Skills.FoundSkillsIgnoresRepeats | backend/index.py:60-62 | a repeated token or a non-keyword token adds nothing |
| TextExtraction.PdfText | backend/index.py:33-35 | the PDF text's length is the sum of the page lengths plus one per page |
| TextExtraction.PdfTextIsJoinPlusNewline | backend/index.py:33-35 | the PDF text is the pages joined by newlines plus one final newline |
| TextExtraction.PdfTextSplits | backend/index.py:33-35 | splitting the PDF text on newlines gives back the newline-free pages, followed by one empty piece |
| TextExtraction.DocxText | backend/index.py:41 | the DOCX text is empty for no paragraphs; otherwise its length is the sum of the paragraph lengths plus one less than the number of paragraphs |
| TextExtraction.DocxTextSplits | backend/index.py:41 | splitting the DOCX text on newlines gives back the newline-free paragraphs |
| JobScraper.Take | backend/index.py:77 | `[:5]` keeps a prefix of at most five links, and all of them when there are fewer |
| JobScraper.TopLinks | backend/index.py:76-77 | a skill's kept links are a prefix of its search page's links, at most five, and exactly five when the page has five or more |
| JobScraper.ScrapeReadsOnlyVisited | backend/index.py:70-78 | the result depends only on the pages of the visited search URLs: two link functions that agree there give the same jobs |
| JobScraper.ScrapeJobs | backend/index.py:68-81 | at most five links are kept per skill |
| JobScraper.ScrapeAppend | backend/index.py:70-78 | scraping a list of skills gives the links of its first half followed by those of its second half |
| JobScraper.SkillBlock | backend/index.py:70-78 | skill `k`'s top links appear in page order right after the links of the skills before it |
| JobScraper.LinksComeFromSkills | backend/index.py:70-78 | every returned link is among the first five links of some skill's page |
| JobScraper.FullPages | backend/index.py:76-78 | when every page has at least five links, exactly five per skill are kept |
| Resume.Extension | backend/index.py:103 | the extension has no `.` and is a suffix of the path, either the whole path or the part after its last `.` |
| Resume.ExtensionIsPdf | backend/index.py:103 | the last `.` piece is `pdf` exactly when the path is `pdf` or ends in `.pdf` |
| Resume.FileTypeOf | backend/index.py:103-104 | the type is `pdf` or `docx`, and it is `pdf` exactly when the path ends in `.pdf` (or is `pdf`) |
| Resume.DocumentText | backend/index.py:85 | type `pdf` uses the PDF reader and any other type the DOCX reader; the selected reader's error is passed on with its message, and its pages or paragraphs give `PdfText` or `DocxText` |
| Resume.DispatchByType | backend/index.py:85 | with type `pdf` only the PDF reader matters, and with any other type only the DOCX reader matters |
| Resume.ParseResume | backend/index.py:83-96 | a reader error propagates; email and phone are the extractors' results; skills are the distinct keywords among the tokens; with no skills the jobs are `[]` and no page is visited; otherwise the jobs are the scrape of the skills, after visiting one search URL per skill |
| App.FailureMessage | frontend/src/App.jsx:59-61 | a rejected request shows its own message; an error response shows its `error` field when that is present and non-empty, and the default message otherwise (in the upload and the load-more handler alike) |
| App.FileChanged | frontend/src/App.jsx:18-37 | no selection changes nothing. A type outside the two MIME types sets the type error, and a whitelisted file over 5 MiB sets the size error; both leave `file` and `data` as they were, and the type check comes first. A file of at most 5 MiB is kept, with the error and the data cleared. The loading flags never change |
| App.UploadClicked | frontend/src/App.jsx:39-49 | with no file, the handler sets "Please select a file first", sends nothing and leaves `loading` as it was; otherwise it sets `loading`, clears the error and posts the stored file |
| App.UploadSettled | frontend/src/App.jsx:51-69 | success stores the answer; failure keeps the data and shows the message; `loading` ends false on both paths |
| App.LoadMoreClicked | frontend/src/App.jsx:72-79 | with no data, no skills or a load already running nothing happens; otherwise `loadingMore` is set and the query asks for the stored next page |
| App.JoinedSkillsSplitBack | frontend/src/App.jsx:78 | the comma-joined skills, before they are put in the URL, split back into the skill list when no skill contains a comma |
| App.LoadMoreSettled | frontend/src/App.jsx:76-96 | on success the old jobs are a prefix of the new jobs, which are old ++ new; `next_page` is replaced; contact and skills are kept. On failure the data is kept and the error shown. `loadingMore` ends false on every path. An answer arriving after the data was cleared is dropped |
| App.LoadMoreSettledAsWritten | frontend/src/App.jsx:87-91 | the handler as written fails exactly when a successful answer meets cleared data, and otherwise agrees with the corrected handler |
| App.StaleLoadMoreCrashes | frontend/src/App.jsx:72-97 | upload, load more, choose a new file while loading, then success: the handler as written crashes, while the corrected one only clears `loadingMore` |
| App.Step | frontend/src/App.jsx:18-97 | only choosing a file that passes the type and size checks changes the stored file, and then to that file; only choosing a file, an upload answer or a load-more answer changes the data |
| App.Run | frontend/src/App.jsx:18-97 | after any sequence of events, a stored file that differs from the starting one is acceptable and was chosen by one of the events |
| App.StepKeepsFileOk | frontend/src/App.jsx:18-37 | no event ever stores a file that failed the type or size check |
| App.RunKeepsFileOk | frontend/src/App.jsx:18-97 | along every sequence of events the stored file stays acceptable |
| App.UploadSendsAcceptableFile | frontend/src/App.jsx:39-55 | after any events from the initial state, an upload only posts a PDF or DOCX file of at most 5 MiB |
| Scenarios.EmailInSentence | backend/index.py:44-48 | the first address in a sentence is found without the surrounding spaces |
| Scenarios.EmailKeepsTrailingDot | backend/index.py:46 | a dot right after the domain is kept in the match, since `.` is a domain character |
| Scenarios.DashedNumberIsNotAPhone | backend/index.py:50-54 | `987-654-3210` has no phone shape, so no phone is found |
| Scenarios.ParenthesisedPhone | backend/index.py:50-54 | `(123) 456-7890` is found whole |

## Left out

- File reading: opening PDFs with PyMuPDF and DOCX files with python-docx (`backend/index.py:32, 40`) is left out. The page texts and paragraph texts are inputs. A reader failure is an `Err` carrying only a message.
- spaCy: loading the model and tokenizing are left out. The token texts are an input. Nothing is claimed about keywords that contain a space, which a word tokenizer would normally split.
- The browser and the network are left out: Selenium, the driver install, `time.sleep(5)`, page loading and the BeautifulSoup parse. `linksAt(url)` stands for the `href`s of the job-card links on the page, in page order. Two error cases are not modelled either: a card without `href`, and an exception that would skip `driver.quit()`.
- The unused imports (`requests`, `numpy`, `TfidfVectorizer`, `fuzz`) carry no logic and are left out.
- The tkinter window is left out: `display_results`, the window setup, `mainloop` and the file dialog. Only the extension rule of `browse_file` is kept.
- Regex character classes are ASCII only. Python 3's `\d`, `\w` and `\b` also accept non-ASCII digits and letters. `\s` is modelled as the ASCII characters `str.isspace` accepts.
- React rendering, the `scrollIntoView` effect and the `fetch`/`response.json()` calls are left out. Each request's outcome is an input (`Reply`): rejected, error status with an optional `error` field, or success with a body.
- App.JoinedSkillsSplitBack: the load-more URL is built without `encodeURIComponent` (`frontend/src/App.jsx:78`), so a skill such as `C++` reaches the server form-decoded as `C  `. The model stops at the joined string and does not follow URL encoding or decoding.
- App: the model is sequential. React batches state updates and runs them later, so the settle steps see the state at the time the answer arrives. The model does not represent that timing.
- Skills.ExtractSkills: the order of the returned list is left open, because Python does not specify a set's iteration order.

## Findings

| source | as written | input that shows it | evidently intended | confidence | as-written member | corrected member |
|---|---|---|---|---|---|---|
| frontend/src/App.jsx:87-91 | after a successful `/jobs` answer, `setData(prev => ({...prev, jobs: [...prev.jobs, ...result.jobs], ...}))` reads `prev.jobs` without checking `prev`. The file input stays enabled while more jobs load (only `loading` disables it), and choosing a valid file sets `data` to `null` | upload a resume with skills, click "Load More Jobs", pick another valid PDF before the answer arrives; the answer then succeeds and the updater throws on `null.jobs`, which takes the page down | a late answer for data that has since been cleared is ignored | not executed | App.LoadMoreSettledAsWritten, App.StaleLoadMoreCrashes | App.LoadMoreSettled |
