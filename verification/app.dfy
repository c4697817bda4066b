/**
  The React component's state and its three handlers as transitions. Each async
  handler is split at its `await`: a click step (guard, flags, the request sent)
  and a settle step that receives how the request ended.
 */
module App {
  import opened Wrappers
  import Strings

  const PdfMime: string := "application/pdf"
  const DocxMime: string := "application/vnd.openxmlformats-officedocument.wordprocessingml.document"

  /** 5 MiB; a file of exactly this size is accepted. */
  const MaxFileBytes: nat := 5 * 1024 * 1024

  const WrongTypeError: string := "Please upload a PDF or DOCX file"
  const TooLargeError: string := "File size exceeds 5MB limit"
  const NoFileError: string := "Please select a file first"
  const UploadFailedError: string := "Failed to process resume"
  const LoadMoreFailedError: string := "Failed to load more jobs"

  /** The browser's `File`: its MIME type and its size in bytes. */
  datatype File = File(name: string, mime: string, size: nat)

  predicate IsAllowedType(f: File) {
    f.mime == PdfMime || f.mime == DocxMime
  }

  /** A file `handleFileChange` keeps. */
  predicate Acceptable(f: File) {
    IsAllowedType(f) && f.size <= MaxFileBytes
  }

  datatype ContactInfo = ContactInfo(email: Option<string>, phone: Option<string>)

  datatype Job = Job(title: string, company: string, location: string, url: string)

  /** The upload answer kept in `data`; `skills` is `None` when the answer has no (or a null) `skills` field. */
  datatype Data = Data(contact: ContactInfo, skills: Option<seq<string>>, jobs: seq<Job>, nextPage: int)

  /** The `/jobs` answer. */
  datatype JobsPage = JobsPage(jobs: seq<Job>, nextPage: int)

  datatype State = State(file: Option<File>, loading: bool, loadingMore: bool, data: Option<Data>, error: Option<string>)

  const Initial: State := State(None, false, false, None, None)

  /** How `fetch` and `response.json()` ended, as the handler's `try` sees it. */
  datatype Reply<T> =
    | Thrown(message: string)            // the fetch or the JSON parse rejected
    | NotOk(errorField: Option<string>)  // an HTTP error status, with the body's `error` field
    | Answered(body: T)                  // `response.ok`

  /** `err.message` in the `catch`: the rejection's message, or `result.error || fallback`. */
  function FailureMessage<T>(reply: Reply<T>, fallback: string): (m: string)
    requires !reply.Answered?
    ensures reply.Thrown? ==> m == reply.message
    ensures reply.NotOk? && reply.errorField.Some? && reply.errorField.value != "" ==> m == reply.errorField.value
    ensures reply.NotOk? && (reply.errorField.None? || reply.errorField.value == "") ==> m == fallback
  {
    match reply
    case Thrown(message) => message
    case NotOk(e) => if e.Some? && e.value != "" then e.value else fallback
  }

  /** A request a click step sends. */
  datatype Request = PostResume(file: File) | GetJobs(skills: string, page: int)

  datatype Transition = Transition(next: State, sent: Option<Request>)

  /** `handleFileChange`: nothing selected changes nothing; the type check comes before the size check. */
  function FileChanged(s: State, selected: Option<File>): (t: State)
    ensures selected.None? ==> t == s
    ensures t.loading == s.loading && t.loadingMore == s.loadingMore
    ensures selected.Some? && !IsAllowedType(selected.value) ==>
      t.error == Some(WrongTypeError) && t.file == s.file && t.data == s.data
    ensures selected.Some? && IsAllowedType(selected.value) && selected.value.size > MaxFileBytes ==>
      t.error == Some(TooLargeError) && t.file == s.file && t.data == s.data
    ensures selected.Some? && Acceptable(selected.value) ==>
      t.file == selected && t.error.None? && t.data.None?
  {
    match selected
    case None => s
    case Some(f) =>
      if !IsAllowedType(f) then s.(error := Some(WrongTypeError))
      else if f.size > MaxFileBytes then s.(error := Some(TooLargeError))
      else s.(file := Some(f), error := None, data := None)
  }

  /** `handleUpload` up to its `await`. */
  function UploadClicked(s: State): (t: Transition)
    ensures s.file.None? ==> t.sent.None? && t.next == s.(error := Some(NoFileError))
    ensures s.file.Some? ==> t.sent == Some(PostResume(s.file.value)) && t.next.loading && t.next.error.None?
    ensures t.next.file == s.file && t.next.data == s.data && t.next.loadingMore == s.loadingMore
  {
    if s.file.None? then Transition(s.(error := Some(NoFileError)), None)
    else Transition(s.(loading := true, error := None), Some(PostResume(s.file.value)))
  }

  /** `handleUpload` after its `await`: keep the answer or show the error, and stop loading either way. */
  function UploadSettled(s: State, reply: Reply<Data>): (t: State)
    ensures !t.loading
    ensures t.file == s.file && t.loadingMore == s.loadingMore
    ensures reply.Answered? ==> t.data == Some(reply.body) && t.error == s.error
    ensures !reply.Answered? ==> t.data == s.data && t.error == Some(FailureMessage(reply, UploadFailedError))
  {
    match reply
    case Answered(body) => s.(data := Some(body), loading := false)
    case _ => s.(error := Some(FailureMessage(reply, UploadFailedError)), loading := false)
  }

  /** The guard of `loadMoreJobs`: data with a `skills` field, and no load already running. */
  predicate CanLoadMore(s: State) {
    s.data.Some? && s.data.value.skills.Some? && !s.loadingMore
  }

  /** `loadMoreJobs` up to its `await`: the query carries the skills joined by commas and the stored next page. */
  function LoadMoreClicked(s: State): (t: Transition)
    ensures !CanLoadMore(s) ==> t.next == s && t.sent.None?
    ensures CanLoadMore(s) ==> t.next == s.(loadingMore := true)
    ensures CanLoadMore(s) ==> t.sent.Some? && t.sent.value.GetJobs? && t.sent.value.page == s.data.value.nextPage
  {
    if !CanLoadMore(s) then Transition(s, None)
    else
      var d := s.data.value;
      Transition(s.(loadingMore := true), Some(GetJobs(Strings.Join(d.skills.value, ','), d.nextPage)))
  }

  /**
    The comma-joined skills of a load-more request split back into the skill
    list when none contains a comma. This is the string before it enters the
    URL: the page inserts it without percent-encoding, so a skill such as `C++`
    reaches the server form-decoded as `C  `, which this model does not follow.
   */
  lemma JoinedSkillsSplitBack(s: State)
    requires CanLoadMore(s)
    requires var skills := s.data.value.skills.value;
      |skills| >= 1 && forall k :: 0 <= k < |skills| ==> ',' !in skills[k]
    ensures Strings.Split(LoadMoreClicked(s).sent.value.skills, ',') == s.data.value.skills.value
  {
    Strings.SplitJoin(s.data.value.skills.value, ',');
  }

  /**
    `loadMoreJobs` after its `await`, as written. `setData(prev => ...)` reads
    `prev.jobs`; when `data` has been cleared since the click (a new file was
    chosen, which the page allows while more jobs are loading), that read throws
    during rendering: the result `None` stands for that crash.
   */
  function LoadMoreSettledAsWritten(s: State, reply: Reply<JobsPage>): (t: Option<State>)
    ensures t.None? <==> reply.Answered? && s.data.None?
    ensures t.Some? ==> t.value == LoadMoreSettled(s, reply)
  {
    match reply
    case Answered(page) =>
      if s.data.None? then None
      else
        var d := s.data.value;
        Some(s.(data := Some(d.(jobs := d.jobs + page.jobs, nextPage := page.nextPage)), loadingMore := false))
    case _ => Some(s.(error := Some(FailureMessage(reply, LoadMoreFailedError)), loadingMore := false))
  }

  /**
    `loadMoreJobs` after its `await`, with the crash removed: an answer that
    arrives after `data` was cleared is dropped. Otherwise new jobs are appended,
    the next page is replaced and the contact and skills stay as they were.
   */
  function LoadMoreSettled(s: State, reply: Reply<JobsPage>): (t: State)
    ensures !t.loadingMore
    ensures t.file == s.file && t.loading == s.loading
    ensures reply.Answered? && s.data.Some? ==>
      var old_ := s.data.value;
      && t.data.Some?
      && t.data.value.jobs == old_.jobs + reply.body.jobs
      && old_.jobs <= t.data.value.jobs
      && t.data.value.nextPage == reply.body.nextPage
      && t.data.value.contact == old_.contact
      && t.data.value.skills == old_.skills
      && t.error == s.error
    ensures reply.Answered? && s.data.None? ==> t.data.None? && t.error == s.error
    ensures !reply.Answered? ==> t.data == s.data && t.error == Some(FailureMessage(reply, LoadMoreFailedError))
  {
    match reply
    case Answered(page) =>
      if s.data.None? then s.(loadingMore := false)
      else
        var d := s.data.value;
        s.(data := Some(d.(jobs := d.jobs + page.jobs, nextPage := page.nextPage)), loadingMore := false)
    case _ => s.(error := Some(FailureMessage(reply, LoadMoreFailedError)), loadingMore := false)
  }

  /** What can happen to the page, one event at a time. */
  datatype Event =
    | ChooseFile(selected: Option<File>)
    | ClickUpload
    | UploadDone(upload: Reply<Data>)
    | ClickLoadMore
    | LoadMoreDone(more: Reply<JobsPage>)

  function Step(s: State, e: Event): (t: State)
    ensures t.file != s.file ==> e.ChooseFile? && e.selected.Some? && Acceptable(e.selected.value) && t.file == e.selected
    ensures t.data != s.data ==> e.ChooseFile? || e.UploadDone? || e.LoadMoreDone?
  {
    match e
    case ChooseFile(selected) => FileChanged(s, selected)
    case ClickUpload => UploadClicked(s).next
    case UploadDone(reply) => UploadSettled(s, reply)
    case ClickLoadMore => LoadMoreClicked(s).next
    case LoadMoreDone(reply) => LoadMoreSettled(s, reply)
  }

  function Run(s: State, events: seq<Event>): (r: State)
    ensures r.file != s.file ==>
      exists k :: 0 <= k < |events| && events[k].ChooseFile? && r.file.Some? && events[k].selected == r.file && Acceptable(r.file.value)
    decreases |events|
  {
    if |events| == 0 then s
    else
      var t := Step(s, events[0]);
      var r := Run(t, events[1..]);
      assert r.file != t.file ==> exists k :: 1 <= k < |events| && events[k].ChooseFile? && r.file.Some? && events[k].selected == r.file && Acceptable(r.file.value) by {
        if r.file != t.file {
          var k :| 0 <= k < |events[1..]| && events[1..][k].ChooseFile? && r.file.Some? && events[1..][k].selected == r.file && Acceptable(r.file.value);
          assert events[k + 1] == events[1..][k];
        }
      }
      r
  }

  /** The stored file, if any, passed the type and size checks. */
  predicate FileOk(s: State) {
    s.file.None? || Acceptable(s.file.value)
  }

  /** Every event keeps the stored file acceptable. */
  lemma StepKeepsFileOk(s: State, e: Event)
    requires FileOk(s)
    ensures FileOk(Step(s, e))
  {
  }

  /** From any state with an acceptable (or no) file, every run of events keeps it that way. */
  lemma {:induction false} RunKeepsFileOk(s: State, events: seq<Event>)
    requires FileOk(s)
    ensures FileOk(Run(s, events))
    decreases |events|
  {
    if |events| > 0 {
      StepKeepsFileOk(s, events[0]);
      RunKeepsFileOk(Step(s, events[0]), events[1..]);
    }
  }

  /** Whatever happened before, an upload click only ever posts a PDF or DOCX file of at most 5 MiB. */
  lemma UploadSendsAcceptableFile(events: seq<Event>)
    ensures var t := UploadClicked(Run(Initial, events));
      t.sent.Some? ==> Acceptable(t.sent.value.file)
  {
    RunKeepsFileOk(Initial, events);
  }

  /**
    A run that crashes the page as written: upload, click "Load More Jobs",
    choose another valid file while the jobs load, then the jobs arrive. The
    corrected handler only clears `loadingMore`.
   */
  lemma StaleLoadMoreCrashes(first: File, second: File, d: Data, page: JobsPage)
    requires Acceptable(first) && Acceptable(second) && d.skills.Some?
    ensures var s := Run(Initial, [ChooseFile(Some(first)), ClickUpload, UploadDone(Answered(d)),
                                   ClickLoadMore, ChooseFile(Some(second))]);
      && LoadMoreSettledAsWritten(s, Answered(page)).None?
      && LoadMoreSettled(s, Answered(page)) == s.(loadingMore := false)
  {
    var s1 := Step(Initial, ChooseFile(Some(first)));
    var s2 := Step(s1, ClickUpload);
    var s3 := Step(s2, UploadDone(Answered(d)));
    var s4 := Step(s3, ClickLoadMore);
    var s5 := Step(s4, ChooseFile(Some(second)));
    assert s5.data.None?;
    var e1, e2, e3, e4, e5 := ChooseFile(Some(first)), ClickUpload, UploadDone(Answered(d)), ClickLoadMore, ChooseFile(Some(second));
    assert [e5][1..] == [];
    assert Run(s4, [e5]) == s5;
    assert [e4, e5][1..] == [e5];
    assert Run(s3, [e4, e5]) == s5;
    assert [e3, e4, e5][1..] == [e4, e5];
    assert Run(s2, [e3, e4, e5]) == s5;
    assert [e2, e3, e4, e5][1..] == [e3, e4, e5];
    assert Run(s1, [e2, e3, e4, e5]) == s5;
    assert [e1, e2, e3, e4, e5][1..] == [e2, e3, e4, e5];
    assert Run(Initial, [e1, e2, e3, e4, e5]) == s5;
  }
}
