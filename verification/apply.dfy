/**
 The application page (ApplyPage.js): locating the job named by the route's
 index, editing the form's repeated sections, and submitting an application
 with the duplicate check that keeps `(job.id, candidate.email)` unique.
 */
module ApplyPage {
  import opened Wrappers
  import opened Seqs
  import opened Text
  import opened Domain

  // ------------------------------------------------------------ loading

  /** `parseInt(jobId, 10)` as a position in `jobs`: `None` when it is `NaN`
      or names no stored job. */
  function JobIndex(jobs: seq<Job>, param: string): (r: Option<nat>)
    ensures r.Some? <==> ParseInt(param, Decimal).Some? && 0 <= ParseInt(param, Decimal).value < |jobs|
    ensures r.Some? ==> r.value as int == ParseInt(param, Decimal).value
  {
    match ParseInt(param, Decimal)
    case Some(i) => if 0 <= i < |jobs| then Some(i as nat) else None
    case None => None
  }

  /** The route `/apply/${i}` names stored job `i`. */
  lemma JobIndexOfShownIndex(jobs: seq<Job>, i: nat)
    requires i < |jobs|
    ensures JobIndex(jobs, ShowInt(i)) == Some(i)
  {
    ParseShowRoundTrip(i, Decimal);
  }

  /** A job with a missing `applicants` key given the empty list; nothing else changes. */
  function WithApplicantList(job: Job): (r: Job)
    ensures SameExceptApplicants(r, job)
    ensures r.applicants.Some?
    ensures job.applicants.Some? ==> r == job
    ensures job.applicants.None? ==> r.applicants == Some([])
  {
    job.(applicants := Some(job.applicants.GetOr([])))
  }

  /** The page's state after its mount effect: the store as written back, and the job shown. */
  datatype Loaded = Loaded(store: Store, job: Option<Job>)

  /** The mount effect: when the index names a stored job, that job (with an
      applicant list added and written back if it had none) is shown;
      otherwise the page shows "Job not found" and storage is untouched. */
  function LoadJob(s: Store, param: string): (r: Loaded)
    ensures r.store.applications == s.applications && r.store.profile == s.profile
    ensures |r.store.jobs| == |s.jobs|
    ensures JobIndex(s.jobs, param).None? ==> r == Loaded(s, None)
    ensures JobIndex(s.jobs, param).Some? ==>
              var i := JobIndex(s.jobs, param).value;
              && (forall k :: 0 <= k < |s.jobs| && k != i ==> r.store.jobs[k] == s.jobs[k])
              && SameExceptApplicants(r.store.jobs[i], s.jobs[i])
              && r.job == Some(r.store.jobs[i])
              && r.job.value.applicants == Some(s.jobs[i].applicants.GetOr([]))
  {
    match JobIndex(s.jobs, param)
    case None => Loaded(s, None)
    case Some(i) =>
      var job := WithApplicantList(s.jobs[i]);
      Loaded(s.(jobs := s.jobs[i := job]), Some(job))
  }

  /** Storage changes on load only when the shown job had no applicant list. */
  lemma LoadJobWritesOnlyMissingList(s: Store, param: string)
    requires JobIndex(s.jobs, param).Some?
    requires s.jobs[JobIndex(s.jobs, param).value].applicants.Some?
    ensures LoadJob(s, param).store == s
  {
    var i := JobIndex(s.jobs, param).value;
    assert s.jobs[i := s.jobs[i]] == s.jobs;
  }

  /** Loading the page again over the written-back store shows the same job and writes nothing. */
  lemma LoadJobIdempotent(s: Store, param: string)
    ensures var once := LoadJob(s, param);
            LoadJob(once.store, param) == once
  {
    var once := LoadJob(s, param);
    if JobIndex(s.jobs, param).Some? {
      var i := JobIndex(s.jobs, param).value;
      assert JobIndex(once.store.jobs, param) == Some(i);
      LoadJobWritesOnlyMissingList(once.store, param);
    }
  }

  // ------------------------------------------------------ form sections

  /** Every repeated section is present: true of the initial form and kept by every edit. */
  ghost predicate HasAllSections(form: Candidate) {
    forall sec: Section :: sec in form.details.sections
  }

  /** The record that each section's "add" button appends, and that the
      initial form starts each section with. */
  function EmptyItem(sec: Section): (e: Entry)
    ensures sec == Extracurriculars || sec == Skills <==> e == Plain("")
    ensures e.Record? ==> forall f :: f in e.fields ==> e.fields[f] == ""
  {
    match sec
    case Education => Record(map["degree" := "", "institution" := "", "year" := ""])
    case Experience => Record(map["role" := "", "company" := "", "duration" := ""])
    case Extracurriculars => Plain("")
    case Projects => Record(map["title" := "", "description" := ""])
    case Skills => Plain("")
  }

  /** The form's initial state: empty identity fields and one empty item per section. */
  const BlankForm: Candidate :=
    Candidate("", "", "", "", Details("", map sec: Section | true :: [EmptyItem(sec)]))

  lemma BlankFormShape()
    ensures HasAllSections(BlankForm)
    ensures forall sec: Section :: BlankForm.details.sections[sec] == [EmptyItem(sec)]
    ensures !IsComplete(BlankForm)
  {
    forall sec: Section ensures sec in BlankForm.details.sections {
      assert sec == Education || sec == Experience || sec == Extracurriculars
          || sec == Projects || sec == Skills;
    }
  }

  /** `b` is `a` with only the list of section `sec` replaced. */
  ghost predicate OnlySectionChanged(a: Candidate, b: Candidate, sec: Section) {
    && sec in b.details.sections
    && b == a.(details := a.details.(sections := a.details.sections[sec := b.details.sections[sec]]))
  }

  /** `addField`: `item` is appended to section `sec`. */
  function AddField(form: Candidate, sec: Section, item: Entry): (r: Candidate)
    requires sec in form.details.sections
    ensures OnlySectionChanged(form, r, sec)
    ensures r.details.sections[sec] == form.details.sections[sec] + [item]
  {
    var items := form.details.sections[sec];
    form.(details := form.details.(sections := form.details.sections[sec := items + [item]]))
  }

  /** `removeField`: `splice(index, 1)` on section `sec`; an index past the end removes nothing. */
  function RemoveField(form: Candidate, sec: Section, index: nat): (r: Candidate)
    requires sec in form.details.sections
    ensures OnlySectionChanged(form, r, sec)
    ensures var items := form.details.sections[sec];
            && (index < |items| ==> |r.details.sections[sec]| == |items| - 1)
            && (index < |items| ==> forall k :: 0 <= k < index ==> r.details.sections[sec][k] == items[k])
            && (index < |items| ==> forall k :: index <= k < |items| - 1 ==>
                  r.details.sections[sec][k] == items[k + 1])
            && (|items| <= index ==> r == form)
  {
    var items := form.details.sections[sec];
    var sections := form.details.sections[sec := RemoveAt(items, index)];
    assert |items| <= index ==> sections == form.details.sections;
    form.(details := form.details.(sections := sections))
  }

  /** `handleArrayChange` on one item: a plain item becomes `value`; a record
      item gets `value` in `field`, its other fields unchanged. */
  function SetEntry(e: Entry, field: string, value: string): (r: Entry)
    ensures e.Plain? ==> r == Plain(value)
    ensures e.Record? ==> r.Record? && field in r.fields && r.fields[field] == value
    ensures e.Record? ==> forall f :: f in e.fields && f != field ==> f in r.fields && r.fields[f] == e.fields[f]
    ensures e.Record? ==> r.fields.Keys == e.fields.Keys + {field}
  {
    match e
    case Plain(_) => Plain(value)
    case Record(fields) => Record(fields[field := value])
  }

  /** `handleArrayChange`: item `index` of section `sec` is updated by `SetEntry`. */
  function ChangeEntry(form: Candidate, sec: Section, index: nat, field: string, value: string): (r: Candidate)
    requires sec in form.details.sections && index < |form.details.sections[sec]|
    ensures OnlySectionChanged(form, r, sec)
    ensures var items := form.details.sections[sec];
            && |r.details.sections[sec]| == |items|
            && r.details.sections[sec][index] == SetEntry(items[index], field, value)
            && forall k :: 0 <= k < |items| && k != index ==> r.details.sections[sec][k] == items[k]
  {
    var items := form.details.sections[sec];
    form.(details := form.details.(sections := form.details.sections[sec := items[index := SetEntry(items[index], field, value)]]))
  }

  /** Removing the item just added restores the form. */
  lemma RemoveUndoesAdd(form: Candidate, sec: Section, item: Entry)
    requires sec in form.details.sections
    ensures RemoveField(AddField(form, sec, item), sec, |form.details.sections[sec]|) == form
  {
    var items := form.details.sections[sec];
    var added := AddField(form, sec, item);
    assert RemoveAt(items + [item], |items|) == items;
    assert form.details.sections[sec := items] == form.details.sections;
  }

  /** Two successive edits of the same item and field: the last one wins. */
  lemma ChangeEntryLastWins(form: Candidate, sec: Section, index: nat, field: string, v1: string, v2: string)
    requires sec in form.details.sections && index < |form.details.sections[sec]|
    ensures var once := ChangeEntry(form, sec, index, field, v1);
            ChangeEntry(once, sec, index, field, v2) == ChangeEntry(form, sec, index, field, v2)
  {
    var items := form.details.sections[sec];
    var e := items[index];
    assert SetEntry(SetEntry(e, field, v1), field, v2) == SetEntry(e, field, v2) by {
      if e.Record? {
        assert e.fields[field := v1][field := v2] == e.fields[field := v2];
      }
    }
    var once := ChangeEntry(form, sec, index, field, v1);
    var items1 := items[index := SetEntry(e, field, v1)];
    assert once.details.sections == form.details.sections[sec := items1];
    assert items1[index := SetEntry(items1[index], field, v2)] == items[index := SetEntry(e, field, v2)];
    assert form.details.sections[sec := items1][sec := items[index := SetEntry(e, field, v2)]]
        == form.details.sections[sec := items[index := SetEntry(e, field, v2)]];
  }

  /** Writing back the value an item already holds changes nothing. */
  lemma ChangeEntrySameValueIsNoop(form: Candidate, sec: Section, index: nat, field: string)
    requires sec in form.details.sections && index < |form.details.sections[sec]|
    requires var e := form.details.sections[sec][index];
             e.Record? && field in e.fields
    ensures var e := form.details.sections[sec][index];
            ChangeEntry(form, sec, index, field, e.fields[field]) == form
  {
    var items := form.details.sections[sec];
    var e := items[index];
    assert e.fields[field := e.fields[field]] == e.fields;
    assert items[index := e] == items;
    assert form.details.sections[sec := items] == form.details.sections;
  }

  /** Edits of the repeated sections keep every section present. */
  lemma SectionEditsKeepAllSections(form: Candidate, sec: Section, r: Candidate)
    requires HasAllSections(form) && OnlySectionChanged(form, r, sec)
    ensures HasAllSections(r)
    ensures r.name == form.name && r.email == form.email && r.phone == form.phone && r.resume == form.resume
  {
  }

  // ------------------------------------------------------- scalar fields

  /** The scalar inputs of the form; `Resume` is filled from the uploaded
      file's data URL. */
  datatype ScalarField = Name | Email | Phone | Resume | CareerObjective

  function Scalar(form: Candidate, f: ScalarField): string {
    match f
    case Name => form.name
    case Email => form.email
    case Phone => form.phone
    case Resume => form.resume
    case CareerObjective => form.details.careerObjective
  }

  /** `handleChange` (and the upload's `onloadend` for `Resume`): one scalar field set to `value`. */
  function ChangeScalar(form: Candidate, f: ScalarField, value: string): (r: Candidate)
    ensures Scalar(r, f) == value
    ensures forall g :: g != f ==> Scalar(r, g) == Scalar(form, g)
    ensures r.details.sections == form.details.sections
  {
    match f
    case Name => form.(name := value)
    case Email => form.(email := value)
    case Phone => form.(phone := value)
    case Resume => form.(resume := value)
    case CareerObjective => form.(details := form.details.(careerObjective := value))
  }

  /** Setting a field to the value it holds changes nothing. */
  lemma ChangeScalarSameValueIsNoop(form: Candidate, f: ScalarField)
    ensures ChangeScalar(form, f, Scalar(form, f)) == form
  {
  }

  // ----------------------------------------------------------- submission

  /** Whether some stored application is already for job `id` under `email`
      (the `some` in `handleSubmit`): exactly when some application carries
      the key `(id, email)`. */
  function HasApplied(apps: seq<Application>, id: int, email: string): (applied: bool)
    ensures applied <==> exists a :: a in apps && Key(a) == (id, email)
  {
    var found := exists i :: 0 <= i < |apps| && apps[i].job.id == id && apps[i].candidate.email == email;
    assert found ==> exists a :: a in apps && Key(a) == (id, email) by {
      if found {
        var i :| 0 <= i < |apps| && apps[i].job.id == id && apps[i].candidate.email == email;
        assert apps[i] in apps && Key(apps[i]) == (id, email);
      }
    }
    assert (exists a :: a in apps && Key(a) == (id, email)) ==> found by {
      if exists a :: a in apps && Key(a) == (id, email) {
        var a :| a in apps && Key(a) == (id, email);
        var i :| 0 <= i < |apps| && apps[i] == a;
        assert apps[i].job.id == id && apps[i].candidate.email == email;
      }
    }
    found
  }

  /** What a submission ended in: the alert the page shows. */
  datatype Outcome = JobNotFound | AlreadyApplied | Submitted

  datatype Submission = Submission(store: Store, outcome: Outcome)

  /** The application `handleSubmit` stores: the job's id, title and company,
      the whole form, and status "Pending". */
  function NewApplication(job: Job, form: Candidate, appliedAt: string): (a: Application)
    ensures Key(a) == (job.id, form.email)
    ensures a.candidate == form && a.status == Pending && a.appliedAt == appliedAt
    ensures a.job.title == job.title && a.job.company == job.company
  {
    Application(JobRef(job.id, job.title, job.company), form, Pending, appliedAt)
  }

  /** `handleSubmit`: with no job shown nothing happens; an existing
      application for the same job id and email is refused; otherwise the new
      application is appended.  `appliedAt` is the submission time as text. */
  function Submit(s: Store, job: Option<Job>, form: Candidate, appliedAt: string): (r: Submission)
    ensures r.outcome == JobNotFound <==> job.None?
    ensures r.outcome == AlreadyApplied <==> job.Some? && HasApplied(s.applications, job.value.id, form.email)
    ensures r.outcome != Submitted ==> r.store == s
    ensures r.outcome == Submitted ==>
              && r.store.jobs == s.jobs && r.store.profile == s.profile
              && |r.store.applications| == |s.applications| + 1
              && r.store.applications[..|s.applications|] == s.applications
              && r.store.applications[|s.applications|] == NewApplication(job.value, form, appliedAt)
  {
    match job
    case None => Submission(s, JobNotFound)
    case Some(j) =>
      if HasApplied(s.applications, j.id, form.email) then Submission(s, AlreadyApplied)
      else
        var apps := s.applications + [NewApplication(j, form, appliedAt)];
        assert apps[..|s.applications|] == s.applications;
        Submission(s.(applications := apps), Submitted)
  }

  /** A submission never creates a second application with the same key. */
  lemma SubmitKeepsKeysUnique(s: Store, job: Option<Job>, form: Candidate, appliedAt: string)
    requires UniqueKeys(s.applications)
    ensures UniqueKeys(Submit(s, job, form, appliedAt).store.applications)
  {
    var r := Submit(s, job, form, appliedAt);
    if r.outcome == Submitted {
      var apps := r.store.applications;
      var n := |s.applications|;
      forall i, j | 0 <= i < j < |apps| ensures Key(apps[i]) != Key(apps[j]) {
        if j == n {
          assert apps[i] == s.applications[i];
          assert !(s.applications[i].job.id == job.value.id && s.applications[i].candidate.email == form.email);
        } else {
          assert apps[i] == s.applications[i] && apps[j] == s.applications[j];
        }
      }
    }
  }

  /** After a successful submission, the same form for the same job is refused
      and storage stays as the first submission left it. */
  lemma SubmitTwiceRejected(s: Store, job: Job, form: Candidate, at1: string, at2: string)
    requires Submit(s, Some(job), form, at1).outcome == Submitted
    ensures var first := Submit(s, Some(job), form, at1).store;
            Submit(first, Some(job), form, at2) == Submission(first, AlreadyApplied)
  {
    var first := Submit(s, Some(job), form, at1).store;
    assert first.applications[|s.applications|] == NewApplication(job, form, at1);
  }

  /** The shown job's identity is what a submission records: a job loaded from
      the route and then applied to yields an application keyed by that stored job's id. */
  lemma SubmitAfterLoad(s: Store, param: string, form: Candidate, appliedAt: string)
    requires JobIndex(s.jobs, param).Some?
    requires !HasApplied(s.applications, s.jobs[JobIndex(s.jobs, param).value].id, form.email)
    ensures var loaded := LoadJob(s, param);
            var r := Submit(loaded.store, loaded.job, form, appliedAt);
            && r.outcome == Submitted
            && Key(r.store.applications[|s.applications|]) == (s.jobs[JobIndex(s.jobs, param).value].id, form.email)
  {
    var i := JobIndex(s.jobs, param).value;
    var loaded := LoadJob(s, param);
    assert loaded.job.value.id == s.jobs[i].id by {
      assert loaded.job.value.(applicants := None).id == s.jobs[i].(applicants := None).id;
    }
  }
}
