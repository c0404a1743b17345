/**
 The employer dashboard's data logic (EmployerDashboard.js): job-type
 normalisation, posting, editing and deleting jobs by position, the load-time
 pass that rebuilds every job's `applicants` cache from the applications, and
 the status update that writes into both the cache and the applications.
 */
module EmployerDashboard {
  import opened Wrappers
  import opened Seqs
  import opened Text
  import opened Domain

  // ------------------------------------------------------------ job types

  /** The four job types the dashboard writes. */
  const CanonicalTypes: set<string> := {"full-time", "part-time", "internship", "remote"}

  predicate MentionsKeyword(t: string) {
    Contains(t, "full") || Contains(t, "part") || Contains(t, "intern") || Contains(t, "remote")
  }

  /** `normalizeJobType`: empty stays empty; otherwise trim and lower-case, then
      the first keyword found, in the fixed order full, part, intern, remote,
      picks the canonical type; a type with no keyword is kept as it is. */
  function NormalizeType(raw: string): (r: string)
    ensures raw == "" ==> r == ""
    ensures IsLowerCase(r) && IsTrimmed(r)
    ensures r in CanonicalTypes || !MentionsKeyword(r)
  {
    if raw == "" then ""
    else
      var t := Lower(Trim(raw));
      LowerKeepsTrimmed(Trim(raw));
      CanonicalTypesAreNormal();
      if Contains(t, "full") then "full-time"
      else if Contains(t, "part") then "part-time"
      else if Contains(t, "intern") then "internship"
      else if Contains(t, "remote") then "remote"
      else t
  }

  lemma LowerKeepsTrimmed(s: string)
    requires IsTrimmed(s)
    ensures IsTrimmed(Lower(s)) && IsLowerCase(Lower(s))
  {
  }

  lemma CanonicalTypesAreNormal()
    ensures forall t :: t in CanonicalTypes ==> IsTrimmed(t) && IsLowerCase(t)
  {
  }

  /** A keyword whose first letter does not occur early enough in `s` does not occur in `s`. */
  lemma AbsentFirstLetter(s: string, sub: string)
    requires sub != []
    requires forall i :: 0 <= i <= |s| - |sub| ==> s[i] != sub[0]
    ensures !Contains(s, sub)
  {
    forall i: nat | i + |sub| <= |s|
      ensures !OccursAt(s, sub, i)
    {
      assert s[i..i + |sub|][0] == s[i];
    }
  }

  /** A non-empty, trimmed, lower-case type: what `trim().toLowerCase()` produces. */
  ghost predicate IsNormalForm(t: string) {
    t != [] && IsTrimmed(t) && IsLowerCase(t)
  }

  /** Normalisation only looks at the trimmed, lower-cased text. */
  lemma NormalizeViaNormalForm(raw: string)
    requires raw != ""
    ensures NormalizeType(raw) == NormalizeType(Lower(Trim(raw)))
  {
    var t := Lower(Trim(raw));
    LowerKeepsTrimmed(Trim(raw));
    if t != [] {
      TrimOfTrimmed(t);
      LowerOfLowerCase(t);
      assert Lower(Trim(t)) == t;
    } else {
      assert !Contains(t, "full") && !Contains(t, "part") && !Contains(t, "intern") && !Contains(t, "remote");
    }
  }

  // The first-match order, one keyword at a time.

  lemma FullSelected(t: string)
    requires IsNormalForm(t) && Contains(t, "full")
    ensures NormalizeType(t) == "full-time"
  {
    TrimOfTrimmed(t);
    LowerOfLowerCase(t);
  }

  lemma PartSelected(t: string)
    requires IsNormalForm(t) && !Contains(t, "full") && Contains(t, "part")
    ensures NormalizeType(t) == "part-time"
  {
    TrimOfTrimmed(t);
    LowerOfLowerCase(t);
  }

  lemma InternSelected(t: string)
    requires IsNormalForm(t) && !Contains(t, "full") && !Contains(t, "part") && Contains(t, "intern")
    ensures NormalizeType(t) == "internship"
  {
    TrimOfTrimmed(t);
    LowerOfLowerCase(t);
  }

  lemma RemoteSelected(t: string)
    requires IsNormalForm(t) && !Contains(t, "full") && !Contains(t, "part") && !Contains(t, "intern")
    requires Contains(t, "remote")
    ensures NormalizeType(t) == "remote"
  {
    TrimOfTrimmed(t);
    LowerOfLowerCase(t);
  }

  lemma NoKeywordKept(t: string)
    requires IsNormalForm(t) && !MentionsKeyword(t)
    ensures NormalizeType(t) == t
  {
    TrimOfTrimmed(t);
    LowerOfLowerCase(t);
  }

  lemma FullTimeIsFixed()
    ensures NormalizeType("full-time") == "full-time"
  {
    CanonicalTypesAreNormal();
    assert OccursAt("full-time", "full", 0);
    FullSelected("full-time");
  }

  lemma PartTimeFacts()
    ensures !Contains("part-time", "full") && Contains("part-time", "part")
  {
    AbsentFirstLetter("part-time", "full");
    assert OccursAt("part-time", "part", 0);
  }

  lemma PartTimeIsFixed()
    ensures NormalizeType("part-time") == "part-time"
  {
    CanonicalTypesAreNormal();
    PartTimeFacts();
    PartSelected("part-time");
  }

  lemma InternshipLacksFull()
    ensures !Contains("internship", "full")
  {
    AbsentFirstLetter("internship", "full");
  }

  lemma InternshipLacksPart()
    ensures !Contains("internship", "part")
  {
    AbsentFirstLetter("internship", "part");
  }

  lemma InternshipFacts()
    ensures !Contains("internship", "full") && !Contains("internship", "part")
    ensures Contains("internship", "intern")
  {
    InternshipLacksFull();
    InternshipLacksPart();
    assert OccursAt("internship", "intern", 0);
  }

  lemma InternshipIsFixed()
    ensures NormalizeType("internship") == "internship"
  {
    CanonicalTypesAreNormal();
    InternshipFacts();
    InternSelected("internship");
  }

  lemma RemoteFacts()
    ensures !Contains("remote", "full") && !Contains("remote", "part") && !Contains("remote", "intern")
    ensures Contains("remote", "remote")
  {
    AbsentFirstLetter("remote", "full");
    AbsentFirstLetter("remote", "part");
    AbsentFirstLetter("remote", "intern");
    assert OccursAt("remote", "remote", 0);
  }

  lemma RemoteIsFixed()
    ensures NormalizeType("remote") == "remote"
  {
    CanonicalTypesAreNormal();
    RemoteFacts();
    RemoteSelected("remote");
  }

  lemma CanonicalTypesAreFixed()
    ensures NormalizeType("full-time") == "full-time" && NormalizeType("part-time") == "part-time"
    ensures NormalizeType("internship") == "internship" && NormalizeType("remote") == "remote"
  {
    FullTimeIsFixed();
    PartTimeIsFixed();
    InternshipIsFixed();
    RemoteIsFixed();
  }

  /** Normalising a normalised type changes nothing. */
  lemma NormalizeTypeIdempotent(raw: string)
    ensures NormalizeType(NormalizeType(raw)) == NormalizeType(raw)
  {
    var r := NormalizeType(raw);
    if r == "full-time" {
      FullTimeIsFixed();
    } else if r == "part-time" {
      PartTimeIsFixed();
    } else if r == "internship" {
      InternshipIsFixed();
    } else if r == "remote" {
      RemoteIsFixed();
    } else if r != "" {
      NoKeywordKept(r);
    }
  }

  lemma NormalizeVia(raw: string, t: string)
    requires raw != "" && Lower(Trim(raw)) == t
    ensures NormalizeType(raw) == NormalizeType(t)
  {
    NormalizeViaNormalForm(raw);
  }

  lemma FullTimeTrimmed()
    ensures TrimStart("Full Time") == "Full Time" && TrimEnd("Full Time") == "Full Time"
  {
  }

  lemma FullTimeLowered()
    ensures Lower("Full Time") == "full time"
  {
  }

  lemma FullTimeFacts()
    ensures IsNormalForm("full time") && Contains("full time", "full")
  {
    assert OccursAt("full time", "full", 0);
  }

  lemma FullTimeExample()
    ensures NormalizeType("Full Time") == "full-time"
  {
    FullTimeTrimmed();
    FullTimeLowered();
    FullTimeFacts();
    NormalizeVia("Full Time", "full time");
    FullSelected("full time");
  }

  lemma UpperCaseExample()
    ensures NormalizeType("REMOTE") == "remote"
  {
    assert TrimStart("REMOTE") == "REMOTE" && TrimEnd("REMOTE") == "REMOTE";
    assert Lower("REMOTE") == "remote";
    NormalizeVia("REMOTE", "remote");
    RemoteIsFixed();
  }

  lemma PriorityTrimmedStart()
    ensures TrimStart(" Remote part-time ") == "Remote part-time "
  {
    var raw := " Remote part-time ";
    assert raw[1..] == "Remote part-time ";
    assert TrimStart(raw[1..]) == raw[1..];
  }

  lemma PriorityTrimmedEnd()
    ensures TrimEnd("Remote part-time ") == "Remote part-time"
  {
    var s := "Remote part-time ";
    assert s[..|s| - 1] == "Remote part-time";
    assert TrimEnd(s[..|s| - 1]) == s[..|s| - 1];
  }

  lemma PriorityTrimmed()
    ensures Trim(" Remote part-time ") == "Remote part-time"
  {
    PriorityTrimmedStart();
    PriorityTrimmedEnd();
  }

  lemma PriorityLowered()
    ensures Lower("Remote part-time") == "remote part-time"
  {
  }

  lemma PriorityLacksFull()
    ensures !Contains("remote part-time", "full")
  {
    AbsentFirstLetter("remote part-time", "full");
  }

  lemma PriorityNormal()
    ensures IsNormalForm("remote part-time")
  {
  }

  lemma PriorityHasPart()
    ensures Contains("remote part-time", "part")
  {
    assert OccursAt("remote part-time", "part", 7);
  }

  lemma PriorityFacts()
    ensures IsNormalForm("remote part-time")
    ensures !Contains("remote part-time", "full") && Contains("remote part-time", "part")
  {
    PriorityNormal();
    PriorityLacksFull();
    PriorityHasPart();
  }

  /** With two keywords present, the earlier one in the fixed order wins. */
  lemma PriorityExample()
    ensures NormalizeType(" Remote part-time ") == "part-time"
  {
    PriorityTrimmed();
    PriorityLowered();
    PriorityFacts();
    NormalizeVia(" Remote part-time ", "remote part-time");
    PartSelected("remote part-time");
  }

  // --------------------------------------------------- applicant sync

  /** An application the sync pass lists under job `id`: its candidate has a
      name, email, phone and resume, and it is for that job. */
  predicate Belongs(a: Application, id: int) {
    IsComplete(a.candidate) && a.job.id == id
  }

  function HasCompleteCandidate(): Application -> bool {
    (a: Application) => IsComplete(a.candidate)
  }

  function IsForJob(id: int): Application -> bool {
    (a: Application) => a.job.id == id
  }

  function BelongsTo(id: int): Application -> bool {
    (a: Application) => Belongs(a, id)
  }

  /** `{...app.candidate, status: app.status || "Pending"}`. */
  function ToApplicant(a: Application): (r: Applicant)
    ensures r.candidate == a.candidate
    ensures r.status != ""
    ensures a.status == "" ==> r.status == Pending
    ensures a.status != "" ==> r.status == a.status
  {
    Applicant(a.candidate, if a.status == "" then Pending else a.status)
  }

  /** The applicants the sync pass computes for job `id`: the complete
      applications, then those for this job, each turned into an applicant. */
  function ApplicantsFor(apps: seq<Application>, id: int): (r: seq<Applicant>)
    ensures |r| <= |apps|
    ensures forall k :: 0 <= k < |r| ==> IsComplete(r[k].candidate) && r[k].status != ""
  {
    var complete := Filter(HasCompleteCandidate(), apps);
    var mine := Filter(IsForJob(id), complete);
    assert forall x :: x in mine ==> x in complete;
    assert forall x :: x in complete ==> IsComplete(x.candidate);
    seq(|mine|, k requires 0 <= k < |mine| => ToApplicant(mine[k]))
  }

  /** Positions of the applications that belong to job `id`. */
  function ApplicantPositions(apps: seq<Application>, id: int): seq<nat> {
    Positions(BelongsTo(id), apps)
  }

  /** A job's applicants are exactly the applications that belong to it, in
      application order, converted one by one. */
  lemma ApplicantsForExact(apps: seq<Application>, id: int)
    ensures var r := ApplicantsFor(apps, id);
            var idx := ApplicantPositions(apps, id);
            && |r| == |idx|
            && StrictlyIncreasing(idx)
            && (forall k :: 0 <= k < |idx| ==> idx[k] < |apps| && r[k] == ToApplicant(apps[idx[k]]))
            && (forall i :: 0 <= i < |apps| ==> (Belongs(apps[i], id) <==> i in idx))
  {
    FilterFuse(HasCompleteCandidate(), IsForJob(id), BelongsTo(id), apps);
    FilterAtPositions(BelongsTo(id), apps);
  }

  /** Invariant: every job's cache is what the sync pass would compute. */
  ghost predicate Synced(jobs: seq<Job>, apps: seq<Application>) {
    forall i :: 0 <= i < |jobs| ==> jobs[i].applicants == Some(ApplicantsFor(apps, jobs[i].id))
  }

  /** The load-time pass: every job's `applicants` is overwritten with the
      list recomputed from the applications. */
  function Sync(jobs: seq<Job>, apps: seq<Application>): (r: seq<Job>)
    ensures |r| == |jobs|
    ensures forall i :: 0 <= i < |r| ==> SameExceptApplicants(r[i], jobs[i])
    ensures Synced(r, apps)
  {
    seq(|jobs|, i requires 0 <= i < |jobs| => jobs[i].(applicants := Some(ApplicantsFor(apps, jobs[i].id))))
  }

  /** The dashboard's mount effect: sync, then write `jobs` back. */
  function SyncOnLoad(s: Store): (r: Store)
    ensures r.applications == s.applications && r.profile == s.profile
    ensures |r.jobs| == |s.jobs|
    ensures forall i :: 0 <= i < |r.jobs| ==> SameExceptApplicants(r.jobs[i], s.jobs[i])
    ensures Synced(r.jobs, r.applications)
  {
    s.(jobs := Sync(s.jobs, s.applications))
  }

  /** The previous cache contents play no part in the result. */
  lemma SyncIgnoresCache(jobs1: seq<Job>, jobs2: seq<Job>, apps: seq<Application>)
    requires |jobs1| == |jobs2|
    requires forall i :: 0 <= i < |jobs1| ==> SameExceptApplicants(jobs1[i], jobs2[i])
    ensures Sync(jobs1, apps) == Sync(jobs2, apps)
  {
    var r1, r2 := Sync(jobs1, apps), Sync(jobs2, apps);
    forall i | 0 <= i < |r1| ensures r1[i] == r2[i] {
      assert jobs1[i].(applicants := None).id == jobs2[i].(applicants := None).id;
      assert r1[i].(applicants := None) == r2[i].(applicants := None);
    }
  }

  /** Running the pass twice gives the same jobs as running it once. */
  lemma SyncIdempotent(jobs: seq<Job>, apps: seq<Application>)
    ensures Sync(Sync(jobs, apps), apps) == Sync(jobs, apps)
  {
    var once := Sync(jobs, apps);
    forall i | 0 <= i < |once| ensures SameExceptApplicants(once[i], jobs[i]) {
    }
    SyncIgnoresCache(once, jobs, apps);
  }

  /** Jobs are synced exactly when the pass would leave them unchanged. */
  lemma SyncedIffFixpoint(jobs: seq<Job>, apps: seq<Application>)
    ensures Synced(jobs, apps) <==> Sync(jobs, apps) == jobs
  {
    if Synced(jobs, apps) {
      var r := Sync(jobs, apps);
      forall i | 0 <= i < |jobs| ensures r[i] == jobs[i] {
        assert r[i].(applicants := None) == jobs[i].(applicants := None);
      }
    }
  }

  // ------------------------------------------------- post, edit, delete

  /** `job` is what posting `form` under `id` stores: the form's fields, with the
      type normalised and an absent applicant list replaced by the empty one. */
  ghost predicate PostedFrom(job: Job, form: Job, id: int) {
    && job.id == id
    && job.jobType == NormalizeType(form.jobType)
    && job.applicants == Some(form.applicants.GetOr([]))
    && job.(id := form.id, jobType := form.jobType, applicants := form.applicants) == form
  }

  /** The job `handlePostJob` stores for `form` under `id`. */
  function Posted(form: Job, id: int): Job {
    form.(id := id, jobType := NormalizeType(form.jobType), applicants := Some(form.applicants.GetOr([])))
  }

  /** `handlePostJob`: with no edit index the job is appended under `id = now`;
      with an edit index naming a stored job it replaces that position and
      keeps that job's id.  An edit index past the end (left behind when the
      job being edited was the last one and was then deleted) makes
      `jobs[editingIndex].id` throw before anything is written. */
  function PostJob(s: Store, form: Job, editing: Option<nat>, now: int): (r: Store)
    ensures r.applications == s.applications && r.profile == s.profile
    ensures editing.None? ==>
              && |r.jobs| == |s.jobs| + 1
              && r.jobs[..|s.jobs|] == s.jobs
              && PostedFrom(r.jobs[|s.jobs|], form, now)
    ensures editing.Some? && editing.value < |s.jobs| ==>
              && |r.jobs| == |s.jobs|
              && (forall i :: 0 <= i < |s.jobs| && i != editing.value ==> r.jobs[i] == s.jobs[i])
              && PostedFrom(r.jobs[editing.value], form, s.jobs[editing.value].id)
    ensures editing.Some? && |s.jobs| <= editing.value ==> r == s
  {
    match editing
    case None => s.(jobs := s.jobs + [Posted(form, now)])
    case Some(i) => if i < |s.jobs| then s.(jobs := s.jobs[i := Posted(form, s.jobs[i].id)]) else s
  }

  /** Every job the dashboard writes carries a type that normalisation leaves alone. */
  lemma PostedTypeIsNormal(s: Store, form: Job, editing: Option<nat>, now: int)
    ensures var r := PostJob(s, form, editing, now);
            var at := if editing.Some? then editing.value else |s.jobs|;
            at < |r.jobs| ==> NormalizeType(r.jobs[at].jobType) == r.jobs[at].jobType
  {
    NormalizeTypeIdempotent(form.jobType);
  }

  /** Saving an edit form loaded from a job (`handleEdit`) without changing it
      leaves the jobs as they were, once that job's type is normal and its
      cache present. */
  lemma UnchangedEditIsNoop(s: Store, i: nat, now: int)
    requires i < |s.jobs|
    requires NormalizeType(s.jobs[i].jobType) == s.jobs[i].jobType
    requires s.jobs[i].applicants.Some?
    ensures PostJob(s, s.jobs[i], Some(i), now) == s
  {
    assert s.jobs[i := s.jobs[i]] == s.jobs;
  }

  /** A new job whose timestamp is not already an id keeps job ids unique. */
  lemma PostJobKeepsIdsUnique(s: Store, form: Job, editing: Option<nat>, now: int)
    requires UniqueJobIds(s.jobs)
    requires editing.None? ==> forall j :: 0 <= j < |s.jobs| ==> s.jobs[j].id != now
    ensures UniqueJobIds(PostJob(s, form, editing, now).jobs)
  {
  }

  /** `handleDelete`: the job at `index` is removed and the others keep their
      order; applications that referred to it are left in place. */
  function DeleteJob(s: Store, index: nat): (r: Store)
    ensures r.applications == s.applications && r.profile == s.profile
    ensures index < |s.jobs| ==> |r.jobs| == |s.jobs| - 1
    ensures index < |s.jobs| ==> forall k :: 0 <= k < index ==> r.jobs[k] == s.jobs[k]
    ensures index < |s.jobs| ==> forall k :: index <= k < |r.jobs| ==> r.jobs[k] == s.jobs[k + 1]
    ensures |s.jobs| <= index ==> r == s
  {
    s.(jobs := RemoveAt(s.jobs, index))
  }

  /** Deleting a job just posted restores the store. */
  lemma DeleteUndoesPost(s: Store, form: Job, now: int)
    ensures DeleteJob(PostJob(s, form, None, now), |s.jobs|) == s
  {
    var r := PostJob(s, form, None, now);
    assert r.jobs[..|s.jobs|] == s.jobs;
  }

  // ------------------------------------------------- edit index on delete

  /** `handleDelete` leaves `editingIndex` as it was.  Opening the first of
      two jobs for editing, deleting it, and then saving the form overwrites
      the surviving job with the deleted job's fields under the survivor's id. */
  lemma StaleEditOverwritesSurvivor()
    ensures var a := Job(1, "Designer", "Acme", "", "", "", "", "", "", "", "", Some([]));
            var b := Job(2, "Engineer", "Initech", "", "", "", "", "", "", "", "", Some([]));
            var after := PostJob(DeleteJob(Store([a, b], [], None), 0), a, Some(0), 3);
            && after.jobs == [a.(id := 2)]
            && b !in after.jobs
  {
    var a := Job(1, "Designer", "Acme", "", "", "", "", "", "", "", "", Some([]));
    var b := Job(2, "Engineer", "Initech", "", "", "", "", "", "", "", "", Some([]));
    var deleted := DeleteJob(Store([a, b], [], None), 0);
    assert deleted.jobs == [b];
    assert Posted(a, 2) == a.(id := 2);
  }

  /** `handleDelete` with the edit index following the job being edited: it
      is cleared when that job is the one deleted, and moves down by one when
      that job sat after the deleted one. */
  function DeleteJobFollowingEdit(s: Store, editing: Option<nat>, index: nat): (r: (Store, Option<nat>))
    ensures r.0 == DeleteJob(s, index)
    ensures editing.None? ==> r.1.None?
    ensures editing == Some(index) && index < |s.jobs| ==> r.1.None?
    ensures editing.Some? && editing.value < |s.jobs| && editing.value != index ==>
              r.1.Some? && r.1.value < |r.0.jobs| && r.0.jobs[r.1.value] == s.jobs[editing.value]
  {
    var follow := match editing
      case None => None
      case Some(e) =>
        if index < |s.jobs| && e == index then None
        else if index < |s.jobs| && index < e then Some(e - 1)
        else Some(e);
    (DeleteJob(s, index), follow)
  }

  /** With the edit index following its job, saving the form after a delete
      rewrites only the job that was opened for editing: every other job
      that survived the delete is kept. */
  lemma FollowedEditKeepsOtherJobs(s: Store, editing: Option<nat>, index: nat, form: Job, now: int)
    requires editing.Some? ==> editing.value < |s.jobs|
    ensures var (s', e') := DeleteJobFollowingEdit(s, editing, index);
            var r := PostJob(s', form, e', now);
            && (e'.Some? ==> r.jobs[e'.value].id == s.jobs[editing.value].id)
            && forall k :: 0 <= k < |s'.jobs| && (editing.Some? ==> s'.jobs[k].id != s.jobs[editing.value].id) ==>
                 r.jobs[k] == s'.jobs[k]
  {
    var (s', e') := DeleteJobFollowingEdit(s, editing, index);
    var r := PostJob(s', form, e', now);
    if e'.None? {
      assert r.jobs[..|s'.jobs|] == s'.jobs;
      forall k | 0 <= k < |s'.jobs| ensures r.jobs[k] == s'.jobs[k] {
        assert r.jobs[..|s'.jobs|][k] == r.jobs[k];
      }
    }
  }

  // ------------------------------------------------------- status change

  /** `{...app, status}` for the applications of one job and one email. */
  function Restatus(a: Application, id: int, email: string, status: string): (r: Application)
    ensures Key(r) == Key(a) && r.candidate == a.candidate && r.job == a.job
    ensures r.appliedAt == a.appliedAt
    ensures r.status == (if Key(a) == (id, email) then status else a.status)
  {
    if a.job.id == id && a.candidate.email == email then a.(status := status) else a
  }

  /** `handleStatusChange`: sets `status` on applicant `applicantIndex` of job
      `jobIndex` in the cache, and on every stored application with that job's
      id and that applicant's email; all other records are unchanged. */
  function ChangeStatus(s: Store, jobIndex: nat, applicantIndex: nat, status: string): (r: Store)
    requires jobIndex < |s.jobs|
    requires s.jobs[jobIndex].applicants.Some?
    requires applicantIndex < |s.jobs[jobIndex].applicants.value|
    ensures r.profile == s.profile
    ensures |r.jobs| == |s.jobs|
    ensures forall i :: 0 <= i < |s.jobs| && i != jobIndex ==> r.jobs[i] == s.jobs[i]
    ensures var before := s.jobs[jobIndex].applicants.value;
            && SameExceptApplicants(r.jobs[jobIndex], s.jobs[jobIndex])
            && r.jobs[jobIndex].applicants == Some(before[applicantIndex := before[applicantIndex].(status := status)])
    ensures var key := (s.jobs[jobIndex].id, s.jobs[jobIndex].applicants.value[applicantIndex].candidate.email);
            && |r.applications| == |s.applications|
            && (forall i :: 0 <= i < |s.applications| && Key(s.applications[i]) == key ==>
                  r.applications[i] == s.applications[i].(status := status))
            && (forall i :: 0 <= i < |s.applications| && Key(s.applications[i]) != key ==>
                  r.applications[i] == s.applications[i])
  {
    var job := s.jobs[jobIndex];
    var applicants := job.applicants.value;
    var updated := applicants[applicantIndex := applicants[applicantIndex].(status := status)];
    var jobs := s.jobs[jobIndex := job.(applicants := Some(updated))];
    var email := applicants[applicantIndex].candidate.email;
    var apps := seq(|s.applications|, i requires 0 <= i < |s.applications| =>
                      Restatus(s.applications[i], job.id, email, status));
    s.(jobs := jobs, applications := apps)
  }

  /** One job's cache stays consistent across a status change. */
  lemma StatusChangeKeepsJobSynced(s: Store, jobIndex: nat, applicantIndex: nat, status: string, j: nat)
    requires jobIndex < |s.jobs| && s.jobs[jobIndex].applicants.Some?
    requires applicantIndex < |s.jobs[jobIndex].applicants.value|
    requires Synced(s.jobs, s.applications)
    requires UniqueKeys(s.applications) && UniqueJobIds(s.jobs)
    requires status != ""
    requires j < |s.jobs|
    ensures var r := ChangeStatus(s, jobIndex, applicantIndex, status);
            r.jobs[j].applicants == Some(ApplicantsFor(r.applications, r.jobs[j].id))
  {
    var r := ChangeStatus(s, jobIndex, applicantIndex, status);
    var apps, apps' := s.applications, r.applications;
    var id := s.jobs[jobIndex].id;
    var email := s.jobs[jobIndex].applicants.value[applicantIndex].candidate.email;
    var idj := s.jobs[j].id;
    assert r.jobs[j].id == idj by {
      if j != jobIndex {
      } else {
        assert r.jobs[j].(applicants := None).id == s.jobs[j].(applicants := None).id;
      }
    }
    PositionsCongruent(BelongsTo(idj), apps, BelongsTo(idj), apps');
    var idx := ApplicantPositions(apps, idj);
    assert ApplicantPositions(apps', idj) == idx;
    ApplicantsForExact(apps, idj);
    ApplicantsForExact(apps', idj);
    var before := ApplicantsFor(apps, idj);
    var after := ApplicantsFor(apps', idj);
    assert s.jobs[j].applicants == Some(before);
    if j == jobIndex {
      // The applicant whose status was chosen sits at position idx[applicantIndex].
      assert applicantIndex < |idx|;
      var p := idx[applicantIndex];
      assert before[applicantIndex] == ToApplicant(apps[p]);
      assert Key(apps[p]) == (id, email);
      var expected := before[applicantIndex := before[applicantIndex].(status := status)];
      forall k | 0 <= k < |idx| ensures after[k] == expected[k] {
        if k == applicantIndex {
          assert apps'[p] == apps[p].(status := status);
        } else {
          assert idx[k] != p;
          assert Key(apps[idx[k]]) != (id, email);
          assert apps'[idx[k]] == apps[idx[k]];
        }
      }
      assert after == expected;
    } else {
      forall k | 0 <= k < |idx| ensures after[k] == before[k] {
        assert Belongs(apps[idx[k]], idj);
        assert Key(apps[idx[k]]) != (id, email) by {
          assert idj != id;
        }
        assert apps'[idx[k]] == apps[idx[k]];
      }
      assert after == before;
    }
  }

  /** The cache invariant survives a status change: with unique job ids and unique
      application keys, a synced store is still synced afterwards (for any
      status but the empty placeholder, which a later sync reads as "Pending"). */
  lemma StatusChangeKeepsSync(s: Store, jobIndex: nat, applicantIndex: nat, status: string)
    requires jobIndex < |s.jobs| && s.jobs[jobIndex].applicants.Some?
    requires applicantIndex < |s.jobs[jobIndex].applicants.value|
    requires Synced(s.jobs, s.applications)
    requires UniqueKeys(s.applications) && UniqueJobIds(s.jobs)
    requires status != ""
    ensures var r := ChangeStatus(s, jobIndex, applicantIndex, status);
            Synced(r.jobs, r.applications)
  {
    var r := ChangeStatus(s, jobIndex, applicantIndex, status);
    forall j | 0 <= j < |r.jobs|
      ensures r.jobs[j].applicants == Some(ApplicantsFor(r.applications, r.jobs[j].id))
    {
      StatusChangeKeepsJobSynced(s, jobIndex, applicantIndex, status, j);
    }
  }
}
