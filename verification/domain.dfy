/**
 The records Hirely keeps in browser storage.  Storage holds three keys,
 `jobs`, `applications` and `candidateProfile`; a `Store` is one snapshot of
 all three.  A string field that is missing in storage is modelled as `""`,
 which JavaScript treats the same way (both are falsy).
 */
module Domain {
  import opened Wrappers

  /** One item of a repeated form section: a plain string (skills,
      extracurriculars) or a record of named string fields (education,
      experience, projects). */
  datatype Entry = Plain(text: string) | Record(fields: map<string, string>)

  /** The repeated sections of the application form. */
  datatype Section = Education | Experience | Extracurriculars | Projects | Skills

  /** The parts of a candidate profile the data logic never inspects. */
  datatype Details = Details(careerObjective: string, sections: map<Section, seq<Entry>>)

  /** A candidate profile, and also the application form's data.  Only the
      four identity fields take part in any decision. */
  datatype Candidate = Candidate(name: string, email: string, phone: string, resume: string,
                                 details: Details)

  /** A cached copy of a candidate inside `Job.applicants`, with the application's status. */
  datatype Applicant = Applicant(candidate: Candidate, status: string)

  /** A job posting.  `jobType` is the stored `type` field; `applicants` is
      `None` when the stored job has no `applicants` key. */
  datatype Job = Job(id: int, title: string, company: string, logo: string, location: string,
                     salary: string, jobType: string, description: string, experience: string,
                     skills: string, validTill: string, applicants: Option<seq<Applicant>>)

  /** Two jobs that differ at most in their `applicants` cache. */
  ghost predicate SameExceptApplicants(a: Job, b: Job) {
    a.(applicants := None) == b.(applicants := None)
  }

  /** The frozen job reference inside an application. */
  datatype JobRef = JobRef(id: int, title: string, company: string)

  datatype Application = Application(job: JobRef, candidate: Candidate, status: string,
                                     appliedAt: string)

  /** The contents of the three storage keys; `profile` is `None` when
      `candidateProfile` is absent. */
  datatype Store = Store(jobs: seq<Job>, applications: seq<Application>, profile: Option<Candidate>)

  /** `new Date(text).getTime()`: `None` for an unparseable date. */
  type DateParser = string -> Option<int>

  const Pending := "Pending"

  /** `isJobExpired` (identical in the employer dashboard and the listing):
      a job without `validTill` never expires; otherwise it is expired when its
      date is strictly before `today`.  An unparseable date compares false. */
  function IsExpired(job: Job, today: int, parseDate: DateParser): (expired: bool)
    ensures job.validTill == "" ==> !expired
    ensures expired ==> parseDate(job.validTill).Some? && parseDate(job.validTill).value < today
  {
    if job.validTill == "" then false
    else
      match parseDate(job.validTill)
      case None => false
      case Some(expiry) => expiry < today
  }

  /** Once expired, a job stays expired as time moves on. */
  lemma ExpiryIsMonotone(job: Job, today: int, later: int, parseDate: DateParser)
    requires today <= later
    ensures IsExpired(job, today, parseDate) ==> IsExpired(job, later, parseDate)
  {
  }

  /** A job with a parseable date is expired exactly when that date is before today. */
  lemma ExpiredIffBeforeToday(job: Job, today: int, parseDate: DateParser)
    requires job.validTill != "" && parseDate(job.validTill).Some?
    ensures IsExpired(job, today, parseDate) <==> parseDate(job.validTill).value < today
  {
  }

  /** A candidate whose four identity fields are all present. */
  predicate IsComplete(c: Candidate) {
    c.name != "" && c.email != "" && c.phone != "" && c.resume != ""
  }

  /** The logical identity of an application: the job it is for and the applicant's email. */
  function Key(a: Application): (int, string) {
    (a.job.id, a.candidate.email)
  }

  /** Invariant: no two applications share `(job.id, candidate.email)`. */
  ghost predicate UniqueKeys(apps: seq<Application>) {
    forall i, j :: 0 <= i < j < |apps| ==> Key(apps[i]) != Key(apps[j])
  }

  ghost predicate UniqueJobIds(jobs: seq<Job>) {
    forall i, j :: 0 <= i < j < |jobs| ==> jobs[i].id != jobs[j].id
  }

  /** The empty details object: what a profile reset leaves behind. */
  const NoDetails := Details("", map[])

  /** The candidate-dashboard profile after a reset: all four fields empty. */
  const BlankProfile := Candidate("", "", "", "", NoDetails)
}
