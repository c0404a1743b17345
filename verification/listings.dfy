/**
 The public job listing (JobListings.js): its own job-type normalisation, the
 load-time removal of expired jobs, the four-stage filter, and the link from a
 listed job to the application page.
 */
module JobListings {
  import opened Wrappers
  import opened Seqs
  import opened Text
  import opened Domain
  import EmployerDashboard
  import ApplyPage

  // ------------------------------------------------------------ job types

  /** A character the listing's type normalisation keeps: not `\s`, not `-`. */
  predicate IsTypeChar(c: char) {
    !IsSpace(c) && c != '-'
  }

  function TypeChar(): char -> bool {
    (c: char) => IsTypeChar(c)
  }

  /** The listing's `normalizeJobType`: empty stays empty; otherwise lower-case
      and delete every whitespace character and hyphen. */
  function ListingType(raw: string): (r: string)
    ensures raw == "" ==> r == ""
    ensures |r| <= |raw|
    ensures forall i :: 0 <= i < |r| ==> IsTypeChar(r[i]) && !IsUpper(r[i])
  {
    if raw == "" then ""
    else
      var lower := Lower(raw);
      var r := Filter(TypeChar(), lower);
      assert forall i :: 0 <= i < |r| ==> r[i] in lower;
      r
  }

  /** The kept characters are exactly the non-separators of the lower-cased
      text, in order. */
  lemma ListingTypeExact(raw: string)
    requires raw != ""
    ensures var lower := Lower(raw);
            var idx := Positions(TypeChar(), lower);
            && SubsequenceAt(ListingType(raw), lower, idx)
            && forall i :: 0 <= i < |lower| ==> (IsTypeChar(lower[i]) <==> i in idx)
  {
    FilterAtPositions(TypeChar(), Lower(raw));
  }

  /** A type already in listing form is left alone. */
  lemma ListingTypeOfListed(t: string)
    requires forall i :: 0 <= i < |t| ==> IsTypeChar(t[i]) && !IsUpper(t[i])
    ensures ListingType(t) == t
  {
    if t != "" {
      LowerOfLowerCase(t);
      FilterAll(TypeChar(), t);
    }
  }

  lemma ListingTypeIdempotent(raw: string)
    ensures ListingType(ListingType(raw)) == ListingType(raw)
  {
    ListingTypeOfListed(ListingType(raw));
  }

  /** Letter case plays no part. */
  lemma ListingTypeIgnoresCase(raw: string)
    ensures ListingType(Lower(raw)) == ListingType(raw)
  {
    LowerOfLowerCase(Lower(raw));
  }

  /** A space or hyphen anywhere plays no part. */
  lemma ListingTypeIgnoresSeparator(a: string, c: char, b: string)
    requires !IsTypeChar(c)
    ensures ListingType(a + [c] + b) == ListingType(a + b)
  {
    var p := TypeChar();
    assert Lower([c]) == [c];
    LowerAppend(a + [c], b);
    LowerAppend(a, [c]);
    LowerAppend(a, b);
    FilterAppend(p, Lower(a) + [c], Lower(b));
    FilterAppend(p, Lower(a), [c]);
    FilterAppend(p, Lower(a), Lower(b));
    assert Filter(p, [c]) == [] by {
      FilterSnoc(p, [], c);
    }
  }

  /** Two separator-free lower-case words joined by one separator normalise to their concatenation. */
  lemma ListingTypeOfJoined(a: string, c: char, b: string)
    requires forall i :: 0 <= i < |a| ==> IsTypeChar(a[i]) && !IsUpper(a[i])
    requires forall i :: 0 <= i < |b| ==> IsTypeChar(b[i]) && !IsUpper(b[i])
    requires !IsTypeChar(c)
    ensures ListingType(a + [c] + b) == a + b
  {
    ListingTypeIgnoresSeparator(a, c, b);
    ListingTypeOfListed(a + b);
  }

  /** The values of the listing's type selector. */
  const SelectOptions: set<string> := {"fulltime", "parttime", "internship", "remote"}

  lemma FullTimeListed()
    ensures ListingType("full-time") == "fulltime"
  {
    assert "full-time" == "full" + ['-'] + "time";
    ListingTypeOfJoined("full", '-', "time");
  }

  lemma PartTimeListed()
    ensures ListingType("part-time") == "parttime"
  {
    assert "part-time" == "part" + ['-'] + "time";
    ListingTypeOfJoined("part", '-', "time");
  }

  lemma InternshipListed()
    ensures ListingType("internship") == "internship"
  {
    ListingTypeOfListed("internship");
  }

  lemma RemoteListed()
    ensures ListingType("remote") == "remote"
  {
    ListingTypeOfListed("remote");
  }

  /** Each type the employer dashboard writes turns into one of the selector's values. */
  lemma DashboardTypesAreOptions(t: string)
    requires t in EmployerDashboard.CanonicalTypes
    ensures ListingType(t) in SelectOptions
  {
    if t == "full-time" {
      FullTimeListed();
    } else if t == "part-time" {
      PartTimeListed();
    } else if t == "internship" {
      InternshipListed();
    } else {
      RemoteListed();
    }
  }

  /** The canonical type behind each selector value. */
  function DashboardTypeOf(o: string): (t: string)
    requires o in SelectOptions
    ensures t in EmployerDashboard.CanonicalTypes
    ensures ListingType(t) == o
  {
    if o == "fulltime" then FullTimeListed(); "full-time"
    else if o == "parttime" then PartTimeListed(); "part-time"
    else if o == "internship" then InternshipListed(); "internship"
    else RemoteListed(); "remote"
  }

  // ---------------------------------------------------------- active jobs

  /** `{...job, type: normalizeJobType(job.type)}`. */
  function ForListing(job: Job): (r: Job)
    ensures r.jobType == ListingType(job.jobType)
    ensures r.(jobType := job.jobType) == job
  {
    job.(jobType := ListingType(job.jobType))
  }

  /** The stored jobs with their types in listing form, position for position. */
  function Normalized(jobs: seq<Job>): (r: seq<Job>)
    ensures |r| == |jobs|
    ensures forall i :: 0 <= i < |jobs| ==> r[i] == ForListing(jobs[i])
  {
    seq(|jobs|, i requires 0 <= i < |jobs| => ForListing(jobs[i]))
  }

  function NotExpired(today: int, parseDate: DateParser): Job -> bool {
    (job: Job) => !IsExpired(job, today, parseDate)
  }

  /** The listing's mount effect: type normalisation, then expired jobs dropped. */
  function ActiveJobs(jobs: seq<Job>, today: int, parseDate: DateParser): (r: seq<Job>)
    ensures |r| <= |jobs|
    ensures forall j :: j in r ==> !IsExpired(j, today, parseDate) && ListingType(j.jobType) == j.jobType
  {
    var normalized := Normalized(jobs);
    var r := Filter(NotExpired(today, parseDate), normalized);
    forall j | j in r ensures !IsExpired(j, today, parseDate) && ListingType(j.jobType) == j.jobType {
      assert j in normalized && NotExpired(today, parseDate)(j);
      var i :| 0 <= i < |normalized| && normalized[i] == j;
      ListingTypeIdempotent(jobs[i].jobType);
    }
    r
  }

  /** The active list is the normalised stored list minus exactly its expired jobs. */
  lemma ActiveJobsExact(jobs: seq<Job>, today: int, parseDate: DateParser)
    ensures var idx := Positions(NotExpired(today, parseDate), Normalized(jobs));
            && SubsequenceAt(ActiveJobs(jobs, today, parseDate), Normalized(jobs), idx)
            && forall i :: 0 <= i < |jobs| ==> (!IsExpired(jobs[i], today, parseDate) <==> i in idx)
  {
    FilterAtPositions(NotExpired(today, parseDate), Normalized(jobs));
  }

  // -------------------------------------------------------------- filters

  /** The four filter inputs; an empty one is switched off. */
  datatype Criteria = Criteria(search: string, location: string, minSalary: string, jobType: string)

  const NoCriteria := Criteria("", "", "", "")

  /** The keyword occurs, ignoring case, in the title, description or skills. */
  function SearchHit(job: Job, q: string): (hit: bool)
    ensures hit <==> || (exists i: nat :: OccursAt(Lower(job.title), Lower(q), i))
                     || (exists i: nat :: OccursAt(Lower(job.description), Lower(q), i))
                     || (exists i: nat :: OccursAt(Lower(job.skills), Lower(q), i))
    ensures q == "" ==> hit
    ensures Lower(q) <= Lower(job.title) ==> hit
  {
    var k := Lower(q);
    assert k <= Lower(job.title) ==> OccursAt(Lower(job.title), k, 0);
    Contains(Lower(job.title), k) || Contains(Lower(job.description), k) || Contains(Lower(job.skills), k)
  }

  /** The location filter occurs, ignoring case, in the job's location. */
  function LocationHit(job: Job, loc: string): (hit: bool)
    ensures hit <==> exists i: nat :: OccursAt(Lower(job.location), Lower(loc), i)
    ensures loc == "" ==> hit
    ensures Lower(loc) == Lower(job.location) ==> hit
  {
    assert Lower(loc) == Lower(job.location) ==> OccursAt(Lower(job.location), Lower(loc), 0);
    Contains(Lower(job.location), Lower(loc))
  }

  /** Lower-casing the keyword or the location filter changes no outcome. */
  lemma HitsIgnoreCase(job: Job, q: string)
    ensures SearchHit(job, Lower(q)) == SearchHit(job, q)
    ensures LocationHit(job, Lower(q)) == LocationHit(job, q)
  {
    LowerOfLowerCase(Lower(q));
  }

  /** `parseInt(job.salary) >= parseInt(min)`: false when either side is `NaN`. */
  function SalaryHit(job: Job, min: string): (hit: bool)
    ensures ParseInt(job.salary, Automatic).None? || ParseInt(min, Automatic).None? ==> !hit
    ensures ParseInt(job.salary, Automatic).Some? && ParseInt(min, Automatic).Some? ==>
              (hit <==> ParseInt(job.salary, Automatic).value >= ParseInt(min, Automatic).value)
  {
    match (ParseInt(job.salary, Automatic), ParseInt(min, Automatic))
    case (Some(a), Some(b)) => a >= b
    case _ => false
  }

  /** Equal types once both are in listing form. */
  function TypeHit(job: Job, t: string): (hit: bool)
    ensures ListingType(job.jobType) == t ==> hit
    ensures ListingType(t) == t ==> (hit <==> ListingType(job.jobType) == t)
  {
    ListingTypeIdempotent(job.jobType);
    ListingType(job.jobType) == ListingType(t)
  }

  // Each stage as a predicate that lets everything through when its input is empty.

  function SearchGate(c: Criteria): Job -> bool {
    (job: Job) => c.search == "" || SearchHit(job, c.search)
  }

  function LocationGate(c: Criteria): Job -> bool {
    (job: Job) => c.location == "" || LocationHit(job, c.location)
  }

  function SalaryGate(c: Criteria): Job -> bool {
    (job: Job) => c.minSalary == "" || SalaryHit(job, c.minSalary)
  }

  function TypeGate(c: Criteria): Job -> bool {
    (job: Job) => c.jobType == "" || TypeHit(job, c.jobType)
  }

  /** Whether a job passes every filter that is switched on. */
  function Passes(c: Criteria): Job -> bool {
    Both(Both(Both(SearchGate(c), LocationGate(c)), SalaryGate(c)), TypeGate(c))
  }

  lemma PassesIff(c: Criteria, job: Job)
    ensures Passes(c)(job) <==>
              && (c.search == "" || SearchHit(job, c.search))
              && (c.location == "" || LocationHit(job, c.location))
              && (c.minSalary == "" || SalaryHit(job, c.minSalary))
              && (c.jobType == "" || TypeHit(job, c.jobType))
  {
    var s, l, m, t := SearchGate(c), LocationGate(c), SalaryGate(c), TypeGate(c);
    BothHolds(Both(Both(s, l), m), t, job);
    BothHolds(Both(s, l), m, job);
    BothHolds(s, l, job);
    assert s(job) == (c.search == "" || SearchHit(job, c.search));
    assert l(job) == (c.location == "" || LocationHit(job, c.location));
    assert m(job) == (c.minSalary == "" || SalaryHit(job, c.minSalary));
    assert t(job) == (c.jobType == "" || TypeHit(job, c.jobType));
  }

  /** One stage as the source applies it: filter only when its input is non-empty. */
  function Stage(on: bool, gate: Job -> bool, jobs: seq<Job>): (r: seq<Job>)
    ensures on ==> r == Filter(gate, jobs)
    ensures !on ==> r == jobs
  {
    if on then Filter(gate, jobs) else jobs
  }

  /** The filter effect: search, location, minimum salary and type, in that order. */
  function FilterJobs(jobs: seq<Job>, c: Criteria): (r: seq<Job>)
    ensures |r| <= |jobs|
    ensures forall j :: j in r ==> j in jobs
  {
    var a := Stage(c.search != "", SearchGate(c), jobs);
    var b := Stage(c.location != "", LocationGate(c), a);
    var d := Stage(c.minSalary != "", SalaryGate(c), b);
    Stage(c.jobType != "", TypeGate(c), d)
  }

  /** A switched-off stage lets everything through, so each stage is a plain filter by its gate. */
  lemma StageIsFilter(on: bool, gate: Job -> bool, jobs: seq<Job>)
    requires !on ==> forall j :: gate(j)
    ensures Stage(on, gate, jobs) == Filter(gate, jobs)
  {
    if !on {
      FilterAll(gate, jobs);
    }
  }

  /** The four stages together keep exactly the jobs that pass every switched-on filter. */
  lemma FilterJobsIsOneFilter(jobs: seq<Job>, c: Criteria)
    ensures FilterJobs(jobs, c) == Filter(Passes(c), jobs)
  {
    var a := Stage(c.search != "", SearchGate(c), jobs);
    var b := Stage(c.location != "", LocationGate(c), a);
    var d := Stage(c.minSalary != "", SalaryGate(c), b);
    StageIsFilter(c.search != "", SearchGate(c), jobs);
    StageIsFilter(c.location != "", LocationGate(c), a);
    StageIsFilter(c.minSalary != "", SalaryGate(c), b);
    StageIsFilter(c.jobType != "", TypeGate(c), d);
    FilterBoth(SearchGate(c), LocationGate(c), jobs);
    FilterBoth(Both(SearchGate(c), LocationGate(c)), SalaryGate(c), jobs);
    FilterBoth(Both(Both(SearchGate(c), LocationGate(c)), SalaryGate(c)), TypeGate(c), jobs);
  }

  /** The filtered list is the input minus exactly the jobs failing some switched-on filter, in order. */
  lemma FilterJobsExact(jobs: seq<Job>, c: Criteria)
    ensures var idx := Positions(Passes(c), jobs);
            && SubsequenceAt(FilterJobs(jobs, c), jobs, idx)
            && forall i :: 0 <= i < |jobs| ==>
                 (i in idx <==>
                    && (c.search == "" || SearchHit(jobs[i], c.search))
                    && (c.location == "" || LocationHit(jobs[i], c.location))
                    && (c.minSalary == "" || SalaryHit(jobs[i], c.minSalary))
                    && (c.jobType == "" || TypeHit(jobs[i], c.jobType)))
  {
    FilterJobsIsOneFilter(jobs, c);
    FilterAtPositions(Passes(c), jobs);
    forall i | 0 <= i < |jobs| {
      PassesIff(c, jobs[i]);
    }
  }

  /** With every input empty the whole list is shown. */
  lemma NoCriteriaShowsAll(jobs: seq<Job>)
    ensures FilterJobs(jobs, NoCriteria) == jobs
  {
  }

  /** On the active list, whose types are already in listing form, the type
      filter is plain equality with the selected value's listing form. */
  lemma TypeFilterOnActiveJobs(jobs: seq<Job>, today: int, parseDate: DateParser, t: string, j: Job)
    requires j in ActiveJobs(jobs, today, parseDate)
    ensures TypeHit(j, t) <==> j.jobType == ListingType(t)
  {
  }

  // ------------------------------------------------------ the apply link

  /** What the listing shows: the active jobs that pass the filters. */
  function Listing(jobs: seq<Job>, today: int, parseDate: DateParser, c: Criteria): (r: seq<Job>)
    ensures |r| <= |jobs|
    ensures forall j :: j in r ==> !IsExpired(j, today, parseDate) && Passes(c)(j)
    ensures forall j :: j in r ==> exists p :: 0 <= p < |jobs| && j == ForListing(jobs[p])
  {
    var normalized := Normalized(jobs);
    var active := ActiveJobs(jobs, today, parseDate);
    FilterJobsIsOneFilter(active, c);
    var r := FilterJobs(active, c);
    forall j | j in r ensures exists p :: 0 <= p < |jobs| && j == ForListing(jobs[p]) {
      assert j in normalized;
      var p :| 0 <= p < |normalized| && normalized[p] == j;
    }
    r
  }

  function Listed(today: int, parseDate: DateParser, c: Criteria): Job -> bool {
    Both(NotExpired(today, parseDate), Passes(c))
  }

  /** The route parameter the Apply button of the `k`-th listed job carries, as
      written: `k` itself, a position in the filtered list. */
  function ListingLinkParam(k: nat): (param: string)
    ensures forall jobs: seq<Job> :: k < |jobs| ==> ApplyPage.JobIndex(jobs, param) == Some(k)
  {
    forall jobs: seq<Job> | k < |jobs| ensures ApplyPage.JobIndex(jobs, ShowInt(k)) == Some(k) {
      ApplyPage.JobIndexOfShownIndex(jobs, k);
    }
    ShowInt(k)
  }

  /** An expired job posted earliest in storage, and a job without an expiry date. */
  const Closed := Job(1, "Closed", "Acme", "", "", "", "", "", "", "", "2020-01-01", Some([]))
  const Open := Job(2, "Open", "Acme", "", "", "", "", "", "", "", "", Some([]))

  /** A date reader that knows one date, which lies before day 1. */
  function SampleDates(): DateParser {
    (d: string) => if d == "2020-01-01" then Some(0) else None
  }

  /** The link as written opens the wrong job: with an expired job stored
      first, the only listed job is the second stored one, yet its Apply
      button carries index 0, which the application page reads as the
      expired job. */
  lemma ApplyLinkOpensWrongJob()
    ensures var s := Store([Closed, Open], [], None);
            var listed := Listing(s.jobs, 1, SampleDates(), NoCriteria);
            && listed == [Open]
            && ApplyPage.LoadJob(s, ListingLinkParam(0)).job == Some(Closed)
  {
    var jobs := [Closed, Open];
    assert ListingType("") == "";
    assert Normalized(jobs) == jobs;
    assert IsExpired(Closed, 1, SampleDates());
    assert !IsExpired(Open, 1, SampleDates());
    assert [Closed, Open] == [Closed] + [Open];
    FilterSnoc(NotExpired(1, SampleDates()), [], Closed);
    FilterSnoc(NotExpired(1, SampleDates()), [Closed], Open);
    NoCriteriaShowsAll([Open]);
  }

  /** The corrected link target: the stored position of the `k`-th listed job. */
  function StoredIndex(jobs: seq<Job>, today: int, parseDate: DateParser, c: Criteria, k: nat): (p: nat)
    requires k < |Listing(jobs, today, parseDate, c)|
    ensures p < |jobs|
    ensures Listing(jobs, today, parseDate, c)[k] == ForListing(jobs[p])
  {
    var normalized := Normalized(jobs);
    var listed := Listed(today, parseDate, c);
    FilterJobsIsOneFilter(ActiveJobs(jobs, today, parseDate), c);
    FilterBoth(NotExpired(today, parseDate), Passes(c), normalized);
    FilterAtPositions(listed, normalized);
    Positions(listed, normalized)[k]
  }

  /** With the corrected link, the application page opens the job that was
      listed: the same stored job, differing at most in its type's spelling
      and its applicant list. */
  lemma StoredIndexOpensListedJob(s: Store, today: int, parseDate: DateParser, c: Criteria, k: nat)
    requires k < |Listing(s.jobs, today, parseDate, c)|
    ensures var p := StoredIndex(s.jobs, today, parseDate, c, k);
            var shown := ApplyPage.LoadJob(s, ShowInt(p)).job;
            && shown.Some?
            && SameExceptApplicants(shown.value, s.jobs[p])
            && ForListing(shown.value.(applicants := s.jobs[p].applicants))
               == Listing(s.jobs, today, parseDate, c)[k]
  {
    var p := StoredIndex(s.jobs, today, parseDate, c, k);
    ApplyPage.JobIndexOfShownIndex(s.jobs, p);
    var shown := ApplyPage.LoadJob(s, ShowInt(p)).job.value;
    assert shown.(applicants := s.jobs[p].applicants) == s.jobs[p] by {
      assert shown.(applicants := None) == s.jobs[p].(applicants := None);
    }
  }

  /** The two agree when nothing is expired and no filter is on: then the
      `k`-th listed job is stored at position `k`. */
  lemma StoredIndexWhenAllListed(jobs: seq<Job>, today: int, parseDate: DateParser, k: nat)
    requires forall i :: 0 <= i < |jobs| ==> !IsExpired(jobs[i], today, parseDate)
    requires k < |Listing(jobs, today, parseDate, NoCriteria)|
    ensures StoredIndex(jobs, today, parseDate, NoCriteria, k) == k
  {
    var normalized := Normalized(jobs);
    PositionsAll(Listed(today, parseDate, NoCriteria), normalized);
  }
}
