# Hirely data logic in Dafny

Hirely is a browser job board. Employers post jobs and candidates apply to them. All state lives in three browser-storage keys: `jobs`, `applications` and `candidateProfile`. This project models the data logic embedded in four page components as pure functions over a `Store` value, which is one snapshot of those three keys:

- the employer dashboard (`EmployerDashboard.js`):
  - job-type normalisation;
  - posting, editing and deleting jobs by position;
  - the load-time pass that rebuilds every job's `applicants` cache from the applications;
  - the status update that writes into both the cache and the applications;
- the application page (`ApplyPage.js`):
  - finding the job named by the route;
  - editing the form's repeated sections;
  - submitting with the duplicate check on `(job.id, candidate.email)`;
- the public listing (`JobListings.js`):
  - its second job-type normaliser;
  - removal of expired jobs;
  - the four-stage filter;
  - the Apply link;
- the candidate dashboard (`CandidateDashboard.js`):
  - the per-email application list;
  - saving and clearing the profile;
  - deleting an application.

Modules:

- `Wrappers` (`wrappers.dfy`): `Option`. It stands for a missing storage key and for `NaN`.
- `Seqs` (`seqs.dfy`): order-preserving `Filter`, the `Positions` it keeps, and `RemoveAt`. `Filter` and `Positions` are defined by recursion on the last element. `RemoveAt` is a slice concatenation. Lemmas relate the three.
- `Text` (`text.dfy`): the JavaScript string operations the pages use.
  - `trim` uses the ECMAScript whitespace set.
  - `toLowerCase` is modelled for ASCII letters only.
  - `includes`.
  - `parseInt` covers both the radix-10 call and the radix-omitted call; with the radix omitted, a `0x` prefix selects hexadecimal.
  - `${n}` rendering.
- `Domain` (`domain.dfy`): the records (`Job`, `Candidate`, `Application`, `Store`), `isJobExpired`, and the key and uniqueness predicates.
- `EmployerDashboard`, `ApplyPage`, `JobListings`, `CandidateDashboard`: one module per page.

Conventions:

- JavaScript truthiness of a string means "non-empty". A missing string field is modelled as `""`, which JavaScript treats the same way.
- A missing `applicants` list is `None`.
- `new Date(validTill)` is a `DateParser` parameter. "Now" and "today" are integer parameters.
- `toLocaleString()` is an opaque `appliedAt` string.
- Data URLs from file uploads are opaque strings.

Choices the model makes by following the code:

- The two pages normalise job types differently, and both are kept as written: the employer dashboard writes `full-time`, while the listing compares `fulltime`. `JobListings.DashboardTypesAreOptions` and `JobListings.DashboardTypeOf` prove that the two forms meet at the listing's type selector.
- The status update goes by job position and applicant position in the cache. It also updates every stored application with that job's id and that applicant's email. No lookup reports a missing match.
- The candidate-side delete removes no stored record at all (see Findings).

## Model

| member | source | states |
|---|---|---|
| Domain.IsExpired | EmployerDashboard.js:165-170 | a job without `validTill` never expires; an expired job has a parseable date before today |
| Domain.ExpiredIffBeforeToday | JobListings.js:18-23 | with a parseable date, a job is expired exactly when the date is strictly before today |
| Domain.ExpiryIsMonotone | EmployerDashboard.js:165-170 | once expired, a job stays expired as today moves forward |
| EmployerDashboard.NormalizeType | EmployerDashboard.js:59-67 | empty input gives `""`; the result is trimmed and lower-case, and is either a canonical type or mentions none of the four keywords |
| EmployerDashboard.NormalizeViaNormalForm | EmployerDashboard.js:60-61 | only the trimmed, lower-cased text decides the result |
| EmployerDashboard.FullSelected | EmployerDashboard.js:62 | text containing "full" gives `full-time` |
| EmployerDashboard.PartSelected | EmployerDashboard.js:63 | text without "full" but with "part" gives `part-time` |
| EmployerDashboard.InternSelected | EmployerDashboard.js:64 | text without "full" or "part" but with "intern" gives `internship` |
| EmployerDashboard.RemoteSelected | EmployerDashboard.js:65 | text whose only keyword is "remote" gives `remote` |
| EmployerDashboard.NoKeywordKept | EmployerDashboard.js:66 | trimmed lower-case text with no keyword is returned unchanged |
| EmployerDashboard.CanonicalTypesAreFixed | EmployerDashboard.js:59-67 | each of the four canonical types normalises to itself |
| EmployerDashboard.NormalizeTypeIdempotent | EmployerDashboard.js:59-67 | normalising twice gives the same result as normalising once |
| EmployerDashboard.FullTimeExample | EmployerDashboard.js:59-67 | "Full Time" normalises to `full-time` |
| EmployerDashboard.UpperCaseExample | EmployerDashboard.js:59-67 | "REMOTE" normalises to `remote` |
| EmployerDashboard.PriorityExample | EmployerDashboard.js:62-65 | " Remote part-time " normalises to `part-time`, because "part" is checked before "remote" |
| EmployerDashboard.ToApplicant | EmployerDashboard.js:46-49 | an applicant copies the candidate; an empty status becomes "Pending" and any other status is kept |
| EmployerDashboard.ApplicantsFor | EmployerDashboard.js:32-49 | a job's applicants all have complete candidates and a non-empty status |
| EmployerDashboard.ApplicantsForExact | EmployerDashboard.js:32-49 | a job's applicants are exactly the complete applications for that job id, in application order, each converted |
| EmployerDashboard.Sync | EmployerDashboard.js:42-53 | same number and order of jobs; every field except `applicants` unchanged; every cache equals the recomputed list |
| EmployerDashboard.SyncOnLoad | EmployerDashboard.js:28-57 | the mount effect leaves applications and profile alone and writes back synced jobs |
| EmployerDashboard.SyncIgnoresCache | EmployerDashboard.js:51-52 | the old `applicants` contents play no part in the result |
| EmployerDashboard.SyncIdempotent | EmployerDashboard.js:42-56 | running the pass twice gives the same jobs as running it once |
| EmployerDashboard.SyncedIffFixpoint | EmployerDashboard.js:42-53 | jobs are consistent with the applications exactly when the pass leaves them unchanged |
| EmployerDashboard.PostJob | EmployerDashboard.js:84-105 | with no edit index, exactly one job is appended with `id = now`, a normalised type and an applicant list; with an edit index naming a stored job, only that position is replaced and its id is kept; with an edit index past the end, `jobs[editingIndex].id` throws and the store is unchanged |
| EmployerDashboard.PostedTypeIsNormal | EmployerDashboard.js:88 | every posted type is a fixed point of normalisation |
| EmployerDashboard.UnchangedEditIsNoop | EmployerDashboard.js:120-123 | saving an edit form loaded from a job, without changes, leaves the jobs as they were |
| EmployerDashboard.PostJobKeepsIdsUnique | EmployerDashboard.js:87 | a timestamp that is not already an id keeps job ids unique |
| EmployerDashboard.DeleteJob | EmployerDashboard.js:125-128 | exactly position `index` is removed and the others keep their order; applications are untouched |
| EmployerDashboard.DeleteUndoesPost | EmployerDashboard.js:100 | deleting the job just posted restores the store |
| EmployerDashboard.StaleEditOverwritesSurvivor | EmployerDashboard.js:120-128 | editing the first of two jobs, deleting it, then saving overwrites the survivor with the deleted job's fields under the survivor's id |
| EmployerDashboard.DeleteJobFollowingEdit | EmployerDashboard.js:125-128 | corrected delete: the same jobs are removed, and the edit index is cleared when its job is deleted or moved so that it still names the job being edited |
| EmployerDashboard.FollowedEditKeepsOtherJobs | EmployerDashboard.js:84-128 | with the corrected delete, saving the form rewrites only the job opened for editing; every other surviving job is kept |
| EmployerDashboard.Restatus | EmployerDashboard.js:140-150 | only an application with the given job id and email gets the new status |
| EmployerDashboard.ChangeStatus | EmployerDashboard.js:132-151 | the selected cached applicant and every stored application with that job id and email get the new status; nothing else changes |
| EmployerDashboard.StatusChangeKeepsSync | EmployerDashboard.js:132-151 | with unique keys and job ids, a consistent cache stays consistent after a status change |
| ApplyPage.JobIndex | ApplyPage.js:25-27 | the route parameter names a job exactly when it parses to an index inside the stored list |
| ApplyPage.JobIndexOfShownIndex | ApplyPage.js:25 | the parameter `${i}` names stored job `i` |
| ApplyPage.LoadJob | ApplyPage.js:23-34 | a valid index shows that job, whose missing applicant list becomes `[]` and whose existing list is kept; no other job changes; an invalid index changes nothing |
| ApplyPage.WithApplicantList | ApplyPage.js:28-31 | a job without an applicant list gets `[]`; a job with one is unchanged; no other field changes |
| ApplyPage.LoadJobWritesOnlyMissingList | ApplyPage.js:28-31 | storage changes on load only when the job had no applicant list |
| ApplyPage.LoadJobIdempotent | ApplyPage.js:23-34 | loading again over the written-back store shows the same job and writes nothing |
| ApplyPage.EmptyItem | ApplyPage.js:211 | string sections add `""`; record sections add a record whose fields are all empty |
| ApplyPage.BlankFormShape | ApplyPage.js:10-21 | the initial form has every section with one empty item and is not complete |
| ApplyPage.AddField | ApplyPage.js:50-52 | the item is appended at the end of one section; nothing else changes |
| ApplyPage.RemoveField | ApplyPage.js:54-58 | exactly position `index` of one section is removed (nothing when past the end); nothing else changes |
| ApplyPage.SetEntry | ApplyPage.js:42-46 | a string item is replaced; a record item gets one field set and its other fields kept |
| ApplyPage.ChangeEntry | ApplyPage.js:40-48 | the section keeps its length; only item `index` changes |
| ApplyPage.RemoveUndoesAdd | ApplyPage.js:50-58 | removing the item just added restores the form |
| ApplyPage.ChangeEntryLastWins | ApplyPage.js:40-48 | two edits of the same field: the last one wins |
| ApplyPage.ChangeEntrySameValueIsNoop | ApplyPage.js:40-48 | writing back a field's current value changes nothing |
| ApplyPage.SectionEditsKeepAllSections | ApplyPage.js:47 | section edits keep every section present and the identity fields unchanged |
| ApplyPage.ChangeScalar | ApplyPage.js:36-38 | one scalar field gets the value and every other field is unchanged |
| ApplyPage.ChangeScalarSameValueIsNoop | ApplyPage.js:36-38 | setting a field to its current value changes nothing |
| ApplyPage.HasApplied | ApplyPage.js:81-85 | the duplicate check holds exactly when some application has the key `(job.id, email)` |
| ApplyPage.NewApplication | ApplyPage.js:92-97 | the new application's key is `(job.id, form.email)`; it copies the form and the job's title and company; its status is "Pending" |
| ApplyPage.Submit | ApplyPage.js:71-100 | with no job, or on a duplicate, the store is unchanged; otherwise exactly one application is appended and earlier entries are untouched |
| ApplyPage.SubmitKeepsKeysUnique | ApplyPage.js:79-100 | no two applications ever share `(job.id, candidate.email)` |
| ApplyPage.SubmitTwiceRejected | ApplyPage.js:87-90 | a second identical submission is refused and storage keeps a single copy |
| ApplyPage.SubmitAfterLoad | ApplyPage.js:23-100 | a submission after loading a route records the id of the stored job that route names |
| JobListings.ListingType | JobListings.js:13-16 | empty input gives `""`; the result has no whitespace, no hyphens and no upper-case letters |
| JobListings.ListingTypeExact | JobListings.js:15 | the result is exactly the non-separator characters of the lower-cased input, in order |
| JobListings.ListingTypeIdempotent | JobListings.js:13-16 | normalising twice gives the same result as normalising once |
| JobListings.ListingTypeIgnoresCase | JobListings.js:15 | letter case plays no part |
| JobListings.ListingTypeIgnoresSeparator | JobListings.js:15 | a space or hyphen inserted anywhere plays no part |
| JobListings.FullTimeListed | JobListings.js:100 | `full-time` becomes `fulltime` |
| JobListings.PartTimeListed | JobListings.js:101 | `part-time` becomes `parttime` |
| JobListings.DashboardTypesAreOptions | JobListings.js:98-104 | every type the employer dashboard writes becomes one of the selector's values |
| JobListings.DashboardTypeOf | JobListings.js:98-104 | every selector value is the listing form of some dashboard type |
| JobListings.ForListing | JobListings.js:27-30 | only the type changes, into listing form |
| JobListings.Normalized | JobListings.js:27-30 | the same jobs in the same order, each with its type in listing form |
| JobListings.ActiveJobs | JobListings.js:25-35 | listed jobs are unexpired and their types are already in listing form |
| JobListings.ActiveJobsExact | JobListings.js:26-32 | the active list is the normalised stored list minus exactly the expired jobs, in stored order |
| JobListings.SearchHit | JobListings.js:40-50 | a job matches exactly when the lower-cased keyword occurs somewhere in the lower-cased title, description or skills; an empty keyword matches every job |
| JobListings.LocationHit | JobListings.js:53-56 | a job matches exactly when the lower-cased filter occurs somewhere in the lower-cased location; an empty filter matches every job |
| JobListings.HitsIgnoreCase | JobListings.js:40-56 | lower-casing the keyword or the location filter changes no outcome |
| JobListings.SalaryHit | JobListings.js:59-63 | a salary or minimum that `parseInt` reads as `NaN` excludes the job; otherwise the job passes exactly when its salary is at least the minimum |
| JobListings.TypeHit | JobListings.js:65-69 | a job whose listing type is the selected value passes; for a value already in listing form, only such jobs pass |
| JobListings.PassesIff | JobListings.js:40-69 | a job passes the filters exactly when every non-empty criterion holds for it |
| JobListings.FilterJobs | JobListings.js:37-72 | the output is no longer than the input and contains only input jobs |
| JobListings.FilterJobsIsOneFilter | JobListings.js:37-72 | the four conditional stages equal one filter by their conjunction |
| JobListings.FilterJobsExact | JobListings.js:37-72 | the output is an order-preserving subsequence keeping exactly the jobs that pass search, location, salary and type |
| JobListings.NoCriteriaShowsAll | JobListings.js:38-71 | with every criterion empty, the output is the input |
| JobListings.TypeFilterOnActiveJobs | JobListings.js:65-69 | on the active list, the type filter is equality with the selected value's listing form |
| JobListings.Listing | JobListings.js:25-72 | every listed job is unexpired, passes the filters, and is the listing form of some stored job |
| JobListings.ListingLinkParam | JobListings.js:137 | the Apply link of the `k`-th listed job names stored job `k` on the application page |
| JobListings.ApplyLinkOpensWrongJob | JobListings.js:137 | with an expired job stored first, the only listed job's Apply link opens the expired job |
| JobListings.StoredIndex | JobListings.js:137 | the corrected target is a stored position whose normalised job is the listed one |
| JobListings.StoredIndexOpensListedJob | JobListings.js:137 | the corrected link opens the stored job that was listed |
| JobListings.StoredIndexWhenAllListed | JobListings.js:137 | with nothing expired and no filter on, the corrected index equals the listed index |
| CandidateDashboard.StoredProfile | CandidateDashboard.js:19-20 | a missing profile reads as one with empty name and email; a stored profile is read as stored |
| CandidateDashboard.ApplicationsFor | CandidateDashboard.js:29-33 | a non-empty email shows only applications with that email; an empty email shows all of them |
| CandidateDashboard.Load | CandidateDashboard.js:18-36 | the stored profile is loaded and marked saved exactly when it has a name; the list follows the stored email |
| CandidateDashboard.LoadListsExactly | CandidateDashboard.js:29-35 | the list is exactly the stored applications with the stored email (or all of them), in stored order |
| CandidateDashboard.EditProfile | CandidateDashboard.js:39-42 | one profile field gets the value; everything else is unchanged |
| CandidateDashboard.SaveProfile | CandidateDashboard.js:57-65 | save is refused, and nothing changes, exactly when name, email or phone is empty; otherwise the current profile is stored |
| CandidateDashboard.ClearProfile | CandidateDashboard.js:68-73 | the stored profile is removed and the page's profile reset to empty fields |
| CandidateDashboard.SaveThenLoad | CandidateDashboard.js:18-36 | a saved profile comes back on the next visit, with its applications listed |
| CandidateDashboard.ClearThenLoad | CandidateDashboard.js:18-36 | after a clear, the next visit shows an empty profile and every application |
| CandidateDashboard.DeleteApplication | CandidateDashboard.js:83-96 | the list loses exactly position `index`; storage is written back unchanged |
| CandidateDashboard.KeptAsWritten | CandidateDashboard.js:89-95 | the delete's filter keeps every stored application, because `indexOf` of a freshly parsed object is -1 |
| CandidateDashboard.DeletedApplicationReappears | CandidateDashboard.js:87-96 | after a delete, the next visit lists the deleted application again |
| CandidateDashboard.DeleteApplicationByKey | CandidateDashboard.js:83-96 | corrected delete: the list loses position `index`, and storage loses exactly the applications with that entry's key |
| CandidateDashboard.DeleteByKeyLasts | CandidateDashboard.js:83-96 | with unique keys, the corrected delete lasts: the next visit lists what the page showed after it |
| Text.ParseShowRoundTrip | JobListings.js:137 | `parseInt` reads back every integer rendered by `${n}`, with either radix |
| Text.ParseIntSkipsSpace | JobListings.js:61 | leading whitespace plays no part in what `parseInt` reads |
| Text.ParseIntStopsAtNonDigit | JobListings.js:61 | reading stops at the first non-digit, so a number followed by other text reads as that number (apart from `0x` with the radix omitted) |
| Text.ParseIntDecimalNaN | ApplyPage.js:25 | `parseInt(s, 10)` is `NaN` exactly when no digit follows the whitespace and the optional sign |

## Left out

- JSX rendering, styles, `alert`, `navigate`, the notification list and its `setTimeout`: user interface and timers.
- `FileReader` uploads of resume and logo: browser I/O. The resulting data URL is an opaque string argument (`ApplyPage.ChangeScalar` with `Resume`, `CandidateDashboard.EditProfile`).
- `localStorage` and `JSON.parse`/`stringify`: the store is a value passed in and out. Malformed stored data is not modelled, such as a `null` application, an application without `job` or `candidate`, or a non-array value. Neither is the `|| []` fallback for a missing key beyond "empty".
- Date parsing, `Date.now()` and `toLocaleString()`: these are parameters (`DateParser`, `now`, `today`, `appliedAt`); calendar semantics are not modelled.
- `toLowerCase` on letters outside ASCII: only `A`–`Z` are lowered.
- `parseInt` beyond 2^53: JavaScript numbers lose precision there, but the model's integers are exact.
- EmployerDashboard.ChangeStatus: the source mutates the applicant object shared between the old and new job arrays in place. The model produces new values, which is the same stored result.
- EmployerDashboard.StatusChangeKeepsSync: requires a non-empty status. The dashboard's placeholder option `""` would be stored as `""` but re-synced as "Pending".
- `handleEdit` only copies a job into the form; its effect is covered by `EmployerDashboard.UnchangedEditIsNoop`.
- HTML `required` attributes on the forms: browser validation outside the data logic.
- React state identity, in-place mutation and races between browser tabs.
- ApplicantDetails.js, JobDetail.js, Home.js, Navbar.js, App.js, Login.js, Signup.js, ForgotPassword.js and AuthContext.js are not part of this model: they render, route or stub authentication.
- The form and profile field sets beyond name, email, phone and resume are kept as opaque `Details`, apart from the repeated sections.

## Findings

| source | as written | input that shows it | evidently intended | confidence | as-written member | corrected member |
|---|---|---|---|---|---|---|
| CandidateDashboard.js:87-96 | stored applications are kept unless `applications.indexOf(app) === index`; `indexOf` compares by identity against freshly parsed objects, so it is always -1 and nothing is removed | any store whose list is non-empty, delete at index 0 | remove the stored application behind the listed entry | high; not executed | CandidateDashboard.DeletedApplicationReappears | CandidateDashboard.DeleteByKeyLasts |
| JobListings.js:137 | the Apply link carries the index into the filtered, unexpired list, and ApplyPage.js:25-27 reads it as an index into the stored list | stored jobs [expired id 1, open id 2]; the listing shows only id 2 and its link is `/apply/0`, which opens id 1 | link to the listed job's stored position | high; not executed | JobListings.ApplyLinkOpensWrongJob | JobListings.StoredIndexOpensListedJob |
| EmployerDashboard.js:120-128 | `handleDelete` leaves `editingIndex` as it was, so a later save writes the form to whatever job now sits at that position | jobs [id 1, id 2]; edit position 0, delete position 0, save: the only job left is the deleted job's fields under id 2 | deleting keeps the edit index on the job being edited, or clears it when that job is deleted | medium; not executed | EmployerDashboard.StaleEditOverwritesSurvivor | EmployerDashboard.FollowedEditKeepsOtherJobs |
