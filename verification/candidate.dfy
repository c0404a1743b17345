/**
 The candidate dashboard (CandidateDashboard.js): loading the saved profile
 and the candidate's applications, saving and clearing the profile, and
 deleting an application from the list.
 */
module CandidateDashboard {
  import opened Wrappers
  import opened Seqs
  import opened Domain
  import ApplyPage

  /** The page's state: the profile being edited, whether it is saved, and
      the applications listed. */
  datatype Dashboard = Dashboard(profile: Candidate, isSaved: bool, applications: seq<Application>)

  /** The stored profile, or the empty object `{}` when the key is absent. */
  function StoredProfile(s: Store): (p: Candidate)
    ensures s.profile.None? ==> p.name == "" && p.email == ""
    ensures s.profile.Some? ==> p == s.profile.value
  {
    s.profile.GetOr(BlankProfile)
  }

  /** The applications listed for a stored email: those with exactly that
      email, or all of them when the email is empty. */
  function ViewGate(email: string): Application -> bool {
    (a: Application) => email == "" || a.candidate.email == email
  }

  function ApplicationsFor(apps: seq<Application>, email: string): (r: seq<Application>)
    ensures |r| <= |apps|
    ensures email != "" ==> forall a :: a in r ==> a in apps && a.candidate.email == email
    ensures email == "" ==> r == apps
  {
    if email != "" then Filter(ViewGate(email), apps) else apps
  }

  /** The listed applications are the stored ones passing `ViewGate`, in order. */
  lemma ApplicationsForIsFilter(apps: seq<Application>, email: string)
    ensures ApplicationsFor(apps, email) == Filter(ViewGate(email), apps)
  {
    if email == "" {
      FilterAll(ViewGate(email), apps);
    }
  }

  /** The mount effect: a stored profile with a name is loaded and marked
      saved; the list holds the applications with the stored profile's email,
      or every application when that email is empty. */
  function Load(s: Store): (d: Dashboard)
    ensures d.isSaved <==> s.profile.Some? && s.profile.value.name != ""
    ensures d.isSaved ==> d.profile == s.profile.value
    ensures !d.isSaved ==> d.profile == BlankProfile
    ensures d.applications == ApplicationsFor(s.applications, StoredProfile(s).email)
  {
    var saved := StoredProfile(s);
    var apps := ApplicationsFor(s.applications, saved.email);
    if saved.name != "" then Dashboard(saved, true, apps) else Dashboard(BlankProfile, false, apps)
  }

  /** The list shows exactly the stored applications carrying the stored email, in storage order. */
  lemma LoadListsExactly(s: Store)
    ensures var email := StoredProfile(s).email;
            var idx := Positions(ViewGate(email), s.applications);
            && SubsequenceAt(Load(s).applications, s.applications, idx)
            && forall i :: 0 <= i < |s.applications| ==>
                 (i in idx <==> email == "" || s.applications[i].candidate.email == email)
  {
    ApplicationsForIsFilter(s.applications, StoredProfile(s).email);
    FilterAtPositions(ViewGate(StoredProfile(s).email), s.applications);
  }

  /** `handleChange` and the resume upload: one profile field set. */
  function EditProfile(d: Dashboard, f: ApplyPage.ScalarField, value: string): (r: Dashboard)
    ensures ApplyPage.Scalar(r.profile, f) == value
    ensures forall g :: g != f ==> ApplyPage.Scalar(r.profile, g) == ApplyPage.Scalar(d.profile, g)
    ensures r.profile.details.sections == d.profile.details.sections
    ensures r.isSaved == d.isSaved && r.applications == d.applications
  {
    d.(profile := ApplyPage.ChangeScalar(d.profile, f, value))
  }

  datatype SaveOutcome = Saved | MissingRequiredFields

  datatype Saving = Saving(store: Store, page: Dashboard, outcome: SaveOutcome)

  /** `saveProfile`: refused unless name, email and phone are all filled;
      otherwise the profile is stored and marked saved.  The listed
      applications are not refreshed. */
  function SaveProfile(s: Store, d: Dashboard): (r: Saving)
    ensures r.outcome == Saved <==> d.profile.name != "" && d.profile.email != "" && d.profile.phone != ""
    ensures r.outcome == MissingRequiredFields ==> r.store == s && r.page == d
    ensures r.outcome == Saved ==>
              && r.store == s.(profile := Some(d.profile))
              && r.page == d.(isSaved := true)
  {
    if d.profile.name == "" || d.profile.email == "" || d.profile.phone == "" then
      Saving(s, d, MissingRequiredFields)
    else
      Saving(s.(profile := Some(d.profile)), d.(isSaved := true), Saved)
  }

  /** `clearProfile`: the stored profile is removed and the page reset; the list stays as it is. */
  function ClearProfile(s: Store, d: Dashboard): (r: (Store, Dashboard))
    ensures r.0.profile.None? && r.0.jobs == s.jobs && r.0.applications == s.applications
    ensures r.1.profile == BlankProfile && !r.1.isSaved && r.1.applications == d.applications
  {
    (s.(profile := None), Dashboard(BlankProfile, false, d.applications))
  }

  /** A saved profile comes back on the next visit, and the list then holds
      that profile's applications. */
  lemma SaveThenLoad(s: Store, d: Dashboard)
    requires SaveProfile(s, d).outcome == Saved
    ensures var next := Load(SaveProfile(s, d).store);
            && next.isSaved && next.profile == d.profile
            && next.applications == ApplicationsFor(s.applications, d.profile.email)
  {
  }

  /** After a clear, the next visit shows the empty profile and every application. */
  lemma ClearThenLoad(s: Store, d: Dashboard)
    ensures Load(ClearProfile(s, d).0) == Dashboard(BlankProfile, false, s.applications)
  {
  }

  // --------------------------------------------------------- deleting

  /** The index `applications.indexOf(app)` reports for a stored application:
      the stored list is freshly parsed, so none of its objects is an element
      of the listed array, and `indexOf` compares by identity. */
  const FreshIndexOf: int := -1

  /** The predicate `deleteApplication` keeps stored applications by, as written. */
  function KeptAsWritten(email: string, index: nat): (keep: Application -> bool)
    ensures forall a :: keep(a)
  {
    (a: Application) => !(a.candidate.email == email && FreshIndexOf == index)
  }

  /** `deleteApplication`, as written: the listed entry at `index` goes from
      the list, and storage keeps every application whose `indexOf` is not
      `index` — which is all of them. */
  function DeleteApplication(s: Store, d: Dashboard, index: nat): (r: (Store, Dashboard))
    ensures r.0 == s
    ensures r.1 == d.(applications := RemoveAt(d.applications, index))
  {
    var remaining := Filter(KeptAsWritten(d.profile.email, index), s.applications);
    FilterAll(KeptAsWritten(d.profile.email, index), s.applications);
    (s.(applications := remaining), d.(applications := RemoveAt(d.applications, index)))
  }

  /** The deletion does not last: on the next visit the deleted application is listed again. */
  lemma DeletedApplicationReappears(s: Store, index: nat)
    requires index < |Load(s).applications|
    ensures var after := DeleteApplication(s, Load(s), index);
            && |after.1.applications| == |Load(s).applications| - 1
            && Load(after.0).applications == Load(s).applications
  {
  }

  /** Keeps the stored applications whose key differs from `key`. */
  function OtherKey(key: (int, string)): Application -> bool {
    (a: Application) => Key(a) != key
  }

  /** With unique keys, dropping every application with the key of the one at
      position `p` drops exactly that position. */
  lemma {:induction false} FilterOtherKey(apps: seq<Application>, p: nat)
    requires p < |apps| && UniqueKeys(apps)
    ensures Filter(OtherKey(Key(apps[p])), apps) == RemoveAt(apps, p)
    decreases |apps|
  {
    var n := |apps| - 1;
    var init, last := apps[..n], apps[n];
    var q := OtherKey(Key(apps[p]));
    assert apps == init + [last];
    FilterSnoc(q, init, last);
    if p == n {
      forall i | 0 <= i < |init| ensures q(init[i]) {
        assert Key(apps[i]) != Key(apps[n]);
      }
      FilterAll(q, init);
      RemoveAtLast(init, last);
    } else {
      assert Key(last) != Key(apps[p]);
      assert init[p] == apps[p];
      FilterOtherKey(init, p);
      RemoveAtSnoc(init, last, p);
    }
  }

  /** The corrected delete: the listed entry at `index` goes from the list,
      and the stored application with the same job id and email goes from storage. */
  function DeleteApplicationByKey(s: Store, d: Dashboard, index: nat): (r: (Store, Dashboard))
    ensures r.0.jobs == s.jobs && r.0.profile == s.profile
    ensures r.1 == d.(applications := RemoveAt(d.applications, index))
    ensures index < |d.applications| ==>
              forall a :: a in r.0.applications <==> a in s.applications && Key(a) != Key(d.applications[index])
    ensures |d.applications| <= index ==> r.0 == s
  {
    var view := RemoveAt(d.applications, index);
    if index < |d.applications| then
      var remaining := Filter(OtherKey(Key(d.applications[index])), s.applications);
      assert forall a :: a in s.applications && Key(a) != Key(d.applications[index]) ==> a in remaining by {
        FilterAtPositions(OtherKey(Key(d.applications[index])), s.applications);
        forall a | a in s.applications && Key(a) != Key(d.applications[index]) ensures a in remaining {
          var i :| 0 <= i < |s.applications| && s.applications[i] == a;
          var idx := Positions(OtherKey(Key(d.applications[index])), s.applications);
          var k :| 0 <= k < |idx| && idx[k] == i;
          assert remaining[k] == a;
        }
      }
      (s.(applications := remaining), d.(applications := view))
    else
      (s, d.(applications := view))
  }

  /** With unique keys, the corrected delete lasts: the next visit lists
      exactly what the page showed after the deletion. */
  lemma DeleteByKeyLasts(s: Store, index: nat)
    requires UniqueKeys(s.applications)
    requires index < |Load(s).applications|
    ensures var after := DeleteApplicationByKey(s, Load(s), index);
            Load(after.0).applications == after.1.applications
  {
    var email := StoredProfile(s).email;
    var gate := ViewGate(email);
    var apps := s.applications;
    ApplicationsForIsFilter(apps, email);
    FilterAtPositions(gate, apps);
    var p := Positions(gate, apps)[index];
    assert Load(s).applications[index] == apps[p];
    FilterOtherKey(apps, p);
    FilterRemoveAtPosition(gate, apps, index);
    var after := DeleteApplicationByKey(s, Load(s), index);
    assert StoredProfile(after.0).email == email;
    ApplicationsForIsFilter(after.0.applications, email);
  }
}
