/** The mock-test catalogue of src/pages/MockTestsPage.tsx: the generated
    full-length and subject-wise mock lists, the premium check, the lock
    rule and the route a mock card's button takes. */
module MockTests {
  import opened Text
  import opened Decimal

  datatype Mock = Mock(id: string, title: string, questions: nat, duration: nat, isFree: bool)

  /** `fullMocksList`: 50 full mocks, the first four free. */
  function FullMocks(): seq<Mock>
  {
    seq(50, i requires 0 <= i < 50 =>
      Mock("full-mock-" + NatToString(i + 1), "SSC CGL Full Mock Test " + NatToString(i + 1), 100, 60, i < 4))
  }

  /** The subjects offered for subject-wise mocks, as (id, name). */
  const Subjects: seq<(string, string)> := [
    ("maths", "Mathematics"),
    ("reasoning", "Reasoning"),
    ("english", "English"),
    ("gk", "General Knowledge"),
    ("current-affairs", "Current Affairs"),
    ("science-tech", "Science & Tech"),
    ("computer", "Computer")
  ]

  /** `subjects.find(s => s.id === subId)?.name || "Subject"`. */
  function SubjectTitle(subId: string): string
  {
    FindName(Subjects, subId)
  }

  function FindName(table: seq<(string, string)>, subId: string): (r: string)
    ensures (forall k :: 0 <= k < |table| ==> table[k].0 != subId) ==> r == "Subject"
    ensures forall k ::
      (0 <= k < |table| && table[k].0 == subId && table[k].1 != "" && forall l :: 0 <= l < k ==> table[l].0 != subId)
      ==> r == table[k].1
  {
    if |table| == 0 then "Subject"
    else if table[0].0 == subId then (if table[0].1 != "" then table[0].1 else "Subject")
    else FindName(table[1..], subId)
  }

  /** `generateSubjectMocks(subId)`: 20 mocks of the subject, the first five
      free. */
  function SubjectMocks(subId: string): seq<Mock>
  {
    var name := SubjectTitle(subId);
    seq(20, i requires 0 <= i < 20 =>
      Mock(subId + "-mock-" + NatToString(i + 1), name + " Mock Test " + NatToString(i + 1), 25, 30, i < 5))
  }

  lemma PrefixCancel(p: string, a: string, b: string)
    requires p + a == p + b
    ensures a == b
  {
    assert a == (p + a)[|p|..];
    assert b == (p + b)[|p|..];
  }

  /** Fifty full mocks numbered 1 to 50 in their ids, 100 questions and 60
      minutes each, exactly the first four free, and no id repeated. */
  lemma FullMocksSpec()
    ensures |FullMocks()| == 50
    ensures forall i :: 0 <= i < 50 ==>
      && FullMocks()[i].id == "full-mock-" + NatToString(i + 1)
      && FullMocks()[i].questions == 100 && FullMocks()[i].duration == 60
      && (FullMocks()[i].isFree <==> i < 4)
    ensures forall i, j :: 0 <= i < j < 50 ==> FullMocks()[i].id != FullMocks()[j].id
  {
    var m := FullMocks();
    forall i, j | 0 <= i < j < 50 ensures m[i].id != m[j].id {
      if m[i].id == m[j].id {
        PrefixCancel("full-mock-", NatToString(i + 1), NatToString(j + 1));
        NatToStringInjective(i + 1, j + 1);
      }
    }
  }

  /** Twenty mocks per subject with the subject id and the number in the id,
      25 questions and 30 minutes each, exactly the first five free, no id
      repeated, and "Subject" in the titles of an unknown subject. */
  lemma SubjectMocksSpec(subId: string)
    ensures |SubjectMocks(subId)| == 20
    ensures forall i :: 0 <= i < 20 ==>
      && SubjectMocks(subId)[i].id == subId + "-mock-" + NatToString(i + 1)
      && SubjectMocks(subId)[i].title == SubjectTitle(subId) + " Mock Test " + NatToString(i + 1)
      && SubjectMocks(subId)[i].questions == 25 && SubjectMocks(subId)[i].duration == 30
      && (SubjectMocks(subId)[i].isFree <==> i < 5)
    ensures forall i, j :: 0 <= i < j < 20 ==> SubjectMocks(subId)[i].id != SubjectMocks(subId)[j].id
    ensures (forall k :: 0 <= k < |Subjects| ==> Subjects[k].0 != subId) ==> SubjectTitle(subId) == "Subject"
    ensures SubjectTitle("gk") == "General Knowledge"
  {
    var m := SubjectMocks(subId);
    forall i, j | 0 <= i < j < 20 ensures m[i].id != m[j].id {
      if m[i].id == m[j].id {
        assert subId + "-mock-" + NatToString(i + 1) == (subId + "-mock-") + NatToString(i + 1);
        assert subId + "-mock-" + NatToString(j + 1) == (subId + "-mock-") + NatToString(j + 1);
        PrefixCancel(subId + "-mock-", NatToString(i + 1), NatToString(j + 1));
        NatToStringInjective(i + 1, j + 1);
      }
    }
    assert Subjects[3].0 == "gk";
  }

  /** The signed-in user's plan fields; `planExpiry` is the expiry instant in
      milliseconds, `None` when absent. */
  datatype User = User(isPremium: bool, planExpiry: Option<int>)

  /** `user?.isPremium && user?.planExpiry && new Date(user.planExpiry) > new Date()`,
      with the current instant `now` as a parameter. */
  predicate IsPremium(user: Option<User>, now: int) {
    user.Some? && user.value.isPremium && user.value.planExpiry.Some? && user.value.planExpiry.value > now
  }

  /** `!mock.isFree && !isPremium`. */
  predicate IsLocked(mock: Mock, premium: bool) {
    !mock.isFree && !premium
  }

  /** Premium needs the flag and an expiry strictly in the future; a free
      mock is never locked, a premium user never sees a lock, and a paid mock
      is locked for everyone else. */
  lemma LockSpec(user: Option<User>, now: int, mock: Mock)
    ensures IsPremium(user, now) ==> user.Some? && user.value.isPremium && user.value.planExpiry.Some? && user.value.planExpiry.value > now
    ensures user.Some? && user.value.planExpiry == Some(now) ==> !IsPremium(user, now)
    ensures mock.isFree ==> !IsLocked(mock, IsPremium(user, now))
    ensures IsPremium(user, now) ==> !IsLocked(mock, IsPremium(user, now))
    ensures !mock.isFree && user.None? ==> IsLocked(mock, IsPremium(user, now))
  {
  }

  datatype MockKind = Full | BySubject

  /** The card button's target. `selectedSubject` is interpolated into the
      template string, so a missing one reads "null". */
  function CardRoute(mock: Mock, kind: MockKind, selectedSubject: Option<string>, locked: bool): string
  {
    if locked then "/pricing"
    else if kind == Full then "/quiz/full-mock/" + mock.id + "?type=random_full"
    else "/quiz/" + (if selectedSubject.Some? then selectedSubject.value else "null") + "/" + mock.id + "?type=random_subject"
  }

  /** A locked card always leads to the pricing page, an unlocked one always
      into a quiz, and a free full mock into its own random-full quiz. */
  lemma CardRouteSpec(mock: Mock, kind: MockKind, selectedSubject: Option<string>, user: Option<User>, now: int)
    ensures var locked := IsLocked(mock, IsPremium(user, now));
      && (locked ==> CardRoute(mock, kind, selectedSubject, locked) == "/pricing")
      && (!locked ==> StartsWith(CardRoute(mock, kind, selectedSubject, locked), "/quiz/"))
    ensures mock.isFree && kind == Full ==>
      CardRoute(mock, kind, selectedSubject, IsLocked(mock, IsPremium(user, now))) == "/quiz/full-mock/" + mock.id + "?type=random_full"
    ensures mock.isFree && kind == BySubject && selectedSubject.None? ==>
      CardRoute(mock, kind, selectedSubject, false) == "/quiz/null/" + mock.id + "?type=random_subject"
  {
    var locked := IsLocked(mock, IsPremium(user, now));
    if !locked {
      var r := CardRoute(mock, kind, selectedSubject, locked);
      assert r[..6] == "/quiz/";
    }
  }
}
