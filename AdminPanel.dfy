/** The list logic of the admin panel (src/pages/AdminPanel.tsx): the
    question and concept tables' selection, topic list, search filter and
    export subset, the pending-flag badge, the pending-approval list and the
    validation of an official MCQ post. */
module AdminPanel {
  import opened Text

  /** A question document with its id; fields the panel reads may be absent. */
  datatype QuestionBody = QuestionBody(question: Option<string>, subject: Option<string>, chapterId: Option<string>, topic: Option<string>)
  datatype AdminQuestion = AdminQuestion(id: string, body: QuestionBody)

  /** A concept document with its id. */
  datatype ConceptBody = ConceptBody(title: Option<string>, chapterId: Option<string>)
  datatype AdminConcept = AdminConcept(id: string, body: ConceptBody)

  // ---------------------------------------------------------------- selection

  /** `prev.includes(id) ? prev.filter(i => i !== id) : [...prev, id]`. */
  function Toggle(ids: seq<string>, id: string): seq<string>
  {
    if id in ids then Filter(ids, i => i != id) else ids + [id]
  }

  /** A selected id is removed, every copy of it; an unselected id is
      appended; every other id keeps its place. */
  lemma ToggleSpec(ids: seq<string>, id: string)
    ensures id in Toggle(ids, id) <==> id !in ids
    ensures forall x :: x != id ==> (x in Toggle(ids, id) <==> x in ids)
    ensures id in ids ==> IsSubsequence(Toggle(ids, id), ids) && |Toggle(ids, id)| < |ids|
    ensures id !in ids ==> Toggle(ids, id) == ids + [id]
    ensures id in ids ==> forall x :: x != id ==> multiset(Toggle(ids, id))[x] == multiset(ids)[x]
  {
    if id in ids {
      FilterSpec(ids, i => i != id);
      FilterShorter(ids, i => i != id, id);
    }
  }

  lemma {:induction false} FilterShorter<T>(s: seq<T>, p: T -> bool, x: T)
    requires x in s && !p(x)
    ensures |Filter(s, p)| < |s|
  {
    if s[0] != x {
      FilterShorter(s[1..], p, x);
    }
  }

  /** Selecting an unselected id and then deselecting it restores the
      selection. */
  lemma ToggleTwice(ids: seq<string>, id: string)
    requires id !in ids
    ensures Toggle(Toggle(ids, id), id) == ids
  {
    FilterAppend(ids, [id], i => i != id);
    FilterAll(ids, i => i != id);
  }

  /** The `selectedIds` cell of either table. */
  class Selection {
    var selectedIds: seq<string>

    constructor ()
      ensures selectedIds == []
    {
      selectedIds := [];
    }

    /** `handleSelectOne(id)`. */
    method SelectOne(id: string)
      modifies this
      ensures selectedIds == Toggle(old(selectedIds), id)
      ensures id in selectedIds <==> id !in old(selectedIds)
    {
      ToggleSpec(selectedIds, id);
      selectedIds := Toggle(selectedIds, id);
    }

    /** `handleSelectAll(e)` of the question table: checked selects the ids
        of the rows the search and topic filter leave visible, in row order;
        unchecked clears the selection. */
    method SelectAllQuestions(checked: bool, qs: seq<AdminQuestion>, search: string, topicFilter: string)
      modifies this
      ensures selectedIds == (if checked then Map(FilteredQuestions(qs, search, topicFilter), QuestionId) else [])
      ensures checked ==> forall id :: id in selectedIds <==> exists q :: q in qs && QuestionVisible(q, search, topicFilter) && q.id == id
      ensures checked ==> IsSubsequence(selectedIds, Map(qs, QuestionId))
    {
      SelectAllQuestionsSpec(qs, search, topicFilter);
      selectedIds := if checked then Map(FilteredQuestions(qs, search, topicFilter), QuestionId) else [];
    }

    /** `handleSelectAll(e)` of the concept table. */
    method SelectAllConcepts(checked: bool, cs: seq<AdminConcept>, search: string, topicFilter: string)
      modifies this
      ensures selectedIds == (if checked then Map(FilteredConcepts(cs, search, topicFilter), ConceptId) else [])
      ensures checked ==> forall id :: id in selectedIds <==> exists c :: c in cs && ConceptVisible(c, search, topicFilter) && c.id == id
      ensures checked ==> IsSubsequence(selectedIds, Map(cs, ConceptId))
    {
      SelectAllConceptsSpec(cs, search, topicFilter);
      selectedIds := if checked then Map(FilteredConcepts(cs, search, topicFilter), ConceptId) else [];
    }

    /** A successful bulk delete clears the selection. */
    method ClearAfterDelete()
      modifies this
      ensures selectedIds == []
    {
      selectedIds := [];
    }
  }

  function QuestionId(q: AdminQuestion): string { q.id }

  function ConceptId(c: AdminConcept): string { c.id }

  // ------------------------------------------------------------- topic lists

  /** The first position of `x` in `s`. */
  function FirstIndex<T(==)>(s: seq<T>, x: T): (i: nat)
    requires x in s
    ensures i < |s| && s[i] == x && x !in s[..i]
  {
    if s[0] == x then 0 else 1 + FirstIndex(s[1..], x)
  }

  /** `Array.from(new Set(s))`: each value once, in order of first
      occurrence. */
  function Dedup<T(==)>(s: seq<T>): seq<T>
  {
    if |s| == 0 then []
    else
      var d := Dedup(s[..|s| - 1]);
      if s[|s| - 1] in d then d else d + [s[|s| - 1]]
  }

  predicate Distinct<T(==)>(s: seq<T>) {
    forall i, j :: 0 <= i < j < |s| ==> s[i] != s[j]
  }

  lemma FirstIndexExtend<T>(s: seq<T>, y: T, x: T)
    requires x in s
    ensures FirstIndex(s + [y], x) == FirstIndex(s, x)
  {
    var i := FirstIndex(s, x);
    assert (s + [y])[i] == x;
    assert s[..i] == (s + [y])[..i];
  }

  /** `Dedup` keeps every value of `s` exactly once, nothing else, in the
      order of the values' first occurrences in `s`. */
  lemma {:induction false} DedupSpec<T>(s: seq<T>)
    ensures forall x :: x in Dedup(s) ==> x in s
    ensures forall x :: x in s ==> x in Dedup(s)
    ensures Distinct(Dedup(s))
    ensures forall i, j :: 0 <= i < j < |Dedup(s)| ==> FirstIndex(s, Dedup(s)[i]) < FirstIndex(s, Dedup(s)[j])
    decreases |s|
  {
    if |s| > 0 {
      var p, y := s[..|s| - 1], s[|s| - 1];
      assert s == p + [y];
      DedupSpec(p);
      var d := Dedup(p);
      forall x | x in d ensures x in p && FirstIndex(s, x) == FirstIndex(p, x) {
        assert x in p;
        FirstIndexExtend(p, y, x);
      }
      if y !in d {
        assert y !in p;
        assert FirstIndex(s, y) == |p| by {
          var k := FirstIndex(s, y);
          if k < |p| { assert false; }
        }
        var r := d + [y];
        forall i, j | 0 <= i < j < |r| ensures FirstIndex(s, r[i]) < FirstIndex(s, r[j]) {
          assert r[i] in d;
          if j < |d| { assert r[j] in d; }
        }
      }
    }
  }

  /** The present, non-empty values (`.filter(Boolean)` on strings). */
  function TruthyValues(s: seq<Option<string>>): (r: seq<string>)
    ensures forall x :: x in r <==> x != "" && Some(x) in s
  {
    if |s| == 0 then []
    else if Truthy(s[0]) then [s[0].value] + TruthyValues(s[1..])
    else TruthyValues(s[1..])
  }

  /** `q.chapterId || q.topic`. */
  function QuestionTopicKey(q: AdminQuestion): (r: Option<string>)
    ensures Truthy(q.body.chapterId) ==> r == q.body.chapterId
    ensures !Truthy(q.body.chapterId) ==> r == q.body.topic
  {
    if Truthy(q.body.chapterId) then q.body.chapterId else q.body.topic
  }

  function ConceptChapter(c: AdminConcept): Option<string> { c.body.chapterId }

  /** The topic dropdown of the question table: "All", then every distinct
      non-empty `chapterId || topic` value in order of first occurrence. */
  function UniqueQuestionTopics(qs: seq<AdminQuestion>): seq<string>
  {
    ["All"] + Dedup(TruthyValues(Map(qs, QuestionTopicKey)))
  }

  /** The topic dropdown of the concept table: "All", then every distinct
      non-empty `chapterId`. */
  function UniqueConceptTopics(cs: seq<AdminConcept>): seq<string>
  {
    ["All"] + Dedup(TruthyValues(Map(cs, ConceptChapter)))
  }

  /** `.filter(Boolean)` keeps the order of first occurrences: of two kept
      values, the one that occurs first among the kept values also occurs
      first among the inputs. */
  lemma {:induction false} TruthyValuesOrder(keys: seq<Option<string>>, x: string, y: string)
    requires x in TruthyValues(keys) && y in TruthyValues(keys)
    requires FirstIndex(TruthyValues(keys), x) < FirstIndex(TruthyValues(keys), y)
    ensures Some(x) in keys && Some(y) in keys
    ensures FirstIndex(keys, Some(x)) < FirstIndex(keys, Some(y))
  {
    var tv, rest := TruthyValues(keys), TruthyValues(keys[1..]);
    if Truthy(keys[0]) {
      assert tv == [keys[0].value] + rest;
      assert tv[1..] == rest;
      if x != keys[0].value {
        TruthyValuesOrder(keys[1..], x, y);
      }
    } else {
      assert tv == rest;
      TruthyValuesOrder(keys[1..], x, y);
    }
  }

  /** The dropdown values after "All" are `Dedup(TruthyValues(keys))`, in the
      order of the keys' first occurrences. */
  lemma TopicsInFirstOccurrenceOrder(keys: seq<Option<string>>)
    ensures var d := Dedup(TruthyValues(keys));
      forall i, j :: 0 <= i < j < |d| ==>
        Some(d[i]) in keys && Some(d[j]) in keys && FirstIndex(keys, Some(d[i])) < FirstIndex(keys, Some(d[j]))
  {
    var tv := TruthyValues(keys);
    var d := Dedup(tv);
    DedupSpec(tv);
    forall i, j | 0 <= i < j < |d|
      ensures Some(d[i]) in keys && Some(d[j]) in keys && FirstIndex(keys, Some(d[i])) < FirstIndex(keys, Some(d[j]))
    {
      assert d[i] in d && d[j] in d;
      TruthyValuesOrder(keys, d[i], d[j]);
    }
  }

  /** The question dropdown starts with "All" and then lists each question's
      topic key exactly once (when it is non-empty), nothing else, in order
      of first occurrence: `FirstIndex(keys, Some(t))` is the index of the
      first question whose key is `t`. */
  lemma UniqueQuestionTopicsSpec(qs: seq<AdminQuestion>)
    ensures var r := UniqueQuestionTopics(qs);
      && r[0] == "All"
      && Distinct(r[1..])
      && (forall x :: x in r[1..] <==> x != "" && exists q :: q in qs && QuestionTopicKey(q) == Some(x))
    ensures var r, keys := UniqueQuestionTopics(qs), Map(qs, QuestionTopicKey);
      forall i, j :: 1 <= i < j < |r| ==>
        Some(r[i]) in keys && Some(r[j]) in keys && FirstIndex(keys, Some(r[i])) < FirstIndex(keys, Some(r[j]))
  {
    var keys := Map(qs, QuestionTopicKey);
    DedupSpec(TruthyValues(keys));
    TopicsInFirstOccurrenceOrder(keys);
    var r := UniqueQuestionTopics(qs);
    assert r[1..] == Dedup(TruthyValues(keys));
    forall x ensures (x in r[1..] <==> x != "" && exists q :: q in qs && QuestionTopicKey(q) == Some(x)) {
      if x != "" && exists q :: q in qs && QuestionTopicKey(q) == Some(x) {
        var q :| q in qs && QuestionTopicKey(q) == Some(x);
        var i :| 0 <= i < |qs| && qs[i] == q;
        assert keys[i] == Some(x);
      }
    }
  }

  /** The same for the concept dropdown and the concepts' chapter ids. */
  lemma UniqueConceptTopicsSpec(cs: seq<AdminConcept>)
    ensures var r := UniqueConceptTopics(cs);
      && r[0] == "All"
      && Distinct(r[1..])
      && (forall x :: x in r[1..] <==> x != "" && exists c :: c in cs && c.body.chapterId == Some(x))
    ensures var r, keys := UniqueConceptTopics(cs), Map(cs, ConceptChapter);
      forall i, j :: 1 <= i < j < |r| ==>
        Some(r[i]) in keys && Some(r[j]) in keys && FirstIndex(keys, Some(r[i])) < FirstIndex(keys, Some(r[j]))
  {
    var keys := Map(cs, ConceptChapter);
    DedupSpec(TruthyValues(keys));
    TopicsInFirstOccurrenceOrder(keys);
    var r := UniqueConceptTopics(cs);
    assert r[1..] == Dedup(TruthyValues(keys));
    forall x ensures (x in r[1..] <==> x != "" && exists c :: c in cs && c.body.chapterId == Some(x)) {
      if x != "" && exists c :: c in cs && c.body.chapterId == Some(x) {
        var c :| c in cs && c.body.chapterId == Some(x);
        var i :| 0 <= i < |cs| && cs[i] == c;
        assert keys[i] == Some(x);
      }
    }
  }

  // ---------------------------------------------------------------- filters

  /** `field?.toLowerCase().includes(search.toLowerCase())`: an absent field
      never matches. */
  predicate FieldMatches(field: Option<string>, search: string) {
    field.Some? && Contains(Lower(field.value), Lower(search))
  }

  /** The question table's row filter. */
  predicate QuestionVisible(q: AdminQuestion, search: string, topicFilter: string) {
    && (FieldMatches(q.body.question, search) || FieldMatches(q.body.subject, search))
    && (topicFilter == "All" || q.body.chapterId == Some(topicFilter) || q.body.topic == Some(topicFilter))
  }

  /** The concept table's row filter. */
  predicate ConceptVisible(c: AdminConcept, search: string, topicFilter: string) {
    && FieldMatches(c.body.title, search)
    && (topicFilter == "All" || c.body.chapterId == Some(topicFilter))
  }

  function FilteredQuestions(qs: seq<AdminQuestion>, search: string, topicFilter: string): seq<AdminQuestion>
  {
    Filter(qs, q => QuestionVisible(q, search, topicFilter))
  }

  function FilteredConcepts(cs: seq<AdminConcept>, search: string, topicFilter: string): seq<AdminConcept>
  {
    Filter(cs, c => ConceptVisible(c, search, topicFilter))
  }

  /** The visible questions are exactly the ones passing the row filter, in
      table order; with topic "All" and an empty search that is every
      question with a question text or a subject. */
  lemma FilteredQuestionsSpec(qs: seq<AdminQuestion>, search: string, topicFilter: string)
    ensures var r := FilteredQuestions(qs, search, topicFilter);
      && IsSubsequence(r, qs)
      && (forall q :: q in r <==> q in qs && QuestionVisible(q, search, topicFilter))
    ensures forall q :: q in FilteredQuestions(qs, "", "All") <==> q in qs && (q.body.question.Some? || q.body.subject.Some?)
  {
    FilterSpec(qs, q => QuestionVisible(q, search, topicFilter));
    FilterSpec(qs, q => QuestionVisible(q, "", "All"));
    forall q: AdminQuestion ensures QuestionVisible(q, "", "All") <==> q.body.question.Some? || q.body.subject.Some? {
      if q.body.question.Some? { ContainsEmpty(Lower(q.body.question.value)); }
      if q.body.subject.Some? { ContainsEmpty(Lower(q.body.subject.value)); }
    }
  }

  /** The search ignores case. */
  lemma SearchIgnoresCase(field: string, search: string)
    ensures FieldMatches(Some(field), search) == FieldMatches(Some(Lower(field)), Lower(search))
  {
    LowerIdempotent(field);
    LowerIdempotent(search);
  }

  lemma LowerIdempotent(s: string)
    ensures Lower(Lower(s)) == Lower(s)
  {
  }

  /** The visible concepts are exactly the ones passing the row filter, in
      table order; with topic "All" and an empty search that is every
      concept with a title. */
  lemma FilteredConceptsSpec(cs: seq<AdminConcept>, search: string, topicFilter: string)
    ensures var r := FilteredConcepts(cs, search, topicFilter);
      && IsSubsequence(r, cs)
      && (forall c :: c in r <==> c in cs && ConceptVisible(c, search, topicFilter))
    ensures forall c :: c in FilteredConcepts(cs, "", "All") <==> c in cs && c.body.title.Some?
  {
    FilterSpec(cs, c => ConceptVisible(c, search, topicFilter));
    FilterSpec(cs, c => ConceptVisible(c, "", "All"));
    forall c: AdminConcept ensures ConceptVisible(c, "", "All") <==> c.body.title.Some? {
      if c.body.title.Some? { ContainsEmpty(Lower(c.body.title.value)); }
    }
  }

  /** The header checkbox of the question table selects one id per visible
      row, in row order: exactly the ids of the questions that pass the
      search and the topic filter. */
  lemma SelectAllQuestionsSpec(qs: seq<AdminQuestion>, search: string, topicFilter: string)
    ensures var ids := Map(FilteredQuestions(qs, search, topicFilter), QuestionId);
      && |ids| == |FilteredQuestions(qs, search, topicFilter)|
      && IsSubsequence(ids, Map(qs, QuestionId))
      && forall id :: id in ids <==> exists q :: q in qs && QuestionVisible(q, search, topicFilter) && q.id == id
  {
    var f := FilteredQuestions(qs, search, topicFilter);
    var ids := Map(f, QuestionId);
    FilteredQuestionsSpec(qs, search, topicFilter);
    MapSubsequence(f, qs, QuestionId);
    forall id ensures id in ids <==> exists q :: q in qs && QuestionVisible(q, search, topicFilter) && q.id == id {
      if id in ids {
        var k :| 0 <= k < |ids| && ids[k] == id;
        assert f[k] in f;
      }
      if exists q :: q in qs && QuestionVisible(q, search, topicFilter) && q.id == id {
        var q :| q in qs && QuestionVisible(q, search, topicFilter) && q.id == id;
        var k :| 0 <= k < |f| && f[k] == q;
        assert ids[k] == id;
      }
    }
  }

  /** The same for the concept table. */
  lemma SelectAllConceptsSpec(cs: seq<AdminConcept>, search: string, topicFilter: string)
    ensures var ids := Map(FilteredConcepts(cs, search, topicFilter), ConceptId);
      && |ids| == |FilteredConcepts(cs, search, topicFilter)|
      && IsSubsequence(ids, Map(cs, ConceptId))
      && forall id :: id in ids <==> exists c :: c in cs && ConceptVisible(c, search, topicFilter) && c.id == id
  {
    var f := FilteredConcepts(cs, search, topicFilter);
    var ids := Map(f, ConceptId);
    FilteredConceptsSpec(cs, search, topicFilter);
    MapSubsequence(f, cs, ConceptId);
    forall id ensures id in ids <==> exists c :: c in cs && ConceptVisible(c, search, topicFilter) && c.id == id {
      if id in ids {
        var k :| 0 <= k < |ids| && ids[k] == id;
        assert f[k] in f;
      }
      if exists c :: c in cs && ConceptVisible(c, search, topicFilter) && c.id == id {
        var c :| c in cs && ConceptVisible(c, search, topicFilter) && c.id == id;
        var k :| 0 <= k < |f| && f[k] == c;
        assert ids[k] == id;
      }
    }
  }

  // ----------------------------------------------------------------- export

  function Body(q: AdminQuestion): QuestionBody { q.body }

  /** `q => selectedIds.includes(q.id)`. */
  function InSelection(selectedIds: seq<string>): AdminQuestion -> bool
  {
    (q: AdminQuestion) => q.id in selectedIds
  }

  /** `handleDownloadJSON`'s payload: the selected questions when something
      is selected, otherwise all of them, each without its `id`. */
  function ExportData(qs: seq<AdminQuestion>, selectedIds: seq<string>): seq<QuestionBody>
  {
    Map(if |selectedIds| > 0 then Filter(qs, InSelection(selectedIds)) else qs, Body)
  }

  /** Without a selection every question's record is exported, in table
      order; with one, exactly one record per question whose id is selected,
      in table order: the `k`-th record is the body of the `k`-th selected
      row, counted by position in the table. */
  lemma ExportDataSpec(qs: seq<AdminQuestion>, selectedIds: seq<string>)
    ensures |selectedIds| == 0 ==>
      |ExportData(qs, selectedIds)| == |qs| && forall i :: 0 <= i < |qs| ==> ExportData(qs, selectedIds)[i] == qs[i].body
    ensures |selectedIds| > 0 ==>
      && |ExportData(qs, selectedIds)| == Count(qs, InSelection(selectedIds))
      && IsSubsequence(ExportData(qs, selectedIds), Map(qs, Body))
      && (forall q :: q in qs && q.id in selectedIds ==> q.body in ExportData(qs, selectedIds))
      && (forall b :: b in ExportData(qs, selectedIds) ==> exists q :: q in qs && q.id in selectedIds && q.body == b)
    ensures |selectedIds| > 0 ==> exists idx ::
      && PassingPositions(qs, InSelection(selectedIds), 0, idx)
      && |idx| == |ExportData(qs, selectedIds)|
      && forall k :: 0 <= k < |idx| ==> ExportData(qs, selectedIds)[k] == qs[idx[k]].body
  {
    if |selectedIds| > 0 {
      ExportDataSelected(qs, selectedIds);
      ExportDataInTableOrder(qs, selectedIds);
    }
  }

  lemma ExportDataSelected(qs: seq<AdminQuestion>, selectedIds: seq<string>)
    requires |selectedIds| > 0
    ensures |ExportData(qs, selectedIds)| == Count(qs, InSelection(selectedIds))
    ensures IsSubsequence(ExportData(qs, selectedIds), Map(qs, Body))
    ensures forall q :: q in qs && q.id in selectedIds ==> q.body in ExportData(qs, selectedIds)
    ensures forall b :: b in ExportData(qs, selectedIds) ==> exists q :: q in qs && q.id in selectedIds && q.body == b
  {
    var f := Filter(qs, InSelection(selectedIds));
    FilterSpec(qs, InSelection(selectedIds));
    MapSubsequence(f, qs, Body);
    forall q | q in qs && q.id in selectedIds ensures q.body in ExportData(qs, selectedIds) {
      var i :| 0 <= i < |f| && f[i] == q;
      assert Map(f, Body)[i] == q.body;
    }
    forall b | b in ExportData(qs, selectedIds) ensures exists q :: q in qs && q.id in selectedIds && q.body == b {
      var i :| 0 <= i < |f| && Map(f, Body)[i] == b;
      assert f[i] in f;
    }
  }

  lemma ExportDataInTableOrder(qs: seq<AdminQuestion>, selectedIds: seq<string>)
    requires |selectedIds| > 0
    ensures exists idx ::
      && PassingPositions(qs, InSelection(selectedIds), 0, idx)
      && |idx| == |ExportData(qs, selectedIds)|
      && forall k :: 0 <= k < |idx| ==> ExportData(qs, selectedIds)[k] == qs[idx[k]].body
  {
    var f := Filter(qs, InSelection(selectedIds));
    FilterPositionsSpec(qs, InSelection(selectedIds), 0);
    assert qs[0..] == qs;
    var idx := FilterPositions(qs, InSelection(selectedIds), 0);
    assert ExportData(qs, selectedIds) == Map(f, Body);
    forall k | 0 <= k < |idx| ensures ExportData(qs, selectedIds)[k] == qs[idx[k]].body {
      assert f[k] == qs[idx[k]];
    }
  }

  // ------------------------------------------------------------- moderation

  /** A flagged-issue document; `status` may be absent. */
  datatype FlagIssue = FlagIssue(status: Option<string>)

  /** `doc.data().status !== "Resolved"`. */
  predicate Unresolved(i: FlagIssue) {
    i.status != Some("Resolved")
  }

  predicate Resolved(i: FlagIssue) {
    i.status == Some("Resolved")
  }

  /** The badge on the Flagged Issues tab. */
  function PendingFlagCount(issues: seq<FlagIssue>): nat
  {
    Count(issues, Unresolved)
  }

  /** The badge counts every issue that is not resolved, including those
      without a status: together with the resolved ones, that is all of
      them. */
  lemma PendingFlagCountSpec(issues: seq<FlagIssue>)
    ensures PendingFlagCount(issues) + Count(issues, Resolved) == |issues|
    ensures PendingFlagCount(issues) <= |issues|
    ensures (forall k :: 0 <= k < |issues| ==> issues[k].status != Some("Resolved")) ==> PendingFlagCount(issues) == |issues|
  {
    CountComplement(issues, Unresolved, Resolved);
    if forall k :: 0 <= k < |issues| ==> issues[k].status != Some("Resolved") {
      FilterAll(issues, Unresolved);
    }
  }

  /** A community post document. */
  datatype CommunityPost = CommunityPost(id: string, status: Option<string>, content: Option<string>)

  predicate IsPending(p: CommunityPost) {
    p.status == Some("pending")
  }

  function PendingPosts(posts: seq<CommunityPost>): seq<CommunityPost>
  {
    Filter(posts, IsPending)
  }

  /** The approval queue holds exactly the posts with status "pending", in
      fetched order. */
  lemma PendingPostsSpec(posts: seq<CommunityPost>)
    ensures forall p :: p in PendingPosts(posts) <==> p in posts && p.status == Some("pending")
    ensures IsSubsequence(PendingPosts(posts), posts)
  {
    FilterSpec(posts, IsPending);
  }

  /** The document an official MCQ post writes. */
  datatype OfficialPost = OfficialPost(
    authorName: string, authorRole: string, isVerified: bool, postType: string,
    content: string, options: seq<string>, correctAnswer: string, status: string)

  /** `handleCreateOfficialPost`'s decision: `None` when the question or an
      option is blank after trimming (the "fill all fields" alert),
      otherwise the post, whose answer is the chosen option. The radio
      buttons only offer indices of existing options. */
  function CreateOfficialPost(mcqQuestion: string, options: seq<string>, correctOption: nat): Option<OfficialPost>
    requires correctOption < |options|
  {
    if Trim(mcqQuestion) == "" || exists k :: 0 <= k < |options| && Trim(options[k]) == "" then None
    else Some(OfficialPost("PrepIQ", "admin", true, "mcq", mcqQuestion, options, options[correctOption], "approved"))
  }

  /** A post is rejected exactly when the question or some option consists of
      whitespace only; an accepted post's answer is one of its options. */
  lemma CreateOfficialPostSpec(mcqQuestion: string, options: seq<string>, correctOption: nat)
    requires correctOption < |options|
    ensures var r := CreateOfficialPost(mcqQuestion, options, correctOption);
      && (r.None? <==> AllWhitespace(mcqQuestion) || exists k :: 0 <= k < |options| && AllWhitespace(options[k]))
      && (r.Some? ==> r.value.correctAnswer in r.value.options && r.value.options == options
                      && r.value.content == mcqQuestion && r.value.status == "approved")
  {
    TrimEmptyIffAllWhitespace(mcqQuestion);
    forall k | 0 <= k < |options| ensures Trim(options[k]) == "" <==> AllWhitespace(options[k]) {
      TrimEmptyIffAllWhitespace(options[k]);
    }
  }
}
