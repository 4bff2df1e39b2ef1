/** The concept reader of src/pages/LearnTopicPage.tsx: the display name of a
    topic id, the subject lookup used to query concepts, the defaulting and
    in-place ordering of fetched page records, the two fallback pages, and
    the page-turning state. */
module LearnTopic {
  import opened Text
  import Decimal

  /** `w.charAt(0).toUpperCase() + w.slice(1)`. */
  function Capitalize(w: string): string
  {
    if |w| == 0 then "" else [ToUpperChar(w[0])] + w[1..]
  }

  /** `topicId.split('-').map(capitalize).join(' ')`, with "Topic" for a
      missing or empty id. The same expression names the topic in
      src/pages/PracticeSessionPage.tsx. */
  function TopicName(topicId: Option<string>): string
  {
    if !Truthy(topicId) then "Topic" else TitleCase(topicId.value)
  }

  function TitleCase(s: string): string
  {
    Join(Caps(Split(s, '-')), ' ')
  }

  /** `words.map(capitalize)`. */
  function Caps(words: seq<string>): (r: seq<string>)
    ensures |r| == |words|
  {
    if |words| == 0 then [] else [Capitalize(words[0])] + Caps(words[1..])
  }

  lemma CapitalizeSpec(w: string)
    ensures |Capitalize(w)| == |w|
    ensures forall i :: 0 <= i < |w| ==> Capitalize(w)[i] == if i == 0 then ToUpperChar(w[0]) else w[i]
  {
  }

  /** What `TitleCase` does to the character at `i`: a dash becomes a space,
      the first character of every word is upper-cased, and everything else
      is kept. */
  function TitleAt(s: string, i: nat): char
    requires i < |s|
  {
    if s[i] == '-' then ' '
    else if i == 0 || s[i - 1] == '-' then ToUpperChar(s[i])
    else s[i]
  }

  /** A name splits at its first dash: the capitalized first word, a space,
      and the name of the rest. */
  lemma TitleCaseUnfold(s: string) returns (w: string, rest: string)
    ensures s == w + "-" + rest || (s == w && rest == "")
    ensures '-' !in w
    ensures s == w ==> TitleCase(s) == Capitalize(w)
    ensures s != w ==> TitleCase(s) == Capitalize(w) + " " + TitleCase(rest) && |rest| < |s|
  {
    SplitHead(s, '-');
    var words := Split(s, '-');
    w := words[0];
    if |w| == |s| {
      rest := "";
      assert s == w;
    } else {
      rest := s[|w| + 1..];
      assert s == w + "-" + rest;
      var tail := Split(rest, '-');
      assert words == [w] + tail;
      assert Caps(words) == [Capitalize(w)] + Caps(tail);
    }
  }

  /** The topic name has the id's length and is the id with dashes turned into
      spaces and each word's first letter upper-cased. */
  lemma {:induction false} TitleCaseSpec(s: string)
    ensures |TitleCase(s)| == |s|
    ensures forall i :: 0 <= i < |s| ==> TitleCase(s)[i] == TitleAt(s, i)
    decreases |s|
  {
    var w, rest := TitleCaseUnfold(s);
    CapitalizeSpec(w);
    if s == w {
      forall i | 0 <= i < |s| ensures TitleCase(s)[i] == TitleAt(s, i) {
        assert s[i] in w;
        if i > 0 { assert s[i - 1] in w; }
      }
    } else {
      TitleCaseSpec(rest);
      var t := TitleCase(s);
      forall i | 0 <= i < |s| ensures t[i] == TitleAt(s, i) {
        if i < |w| {
          assert s[i] == w[i] && s[i] in w;
          if i > 0 { assert s[i - 1] == w[i - 1] && s[i - 1] in w; }
        } else if i > |w| {
          assert s[i] == rest[i - |w| - 1];
          assert t[i] == TitleCase(rest)[i - |w| - 1];
          if i - |w| - 1 > 0 { assert s[i - 1] == rest[i - |w| - 2]; }
        }
      }
    }
  }

  /** The topic name of a present, non-empty id keeps its length, turns every
      dash into a space and every word's first letter into upper case;
      without an id it is "Topic". */
  lemma TopicNameSpec(topicId: Option<string>)
    ensures !Truthy(topicId) ==> TopicName(topicId) == "Topic"
    ensures Truthy(topicId) ==> var s := topicId.value;
      && |TopicName(topicId)| == |s|
      && forall i :: 0 <= i < |s| ==> TopicName(topicId)[i] == TitleAt(s, i)
  {
    if Truthy(topicId) {
      TitleCaseSpec(topicId.value);
    }
  }

  /** The short subject ids of the URL and the subject names stored with the
      concepts. */
  const SubjectMap: map<string, string> := map[
    "maths" := "Mathematics",
    "reasoning" := "Reasoning",
    "english" := "English",
    "gk" := "General Knowledge",
    "current-affairs" := "Current Affairs",
    "science-tech" := "Science & Tech",
    "computer" := "Computer"
  ]

  /** `subjectId ? (subjectMap[subjectId] || subjectId) : "Mathematics"`. */
  function SubjectName(subjectId: Option<string>): string
  {
    if !Truthy(subjectId) then "Mathematics"
    else if subjectId.value in SubjectMap then SubjectMap[subjectId.value]
    else subjectId.value
  }

  /** Known ids map to their stored names, unknown ids pass through, a
      missing id means Mathematics; the name is never empty. */
  lemma SubjectNameSpec(subjectId: Option<string>)
    ensures !Truthy(subjectId) ==> SubjectName(subjectId) == "Mathematics"
    ensures Truthy(subjectId) && subjectId.value in SubjectMap ==>
      SubjectName(subjectId) == SubjectMap[subjectId.value]
    ensures Truthy(subjectId) && subjectId.value !in SubjectMap ==>
      SubjectName(subjectId) == subjectId.value
    ensures SubjectName(Some("maths")) == "Mathematics" && SubjectName(Some("gk")) == "General Knowledge"
    ensures SubjectName(subjectId) != ""
  {
  }

  /** A concept document as stored: every field may be absent. */
  datatype ConceptDoc = ConceptDoc(
    id: Option<string>,
    pageNumber: Option<int>,
    title: Option<string>,
    content: Option<string>,
    proTip: Option<string>)

  /** A page as the reader shows it; the fallback pages have no `id`, and
      `proTip` None is `null`. */
  datatype ConceptPage = ConceptPage(id: Option<string>, pageNumber: int, title: string, content: string, proTip: Option<string>)

  /** The record built for the `index`-th document with id `docId`. The
      document's own fields are spread after the defaults, so a default only
      applies where the document lacks the field. */
  function NormalizePage(docId: string, d: ConceptDoc, index: nat): ConceptPage
  {
    ConceptPage(
      if d.id.Some? then d.id else Some(docId),
      if d.pageNumber.Some? then d.pageNumber.value else index + 1,
      if d.title.Some? then d.title.value else "Concept " + Decimal.NatToString(index + 1),
      if d.content.Some? then d.content.value else "",
      d.proTip)
  }

  /** A present field always wins over its default, even a falsy one. */
  lemma NormalizePageSpec(docId: string, d: ConceptDoc, index: nat)
    ensures var p := NormalizePage(docId, d, index);
      && (d.pageNumber.Some? ==> p.pageNumber == d.pageNumber.value)
      && (d.pageNumber.None? ==> p.pageNumber == index + 1)
      && (d.title.Some? ==> p.title == d.title.value)
      && (d.title.None? ==> p.title == "Concept " + Decimal.NatToString(index + 1))
      && (d.content.Some? ==> p.content == d.content.value)
      && (d.content.None? ==> p.content == "")
      && p.id == (if d.id.Some? then d.id else Some(docId))
      && p.proTip == d.proTip
      && NormalizePage(docId, ConceptDoc(d.id, Some(0), d.title, d.content, d.proTip), index).pageNumber == 0
  {
  }

  /** The record of every fetched document, in fetched order. */
  function NormalizeAll(docIds: seq<string>, docs: seq<ConceptDoc>): (r: seq<ConceptPage>)
    requires |docIds| == |docs|
    ensures |r| == |docs|
  {
    seq(|docs|, i requires 0 <= i < |docs| => NormalizePage(docIds[i], docs[i], i))
  }

  /** Ascending by page number. */
  predicate SortedByPage(s: seq<ConceptPage>)
  {
    forall i, j :: 0 <= i < j < |s| ==> s[i].pageNumber <= s[j].pageNumber
  }

  /** `data.sort((a, b) => a.pageNumber - b.pageNumber)`, done in place by
      insertion. */
  method SortByPage(a: array<ConceptPage>)
    modifies a
    ensures SortedByPage(a[..])
    ensures multiset(a[..]) == multiset(old(a[..]))
  {
    var i := 0;
    while i < a.Length
      invariant 0 <= i <= a.Length
      invariant SortedByPage(a[..i])
      invariant multiset(a[..]) == multiset(old(a[..]))
    {
      InsertLast(a, i);
      i := i + 1;
    }
    assert a[..a.Length] == a[..];
  }

  /** One insertion step: moves `a[i]` left past every larger page number, so
      that the prefix of length `i + 1` becomes sorted. */
  method InsertLast(a: array<ConceptPage>, i: nat)
    requires i < a.Length
    requires SortedByPage(a[..i])
    modifies a
    ensures SortedByPage(a[..i + 1])
    ensures multiset(a[..]) == multiset(old(a[..]))
  {
    var j := i;
    while j > 0 && a[j - 1].pageNumber > a[j].pageNumber
      invariant 0 <= j <= i
      invariant forall k, l :: 0 <= k < l <= i && l != j ==> a[k].pageNumber <= a[l].pageNumber
      invariant multiset(a[..]) == multiset(old(a[..]))
    {
      a[j - 1], a[j] := a[j], a[j - 1];
      j := j - 1;
    }
  }

  const IntroTip := "Always focus on the 'Why' before the 'How'. Memorizing formulas without understanding the underlying concept often leads to mistakes in tricky questions."
  const RulesTip := "Try to derive the formula by yourself. It builds strong muscle memory."

  /** The two pages shown when there is nothing to read. Their HTML bodies are
      abbreviated here to the sentences that name the topic. */
  function GenerateMockPages(topicName: string): (r: seq<ConceptPage>)
    ensures |r| == 2 && r[0].pageNumber == 1 && r[1].pageNumber == 2
    ensures SortedByPage(r)
    ensures r[0].title == "Introduction to " + topicName && r[1].title == "Formulas and Rules"
    ensures r[0].id.None? && r[1].id.None?
  {
    [
      ConceptPage(None, 1, "Introduction to " + topicName,
        "Welcome to the comprehensive guide on " + topicName + ".",
        Some(IntroTip)),
      ConceptPage(None, 2, "Formulas and Rules",
        "Here are the standard rules governing " + topicName + ".",
        Some(RulesTip))
    ]
  }

  /** The pages the reader gets from the concept query: `None` is a failed
      query. A failure or an empty result gives the two fallback pages;
      otherwise the defaulted records, sorted by page number. */
  method FetchedPages(fetched: Option<(seq<string>, seq<ConceptDoc>)>, topicName: string)
    returns (pages: seq<ConceptPage>)
    requires fetched.Some? ==> |fetched.value.0| == |fetched.value.1|
    ensures fetched.None? || |fetched.value.1| == 0 ==> pages == GenerateMockPages(topicName)
    ensures fetched.Some? && |fetched.value.1| > 0 ==>
      && SortedByPage(pages)
      && multiset(pages) == multiset(NormalizeAll(fetched.value.0, fetched.value.1))
  {
    if fetched.None? || |fetched.value.1| == 0 {
      pages := GenerateMockPages(topicName);
    } else {
      var data := NormalizeAll(fetched.value.0, fetched.value.1);
      var a := new ConceptPage[|data|](i requires 0 <= i < |data| => data[i]);
      assert a[..] == data;
      SortByPage(a);
      pages := a[..];
    }
  }

  /** The reader's state cells: the loaded pages, the 1-based current page and
      the direction of the last turn (for the slide animation). */
  class ConceptReader {
    var pages: seq<ConceptPage>
    var currentPage: int
    var direction: int

    constructor ()
      ensures pages == [] && currentPage == 1 && direction == 0
    {
      pages := [];
      currentPage := 1;
      direction := 0;
    }

    /** The current page is one of the loaded pages. */
    predicate OnAPage()
      reads this
    {
      1 <= currentPage <= |pages|
    }

    /** The fetch effect: store the pages and go back to page 1. */
    method SetPages(loaded: seq<ConceptPage>)
      modifies this
      ensures pages == loaded && currentPage == 1 && direction == old(direction)
      ensures OnAPage() <==> |loaded| > 0
    {
      pages := loaded;
      currentPage := 1;
    }

    /** `paginate(d)`: turns to `currentPage + d` only if that page exists;
        otherwise nothing changes. */
    method Paginate(d: int)
      modifies this
      ensures 1 <= old(currentPage) + d <= |pages| ==> currentPage == old(currentPage) + d && direction == d
      ensures !(1 <= old(currentPage) + d <= |pages|) ==> currentPage == old(currentPage) && direction == old(direction)
      ensures old(OnAPage()) ==> OnAPage()
      ensures pages == old(pages)
    {
      var newPage := currentPage + d;
      if 1 <= newPage <= |pages| {
        direction := d;
        currentPage := newPage;
      }
    }

    /** `goToPage(page)`: jumps to `page`; the direction is 1 for a later page
        and -1 otherwise, the same page included. */
    method GoToPage(page: int)
      modifies this
      ensures currentPage == page
      ensures direction == (if page > old(currentPage) then 1 else -1)
      ensures page == old(currentPage) ==> direction == -1
      ensures pages == old(pages)
    {
      direction := if page > currentPage then 1 else -1;
      currentPage := page;
    }
  }
}
