/** ASCII string helpers shared by the page and hook models: an Option type for
    JavaScript's undefined/null, character classes, the String methods the
    source uses (toLowerCase, toUpperCase, trim, split, join, startsWith,
    includes) and order-preserving filtering of arrays. */
module Text {

  /** A value that may be absent (undefined or null in the source). */
  datatype Option<T> = None | Some(value: T)

  /** JavaScript truthiness of an optional string: present and non-empty. */
  predicate Truthy(s: Option<string>) {
    s.Some? && s.value != ""
  }

  /** The ASCII members of the class matched by the regular expression `\s`. */
  predicate IsWhitespace(c: char) {
    c == ' ' || c == '\t' || c == '\n' || c == '\r' || c == '\U{000B}' || c == '\U{000C}'
  }

  predicate IsUpper(c: char) { 'A' <= c <= 'Z' }

  predicate IsLower(c: char) { 'a' <= c <= 'z' }

  function ToLowerChar(c: char): (r: char)
    ensures !IsUpper(r)
    ensures IsUpper(c) ==> IsLower(r)
    ensures !IsUpper(c) ==> r == c
  {
    if IsUpper(c) then (c as int + 32) as char else c
  }

  function ToUpperChar(c: char): (r: char)
    ensures !IsLower(r)
    ensures IsLower(c) ==> IsUpper(r)
    ensures !IsLower(c) ==> r == c
  {
    if IsLower(c) then (c as int - 32) as char else c
  }

  /** `String.prototype.toLowerCase`, restricted to A-Z. */
  function Lower(s: string): (r: string)
    ensures |r| == |s|
    ensures forall i :: 0 <= i < |s| ==> r[i] == ToLowerChar(s[i])
  {
    seq(|s|, i requires 0 <= i < |s| => ToLowerChar(s[i]))
  }

  /** `s.startsWith(p)`. */
  predicate StartsWith(s: string, p: string) {
    |p| <= |s| && s[..|p|] == p
  }

  /** `s.includes(sub)`. */
  predicate Contains(s: string, sub: string) {
    exists i :: 0 <= i <= |s| && StartsWith(s[i..], sub)
  }

  lemma ContainsEmpty(s: string)
    ensures Contains(s, "")
  {
    assert StartsWith(s[0..], "");
  }

  /** `s.split(sep)` for a one-character separator: always at least one
      piece, and the empty string splits into one empty piece. */
  function Split(s: string, sep: char): (r: seq<string>)
    ensures |r| >= 1
    decreases |s|
  {
    if |s| == 0 then [""]
    else
      var rest := Split(s[1..], sep);
      if s[0] == sep then [""] + rest
      else [[s[0]] + rest[0]] + rest[1..]
  }

  /** The first piece of a split is the longest separator-free prefix, and the
      remaining pieces are the split of what follows the first separator. */
  lemma {:induction false} SplitHead(s: string, sep: char)
    ensures var r := Split(s, sep);
      && |r[0]| <= |s|
      && sep !in r[0]
      && s[..|r[0]|] == r[0]
      && (|r[0]| == |s| ==> r == [s])
      && (|r[0]| < |s| ==> s[|r[0]|] == sep && r[1..] == Split(s[|r[0]| + 1..], sep))
    decreases |s|
  {
    if |s| > 0 {
      SplitHead(s[1..], sep);
      var rest := Split(s[1..], sep);
      if s[0] != sep {
        var r := Split(s, sep);
        assert r[0] == [s[0]] + rest[0];
        assert s[..|r[0]|] == [s[0]] + s[1..][..|rest[0]|];
        if |rest[0]| < |s[1..]| {
          assert s[1..][|rest[0]| + 1..] == s[|r[0]| + 1..];
        } else {
          assert rest == [s[1..]];
          assert r == [[s[0]] + s[1..]];
          assert [s[0]] + s[1..] == s;
        }
      }
    }
  }

  /** `parts.join([sep])`. */
  function Join(parts: seq<string>, sep: char): string
  {
    if |parts| == 0 then ""
    else if |parts| == 1 then parts[0]
    else parts[0] + [sep] + Join(parts[1..], sep)
  }

  /** `s.trim()` for the ASCII whitespace characters. */
  function Trim(s: string): string
  {
    TrimEnd(TrimStart(s))
  }

  function TrimStart(s: string): string
    decreases |s|
  {
    if |s| > 0 && IsWhitespace(s[0]) then TrimStart(s[1..]) else s
  }

  function TrimEnd(s: string): string
    decreases |s|
  {
    if |s| > 0 && IsWhitespace(s[|s| - 1]) then TrimEnd(s[..|s| - 1]) else s
  }

  predicate AllWhitespace(s: string) {
    forall i :: 0 <= i < |s| ==> IsWhitespace(s[i])
  }

  /** `!s.trim()`: a string is blank exactly when it consists of whitespace only. */
  lemma {:induction false} TrimEmptyIffAllWhitespace(s: string)
    ensures Trim(s) == "" <==> AllWhitespace(s)
  {
    TrimStartSpec(s);
    TrimEndEmptyOnlyIfEmpty(TrimStart(s));
  }

  lemma {:induction false} TrimStartSpec(s: string)
    ensures TrimStart(s) == "" <==> AllWhitespace(s)
    ensures TrimStart(s) != "" ==> !IsWhitespace(TrimStart(s)[0])
    decreases |s|
  {
    if |s| > 0 && IsWhitespace(s[0]) {
      TrimStartSpec(s[1..]);
      assert AllWhitespace(s) <==> AllWhitespace(s[1..]) by {
        if AllWhitespace(s[1..]) {
          forall i | 0 <= i < |s| ensures IsWhitespace(s[i]) {
            if i > 0 { assert s[i] == s[1..][i - 1]; }
          }
        }
      }
    }
  }

  lemma {:induction false} TrimEndEmptyOnlyIfEmpty(s: string)
    requires s == "" || !IsWhitespace(s[0])
    ensures TrimEnd(s) == "" <==> s == ""
    decreases |s|
  {
    if |s| > 1 && IsWhitespace(s[|s| - 1]) {
      TrimEndEmptyOnlyIfEmpty(s[..|s| - 1]);
    }
  }

  /** The elements of `s` that satisfy `p`, in their original order
      (`Array.prototype.filter`). */
  function Filter<T>(s: seq<T>, p: T -> bool): (r: seq<T>)
    ensures |r| <= |s|
  {
    if |s| == 0 then []
    else if p(s[0]) then [s[0]] + Filter(s[1..], p)
    else Filter(s[1..], p)
  }

  /** `a` is `b` with some elements left out, the rest in order. */
  predicate IsSubsequence<T(==)>(a: seq<T>, b: seq<T>)
    decreases |b|
  {
    if |a| == 0 then true
    else if |b| == 0 then false
    else if a[0] == b[0] then IsSubsequence(a[1..], b[1..])
    else IsSubsequence(a, b[1..])
  }

  /** Filtering keeps exactly the elements that satisfy the predicate and
      keeps them in order. */
  lemma {:induction false} FilterSpec<T>(s: seq<T>, p: T -> bool)
    ensures forall x :: x in Filter(s, p) <==> x in s && p(x)
    ensures IsSubsequence(Filter(s, p), s)
    ensures forall x :: multiset(Filter(s, p))[x] == if p(x) then multiset(s)[x] else 0
  {
    if |s| > 0 {
      FilterSpec(s[1..], p);
      var f := Filter(s[1..], p);
      assert s == [s[0]] + s[1..];
      assert multiset(s) == multiset{s[0]} + multiset(s[1..]);
      if p(s[0]) {
        assert multiset(Filter(s, p)) == multiset{s[0]} + multiset(f);
      }
      if !p(s[0]) && |f| > 0 {
        assert f[0] in f;
        assert f[0] != s[0];
      }
    }
  }

  /** `idx` lists, in increasing order, exactly the positions of `s` at or
      after `from` whose elements satisfy `p`. */
  predicate PassingPositions<T>(s: seq<T>, p: T -> bool, from: nat, idx: seq<int>) {
    && (forall k :: 0 <= k < |idx| ==> from <= idx[k] < |s| && p(s[idx[k]]))
    && (forall k, l :: 0 <= k < l < |idx| ==> idx[k] < idx[l])
    && (forall i :: from <= i < |s| && p(s[i]) ==> i in idx)
  }

  /** The positions at or after `from` whose elements pass the filter. */
  function FilterPositions<T>(s: seq<T>, p: T -> bool, from: nat): seq<int>
    requires from <= |s|
    decreases |s| - from
  {
    if from == |s| then []
    else if p(s[from]) then [from] + FilterPositions(s, p, from + 1)
    else FilterPositions(s, p, from + 1)
  }

  /** The `k`-th element that `filter` keeps is the element at the `k`-th
      passing position, so the output follows the input's positions and not
      only its values. */
  lemma {:induction false} FilterPositionsSpec<T>(s: seq<T>, p: T -> bool, from: nat)
    requires from <= |s|
    ensures var idx := FilterPositions(s, p, from);
      && PassingPositions(s, p, from, idx)
      && |idx| == |Filter(s[from..], p)|
      && forall k :: 0 <= k < |idx| ==> Filter(s[from..], p)[k] == s[idx[k]]
    decreases |s| - from
  {
    if from < |s| {
      FilterPositionsSpec(s, p, from + 1);
      var rest := FilterPositions(s, p, from + 1);
      var f := Filter(s[from + 1..], p);
      assert s[from..][1..] == s[from + 1..];
      assert s[from..][0] == s[from];
      if p(s[from]) {
        assert Filter(s[from..], p) == [s[from]] + f;
        PassingPositionsCons(s, p, from, rest);
      } else {
        assert Filter(s[from..], p) == f;
        PassingPositionsSkip(s, p, from, rest);
      }
    }
  }

  lemma PassingPositionsCons<T>(s: seq<T>, p: T -> bool, from: nat, rest: seq<int>)
    requires from < |s| && p(s[from]) && PassingPositions(s, p, from + 1, rest)
    ensures PassingPositions(s, p, from, [from] + rest)
  {
    var idx := [from] + rest;
    forall i | from <= i < |s| && p(s[i]) ensures i in idx {
      if i > from { assert i in rest; }
    }
  }

  lemma PassingPositionsSkip<T>(s: seq<T>, p: T -> bool, from: nat, rest: seq<int>)
    requires from < |s| && !p(s[from]) && PassingPositions(s, p, from + 1, rest)
    ensures PassingPositions(s, p, from, rest)
  {
  }

  /** Some increasing list of passing positions, covering all of them, reads
      off the filter's output element by element. */
  lemma FilterByPositions<T>(s: seq<T>, p: T -> bool)
    ensures exists idx ::
      && PassingPositions(s, p, 0, idx)
      && |idx| == |Filter(s, p)|
      && forall k :: 0 <= k < |idx| ==> Filter(s, p)[k] == s[idx[k]]
  {
    FilterPositionsSpec(s, p, 0);
    assert s[0..] == s;
    var idx := FilterPositions(s, p, 0);
    assert PassingPositions(s, p, 0, idx);
  }

  /** A filter that rejects nothing returns its input. */
  lemma {:induction false} FilterAll<T>(s: seq<T>, p: T -> bool)
    requires forall i :: 0 <= i < |s| ==> p(s[i])
    ensures Filter(s, p) == s
  {
    if |s| > 0 {
      FilterAll(s[1..], p);
      assert s == [s[0]] + s[1..];
    }
  }

  /** Filtering distributes over concatenation. */
  lemma {:induction false} FilterAppend<T>(a: seq<T>, b: seq<T>, p: T -> bool)
    ensures Filter(a + b, p) == Filter(a, p) + Filter(b, p)
  {
    if |a| > 0 {
      FilterAppend(a[1..], b, p);
      assert (a + b)[1..] == a[1..] + b;
    } else {
      assert a + b == b;
    }
  }

  /** `s.map(f)`. */
  function Map<A, B>(s: seq<A>, f: A -> B): (r: seq<B>)
    ensures |r| == |s| && forall i :: 0 <= i < |s| ==> r[i] == f(s[i])
  {
    seq(|s|, i requires 0 <= i < |s| => f(s[i]))
  }

  /** Mapping keeps a subsequence a subsequence. */
  lemma {:induction false} MapSubsequence<A, B>(a: seq<A>, b: seq<A>, f: A -> B)
    requires IsSubsequence(a, b)
    ensures IsSubsequence(Map(a, f), Map(b, f))
    decreases |b|
  {
    var ma, mb := Map(a, f), Map(b, f);
    if |a| > 0 {
      assert ma[1..] == Map(a[1..], f);
      assert mb[1..] == Map(b[1..], f);
      if a[0] == b[0] {
        MapSubsequence(a[1..], b[1..], f);
      } else {
        MapSubsequence(a, b[1..], f);
        SubsequenceCons(ma, mb);
      }
    }
  }

  /** A subsequence of the tail is a subsequence of the whole. */
  lemma {:induction false} SubsequenceCons<T>(a: seq<T>, b: seq<T>)
    requires |b| > 0 && IsSubsequence(a, b[1..])
    ensures IsSubsequence(a, b)
    decreases |b|, 0
  {
    if |a| > 0 && a[0] == b[0] {
      SubsequenceDropHead(a, b[1..]);
    }
  }

  /** Dropping the first element of a subsequence keeps it a subsequence. */
  lemma {:induction false} SubsequenceDropHead<T>(a: seq<T>, b: seq<T>)
    requires |a| > 0 && IsSubsequence(a, b)
    ensures IsSubsequence(a[1..], b)
    decreases |b|, 1
  {
    if a[0] == b[0] {
      SubsequenceCons(a[1..], b);
    } else {
      SubsequenceDropHead(a, b[1..]);
      SubsequenceCons(a[1..], b);
    }
  }

  /** The number of elements satisfying `p` (a filter's length). */
  function Count<T>(s: seq<T>, p: T -> bool): nat
  {
    |Filter(s, p)|
  }

  /** Every element satisfies exactly one of two complementary predicates. */
  lemma {:induction false} CountComplement<T>(s: seq<T>, p: T -> bool, q: T -> bool)
    requires forall x :: q(x) == !p(x)
    ensures Count(s, p) + Count(s, q) == |s|
  {
    if |s| > 0 {
      CountComplement(s[1..], p, q);
    }
  }
}
