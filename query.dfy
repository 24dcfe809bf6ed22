/** The two ways the views read a collection of the store: a filter that
    keeps, in store order, the records satisfying a condition, and the
    position of the first record satisfying it.  Sequence order stands in
    for the order in which the store yields records. */
module Query {

  /** The records of `s` that satisfy `p`, in their original order. */
  function Filter<T(==,!new)>(s: seq<T>, p: T -> bool): (r: seq<T>)
    ensures |r| <= |s|
    ensures forall i :: 0 <= i < |r| ==> p(r[i])
    ensures forall x :: x in r <==> x in s && p(x)
    ensures r == [] <==> forall i :: 0 <= i < |s| ==> !p(s[i])
  {
    if s == [] then []
    else if p(s[0]) then [s[0]] + Filter(s[1..], p)
    else Filter(s[1..], p)
  }

  /** Filtering keeps every copy of a record that satisfies `p` and no copy
      of one that does not. */
  lemma {:induction false} FilterCount<T(!new)>(s: seq<T>, p: T -> bool, x: T)
    ensures multiset(Filter(s, p))[x] == if p(x) then multiset(s)[x] else 0
  {
    if s != [] {
      assert s == [s[0]] + s[1..];
      FilterCount(s[1..], p, x);
    }
  }

  /** Position of the first record of `s` satisfying `p`; `|s|` when none does. */
  function FirstMatch<T>(s: seq<T>, p: T -> bool): (i: nat)
    ensures i <= |s|
    ensures i < |s| ==> p(s[i])
    ensures forall j :: 0 <= j < i ==> !p(s[j])
  {
    if s == [] then 0
    else if p(s[0]) then 0
    else 1 + FirstMatch(s[1..], p)
  }

  /** Appending a matching record to a collection with no match makes it
      the first match. */
  lemma FirstMatchOfAppended<T>(s: seq<T>, x: T, p: T -> bool)
    requires forall j :: 0 <= j < |s| ==> !p(s[j])
    requires p(x)
    ensures FirstMatch(s + [x], p) == |s|
  {
    assert (s + [x])[|s|] == x;
  }

  /** Replacing a record by one that satisfies `p` exactly when it did
      leaves the first match where it was. */
  lemma {:induction false} FirstMatchOfUpdated<T>(s: seq<T>, k: nat, y: T, p: T -> bool)
    requires k < |s| && p(y) == p(s[k])
    ensures FirstMatch(s[k := y], p) == FirstMatch(s, p)
  {
    var t := s[k := y];
    if k == 0 {
      assert t[1..] == s[1..];
    } else if !p(s[0]) {
      assert t[1..] == s[1..][k - 1 := y];
      FirstMatchOfUpdated(s[1..], k - 1, y, p);
    }
  }

  /** The head of a filtered query is the first matching record of the
      whole collection, and the query is non-empty exactly when one matches. */
  lemma {:induction false} FilterHead<T(!new)>(s: seq<T>, p: T -> bool)
    ensures (|Filter(s, p)| > 0) == (FirstMatch(s, p) < |s|)
    ensures |Filter(s, p)| > 0 ==> Filter(s, p)[0] == s[FirstMatch(s, p)]
  {
    if s != [] && !p(s[0]) {
      FilterHead(s[1..], p);
    }
  }

  /** Filtering distributes over concatenation. */
  lemma {:induction false} FilterAppend<T(!new)>(s: seq<T>, t: seq<T>, p: T -> bool)
    ensures Filter(s + t, p) == Filter(s, p) + Filter(t, p)
  {
    if s == [] {
      assert s + t == t;
    } else {
      assert (s + t)[0] == s[0];
      assert (s + t)[1..] == s[1..] + t;
      FilterAppend(s[1..], t, p);
    }
  }

  /** Filtering a collection whose every record matches returns it whole. */
  lemma {:induction false} FilterAll<T(!new)>(s: seq<T>, p: T -> bool)
    requires forall i :: 0 <= i < |s| ==> p(s[i])
    ensures Filter(s, p) == s
  {
    if s != [] {
      FilterAll(s[1..], p);
    }
  }

  /** Scanning a pre-filtered collection for the first record satisfying `q`
      finds the same record as scanning the whole collection for the first
      record satisfying both conditions. */
  lemma {:induction false} FirstMatchOfFilter<T(!new)>(s: seq<T>, p: T -> bool, q: T -> bool, pq: T -> bool)
    requires forall x :: pq(x) == (p(x) && q(x))
    ensures (FirstMatch(Filter(s, p), q) < |Filter(s, p)|) == (FirstMatch(s, pq) < |s|)
    ensures FirstMatch(Filter(s, p), q) < |Filter(s, p)| ==>
              Filter(s, p)[FirstMatch(Filter(s, p), q)] == s[FirstMatch(s, pq)]
  {
    if s != [] {
      FirstMatchOfFilter(s[1..], p, q, pq);
      if p(s[0]) {
        var f := Filter(s, p);
        assert f == [s[0]] + Filter(s[1..], p);
        assert f[1..] == Filter(s[1..], p);
      }
    }
  }
}
