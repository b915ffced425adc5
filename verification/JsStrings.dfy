/** The JavaScript string operations the dashboard and the ingest server rely on. */
module JsStrings {
  import opened Basics

  /** s.slice(0, end) with an integer end: a negative end counts from the back. */
  function Slice(s: string, end: int): (r: string)
    ensures |r| <= |s| && (end >= 0 ==> |r| == Min(|s|, end))
  {
    if end >= 0 then s[..Min(|s|, end)] else s[..Max(|s| + end, 0)]
  }

  /** s.lastIndexOf(c), -1 if absent. */
  function LastIndexOf(s: string, c: char): (i: int)
    ensures -1 <= i < |s|
    ensures i >= 0 ==> s[i] == c
    ensures forall j :: i < j < |s| ==> s[j] != c
  {
    if s == "" then -1
    else if s[|s| - 1] == c then |s| - 1
    else LastIndexOf(s[..|s| - 1], c)
  }

  /** The order of Array.prototype.sort on strings: by code unit, a prefix first. */
  predicate Before(a: string, b: string) {
    if a == "" then true
    else if b == "" then false
    else if a[0] == b[0] then Before(a[1..], b[1..])
    else a[0] < b[0]
  }

  lemma {:induction false} BeforeTotal(a: string, b: string)
    ensures Before(a, b) || Before(b, a)
  {
    if a != "" && b != "" && a[0] == b[0] {
      BeforeTotal(a[1..], b[1..]);
    }
  }

  lemma {:induction false} BeforeTransitive(a: string, b: string, c: string)
    requires Before(a, b) && Before(b, c)
    ensures Before(a, c)
  {
    if a != "" && b != "" && c != "" && a[0] == b[0] == c[0] {
      BeforeTransitive(a[1..], b[1..], c[1..]);
    }
  }

  predicate Sorted(s: seq<string>) {
    forall i, j :: 0 <= i < j < |s| ==> Before(s[i], s[j])
  }

  function Insert(s: seq<string>, x: string): seq<string> {
    if s == [] || Before(s[|s| - 1], x) then s + [x] else Insert(s[..|s| - 1], x) + [s[|s| - 1]]
  }

  function Sort(s: seq<string>): seq<string> {
    if s == [] then [] else Insert(Sort(s[..|s| - 1]), s[|s| - 1])
  }

  lemma {:induction false} InsertAdds(s: seq<string>, x: string)
    ensures multiset(Insert(s, x)) == multiset(s) + multiset{x}
  {
    if !(s == [] || Before(s[|s| - 1], x)) {
      InsertAdds(s[..|s| - 1], x);
      assert s == s[..|s| - 1] + [s[|s| - 1]];
    }
  }

  lemma {:induction false} InsertSorts(s: seq<string>, x: string)
    requires Sorted(s)
    ensures Sorted(Insert(s, x))
    ensures forall y :: (Before(x, y) && (s != [] ==> Before(s[|s| - 1], y))) ==>
              forall i :: 0 <= i < |Insert(s, x)| ==> Before(Insert(s, x)[i], y)
  {
    if s == [] || Before(s[|s| - 1], x) {
      forall i, y | 0 <= i < |s| && Before(s[|s| - 1], y) ensures Before(s[i], y) {
        if i < |s| - 1 {
          BeforeTransitive(s[i], s[|s| - 1], y);
        }
      }
    } else {
      var init, last := s[..|s| - 1], s[|s| - 1];
      InsertSorts(init, x);
      BeforeTotal(last, x);
      assert Insert(s, x) == Insert(init, x) + [last];
      forall i, y | 0 <= i < |Insert(init, x)| && Before(last, y) ensures Before(Insert(init, x)[i], y) {
        BeforeTransitive(Insert(init, x)[i], last, y);
      }
    }
  }

  /** sort() orders the strings and keeps each as often as it occurred. */
  lemma {:induction false} SortSorts(s: seq<string>)
    ensures Sorted(Sort(s)) && multiset(Sort(s)) == multiset(s)
  {
    if s != [] {
      var init, last := s[..|s| - 1], s[|s| - 1];
      SortSorts(init);
      InsertSorts(Sort(init), last);
      InsertAdds(Sort(init), last);
      assert s == init + [last];
    }
  }

  predicate Distinct(s: seq<string>) {
    forall i, j :: 0 <= i < j < |s| ==> s[i] != s[j]
  }

  lemma {:induction false} DistinctCounts(s: seq<string>, x: string)
    requires Distinct(s)
    ensures multiset(s)[x] == if x in s then 1 else 0
  {
    if s != [] {
      var init, last := s[..|s| - 1], s[|s| - 1];
      assert s == init + [last];
      DistinctCounts(init, x);
    }
  }

  lemma {:induction false} CountsDistinct(s: seq<string>)
    requires forall x :: multiset(s)[x] <= 1
    ensures Distinct(s)
  {
    if s != [] {
      var init, last := s[..|s| - 1], s[|s| - 1];
      assert s == init + [last];
      assert multiset(s) == multiset(init) + multiset{last};
      forall x ensures multiset(init)[x] <= 1 {
        assert multiset(s)[x] <= 1;
      }
      CountsDistinct(init);
      assert multiset(s)[last] <= 1;
      assert last !in multiset(init);
    }
  }

  /** Sorting a set of strings gives each of them once. */
  lemma SortMembers(s: seq<string>)
    requires Distinct(s)
    ensures (forall x :: x in Sort(s) <==> x in s) && Distinct(Sort(s))
  {
    SortSorts(s);
    var t := Sort(s);
    forall x ensures (x in t <==> x in s) && multiset(t)[x] <= 1 {
      DistinctCounts(s, x);
      assert x in t <==> x in multiset(t);
    }
    CountsDistinct(t);
  }

  lemma {:induction false} SortedStays(s: seq<string>)
    requires Sorted(s)
    ensures Sort(s) == s
  {
    if s != [] {
      var init, last := s[..|s| - 1], s[|s| - 1];
      SortedStays(init);
      assert s == init + [last];
    }
  }

  lemma {:induction false} BeforeAfterPrefix(prefix: string, a: string, b: string)
    ensures Before(prefix + a, prefix + b) == Before(a, b)
  {
    if prefix == "" {
      assert prefix + a == a && prefix + b == b;
    } else {
      BeforeAfterPrefix(prefix[1..], a, b);
      assert (prefix + a)[1..] == prefix[1..] + a && (prefix + b)[1..] == prefix[1..] + b;
    }
  }
}
