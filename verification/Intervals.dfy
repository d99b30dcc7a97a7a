/** Half-open spans: comparing neighbours in sorted order decides whether any two of them meet. */
module Intervals {
  import Sorting

  datatype Span = Span(start: int, end: int)

  predicate ByStart(a: Span, b: Span) { a.start <= b.start }

  predicate Apart(a: Span, b: Span) { a.end <= b.start || b.end <= a.start }

  ghost predicate Proper(spans: seq<Span>) {
    forall k :: 0 <= k < |spans| ==> spans[k].start < spans[k].end
  }

  ghost predicate AllApart(spans: seq<Span>) {
    forall i, j :: 0 <= i < j < |spans| ==> Apart(spans[i], spans[j])
  }

  lemma ApartPermutation(a: seq<Span>, b: seq<Span>)
    requires multiset(a) == multiset(b) && Proper(a) && AllApart(a)
    ensures Proper(b) && AllApart(b)
  {
    Sorting.SameElements(a, b);
    forall i, j | 0 <= i < j < |a| ensures a[i] != a[j] {
      assert Apart(a[i], a[j]);
    }
    Sorting.DistinctPermutation(a, b);
    forall k | 0 <= k < |b| ensures b[k].start < b[k].end {
      assert b[k] in b && b[k] in a;
    }
    forall i, j | 0 <= i < j < |b| ensures Apart(b[i], b[j]) {
      assert b[i] in b && b[j] in b;
      var x :| 0 <= x < |a| && a[x] == b[i];
      var y :| 0 <= y < |a| && a[y] == b[j];
      assert x < y || y < x;
    }
  }

  lemma InLineApart(s: seq<Span>)
    requires Proper(s) && forall i :: 0 < i < |s| ==> s[i - 1].end <= s[i].start
    ensures AllApart(s)
  {
    forall i, j | 0 <= i < j < |s| ensures Apart(s[i], s[j]) {
      Onwards(s, i, j);
    }
  }

  lemma {:induction false} Onwards(s: seq<Span>, i: nat, j: nat)
    requires Proper(s) && forall k :: 0 < k < |s| ==> s[k - 1].end <= s[k].start
    requires i < j < |s|
    ensures s[i].end <= s[j].start
    decreases j
  {
    if i < j - 1 {
      Onwards(s, i, j - 1);
    }
  }

  lemma SortedSpans(spans: seq<Span>)
    requires Proper(spans)
    ensures var ordered := Sorting.Sort(spans, ByStart);
            Proper(ordered) && Sorting.Sorted(ordered, ByStart) && (AllApart(ordered) <==> AllApart(spans))
  {
    var ordered := Sorting.Sort(spans, ByStart);
    Sorting.SortSorted(spans, ByStart);
    Sorting.SameElements(spans, ordered);
    forall k | 0 <= k < |ordered| ensures ordered[k].start < ordered[k].end {
      assert ordered[k] in ordered && ordered[k] in spans;
    }
    if AllApart(spans) {
      ApartPermutation(spans, ordered);
    }
    if AllApart(ordered) {
      ApartPermutation(ordered, spans);
    }
  }

  method NeighboursApart(spans: seq<Span>) returns (apart: bool)
    requires Proper(spans)
    ensures apart <==> AllApart(spans)
  {
    var ordered := Sorting.Sort(spans, ByStart);
    SortedSpans(spans);
    hide Sorting.Sort;
    for i := 0 to |ordered|
      invariant forall k :: 0 < k < i ==> ordered[k - 1].end <= ordered[k].start
    {
      if i > 0 && ordered[i].start < ordered[i - 1].end {
        assert ByStart(ordered[i - 1], ordered[i]) && !Apart(ordered[i - 1], ordered[i]);
        return false;
      }
    }
    InLineApart(ordered);
    return true;
  }
}
