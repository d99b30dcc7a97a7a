/**
 When taking the first free claim is optimal (scripts/evaluate-extraction.ts): exactly for the lists in which, of two
 claims that some draft matches both, the later one accepts whatever the earlier one does.
 */
module GreedyMatching {
  import opened Wrappers
  import opened UnicodeText
  import opened TextOrder
  import opened ExtractionScore
  import Sorting

  /** Some draft matches both claims. */
  ghost predicate Overlap(normalize: Normalize, e: Expected, f: Expected) {
    && SameFrame(e, f)
    && (exists k :: 0 <= k < |e.objects| && SomeEqual(normalize, f.objects, e.objects[k]))
    && (exists k :: 0 <= k < |e.citationSets| && HasSet(f, e.citationSets[k]))
  }

  /** Every object and every citation set of `e` is one of `f`. */
  ghost predicate Within(normalize: Normalize, e: Expected, f: Expected) {
    && (forall k :: 0 <= k < |e.objects| ==> SomeEqual(normalize, f.objects, e.objects[k]))
    && (forall k :: 0 <= k < |e.citationSets| ==> HasSet(f, e.citationSets[k]))
  }

  ghost predicate SameFrame(e: Expected, f: Expected) {
    && e.kind == f.kind && e.subject == f.subject && e.predicate_ == f.predicate_ && e.positive == f.positive
    && e.validFrom == f.validFrom && e.validTo == f.validTo
  }

  ghost predicate HasSet(e: Expected, ids: seq<Text>) {
    exists k :: 0 <= k < |e.citationSets| && SameSet(e.citationSets[k], ids)
  }

  /** The condition on a reference list, in terms of its fields. */
  ghost predicate Nested(normalize: Normalize, expected: seq<Expected>) {
    forall i, j :: 0 <= i < j < |expected| && Overlap(normalize, expected[i], expected[j])
      ==> Within(normalize, expected[i], expected[j])
  }

  ghost predicate Accepts(normalize: Normalize, e: Expected, f: Expected) {
    forall d :: TupleMatches(normalize, e, d) ==> TupleMatches(normalize, f, d)
  }

  /** A draft that says what a claim says, in the claim's own words. */
  ghost function OwnDraft(e: Expected, a: nat, b: nat): Draft
    requires a < |e.objects| && b < |e.citationSets|
  {
    Draft(e.kind, e.subject, e.predicate_, e.objects[a], e.positive, e.validFrom, e.validTo,
          if e.bodies == [] then [] else e.bodies[0], e.citationSets[b], e.minimumSensitivity)
  }

  ghost predicate IsOwn(e: Expected, d: Draft) {
    exists a: nat, b: nat :: a < |e.objects| && b < |e.citationSets| && d == OwnDraft(e, a, b)
  }

  /** Every draft is one of some claim's own. */
  ghost predicate Drawn(expected: seq<Expected>, drafts: seq<Draft>) {
    forall k :: 0 <= k < |drafts| ==> exists i :: 0 <= i < |expected| && IsOwn(expected[i], drafts[k])
  }

  lemma SameSetTrans(a: seq<Text>, b: seq<Text>, c: seq<Text>)
    ensures SameSet(a, a) && (SameSet(a, b) <==> SameSet(b, a)) && (SameSet(a, b) && SameSet(b, c) ==> SameSet(a, c))
  {
  }

  lemma SetMoves(e: Expected, a: seq<Text>, b: seq<Text>)
    requires SameSet(a, b)
    ensures HasSet(e, a) <==> HasSet(e, b)
  {
    hide SameSet;
    forall k | 0 <= k < |e.citationSets| ensures SameSet(e.citationSets[k], a) <==> SameSet(e.citationSets[k], b) {
      SameSetTrans(e.citationSets[k], a, b);
      SameSetTrans(e.citationSets[k], b, a);
      SameSetTrans(a, b, a);
    }
  }

  lemma ObjectMoves(normalize: Normalize, e: Expected, a: Text, b: Text)
    requires normalize(a) == normalize(b)
    ensures SomeEqual(normalize, e.objects, a) <==> SomeEqual(normalize, e.objects, b)
  {
  }

  lemma OwnMatches(normalize: Normalize, e: Expected, f: Expected, a: nat, b: nat)
    requires a < |e.objects| && b < |e.citationSets| && SameFrame(e, f)
    ensures var d := OwnDraft(e, a, b);
      && IsOwn(e, d) && TupleMatches(normalize, e, d)
      && (TupleMatches(normalize, f, d) <==> SomeEqual(normalize, f.objects, e.objects[a]) && HasSet(f, e.citationSets[b]))
  {
    hide SameSet;
    var d := OwnDraft(e, a, b);
    SameSetTrans(e.citationSets[b], e.citationSets[b], e.citationSets[b]);
    assert Cites(e, d);
    assert SomeEqual(normalize, e.objects, d.object_);
    assert Cites(f, d) <==> HasSet(f, d.eventIds);
  }

  lemma SharedOwn(normalize: Normalize, e: Expected, f: Expected) returns (d: Draft)
    requires Overlap(normalize, e, f)
    ensures IsOwn(e, d) && TupleMatches(normalize, e, d) && TupleMatches(normalize, f, d)
  {
    hide SameSet, SomeEqual, TupleMatches, OwnDraft, IsOwn;
    var a: nat :| a < |e.objects| && SomeEqual(normalize, f.objects, e.objects[a]);
    var b: nat :| b < |e.citationSets| && HasSet(f, e.citationSets[b]);
    OwnMatches(normalize, e, f, a, b);
    d := OwnDraft(e, a, b);
  }

  lemma UncoveredOwn(normalize: Normalize, e: Expected, f: Expected) returns (d: Draft)
    requires Overlap(normalize, e, f) && !Within(normalize, e, f)
    ensures IsOwn(e, d) && TupleMatches(normalize, e, d) && !TupleMatches(normalize, f, d)
  {
    hide SameSet, SomeEqual, TupleMatches, OwnDraft, IsOwn;
    var a: nat :| a < |e.objects| && SomeEqual(normalize, f.objects, e.objects[a]);
    var b: nat :| b < |e.citationSets| && HasSet(f, e.citationSets[b]);
    if k: nat :| k < |e.objects| && !SomeEqual(normalize, f.objects, e.objects[k]) {
      a := k;
    } else {
      b :| b < |e.citationSets| && !HasSet(f, e.citationSets[b]);
    }
    OwnMatches(normalize, e, f, a, b);
    d := OwnDraft(e, a, b);
  }

  /** Two claims overlap in their fields exactly when some draft matches both. */
  lemma OverlapMeaning(normalize: Normalize, e: Expected, f: Expected)
    ensures Overlap(normalize, e, f) <==> exists d :: TupleMatches(normalize, e, d) && TupleMatches(normalize, f, d)
  {
    hide TupleMatches, Overlap, IsOwn;
    if Overlap(normalize, e, f) {
      var d := SharedOwn(normalize, e, f);
    }
    forall d | TupleMatches(normalize, e, d) && TupleMatches(normalize, f, d) ensures Overlap(normalize, e, f) {
      SharedDraft(normalize, e, f, d);
    }
  }

  lemma SharedDraft(normalize: Normalize, e: Expected, f: Expected, d: Draft)
    requires TupleMatches(normalize, e, d) && TupleMatches(normalize, f, d)
    ensures Overlap(normalize, e, f)
  {
    hide SameSet;
    var a: nat :| a < |e.objects| && normalize(e.objects[a]) == normalize(d.object_);
    var b: nat :| b < |e.citationSets| && SameSet(e.citationSets[b], d.eventIds);
    ObjectMoves(normalize, f, d.object_, e.objects[a]);
    SetMoves(f, e.citationSets[b], d.eventIds);
    assert HasSet(f, d.eventIds) by { assert Cites(f, d); }
  }

  /** Of two overlapping claims, the second covers the fields of the first exactly when it accepts every draft that the first does. */
  lemma WithinMeaning(normalize: Normalize, e: Expected, f: Expected)
    requires Overlap(normalize, e, f)
    ensures Within(normalize, e, f) <==> Accepts(normalize, e, f)
  {
    hide TupleMatches, Within, IsOwn;
    if Within(normalize, e, f) {
      assert SameFrame(e, f);
      forall d | TupleMatches(normalize, e, d) ensures TupleMatches(normalize, f, d) {
        CoveredDraft(normalize, e, f, d);
      }
    } else {
      var d := UncoveredOwn(normalize, e, f);
    }
  }

  lemma CoveredDraft(normalize: Normalize, e: Expected, f: Expected, d: Draft)
    requires SameFrame(e, f) && Within(normalize, e, f) && TupleMatches(normalize, e, d)
    ensures TupleMatches(normalize, f, d)
  {
    hide SameSet;
    var a: nat :| a < |e.objects| && normalize(e.objects[a]) == normalize(d.object_);
    var b: nat :| b < |e.citationSets| && SameSet(e.citationSets[b], d.eventIds);
    ObjectMoves(normalize, f, d.object_, e.objects[a]);
    SetMoves(f, e.citationSets[b], d.eventIds);
    assert HasSet(f, d.eventIds);
    assert Cites(f, d);
  }

  // Enough: any matching can be turned, draft by draft, into the scorer's without losing a match.

  ghost predicate UsedBefore(m: Matching, n: nat, j: nat) {
    exists l: nat :: l < n && l < |m| && m[l] == Some(j)
  }

  /** The n-th draft left out only claims that it does not match or that were taken before. */
  ghost predicate FirstChoice(normalize: Normalize, expected: seq<Expected>, d: Draft, m: Matching, n: nat)
    requires n < |m|
  {
    forall j: nat :: j < |expected| && (m[n].Some? ==> j < m[n].value) && TupleMatches(normalize, expected[j], d) ==> UsedBefore(m, n, j)
  }

  lemma UsedMeansBefore(m: Matching, n: nat, j: nat)
    requires n <= |m|
    ensures j in Used(m[..n]) <==> UsedBefore(m, n, j)
  {
    if j in Used(m[..n]) {
      var i :| 0 <= i < n && m[..n][i].Some? && m[..n][i].value == j;
      assert m[i] == Some(j);
    }
    if UsedBefore(m, n, j) {
      var l: nat :| l < n && m[l] == Some(j);
      assert m[..n][l] == Some(j);
    }
  }

  lemma {:induction false} AssignChoosesFirst(normalize: Normalize, expected: seq<Expected>, drafts: seq<Draft>, n: nat)
    requires UniqueIds(expected) && n < |drafts|
    ensures FirstChoice(normalize, expected, drafts[n], Assign(normalize, expected, drafts), n)
  {
    hide TupleMatches, UniqueIds, FirstChoice, InRange, Taken, CanTake;
    var last := |drafts| - 1;
    var before := drafts[..last];
    var m := Assign(normalize, expected, before);
    if n < last {
      AssignChoosesFirst(normalize, expected, before, n);
      ChoiceKept(normalize, expected, drafts[n], m, Assign(normalize, expected, drafts)[last], n);
    } else {
      LastChoosesFirst(normalize, expected, drafts[n], m);
    }
  }

  lemma ChoiceKept(normalize: Normalize, expected: seq<Expected>, d: Draft, m: Matching, more: Option<nat>, n: nat)
    requires n < |m| && FirstChoice(normalize, expected, d, m, n)
    ensures FirstChoice(normalize, expected, d, m + [more], n)
  {
    hide TupleMatches;
    var all := m + [more];
    forall j: nat | UsedBefore(m, n, j) ensures UsedBefore(all, n, j) {
      var l: nat :| l < n && m[l] == Some(j);
      assert all[l] == Some(j);
    }
  }

  lemma LastChoosesFirst(normalize: Normalize, expected: seq<Expected>, d: Draft, m: Matching)
    requires UniqueIds(expected) && InRange(expected, m)
    ensures FirstChoice(normalize, expected, d, m + [FirstFree(normalize, expected, d, Taken(expected, m), 0)], |m|)
  {
    hide TupleMatches, UniqueIds;
    var all := m + [FirstFree(normalize, expected, d, Taken(expected, m), 0)];
    assert all[..|m|] == m;
    forall j: nat | j < |expected| && (all[|m|].Some? ==> j < all[|m|].value) && TupleMatches(normalize, expected[j], d)
      ensures UsedBefore(all, |m|, j)
    {
      assert !CanTake(normalize, expected[j], d, Taken(expected, m));
      if j !in Used(m) {
        FreshId(expected, m, j);
      }
      UsedMeansBefore(all, |m|, j);
    }
  }

  ghost predicate Agree(a: Matching, b: Matching, n: nat) {
    |a| == |b| && forall l :: 0 <= l < n && l < |a| ==> a[l] == b[l]
  }

  /** The semantic form of the condition. */
  ghost predicate Ordered(normalize: Normalize, expected: seq<Expected>) {
    forall i: nat, j: nat, d, d' ::
      (i < j < |expected| && TupleMatches(normalize, expected[i], d) && TupleMatches(normalize, expected[j], d)
       && TupleMatches(normalize, expected[i], d')) ==> TupleMatches(normalize, expected[j], d')
  }

  lemma NestedIsOrdered(normalize: Normalize, expected: seq<Expected>)
    requires Nested(normalize, expected)
    ensures Ordered(normalize, expected)
  {
    hide TupleMatches, Overlap, Within;
    forall i: nat, j: nat, d, d' | i < j < |expected| && TupleMatches(normalize, expected[i], d)
      && TupleMatches(normalize, expected[j], d) && TupleMatches(normalize, expected[i], d')
      ensures TupleMatches(normalize, expected[j], d')
    {
      OverlapMeaning(normalize, expected[i], expected[j]);
      WithinMeaning(normalize, expected[i], expected[j]);
    }
  }

  lemma SetSize(m: Matching, k: nat, choice: Option<nat>)
    requires k < |m|
    ensures Matched(m[k := choice]) == (if choice.Some? then Matched(m) + {k} else Matched(m) - {k as int})
  {
  }

  /** What the drafts of `best` are given instead: the n-th draft its first choice i, a later draft that has i what the n-th had. */
  lemma Exchange(normalize: Normalize, expected: seq<Expected>, drafts: seq<Draft>, m: Matching, best: Matching, n: nat)
    returns (better: Matching)
    requires Ordered(normalize, expected) && n < |drafts|
    requires IsMatching(normalize, expected, drafts, m) && IsMatching(normalize, expected, drafts, best)
    requires FirstChoice(normalize, expected, drafts[n], m, n) && Agree(best, m, n)
    ensures IsMatching(normalize, expected, drafts, better) && Agree(better, m, n + 1)
    ensures |Matched(better)| >= |Matched(best)|
  {
    hide TupleMatches, Matched, Ordered;
    better := best;
    if best[n].Some? && (m[n].None? || best[n].value < m[n].value) {
      assert false;
    }
    if m[n].Some? && best[n] != m[n] {
      if p: nat :| p < |best| && best[p] == m[n] {
        better := Swapped(normalize, expected, drafts, best, n, p, m[n].value);
      } else {
        better := best[n := m[n]];
        SetSize(best, n, m[n]);
        assert Matched(best) <= Matched(better);
        SubsetCount(Matched(best), Matched(better));
      }
    }
  }

  lemma Swapped(normalize: Normalize, expected: seq<Expected>, drafts: seq<Draft>, best: Matching, n: nat, p: nat, i: nat)
    returns (better: Matching)
    requires Ordered(normalize, expected) && n < p < |drafts| && IsMatching(normalize, expected, drafts, best)
    requires i < |expected| && TupleMatches(normalize, expected[i], drafts[n])
    requires best[p] == Some(i) && (best[n].Some? ==> best[n].value > i)
    ensures better == best[n := Some(i)][p := best[n]]
    ensures IsMatching(normalize, expected, drafts, better) && |Matched(better)| == |Matched(best)|
  {
    hide TupleMatches, Matched;
    better := best[n := Some(i)][p := best[n]];
    SetSize(best, n, Some(i));
    SetSize(best[n := Some(i)], p, best[n]);
    InMatched(best, n);
    InMatched(best, p);
    if best[n].Some? {
      assert TupleMatches(normalize, expected[best[n].value], drafts[p]);
      assert Matched(better) == Matched(best);
    } else {
      assert Matched(better) == Matched(best) + {n as int} - {p as int};
    }
  }

  lemma InMatched(m: Matching, k: nat)
    ensures k in Matched(m) <==> k < |m| && m[k].Some?
  {
  }

  lemma {:induction false} NoBetter(normalize: Normalize, expected: seq<Expected>, drafts: seq<Draft>, best: Matching, n: nat)
    requires UniqueIds(expected) && Ordered(normalize, expected) && n <= |drafts|
    requires IsMatching(normalize, expected, drafts, best) && Agree(best, Assign(normalize, expected, drafts), n)
    ensures |Matched(best)| <= |Matched(Assign(normalize, expected, drafts))|
    decreases |drafts| - n
  {
    hide TupleMatches, Matched, Ordered, UniqueIds, IsMatching, FirstChoice;
    var m := Assign(normalize, expected, drafts);
    if n == |drafts| {
      assert best == m;
    } else {
      AssignIsMatching(normalize, expected, drafts);
      AssignChoosesFirst(normalize, expected, drafts, n);
      var better := Exchange(normalize, expected, drafts, m, best, n);
      NoBetter(normalize, expected, drafts, better, n + 1);
    }
  }

  // Needed: a claim that overlaps a later one without being covered by it can be wasted.

  lemma Listing(s: set<nat>) returns (l: seq<nat>)
    ensures Sorting.Distinct(l) && |l| == |s| && forall x :: x in l <==> x in s
  {
    if s == {} {
      l := [];
    } else {
      var x :| x in s;
      var rest := Listing(s - {x});
      l := [x] + rest;
    }
  }

  ghost function Repeat(d: Draft, n: nat): (r: seq<Draft>)
    ensures |r| == n && forall k :: 0 <= k < n ==> r[k] == d
  {
    seq(n, k => d)
  }

  ghost function Choices(l: seq<nat>): (m: Matching)
    ensures |m| == |l| && forall k :: 0 <= k < |l| ==> m[k] == Some(l[k])
  {
    seq(|l|, k requires 0 <= k < |l| => Some(l[k]))
  }

  lemma {:induction false} AllMatched(l: seq<nat>)
    ensures |Matched(Choices(l))| == |l|
  {
    if l != [] {
      var n := |l| - 1;
      AllMatched(l[..n]);
      assert Choices(l) == Choices(l[..n]) + [Some(l[n])];
      MatchedGrows(Choices(l[..n]), Some(l[n]));
    }
  }

  ghost function Claims(normalize: Normalize, expected: seq<Expected>, d: Draft, n: nat): (s: set<nat>)
    requires n <= |expected|
    ensures forall x: nat :: x in s <==> x < n && TupleMatches(normalize, expected[x], d)
  {
    set x: nat | x < n && TupleMatches(normalize, expected[x], d)
  }

  /** The first drafts find nothing but claims up to i, as there are as many of those as drafts. */
  lemma WideChoice(normalize: Normalize, expected: seq<Expected>, drafts: seq<Draft>, i: nat, d: Draft, n: nat)
    requires UniqueIds(expected) && i < |expected| && n < |drafts| && drafts[n] == d && TupleMatches(normalize, expected[i], d)
    requires n < |Claims(normalize, expected, d, i + 1)|
    ensures var m := Assign(normalize, expected, drafts); m[n].Some? ==> m[n].value in Claims(normalize, expected, d, i + 1)
  {
    hide TupleMatches, UniqueIds;
    var m := Assign(normalize, expected, drafts);
    var wide := Claims(normalize, expected, d, i + 1);
    AssignIsMatching(normalize, expected, drafts);
    AssignChoosesFirst(normalize, expected, drafts, n);
    if m[n].Some? && m[n].value > i {
      forall x | x in wide ensures x in Used(m[..n]) {
        assert UsedBefore(m, n, x);
        UsedMeansBefore(m, n, x);
      }
      SubsetCount(wide, Used(m[..n]));
      MatchedCount(m[..n]);
      assert false;
    }
  }

  /** Copies of a draft that both claims match, then copies of one that only the first matches. */
  lemma Wasted(normalize: Normalize, expected: seq<Expected>, i: nat, j: nat, d: Draft, d': Draft) returns (drafts: seq<Draft>, best: Matching)
    requires UniqueIds(expected) && i < j < |expected|
    requires TupleMatches(normalize, expected[i], d) && TupleMatches(normalize, expected[j], d)
    requires TupleMatches(normalize, expected[i], d') && !TupleMatches(normalize, expected[j], d')
    ensures IsMatching(normalize, expected, drafts, best)
    ensures |drafts| <= |expected| && |Matched(best)| == |drafts| && forall x :: x in drafts ==> x == d || x == d'
    ensures |Matched(Assign(normalize, expected, drafts))| < |drafts|
  {
    hide TupleMatches, UniqueIds, Matched, Used, IsMatching, Assign, Claims, Choices, Repeat, Sorting.Distinct;
    var wide, narrow := Claims(normalize, expected, d, i + 1), Claims(normalize, expected, d', |expected|);
    var first := Listing(wide - {i} + {j});
    var second := Listing(narrow - (wide - {i}));
    assert |wide - {i} + {j}| == |wide|;
    drafts := Repeat(d, |first|) + Repeat(d', |second|);
    best := Choices(first + second);
    AllMatched(first + second);
    Perfectly(normalize, expected, drafts, d, d', first, second);
    FewUsed(normalize, expected, drafts, i, d, d', |first|);
    CountUnion(wide, narrow, i);
    assert j !in wide + narrow;
    IndexCount(|expected|, wide + narrow);
  }

  lemma CountUnion(a: set<nat>, b: set<nat>, i: nat)
    requires i in a && i in b
    ensures |a + b| == |a| - 1 + |b - (a - {i})|
  {
    assert a + b == (a - {i}) + (b - (a - {i}));
  }

  lemma Perfectly(normalize: Normalize, expected: seq<Expected>, drafts: seq<Draft>, d: Draft, d': Draft, first: seq<nat>, second: seq<nat>)
    requires Sorting.Distinct(first) && Sorting.Distinct(second) && forall x :: x in first ==> x !in second
    requires forall x :: x in first ==> x < |expected| && TupleMatches(normalize, expected[x], d)
    requires forall x :: x in second ==> x < |expected| && TupleMatches(normalize, expected[x], d')
    requires drafts == Repeat(d, |first|) + Repeat(d', |second|)
    ensures IsMatching(normalize, expected, drafts, Choices(first + second))
  {
    hide TupleMatches;
    var l := first + second;
    var m := Choices(l);
    forall k | 0 <= k < |m| ensures m[k].value < |expected| && TupleMatches(normalize, expected[m[k].value], drafts[k]) {
      if k < |first| {
        assert l[k] in first;
      } else {
        assert l[k] in second;
      }
    }
    forall a, b | 0 <= a < b < |m| ensures m[a] != m[b] {
      if a < |first| <= b {
        assert l[a] in first && l[b] in second;
      }
    }
  }

  lemma FewUsed(normalize: Normalize, expected: seq<Expected>, drafts: seq<Draft>, i: nat, d: Draft, d': Draft, t: nat)
    requires UniqueIds(expected) && i < |expected| && TupleMatches(normalize, expected[i], d)
    requires t <= |drafts| && t <= |Claims(normalize, expected, d, i + 1)|
    requires forall n :: 0 <= n < |drafts| ==> drafts[n] == if n < t then d else d'
    ensures |Matched(Assign(normalize, expected, drafts))|
         <= |Claims(normalize, expected, d, i + 1) + Claims(normalize, expected, d', |expected|)|
  {
    hide TupleMatches, UniqueIds, Matched;
    var m := Assign(normalize, expected, drafts);
    var all := Claims(normalize, expected, d, i + 1) + Claims(normalize, expected, d', |expected|);
    AssignIsMatching(normalize, expected, drafts);
    MatchedCount(m);
    forall x | x in Used(m) ensures x in all {
      var n: nat :| n < |m| && m[n].Some? && m[n].value == x;
      if n < t {
        WideChoice(normalize, expected, drafts, i, d, n);
      }
    }
    SubsetCount(Used(m), all);
  }

  /** The scorer finds as much as any matching of these drafts. */
  ghost predicate IsMaximum(normalize: Normalize, expected: seq<Expected>, drafts: seq<Draft>) {
    forall best :: IsMatching(normalize, expected, drafts, best) ==> |Matched(best)| <= |Matched(Assign(normalize, expected, drafts))|
  }

  lemma NotNested(normalize: Normalize, expected: seq<Expected>, i: nat, j: nat)
    requires UniqueIds(expected) && i < j < |expected|
    requires Overlap(normalize, expected[i], expected[j]) && !Within(normalize, expected[i], expected[j])
    ensures exists drafts :: |drafts| <= |expected| && Drawn(expected, drafts) && !IsMaximum(normalize, expected, drafts)
  {
    hide TupleMatches, Overlap, Within, UniqueIds, IsMatching, Matched;
    hide IsOwn;
    var d := SharedOwn(normalize, expected[i], expected[j]);
    var d' := UncoveredOwn(normalize, expected[i], expected[j]);
    var drafts, best := Wasted(normalize, expected, i, j, d, d');
    forall k | 0 <= k < |drafts| ensures exists i :: 0 <= i < |expected| && IsOwn(expected[i], drafts[k]) {
      assert drafts[k] in drafts && IsOwn(expected[i], drafts[k]);
    }
    assert !IsMaximum(normalize, expected, drafts);
  }

  /**
   Taking the first free claim finds a largest matching for every list of drafts exactly when, of any two claims that
   overlap, the later covers the earlier; and if not, it misses for a list of the claims' own drafts, no longer than theirs.
   */
  lemma GreedyIsMaximum(normalize: Normalize, expected: seq<Expected>)
    requires UniqueIds(expected)
    ensures Nested(normalize, expected) <==> forall drafts :: IsMaximum(normalize, expected, drafts)
    ensures Nested(normalize, expected) <==> forall drafts :: |drafts| <= |expected| && Drawn(expected, drafts) ==> IsMaximum(normalize, expected, drafts)
  {
    hide TupleMatches, Overlap, Within, UniqueIds, IsMatching, Matched, Drawn;
    if Nested(normalize, expected) {
      NestedIsOrdered(normalize, expected);
      forall drafts ensures IsMaximum(normalize, expected, drafts) {
        forall best | IsMatching(normalize, expected, drafts, best)
          ensures |Matched(best)| <= |Matched(Assign(normalize, expected, drafts))|
        {
          assert |best| == |drafts| by { Lengths(normalize, expected, drafts, best); }
          NoBetter(normalize, expected, drafts, best, 0);
        }
      }
    } else {
      var i: nat, j: nat :| i < j < |expected| && Overlap(normalize, expected[i], expected[j])
        && !Within(normalize, expected[i], expected[j]);
      NotNested(normalize, expected, i, j);
    }
  }

  lemma Lengths(normalize: Normalize, expected: seq<Expected>, drafts: seq<Draft>, m: Matching)
    requires IsMatching(normalize, expected, drafts, m)
    ensures |m| == |drafts|
  {
  }

  // Of two drafts and two claims of a corpus, the draft with a choice can take the other's only claim.

  ghost predicate Sized<T>(s: seq<T>, most: nat) {
    1 <= |s| <= most
  }

  ghost predicate AllSized<T>(s: seq<seq<T>>, most: nat) {
    forall k :: 0 <= k < |s| ==> Sized(s[k], most)
  }

  ghost predicate NormalDistinct(normalize: Normalize, s: seq<Text>) {
    forall i, j :: 0 <= i < j < |s| ==> normalize(s[i]) != normalize(s[j])
  }

  /** What the corpus asks of the form of one reference claim; its subject, predicate and citations are looked up elsewhere. */
  ghost predicate IsReference(normalize: Normalize, e: Expected) {
    && Sized(e.id, 256) && e.kind == Plain("claim") && Sized(e.subject, 256) && Sized(e.predicate_, 256)
    && Sized(e.objects, 8) && AllSized(e.objects, 400) && NormalDistinct(normalize, e.objects)
    && Sized(e.bodies, 8) && AllSized(e.bodies, 1200) && NormalDistinct(normalize, e.bodies)
    && Sized(e.citationSets, 8) && AllSized(e.citationSets, 8)
    && (forall k :: 0 <= k < |e.citationSets| ==> AllSized(e.citationSets[k], 64) && Sorting.Distinct(e.citationSets[k]))
    && (forall i, j :: 0 <= i < j < |e.citationSets| ==> !SameSet(e.citationSets[i], e.citationSets[j]))
    && (e.validFrom.Some? && e.validTo.Some? ==> e.validFrom != e.validTo && TextLeq(e.validFrom.value, e.validTo.value))
  }

  const TEA := Plain("tea")
  const COFFEE := Plain("coffee")
  const WIDE := Expected(Plain("either"), Plain("claim"), Plain("quality:anna"), Plain("preference.prefers"), [TEA, COFFEE], true,
                         None, None, [Plain("a hot drink")], [[Plain("preference-a")]], Private)
  const NARROW := WIDE.(id := Plain("tea-only"), objects := [TEA])

  lemma ExamplesAreReferences(normalize: Normalize)
    requires normalize(TEA) != normalize(COFFEE)
    ensures IsReference(normalize, WIDE) && IsReference(normalize, NARROW)
  {
  }

  lemma ExampleTuples(normalize: Normalize)
    requires normalize(TEA) != normalize(COFFEE)
    ensures var tea, coffee := OwnDraft(WIDE, 0, 0), OwnDraft(WIDE, 1, 0);
      && TupleMatches(normalize, WIDE, tea) && TupleMatches(normalize, WIDE, coffee)
      && TupleMatches(normalize, NARROW, tea) && !TupleMatches(normalize, NARROW, coffee)
  {
    hide TupleMatches;
    OwnMatches(normalize, WIDE, NARROW, 0, 0);
    OwnMatches(normalize, WIDE, NARROW, 1, 0);
    assert SomeEqual(normalize, NARROW.objects, TEA) by { assert NARROW.objects[0] == TEA; }
    assert HasSet(NARROW, WIDE.citationSets[0]) by { assert NARROW.citationSets[0] == WIDE.citationSets[0]; }
  }

  lemma GreedyCanMiss(normalize: Normalize)
    requires normalize(TEA) != normalize(COFFEE)
    ensures var expected, drafts := [WIDE, NARROW], [OwnDraft(WIDE, 0, 0), OwnDraft(WIDE, 1, 0)];
      && (forall e :: e in expected ==> IsReference(normalize, e)) && UniqueIds(expected)
      && IsMatching(normalize, expected, drafts, [Some(1), Some(0)]) && |Matched([Some(1), Some(0)])| == 2
      && |Matched(Assign(normalize, expected, drafts))| == 1
  {
    hide TupleMatches, IsReference, IsMatching, Matched, Assign, UniqueIds, Plain;
    ExamplesAreReferences(normalize);
    ExampleTuples(normalize);
    ExampleIds();
    OneMissed(normalize, WIDE, NARROW, OwnDraft(WIDE, 0, 0), OwnDraft(WIDE, 1, 0));
  }

  lemma ExampleIds()
    ensures WIDE.id != NARROW.id
  {
    assert WIDE.id[0] != NARROW.id[0];
  }

  /** The first draft matches both claims, the second only the first. */
  lemma OneMissed(normalize: Normalize, wide: Expected, narrow: Expected, either: Draft, only: Draft)
    requires wide.id != narrow.id
    requires TupleMatches(normalize, wide, either) && TupleMatches(normalize, narrow, either)
    requires TupleMatches(normalize, wide, only) && !TupleMatches(normalize, narrow, only)
    ensures UniqueIds([wide, narrow])
    ensures IsMatching(normalize, [wide, narrow], [either, only], [Some(1), Some(0)]) && |Matched([Some(1), Some(0)])| == 2
    ensures |Matched(Assign(normalize, [wide, narrow], [either, only]))| == 1
  {
    hide TupleMatches;
    assert Matched([Some(1), Some(0)]) == {0, 1};
    MissedAssignment(normalize, [wide, narrow], [either, only]);
  }

  lemma MissedAssignment(normalize: Normalize, expected: seq<Expected>, drafts: seq<Draft>)
    requires |expected| == 2 && |drafts| == 2 && UniqueIds(expected)
    requires TupleMatches(normalize, expected[0], drafts[0]) && !TupleMatches(normalize, expected[1], drafts[1])
    ensures |Matched(Assign(normalize, expected, drafts))| == 1
  {
    hide TupleMatches;
    assert drafts[..1][..0] == [] && drafts[..1][0] == drafts[0];
    assert Assign(normalize, expected, drafts[..1]) == [] + [FirstFree(normalize, expected, drafts[0], {}, 0)] by {
      assert Taken(expected, []) == {};
    }
    assert Assign(normalize, expected, drafts[..1]) == [Some(0)];
    assert expected[0].id in Taken(expected, [Some(0)]) by { assert [Some(0)][0] == Some(0); }
    assert Assign(normalize, expected, drafts) == [Some(0), None];
    assert Matched([Some(0), None]) == {0};
  }
}
