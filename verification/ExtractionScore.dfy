/**
 Scoring extracted drafts against reference claims (scripts/evaluate-extraction.ts): each draft in turn takes
 the first reference claim that matches it and is not taken yet.
 */
module ExtractionScore {
  import opened Wrappers
  import opened UnicodeText
  import opened TextOrder
  import Sorting

  datatype Label = Public | Personal | Private

  /** LABELS.indexOf. */
  function Rank(l: Label): nat {
    match l
    case Public => 0
    case Personal => 1
    case Private => 2
  }

  /** One label promises less protection than another. */
  ghost predicate Below(a: Label, b: Label) {
    (a == Public && b != Public) || (a == Personal && b == Private)
  }

  datatype Expected = Expected(
    id: Text, kind: Text, subject: Text, predicate_: Text, objects: seq<Text>, positive: bool,
    validFrom: Option<Text>, validTo: Option<Text>, bodies: seq<Text>, citationSets: seq<seq<Text>>, minimumSensitivity: Label)

  datatype Draft = Draft(
    kind: Text, subject: Text, predicate_: Text, object_: Text, positive: bool,
    validFrom: Option<Text>, validTo: Option<Text>, body: Text, eventIds: seq<Text>, sensitivity: Label)

  /** normalize: NFC, trimmed, runs of whitespace made one space. */
  type Normalize = Text -> Text

  function SameSet(a: seq<Text>, b: seq<Text>): bool {
    |a| == |b| && Sorting.Sort(a, TextLeq) == Sorting.Sort(b, TextLeq)
  }

  ghost predicate Cites(e: Expected, d: Draft) {
    exists k :: 0 <= k < |e.citationSets| && SameSet(e.citationSets[k], d.eventIds)
  }

  ghost predicate SomeEqual(normalize: Normalize, texts: seq<Text>, text: Text) {
    exists k :: 0 <= k < |texts| && normalize(texts[k]) == normalize(text)
  }

  ghost predicate TupleMatches(normalize: Normalize, e: Expected, d: Draft) {
    && e.kind == d.kind && e.subject == d.subject && e.predicate_ == d.predicate_
    && SomeEqual(normalize, e.objects, d.object_) && e.positive == d.positive
    && e.validFrom == d.validFrom && e.validTo == d.validTo && Cites(e, d)
  }

  method HasText(normalize: Normalize, texts: seq<Text>, text: Text) returns (yes: bool)
    ensures yes <==> SomeEqual(normalize, texts, text)
  {
    yes := exists k :: 0 <= k < |texts| && normalize(texts[k]) == normalize(text);
  }

  method CitesEvents(e: Expected, d: Draft) returns (yes: bool)
    ensures yes <==> Cites(e, d)
  {
    yes := exists k :: 0 <= k < |e.citationSets| && SameSet(e.citationSets[k], d.eventIds);
  }

  method MatchTuple(normalize: Normalize, e: Expected, d: Draft) returns (yes: bool)
    ensures yes <==> TupleMatches(normalize, e, d)
  {
    hide SomeEqual, Cites;
    if e.kind != d.kind || e.subject != d.subject || e.predicate_ != d.predicate_ || e.positive != d.positive {
      return false;
    }
    if e.validFrom != d.validFrom || e.validTo != d.validTo {
      return false;
    }
    var object_ := HasText(normalize, e.objects, d.object_);
    var cited := CitesEvents(e, d);
    return object_ && cited;
  }

  // sameSet compares citations up to order, repetitions counted.

  lemma TextIsOrder()
    ensures Sorting.IsOrder(TextLeq)
  {
    forall a: Text, b: Text ensures TextLeq(a, b) || TextLeq(b, a) {
      TextTotal(a, b);
    }
    forall a: Text, b: Text, c: Text | TextLeq(a, b) && TextLeq(b, c) ensures TextLeq(a, c) {
      TextTransitive(a, b, c);
    }
  }

  lemma SortedHeads(s: seq<Text>, t: seq<Text>)
    requires Sorting.Sorted(s, TextLeq) && Sorting.Sorted(t, TextLeq) && multiset(s) == multiset(t) && s != [] && t != []
    ensures s[0] == t[0]
  {
    hide TextLeq;
    Sorting.SameElements(s, t);
    assert s[0] in s && s[0] in t && t[0] in t && t[0] in s;
    var i :| 0 <= i < |t| && t[i] == s[0];
    var j :| 0 <= j < |s| && s[j] == t[0];
    TextTotal(s[0], t[0]);
    assert i > 0 ==> TextLeq(t[0], t[i]);
    assert j > 0 ==> TextLeq(s[0], s[j]);
  }

  lemma TailElements(s: seq<Text>)
    requires s != []
    ensures multiset(s[1..]) == multiset(s) - multiset{s[0]}
  {
    assert s == [s[0]] + s[1..];
  }

  lemma {:induction false} SortedTextsEqual(s: seq<Text>, t: seq<Text>)
    requires Sorting.Sorted(s, TextLeq) && Sorting.Sorted(t, TextLeq) && multiset(s) == multiset(t)
    ensures s == t
  {
    hide TextLeq;
    assert |s| == |multiset(s)| == |t|;
    if s != [] {
      SortedHeads(s, t);
      TailElements(s);
      TailElements(t);
      SortedTextsEqual(s[1..], t[1..]);
    }
  }

  lemma SameSetMeaning(a: seq<Text>, b: seq<Text>)
    ensures SameSet(a, b) <==> multiset(a) == multiset(b)
  {
    if multiset(a) == multiset(b) {
      assert |a| == |multiset(a)| && |b| == |multiset(b)|;
      TextIsOrder();
      Sorting.SortSorted(a, TextLeq);
      Sorting.SortSorted(b, TextLeq);
      SortedTextsEqual(Sorting.Sort(a, TextLeq), Sorting.Sort(b, TextLeq));
    }
  }

  // The assignment of drafts to reference claims.

  /** For each draft, the reference claim it is matched with. */
  type Matching = seq<Option<nat>>

  ghost predicate IsMatching(normalize: Normalize, expected: seq<Expected>, drafts: seq<Draft>, m: Matching) {
    && |m| == |drafts|
    && (forall i :: 0 <= i < |m| && m[i].Some? ==> m[i].value < |expected| && TupleMatches(normalize, expected[m[i].value], drafts[i]))
    && Injective(m)
  }

  ghost predicate Injective(m: Matching) {
    forall i, j :: 0 <= i < j < |m| && m[i].Some? && m[j].Some? ==> m[i] != m[j]
  }

  ghost function Matched(m: Matching): set<int> {
    set i | 0 <= i < |m| && m[i].Some?
  }

  ghost function Used(m: Matching): set<nat> {
    set i | 0 <= i < |m| && m[i].Some? :: m[i].value
  }

  ghost predicate UniqueIds(expected: seq<Expected>) {
    forall i, j :: 0 <= i < j < |expected| ==> expected[i].id != expected[j].id
  }

  ghost predicate CanTake(normalize: Normalize, e: Expected, d: Draft, taken: set<Text>) {
    e.id !in taken && TupleMatches(normalize, e, d)
  }

  /** find: the first claim from `from` on that is not taken and matches. */
  ghost function FirstFree(normalize: Normalize, expected: seq<Expected>, d: Draft, taken: set<Text>, from: nat): (r: Option<nat>)
    requires from <= |expected|
    ensures r.Some? ==> from <= r.value < |expected| && CanTake(normalize, expected[r.value], d, taken)
    ensures forall j :: from <= j < (if r.Some? then r.value else |expected|) ==> !CanTake(normalize, expected[j], d, taken)
    decreases |expected| - from
  {
    if from == |expected| then None
    else if CanTake(normalize, expected[from], d, taken) then Some(from)
    else FirstFree(normalize, expected, d, taken, from + 1)
  }

  method FindClaim(normalize: Normalize, expected: seq<Expected>, d: Draft, taken: set<Text>) returns (found: Option<nat>)
    ensures found == FirstFree(normalize, expected, d, taken, 0)
  {
    hide TupleMatches;
    for k := 0 to |expected|
      invariant FirstFree(normalize, expected, d, taken, 0) == FirstFree(normalize, expected, d, taken, k)
    {
      if expected[k].id !in taken {
        var matches := MatchTuple(normalize, expected[k], d);
        if matches {
          return Some(k);
        }
      }
    }
    return None;
  }

  ghost predicate InRange(expected: seq<Expected>, m: Matching) {
    forall i :: 0 <= i < |m| && m[i].Some? ==> m[i].value < |expected|
  }

  ghost function Taken(expected: seq<Expected>, m: Matching): set<Text>
    requires InRange(expected, m)
  {
    set i | 0 <= i < |m| && m[i].Some? :: expected[m[i].value].id
  }

  ghost function Assign(normalize: Normalize, expected: seq<Expected>, drafts: seq<Draft>): (m: Matching)
    ensures |m| == |drafts| && InRange(expected, m)
  {
    if drafts == [] then []
    else
      var m := Assign(normalize, expected, drafts[..|drafts| - 1]);
      m + [FirstFree(normalize, expected, drafts[|drafts| - 1], Taken(expected, m), 0)]
  }

  /** Each claim is matched at most once, and only with a draft that it matches. */
  lemma {:induction false} AssignIsMatching(normalize: Normalize, expected: seq<Expected>, drafts: seq<Draft>)
    requires UniqueIds(expected)
    ensures IsMatching(normalize, expected, drafts, Assign(normalize, expected, drafts))
  {
    hide TupleMatches, IsMatching, UniqueIds, Taken, CanTake, InRange;
    if drafts == [] {
      NoMatching(normalize, expected);
    } else {
      var front, d := drafts[..|drafts| - 1], drafts[|drafts| - 1];
      AssignIsMatching(normalize, expected, front);
      var m := Assign(normalize, expected, front);
      assert drafts == front + [d];
      MatchingPush(normalize, expected, front, m, d, FirstFree(normalize, expected, d, Taken(expected, m), 0));
    }
  }

  lemma NoMatching(normalize: Normalize, expected: seq<Expected>)
    ensures IsMatching(normalize, expected, [], [])
  {
  }

  lemma MatchingPush(normalize: Normalize, expected: seq<Expected>, drafts: seq<Draft>, m: Matching, d: Draft, found: Option<nat>)
    requires IsMatching(normalize, expected, drafts, m) && InRange(expected, m)
    requires found.Some? ==> found.value < |expected| && CanTake(normalize, expected[found.value], d, Taken(expected, m))
    ensures IsMatching(normalize, expected, drafts + [d], m + [found])
  {
    hide TupleMatches;
    var all, ds := m + [found], drafts + [d];
    assert forall i :: 0 <= i < |m| ==> all[i] == m[i] && ds[i] == drafts[i];
    forall i, j | 0 <= i < j < |all| && all[i].Some? && all[j].Some? ensures all[i] != all[j] {
      if j == |m| {
        assert expected[m[i].value].id in Taken(expected, m);
      }
    }
  }

  /** A draft is left over only when every claim that matches it is taken. */
  lemma {:induction false} AssignIsMaximal(normalize: Normalize, expected: seq<Expected>, drafts: seq<Draft>, i: nat, j: nat)
    requires UniqueIds(expected) && i < |drafts| && j < |expected|
    requires TupleMatches(normalize, expected[j], drafts[i]) && Assign(normalize, expected, drafts)[i].None?
    ensures j in Used(Assign(normalize, expected, drafts))
  {
    hide TupleMatches, UniqueIds;
    var before := drafts[..|drafts| - 1];
    var m, all := Assign(normalize, expected, before), Assign(normalize, expected, drafts);
    PushMatched(m, all[|m|]);
    if i < |m| {
      AssignIsMaximal(normalize, expected, before, i, j);
    } else {
      assert expected[j].id in Taken(expected, m);
      if j !in Used(m) {
        FreshId(expected, m, j);
      }
    }
  }

  // Counting.

  lemma PushMatched(m: Matching, last: Option<nat>)
    ensures Matched(m + [last]) == Matched(m) + (if last.Some? then {|m|} else {})
    ensures Used(m + [last]) == Used(m) + (if last.Some? then {last.value} else {})
    ensures |m| !in Matched(m)
  {
    var all := m + [last];
    assert forall i :: 0 <= i < |m| ==> all[i] == m[i];
    assert forall j :: j in Used(m) ==> exists i :: 0 <= i < |all| && all[i].Some? && all[i].value == j by {
      forall j | j in Used(m) ensures exists i :: 0 <= i < |all| && all[i].Some? && all[i].value == j {
        var i :| 0 <= i < |m| && m[i].Some? && m[i].value == j;
        assert all[i].value == j;
      }
    }
    assert last.Some? ==> all[|m|].value == last.value;
  }

  lemma PushTaken(expected: seq<Expected>, m: Matching, last: Option<nat>)
    requires InRange(expected, m) && (last.Some? ==> last.value < |expected|)
    ensures InRange(expected, m + [last])
    ensures Taken(expected, m + [last]) == Taken(expected, m) + (if last.Some? then {expected[last.value].id} else {})
  {
    var all := m + [last];
    forall i | 0 <= i < |m| ensures all[i] == m[i] {}
    assert InRange(expected, all);
    forall t | t in Taken(expected, m) ensures t in Taken(expected, all) {
      var i :| 0 <= i < |m| && m[i].Some? && expected[m[i].value].id == t;
      assert all[i] == m[i];
    }
    if last.Some? {
      assert all[|m|] == last;
    }
  }

  /** In an injective list nothing before the last element uses what it uses. */
  lemma InjectiveFront(m: Matching)
    requires Injective(m) && m != []
    ensures Injective(m[..|m| - 1])
    ensures m[|m| - 1].Some? ==> m[|m| - 1].value !in Used(m[..|m| - 1])
    ensures m == m[..|m| - 1] + [m[|m| - 1]]
  {
  }

  lemma {:induction false} MatchedCount(m: Matching)
    requires Injective(m)
    ensures |Used(m)| == |Matched(m)| <= |m|
  {
    if m != [] {
      InjectiveFront(m);
      MatchedCount(m[..|m| - 1]);
      PushMatched(m[..|m| - 1], m[|m| - 1]);
      hide Matched, Used, Injective;
    }
  }

  lemma FreshId(expected: seq<Expected>, m: Matching, j: nat)
    requires UniqueIds(expected) && InRange(expected, m) && j < |expected| && j !in Used(m)
    ensures expected[j].id !in Taken(expected, m)
  {
    forall i | 0 <= i < |m| && m[i].Some? ensures expected[m[i].value].id != expected[j].id {
      assert m[i].value in Used(m);
    }
  }

  lemma {:induction false} TakenCount(expected: seq<Expected>, m: Matching)
    requires UniqueIds(expected) && Injective(m) && InRange(expected, m)
    ensures |Taken(expected, m)| == |Matched(m)|
  {
    if m != [] {
      hide Matched, Used, Injective, Taken, UniqueIds;
      var front, last := m[..|m| - 1], m[|m| - 1];
      assert InRange(expected, front) && (last.Some? ==> last.value < |expected|);
      hide InRange;
      InjectiveFront(m);
      PushTaken(expected, front, last);
      PushMatched(front, last);
      TakenCount(expected, front);
      if last.Some? {
        FreshId(expected, front, last.value);
      }
    }
  }

  lemma {:induction false} IndexCount(n: nat, s: set<nat>)
    requires forall j :: j in s ==> j < n
    ensures |s| <= n && (|s| == n <==> forall j: nat :: j < n ==> j in s)
  {
    if n > 0 {
      IndexCount(n - 1, s - {n - 1});
      if n - 1 in s {
        assert |s - {n - 1}| == |s| - 1;
        assert forall j: nat :: j < n - 1 ==> (j in s <==> j in s - {n - 1});
      } else {
        assert s - {n - 1} == s;
        assert !(forall j: nat :: j < n ==> j in s);
      }
    } else {
      assert s == {};
    }
  }

  lemma SubsetCount<T>(a: set<T>, b: set<T>)
    requires a <= b
    ensures |a| <= |b|
  {
    if a != {} {
      var x :| x in a;
      SubsetCount(a - {x}, b - {x});
    }
  }

  /** The scorer finds at least half of what any assignment could, whatever the order of the drafts. */
  lemma AtLeastHalf(normalize: Normalize, expected: seq<Expected>, drafts: seq<Draft>, best: Matching)
    requires UniqueIds(expected) && IsMatching(normalize, expected, drafts, best)
    ensures |Matched(best)| <= 2 * |Matched(Assign(normalize, expected, drafts))|
  {
    hide TupleMatches;
    var m := Assign(normalize, expected, drafts);
    AssignIsMatching(normalize, expected, drafts);
    MatchedCount(m);
    // The matches of `best` whose claim the scorer used too.
    var shared := seq(|best|, i requires 0 <= i < |best| =>
      if best[i].Some? && best[i].value in Used(m) then best[i] else None);
    MatchedCount(shared);
    SubsetCount(Used(shared), Used(m));
    forall i | i in Matched(best) ensures i in Matched(m) + Matched(shared) {
      if m[i].None? {
        AssignIsMaximal(normalize, expected, drafts, i, best[i].value);
      }
    }
    SubsetCount(Matched(best), Matched(m) + Matched(shared));
  }

  // One case of the corpus.

  datatype Status = Success | Unavailable | RejectedResponse | Denied | Refusal

  /** A recorded response; `parsed` is what the extractor's parser makes of it, None for a schema error. */
  datatype Observed = Observed(status: Status, parsed: Option<seq<Draft>>, dropped: nat)

  datatype Fault =
    | NotOk(status: Status) | SchemaInvalid | DroppedDrafts | UnsupportedTuple | SubjectSupport | Polarity | TemporalSupport
    | CitationSupport | UnscoredBody | UnderLabel | MissingTuple | MissedAbstention

  datatype CaseScore = CaseScore(
    truePositive: nat, falsePositive: nat, falseNegative: nat, bodyUnscored: nat, underLabels: nat, abstained: bool,
    failures: set<Fault>)

  ghost function DraftsOf(observed: Observed): seq<Draft> {
    if observed.status.Success? && observed.parsed.Some? then observed.parsed.value else []
  }

  /** A draft matched to this claim needs no further remark. */
  ghost predicate Clean(normalize: Normalize, e: Expected, d: Draft) {
    SomeEqual(normalize, e.bodies, d.body) && !Below(d.sensitivity, e.minimumSensitivity)
  }

  /** A perfect one-to-one matching of drafts and claims, with accepted bodies and high enough labels. */
  ghost predicate Perfect(normalize: Normalize, expected: seq<Expected>, drafts: seq<Draft>, m: Matching) {
    && IsMatching(normalize, expected, drafts, m)
    && AllClean(normalize, expected, drafts, m)
    && (forall j: nat :: j < |expected| ==> j in Used(m))
  }

  ghost predicate CasePassed(normalize: Normalize, expected: seq<Expected>, observed: Observed) {
    && observed.status.Success? && observed.parsed.Some? && observed.dropped == 0
    && Perfect(normalize, expected, observed.parsed.value, Assign(normalize, expected, observed.parsed.value))
  }

  /** What the draft loop has counted after some drafts. */
  ghost predicate Counted(normalize: Normalize, expected: seq<Expected>, drafts: seq<Draft>, m: Matching, falsePositive: nat, faults: set<Fault>)
    requires |m| == |drafts| && InRange(expected, m)
  {
    falsePositive + |Matched(m)| == |m| && (faults == {} <==> AllClean(normalize, expected, drafts, m))
  }

  ghost predicate AllClean(normalize: Normalize, expected: seq<Expected>, drafts: seq<Draft>, m: Matching)
    requires |m| == |drafts| && InRange(expected, m)
  {
    forall i :: 0 <= i < |m| ==> m[i].Some? && Clean(normalize, expected[m[i].value], drafts[i])
  }

  lemma AllCleanPush(normalize: Normalize, expected: seq<Expected>, drafts: seq<Draft>, m: Matching, d: Draft, found: Option<nat>)
    requires |m| == |drafts| && InRange(expected, m) && InRange(expected, m + [found])
    requires found.Some? ==> found.value < |expected|
    ensures AllClean(normalize, expected, drafts + [d], m + [found]) <==>
            AllClean(normalize, expected, drafts, m) && found.Some? && Clean(normalize, expected[found.value], d)
  {
    hide Clean;
    var m', drafts' := m + [found], drafts + [d];
    assert forall i :: 0 <= i < |m| ==> m'[i] == m[i] && drafts'[i] == drafts[i];
    assert m'[|m|] == found && drafts'[|m|] == d;
  }

  lemma MatchedGrows(m: Matching, found: Option<nat>)
    ensures |Matched(m + [found])| == |Matched(m)| + (if found.Some? then 1 else 0)
  {
    PushMatched(m, found);
    hide Matched;
    if found.Some? {
      assert Matched(m + [found]) == Matched(m) + {|m|};
    } else {
      assert Matched(m + [found]) == Matched(m);
    }
  }

  ghost function ObservationFaults(observed: Observed): set<Fault> {
    (if !observed.status.Success? then {NotOk(observed.status)} else {}) +
    (if observed.status.Success? && observed.parsed.None? then {SchemaInvalid} else {}) +
    (if observed.dropped > 0 then {DroppedDrafts} else {})
  }

  /** The first claim with the draft's predicate and object. */
  ghost predicate FirstRelated(normalize: Normalize, expected: seq<Expected>, d: Draft, k: nat) {
    && k < |expected| && Related(normalize, expected[k], d)
    && forall j :: 0 <= j < k ==> !Related(normalize, expected[j], d)
  }

  ghost predicate Related(normalize: Normalize, e: Expected, d: Draft) {
    e.predicate_ == d.predicate_ && SomeEqual(normalize, e.objects, d.object_)
  }

  ghost predicate CitesForeign(records: set<Text>, d: Draft) {
    exists i :: 0 <= i < |d.eventIds| && d.eventIds[i] !in records
  }

  method RelatesTo(normalize: Normalize, e: Expected, d: Draft) returns (yes: bool)
    ensures yes <==> Related(normalize, e, d)
  {
    if e.predicate_ == d.predicate_ {
      yes := HasText(normalize, e.objects, d.object_);
    } else {
      yes := false;
    }
  }

  /** What a draft without a claim is told, by the first claim with its predicate and object and by what it cites. */
  ghost predicate SupportFault(normalize: Normalize, expected: seq<Expected>, records: set<Text>, d: Draft, f: Fault) {
    match f
    case UnsupportedTuple => true
    case SubjectSupport => exists k: nat :: FirstRelated(normalize, expected, d, k) && expected[k].subject != d.subject
    case Polarity => exists k: nat :: FirstRelated(normalize, expected, d, k) && expected[k].positive != d.positive
    case TemporalSupport =>
      exists k: nat :: FirstRelated(normalize, expected, d, k) && (expected[k].validFrom != d.validFrom || expected[k].validTo != d.validTo)
    case CitationSupport =>
      CitesForeign(records, d) || exists k: nat :: FirstRelated(normalize, expected, d, k) && !Cites(expected[k], d)
    case _ => false
  }

  method UnsupportedFaults(normalize: Normalize, expected: seq<Expected>, records: set<Text>, d: Draft) returns (faults: set<Fault>)
    ensures forall f :: f in faults <==> SupportFault(normalize, expected, records, d, f)
  {
    hide SomeEqual, Cites, Related;
    faults := {UnsupportedTuple};
    var found := false;
    var k: nat := 0;
    while k < |expected| && !found
      invariant k <= |expected| && (found ==> FirstRelated(normalize, expected, d, k))
      invariant !found ==> forall j :: 0 <= j < k ==> !Related(normalize, expected[j], d)
      decreases |expected| - k, !found
    {
      found := RelatesTo(normalize, expected[k], d);
      if !found {
        k := k + 1;
      }
    }
    if found {
      OneFirstRelated(normalize, expected, d, k);
      var same := expected[k];
      if same.subject != d.subject {
        faults := faults + {SubjectSupport};
      }
      if same.positive != d.positive {
        faults := faults + {Polarity};
      }
      if same.validFrom != d.validFrom || same.validTo != d.validTo {
        faults := faults + {TemporalSupport};
      }
      var cited := CitesEvents(same, d);
      if !cited {
        faults := faults + {CitationSupport};
      }
    }
    if exists i :: 0 <= i < |d.eventIds| && d.eventIds[i] !in records {
      faults := faults + {CitationSupport};
    }
  }

  lemma OneFirstRelated(normalize: Normalize, expected: seq<Expected>, d: Draft, k: nat)
    requires FirstRelated(normalize, expected, d, k)
    ensures forall j: nat :: FirstRelated(normalize, expected, d, j) ==> j == k
  {
    hide Related;
  }

  ghost function Floor(expected: seq<Expected>, found: Option<nat>): Label
    requires found.Some? ==> found.value < |expected|
  {
    if found.Some? then expected[found.value].minimumSensitivity else Private
  }

  ghost predicate BodyMissed(normalize: Normalize, expected: seq<Expected>, d: Draft, found: Option<nat>)
    requires found.Some? ==> found.value < |expected|
  {
    found.Some? && !SomeEqual(normalize, expected[found.value].bodies, d.body)
  }

  ghost predicate Underlabelled(expected: seq<Expected>, d: Draft, found: Option<nat>)
    requires found.Some? ==> found.value < |expected|
  {
    Below(d.sensitivity, Floor(expected, found))
  }

  /** How many of the drafts miss the body that their claim asks for, and how many are labelled too low. */
  ghost function BodyMisses(normalize: Normalize, expected: seq<Expected>, drafts: seq<Draft>, m: Matching): nat
    requires |m| == |drafts| && InRange(expected, m)
  {
    if m == [] then 0
    else
      var n := |m| - 1;
      BodyMisses(normalize, expected, drafts[..n], m[..n]) + if BodyMissed(normalize, expected, drafts[n], m[n]) then 1 else 0
  }

  ghost function Underlabels(expected: seq<Expected>, drafts: seq<Draft>, m: Matching): nat
    requires |m| == |drafts| && InRange(expected, m)
  {
    if m == [] then 0
    else
      var n := |m| - 1;
      Underlabels(expected, drafts[..n], m[..n]) + if Underlabelled(expected, drafts[n], m[n]) then 1 else 0
  }

  lemma RemarksPush(normalize: Normalize, expected: seq<Expected>, drafts: seq<Draft>, m: Matching, d: Draft, found: Option<nat>)
    requires |m| == |drafts| && InRange(expected, m) && (found.Some? ==> found.value < |expected|)
    ensures InRange(expected, m + [found])
    ensures BodyMisses(normalize, expected, drafts + [d], m + [found])
         == BodyMisses(normalize, expected, drafts, m) + if BodyMissed(normalize, expected, d, found) then 1 else 0
    ensures Underlabels(expected, drafts + [d], m + [found])
         == Underlabels(expected, drafts, m) + if Underlabelled(expected, d, found) then 1 else 0
  {
    hide BodyMissed, Underlabelled;
    assert (drafts + [d])[..|m|] == drafts && (m + [found])[..|m|] == m;
  }

  /** Everything that one draft is told, given the claim it was matched with. */
  ghost predicate DraftFault(normalize: Normalize, expected: seq<Expected>, records: set<Text>, d: Draft, found: Option<nat>, f: Fault)
    requires found.Some? ==> found.value < |expected|
  {
    match f
    case UnscoredBody => BodyMissed(normalize, expected, d, found)
    case UnderLabel => Underlabelled(expected, d, found)
    case _ => found.None? && SupportFault(normalize, expected, records, d, f)
  }

  ghost predicate SomeFault(normalize: Normalize, expected: seq<Expected>, records: set<Text>, drafts: seq<Draft>, m: Matching, f: Fault)
    requires |m| == |drafts| && InRange(expected, m)
  {
    exists i :: 0 <= i < |m| && DraftFault(normalize, expected, records, drafts[i], m[i], f)
  }

  lemma SomeFaultPush(normalize: Normalize, expected: seq<Expected>, records: set<Text>, drafts: seq<Draft>, m: Matching, d: Draft,
                      found: Option<nat>, f: Fault)
    requires |m| == |drafts| && InRange(expected, m) && (found.Some? ==> found.value < |expected|)
    ensures InRange(expected, m + [found])
    ensures SomeFault(normalize, expected, records, drafts + [d], m + [found], f)
       <==> SomeFault(normalize, expected, records, drafts, m, f) || DraftFault(normalize, expected, records, d, found, f)
  {
    hide DraftFault;
    var m', drafts' := m + [found], drafts + [d];
    assert forall i :: 0 <= i < |m| ==> m'[i] == m[i] && drafts'[i] == drafts[i];
    assert m'[|m|] == found && drafts'[|m|] == d;
  }

  /** Nothing is told of a draft exactly when it is clean. */
  lemma NoFaultIsClean(normalize: Normalize, expected: seq<Expected>, records: set<Text>, d: Draft, found: Option<nat>, faults: set<Fault>)
    requires found.Some? ==> found.value < |expected|
    requires forall f :: f in faults <==> DraftFault(normalize, expected, records, d, found, f)
    ensures faults == {} <==> found.Some? && Clean(normalize, expected[found.value], d)
  {
    hide SomeEqual, FirstRelated, Cites, CitesForeign;
    assert DraftFault(normalize, expected, records, d, found, UnsupportedTuple) <==> found.None?;
    assert UnsupportedTuple in faults <==> found.None?;
    assert UnscoredBody in faults <==> BodyMissed(normalize, expected, d, found);
    assert UnderLabel in faults <==> Underlabelled(expected, d, found);
    forall f | f in faults ensures !(found.Some? && Clean(normalize, expected[found.value], d)) {
      assert DraftFault(normalize, expected, records, d, found, f);
    }
  }

  /** The remarks on one draft, given the claim it was matched with. */
  method ScoreDraft(normalize: Normalize, expected: seq<Expected>, records: set<Text>, d: Draft, found: Option<nat>)
    returns (faults: set<Fault>, bodyUnscored: nat, underLabels: nat)
    requires found.Some? ==> found.value < |expected|
    ensures forall f :: f in faults <==> DraftFault(normalize, expected, records, d, found, f)
    ensures bodyUnscored == if BodyMissed(normalize, expected, d, found) then 1 else 0
    ensures underLabels == if Underlabelled(expected, d, found) then 1 else 0
  {
    hide SomeEqual, Cites, FirstRelated, CitesForeign;
    faults, bodyUnscored, underLabels := {}, 0, 0;
    var floor := Private;
    if found.None? {
      faults := UnsupportedFaults(normalize, expected, records, d);
    } else {
      floor := expected[found.value].minimumSensitivity;
      var accepted := HasText(normalize, expected[found.value].bodies, d.body);
      if !accepted {
        bodyUnscored := 1;
        faults := {UnscoredBody};
      }
    }
    if Rank(d.sensitivity) < Rank(floor) {
      underLabels := 1;
      faults := faults + {UnderLabel};
    }
  }

  /** The draft loop. */
  method ScoreDrafts(normalize: Normalize, expected: seq<Expected>, records: set<Text>, drafts: seq<Draft>)
    returns (matched: set<Text>, falsePositive: nat, bodyUnscored: nat, underLabels: nat, faults: set<Fault>)
    ensures var m := Assign(normalize, expected, drafts);
      && matched == Taken(expected, m) && Counted(normalize, expected, drafts, m, falsePositive, faults)
      && bodyUnscored == BodyMisses(normalize, expected, drafts, m) && underLabels == Underlabels(expected, drafts, m)
      && forall f :: f in faults <==> SomeFault(normalize, expected, records, drafts, m, f)
    ensures faults == {} ==> bodyUnscored == 0 && underLabels == 0 && falsePositive == 0
  {
    hide Clean, TupleMatches, Matched, Counted, Taken, Assign, InRange, BodyMisses, Underlabels, BodyMissed, Underlabelled, DraftFault,
      SomeFault, FirstFree;
    matched, falsePositive, bodyUnscored, underLabels, faults := {}, 0, 0, 0, {};
    NothingCounted(normalize, expected, records);
    assert drafts[..0] == [];
    for i := 0 to |drafts|
      invariant matched == Taken(expected, Assign(normalize, expected, drafts[..i]))
      invariant Counted(normalize, expected, drafts[..i], Assign(normalize, expected, drafts[..i]), falsePositive, faults)
      invariant bodyUnscored == BodyMisses(normalize, expected, drafts[..i], Assign(normalize, expected, drafts[..i]))
      invariant underLabels == Underlabels(expected, drafts[..i], Assign(normalize, expected, drafts[..i]))
      invariant forall f :: f in faults <==> SomeFault(normalize, expected, records, drafts[..i], Assign(normalize, expected, drafts[..i]), f)
      invariant faults == {} ==> bodyUnscored == 0 && underLabels == 0 && falsePositive == 0
    {
      var d := drafts[i];
      ghost var m := Assign(normalize, expected, drafts[..i]);
      assert drafts[..i + 1] == drafts[..i] + [d];
      AssignPush(normalize, expected, drafts[..i], d);
      var found := FindClaim(normalize, expected, d, matched);
      PushTaken(expected, m, found);
      var more, body, under := ScoreDraft(normalize, expected, records, d, found);
      NoFaultIsClean(normalize, expected, records, d, found, more);
      CleanMarks(normalize, expected, d, found);
      CountedPush(normalize, expected, drafts[..i], m, falsePositive, faults, d, found, more);
      RemarksPush(normalize, expected, drafts[..i], m, d, found);
      forall f ensures SomeFault(normalize, expected, records, drafts[..i + 1], m + [found], f) <==> f in faults + more {
        SomeFaultPush(normalize, expected, records, drafts[..i], m, d, found, f);
      }
      if found.None? {
        falsePositive := falsePositive + 1;
      } else {
        matched := matched + {expected[found.value].id};
      }
      bodyUnscored, underLabels, faults := bodyUnscored + body, underLabels + under, faults + more;
    }
    assert drafts[..|drafts|] == drafts;
  }

  lemma CleanMarks(normalize: Normalize, expected: seq<Expected>, d: Draft, found: Option<nat>)
    requires found.Some? ==> found.value < |expected|
    ensures found.Some? && Clean(normalize, expected[found.value], d) <==>
            found.Some? && !BodyMissed(normalize, expected, d, found) && !Underlabelled(expected, d, found)
  {
    hide SomeEqual;
  }

  lemma AssignPush(normalize: Normalize, expected: seq<Expected>, drafts: seq<Draft>, d: Draft)
    ensures var m := Assign(normalize, expected, drafts);
      Assign(normalize, expected, drafts + [d]) == m + [FirstFree(normalize, expected, d, Taken(expected, m), 0)]
  {
    assert (drafts + [d])[..|drafts|] == drafts;
  }

  lemma NothingCounted(normalize: Normalize, expected: seq<Expected>, records: set<Text>)
    ensures Assign(normalize, expected, []) == []
    ensures Counted(normalize, expected, [], [], 0, {}) && Taken(expected, []) == {}
    ensures BodyMisses(normalize, expected, [], []) == 0 && Underlabels(expected, [], []) == 0
    ensures forall f :: !SomeFault(normalize, expected, records, [], [], f)
  {
    assert Matched([]) == {};
  }

  /** What the score of one case says. */
  ghost predicate Scored(normalize: Normalize, expected: seq<Expected>, observed: Observed, row: CaseScore) {
    var drafts := DraftsOf(observed);
    var m := Assign(normalize, expected, drafts);
    && row.truePositive + row.falsePositive == |drafts|
    && row.truePositive + row.falseNegative == |expected|
    && row.truePositive == |Matched(m)|
    && row.bodyUnscored == BodyMisses(normalize, expected, drafts, m)
    && row.underLabels == Underlabels(expected, drafts, m)
    && (row.abstained <==> Abstained(observed))
    && (row.failures == {} <==> CasePassed(normalize, expected, observed))
    && (row.failures == {} ==> row.bodyUnscored == 0 && row.underLabels == 0 && row.falsePositive == 0 && row.falseNegative == 0)
  }

  ghost predicate Abstained(observed: Observed) {
    observed == Observed(Success, Some([]), 0)
  }

  /** A case is told of a failure exactly when its reply, one of its drafts or its claims as a whole give cause for it. */
  ghost predicate FailureCause(normalize: Normalize, expected: seq<Expected>, records: set<Text>, observed: Observed, f: Fault) {
    var drafts := DraftsOf(observed);
    var m := Assign(normalize, expected, drafts);
    match f
    case NotOk(status) => observed.status == status && status != Success
    case SchemaInvalid => observed.status == Success && observed.parsed == None
    case DroppedDrafts => observed.dropped > 0
    case MissingTuple => |Matched(m)| < |expected|
    case MissedAbstention => expected == [] && !Abstained(observed)
    case _ => SomeFault(normalize, expected, records, drafts, m, f)
  }

  method ScoreCase(normalize: Normalize, expected: seq<Expected>, records: set<Text>, observed: Observed) returns (row: CaseScore)
    requires UniqueIds(expected)
    ensures Scored(normalize, expected, observed, row)
    ensures forall f :: f in row.failures <==> FailureCause(normalize, expected, records, observed, f)
  {
    hide Clean, TupleMatches, Matched, Used, BodyMisses, Underlabels, Assign, UniqueIds, IsMatching, Taken, InRange, CasePassed,
      AllClean, ObservationFaults, SomeFault, FailureCause;
    var replied := ObserveReply(observed);
    var drafts := if observed.status == Success && observed.parsed.Some? then observed.parsed.value else [];
    var matched, falsePositive, bodyUnscored, underLabels, faults := ScoreDrafts(normalize, expected, records, drafts);
    FinalCounts(normalize, expected, drafts);
    var falseNegative: nat := |expected| - |matched|;
    var abstained := observed.status.Success? && observed.parsed.Some? && |drafts| == 0 && observed.dropped == 0;
    var failures := replied + faults
      + (if falseNegative > 0 then {MissingTuple} else {})
      + (if |expected| == 0 && !abstained then {MissedAbstention} else {});
    PassedMeans(normalize, expected, observed, falsePositive, faults);
    EmptyUnion(replied, faults, if falseNegative > 0 then {MissingTuple} else {},
               if |expected| == 0 && !abstained then {MissedAbstention} else {});
    SoundReply(observed);
    CauseOf(normalize, expected, records, observed, faults, falseNegative > 0, |expected| == 0 && !abstained, failures);
    row := CaseScore(|matched|, falsePositive, falseNegative, bodyUnscored, underLabels, abstained, failures);
  }

  method ObserveReply(observed: Observed) returns (faults: set<Fault>)
    ensures faults == ObservationFaults(observed)
  {
    faults := {};
    if observed.status != Success {
      faults := {NotOk(observed.status)};
    } else if observed.parsed.None? {
      faults := {SchemaInvalid};
    }
    if observed.dropped > 0 {
      faults := faults + {DroppedDrafts};
    }
  }

  ghost predicate OfDraft(f: Fault) {
    match f
    case NotOk(_) => false
    case SchemaInvalid => false
    case DroppedDrafts => false
    case MissingTuple => false
    case MissedAbstention => false
    case _ => true
  }

  lemma DraftFaultKinds(normalize: Normalize, expected: seq<Expected>, records: set<Text>, drafts: seq<Draft>, m: Matching, f: Fault)
    requires |m| == |drafts| && InRange(expected, m) && SomeFault(normalize, expected, records, drafts, m, f)
    ensures OfDraft(f)
  {
    hide BodyMissed, Underlabelled, FirstRelated, CitesForeign, Cites;
  }

  /** The union of the failures found is the set of those with a cause. */
  lemma CauseOf(normalize: Normalize, expected: seq<Expected>, records: set<Text>, observed: Observed, faults: set<Fault>, missing: bool,
                missed: bool, failures: set<Fault>)
    requires var drafts := DraftsOf(observed);
      forall g :: g in faults <==> SomeFault(normalize, expected, records, drafts, Assign(normalize, expected, drafts), g)
    requires missing <==> |Matched(Assign(normalize, expected, DraftsOf(observed)))| < |expected|
    requires missed <==> expected == [] && !Abstained(observed)
    requires failures
          == ObservationFaults(observed) + faults + (if missing then {MissingTuple} else {}) + (if missed then {MissedAbstention} else {})
    ensures forall f :: f in failures <==> FailureCause(normalize, expected, records, observed, f)
  {
    hide Assign, Matched, SomeFault, ObservationFaults, OfDraft, Abstained, FailureCause;
    FaultsListed(observed);
    var drafts := DraftsOf(observed);
    forall f ensures f in failures <==> FailureCause(normalize, expected, records, observed, f) {
      if f in faults {
        DraftFaultKinds(normalize, expected, records, drafts, Assign(normalize, expected, drafts), f);
      }
      KindsApart(f);
      CauseByKind(normalize, expected, records, observed, f);
    }
  }

  lemma KindsApart(f: Fault)
    ensures OfDraft(f) <==> !f.NotOk? && !f.SchemaInvalid? && !f.DroppedDrafts? && !f.MissingTuple? && !f.MissedAbstention?
  {
  }

  lemma CauseByKind(normalize: Normalize, expected: seq<Expected>, records: set<Text>, observed: Observed, f: Fault)
    ensures var drafts := DraftsOf(observed);
      FailureCause(normalize, expected, records, observed, f) <==>
        || (OfDraft(f) && SomeFault(normalize, expected, records, drafts, Assign(normalize, expected, drafts), f))
        || (f.NotOk? && observed.status == f.status && f.status != Success)
        || (f.SchemaInvalid? && observed.status == Success && observed.parsed == None)
        || (f.DroppedDrafts? && observed.dropped > 0)
        || (f.MissingTuple? && |Matched(Assign(normalize, expected, drafts))| < |expected|)
        || (f.MissedAbstention? && expected == [] && !Abstained(observed))
  {
    hide Assign, Matched, SomeFault, Abstained, DraftsOf;
  }

  lemma EmptyUnion(a: set<Fault>, b: set<Fault>, c: set<Fault>, d: set<Fault>)
    ensures a + b + c + d == {} <==> a == {} && b == {} && c == {} && d == {}
  {
    forall x | x in a || x in b || x in c || x in d ensures x in a + b + c + d {}
  }

  lemma SoundReply(observed: Observed)
    ensures ObservationFaults(observed) == {} <==> observed.status.Success? && observed.parsed.Some? && observed.dropped == 0
  {
    hide *;
    FaultsListed(observed);
    var faults := ObservationFaults(observed);
    assert !observed.status.Success? ==> NotOk(observed.status) in faults;
    assert observed.parsed.None? && observed.status.Success? ==> SchemaInvalid in faults;
    if observed.status.Success? && observed.parsed.Some? && observed.dropped == 0 {
      forall f ensures f !in faults {
        assert f.NotOk? ==> f == NotOk(f.status);
      }
    }
  }

  lemma FaultsListed(observed: Observed)
    ensures forall status :: NotOk(status) in ObservationFaults(observed) <==> status == observed.status && status != Success
    ensures SchemaInvalid in ObservationFaults(observed) <==> observed.status.Success? && observed.parsed.None?
    ensures DroppedDrafts in ObservationFaults(observed) <==> observed.dropped > 0
    ensures forall f :: f in ObservationFaults(observed) ==> f.NotOk? || f.SchemaInvalid? || f.DroppedDrafts?
  {
  }

  lemma PassedMeans(normalize: Normalize, expected: seq<Expected>, observed: Observed, falsePositive: nat, faults: set<Fault>)
    requires UniqueIds(expected)
    requires var m := Assign(normalize, expected, DraftsOf(observed));
      Counted(normalize, expected, DraftsOf(observed), m, falsePositive, faults)
    ensures var m := Assign(normalize, expected, DraftsOf(observed));
      CasePassed(normalize, expected, observed) <==>
      ObservationFaults(observed) == {} && faults == {} && |Matched(m)| == |expected|
    ensures CasePassed(normalize, expected, observed) && |expected| == 0 ==> |DraftsOf(observed)| == 0
  {
    hide Clean, TupleMatches, Used, Assign, Taken, IsMatching, UniqueIds, ObservationFaults;
    SoundReply(observed);
    FinalCounts(normalize, expected, DraftsOf(observed));
    var m := Assign(normalize, expected, DraftsOf(observed));
    assert AllClean(normalize, expected, DraftsOf(observed), m) && m != [] ==> m[0].value < |expected|;
  }

  /** What one more draft does to the counts. */
  lemma CountedPush(normalize: Normalize, expected: seq<Expected>, drafts: seq<Draft>, m: Matching, falsePositive: nat,
                    faults: set<Fault>, d: Draft, found: Option<nat>, more: set<Fault>)
    requires |m| == |drafts| && InRange(expected, m) && (found.Some? ==> found.value < |expected|)
    requires Counted(normalize, expected, drafts, m, falsePositive, faults)
    requires more == {} <==> found.Some? && Clean(normalize, expected[found.value], d)
    ensures InRange(expected, m + [found])
    ensures Counted(normalize, expected, drafts + [d], m + [found], falsePositive + (if found.Some? then 0 else 1), faults + more)
  {
    hide Clean, AllClean, Matched;
    PushTaken(expected, m, found);
    MatchedGrows(m, found);
    AllCleanPush(normalize, expected, drafts, m, d, found);
  }

  /** All of the reference is used exactly when as many are matched as there are. */
  lemma FinalCounts(normalize: Normalize, expected: seq<Expected>, drafts: seq<Draft>)
    requires UniqueIds(expected)
    ensures var m := Assign(normalize, expected, drafts);
      && IsMatching(normalize, expected, drafts, m)
      && |Taken(expected, m)| == |Matched(m)| <= |expected|
      && (|Matched(m)| == |expected| <==> forall j: nat :: j < |expected| ==> j in Used(m))
  {
    var m := Assign(normalize, expected, drafts);
    AssignIsMatching(normalize, expected, drafts);
    MatchedCount(m);
    TakenCount(expected, m);
    IndexCount(|expected|, Used(m));
  }

  // The whole corpus.

  datatype Case = Case(expected: seq<Expected>, records: set<Text>, observed: Observed)

  datatype Report = Report(
    rows: seq<CaseScore>, passed: bool, truePositive: nat, falsePositive: nat, falseNegative: nat, bodyUnscored: nat)

  ghost function AllDrafts(cases: seq<Case>, n: nat): nat
    requires n <= |cases|
  {
    if n == 0 then 0 else AllDrafts(cases, n - 1) + |DraftsOf(cases[n - 1].observed)|
  }

  ghost function AllExpected(cases: seq<Case>, n: nat): nat
    requires n <= |cases|
  {
    if n == 0 then 0 else AllExpected(cases, n - 1) + |cases[n - 1].expected|
  }

  /** The matched drafts of all cases, and those among them whose body is not one of their claim's. */
  ghost function AllMatched(normalize: Normalize, cases: seq<Case>, n: nat): nat
    requires n <= |cases|
  {
    if n == 0 then 0
    else
      var c := cases[n - 1];
      AllMatched(normalize, cases, n - 1) + |Matched(Assign(normalize, c.expected, DraftsOf(c.observed)))|
  }

  ghost function AllBodyMisses(normalize: Normalize, cases: seq<Case>, n: nat): nat
    requires n <= |cases|
  {
    if n == 0 then 0
    else
      var c := cases[n - 1];
      var drafts := DraftsOf(c.observed);
      AllBodyMisses(normalize, cases, n - 1) + BodyMisses(normalize, c.expected, drafts, Assign(normalize, c.expected, drafts))
  }

  ghost predicate CaseRow(normalize: Normalize, c: Case, row: CaseScore) {
    && Scored(normalize, c.expected, c.observed, row)
    && forall f :: f in row.failures <==> FailureCause(normalize, c.expected, c.records, c.observed, f)
  }

  lemma CaseTotals(normalize: Normalize, c: Case, row: CaseScore)
    requires CaseRow(normalize, c, row)
    ensures row.truePositive == |Matched(Assign(normalize, c.expected, DraftsOf(c.observed)))|
    ensures row.bodyUnscored == BodyMisses(normalize, c.expected, DraftsOf(c.observed), Assign(normalize, c.expected, DraftsOf(c.observed)))
    ensures row.truePositive + row.falsePositive == |DraftsOf(c.observed)| && row.truePositive + row.falseNegative == |c.expected|
    ensures row.failures == {} <==> CasePassed(normalize, c.expected, c.observed)
    ensures row.failures == {} ==> row.bodyUnscored == 0
  {
    hide CasePassed, Assign, Matched, BodyMisses, Underlabels, FailureCause;
  }

  /** Every total is the sum of its cases, counts are conserved, and the corpus passes exactly when every case does. */
  method ScoreExtraction(normalize: Normalize, cases: seq<Case>) returns (report: Report)
    requires forall k :: 0 <= k < |cases| ==> UniqueIds(cases[k].expected)
    ensures |report.rows| == |cases| && forall k :: 0 <= k < |cases| ==> CaseRow(normalize, cases[k], report.rows[k])
    ensures report.truePositive == AllMatched(normalize, cases, |cases|)
    ensures report.bodyUnscored == AllBodyMisses(normalize, cases, |cases|)
    ensures report.truePositive + report.falsePositive == AllDrafts(cases, |cases|)
    ensures report.truePositive + report.falseNegative == AllExpected(cases, |cases|)
    ensures report.passed <==> forall k :: 0 <= k < |cases| ==> CasePassed(normalize, cases[k].expected, cases[k].observed)
  {
    hide CasePassed, Assign, Matched, BodyMisses, UniqueIds, CaseRow;
    var rows: seq<CaseScore> := [];
    var truePositive: nat, falsePositive: nat, falseNegative: nat, bodyUnscored: nat := 0, 0, 0, 0;
    for k := 0 to |cases|
      invariant |rows| == k && forall j :: 0 <= j < k ==> CaseRow(normalize, cases[j], rows[j])
      invariant truePositive == AllMatched(normalize, cases, k) && bodyUnscored == AllBodyMisses(normalize, cases, k)
      invariant truePositive + falsePositive == AllDrafts(cases, k)
      invariant truePositive + falseNegative == AllExpected(cases, k)
      invariant (forall j :: 0 <= j < k ==> rows[j].failures == {}) ==> bodyUnscored == 0
    {
      var row := ScoreCase(normalize, cases[k].expected, cases[k].records, cases[k].observed);
      RowOfCase(normalize, cases[k], row);
      CaseTotals(normalize, cases[k], row);
      rows := rows + [row];
      truePositive, falsePositive := truePositive + row.truePositive, falsePositive + row.falsePositive;
      falseNegative, bodyUnscored := falseNegative + row.falseNegative, bodyUnscored + row.bodyUnscored;
      assert forall j :: 0 <= j < k ==> rows[j] == rows[..k][j];
    }
    forall k | 0 <= k < |rows| ensures rows[k].failures == {} <==> CasePassed(normalize, cases[k].expected, cases[k].observed) {
      CaseTotals(normalize, cases[k], rows[k]);
    }
    var clean := forall k :: 0 <= k < |rows| ==> rows[k].failures == {};
    report := Report(rows, bodyUnscored == 0 && clean, truePositive, falsePositive, falseNegative, bodyUnscored);
  }

  lemma RowOfCase(normalize: Normalize, c: Case, row: CaseScore)
    requires Scored(normalize, c.expected, c.observed, row)
    requires forall f :: f in row.failures <==> FailureCause(normalize, c.expected, c.records, c.observed, f)
    ensures CaseRow(normalize, c, row)
  {
  }
}
