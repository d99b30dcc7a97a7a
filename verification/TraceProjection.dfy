/**
 Bounded projections of native service evidence (scripts/native-service-trace.ts): a syscall trace cut down to its start, its
 end and its last failures, and a namespace id map that must translate both ways.
 */
module TraceProjection {
  import opened Wrappers
  import opened UnicodeText
  import Lines
  import Sorting
  import Intervals

  const MAX_TRACE_LENGTH := 65_536
  const FIRST := 80
  const LAST := 40
  const FAILURES := 40

  datatype Row = Row(syscall: Text, result: Option<int>, errno: Option<Text>, path: Option<Text>, metadata: Option<Text>)

  datatype Entry = Entry(index: nat, row: Row)

  // What a projection is to keep of the rows that were matched.

  ghost predicate Failing(row: Row) { row.errno.Some? }

  ghost function FailuresBefore(rows: seq<Row>, k: nat): nat
    requires k <= |rows|
  {
    if k == 0 then 0 else FailuresBefore(rows, k - 1) + if Failing(rows[k - 1]) then 1 else 0
  }

  /** Among the first 80, among the last 40, or a failure with fewer than 40 failures after it. */
  ghost predicate Kept(rows: seq<Row>, k: nat)
    requires k < |rows|
  {
    k < FIRST || |rows| - k <= LAST
    || (Failing(rows[k]) && FailuresBefore(rows, |rows|) - FailuresBefore(rows, k) <= FAILURES)
  }

  ghost function Selection(rows: seq<Row>, k: nat): seq<Row>
    requires k <= |rows|
  {
    if k == 0 then [] else Selection(rows, k - 1) + if Kept(rows, k - 1) then [rows[k - 1]] else []
  }

  // Maps from index to row, whose entries stay in order of insertion as a JavaScript Map's do.

  predicate Has(m: seq<Entry>, index: nat) {
    exists k :: 0 <= k < |m| && m[k].index == index
  }

  function Put(m: seq<Entry>, e: Entry): seq<Entry> {
    if Has(m, e.index) then seq(|m|, k requires 0 <= k < |m| => if m[k].index == e.index then e else m[k]) else m + [e]
  }

  function PutAll(m: seq<Entry>, es: seq<Entry>): seq<Entry> {
    if es == [] then m else Put(PutAll(m, es[..|es| - 1]), es[|es| - 1])
  }

  predicate ByIndex(a: Entry, b: Entry) { a.index <= b.index }

  ghost predicate Ascending(es: seq<Entry>) {
    forall i, j :: 0 <= i < j < |es| ==> es[i].index < es[j].index
  }

  ghost predicate DistinctIndexes(es: seq<Entry>) {
    forall i, j :: 0 <= i < j < |es| ==> es[i].index != es[j].index
  }

  /** Every entry holds the row at its index. */
  ghost predicate Of(rows: seq<Row>, es: seq<Entry>) {
    forall i :: 0 <= i < |es| ==> es[i].index < |rows| && es[i].row == rows[es[i].index]
  }

  lemma PutOne(rows: seq<Row>, m: seq<Entry>, e: Entry)
    requires Of(rows, m) && DistinctIndexes(m) && Of(rows, [e])
    ensures Of(rows, Put(m, e)) && DistinctIndexes(Put(m, e))
    ensures forall k: nat :: Has(Put(m, e), k) <==> Has(m, k) || k == e.index
  {
    assert [e][0] == e;
    if Has(m, e.index) {
      assert Put(m, e) == m;
    } else {
      HasAppend(m, e);
    }
  }

  lemma HasAppend(m: seq<Entry>, e: Entry)
    ensures forall k: nat :: Has(m + [e], k) <==> Has(m, k) || k == e.index
  {
    var n := m + [e];
    forall k: nat ensures Has(n, k) <==> Has(m, k) || k == e.index {
      if i :| 0 <= i < |m| && m[i].index == k {
        assert n[i].index == k;
      }
      assert n[|m|] == e;
    }
  }

  lemma {:induction false} PutMany(rows: seq<Row>, m: seq<Entry>, es: seq<Entry>)
    requires Of(rows, m) && DistinctIndexes(m) && Of(rows, es)
    ensures Of(rows, PutAll(m, es)) && DistinctIndexes(PutAll(m, es))
    ensures forall k: nat :: Has(PutAll(m, es), k) <==> Has(m, k) || Has(es, k)
  {
    if es != [] {
      var n := |es| - 1;
      PutMany(rows, m, es[..n]);
      PutOne(rows, PutAll(m, es[..n]), es[n]);
      HasAppend(es[..n], es[n]);
      assert es == es[..n] + [es[n]];
      hide Has, Put, Of, DistinctIndexes;
    }
  }

  lemma SortAscending(rows: seq<Row>, m: seq<Entry>)
    requires Of(rows, m) && DistinctIndexes(m)
    ensures var s := Sorting.Sort(m, ByIndex); Of(rows, s) && Ascending(s) && forall k: nat :: Has(s, k) <==> Has(m, k)
  {
    var s := Sorting.Sort(m, ByIndex);
    Sorting.SortSorted(m, ByIndex);
    Sorting.SameElements(m, s);
    Sorting.DistinctPermutation(m, s);
    forall i | 0 <= i < |s| ensures s[i].index < |rows| && s[i].row == rows[s[i].index] {
      assert s[i] in s && s[i] in m;
    }
    forall i, j | 0 <= i < j < |s| ensures s[i].index < s[j].index {
      assert ByIndex(s[i], s[j]);
    }
    forall k: nat ensures Has(s, k) <==> Has(m, k) {
      if i :| 0 <= i < |s| && s[i].index == k {
        assert s[i] in s && s[i] in m;
      }
      if i :| 0 <= i < |m| && m[i].index == k {
        assert m[i] in m && m[i] in s;
      }
    }
  }

  /** The rows of the first `n` entries that are to be kept, when the entries are exactly those that are. */
  lemma {:induction false} AscendingSelection(rows: seq<Row>, es: seq<Entry>, k: nat, n: nat)
    requires Of(rows, es) && Ascending(es) && k <= |rows| && n <= |es|
    requires forall i: nat :: i < |rows| ==> (Has(es, i) <==> Kept(rows, i))
    requires forall i :: 0 <= i < |es| ==> (es[i].index < k <==> i < n)
    ensures RowsOf(es[..n]) == Selection(rows, k)
  {
    hide Kept, Has;
    if k > 0 {
      if Kept(rows, k - 1) {
        LastBelow(rows, es, k, n);
        AscendingSelection(rows, es, k - 1, n - 1);
        assert RowsOf(es[..n]) == RowsOf(es[..n - 1]) + [es[n - 1].row];
      } else {
        NotAmong(es, k - 1);
        AscendingSelection(rows, es, k - 1, n);
      }
    }
  }

  /** The last of the entries below `k` is the one at `k - 1`. */
  lemma LastBelow(rows: seq<Row>, es: seq<Entry>, k: nat, n: nat)
    requires Of(rows, es) && Ascending(es) && 0 < k <= |rows| && n <= |es| && Has(es, k - 1)
    requires forall i :: 0 <= i < |es| ==> (es[i].index < k <==> i < n)
    ensures n > 0 && es[n - 1].index == k - 1 && es[n - 1].row == rows[k - 1]
    ensures forall i :: 0 <= i < |es| ==> (es[i].index < k - 1 <==> i < n - 1)
  {
    var i :| 0 <= i < |es| && es[i].index == k - 1;
    assert i < n && es[n - 1].index < k;
  }

  lemma NotAmong(es: seq<Entry>, k: nat)
    requires !Has(es, k)
    ensures forall i :: 0 <= i < |es| ==> es[i].index != k
  {
  }

  function RowsOf(es: seq<Entry>): seq<Row> {
    seq(|es|, i requires 0 <= i < |es| => es[i].row)
  }

  // The three windows.

  /** The rows from `lo` up to `hi`. */
  ghost predicate Window(rows: seq<Row>, es: seq<Entry>, lo: int, hi: int) {
    0 <= lo <= hi <= |rows| && |es| == hi - lo && forall i :: 0 <= i < |es| ==> es[i] == Entry(lo + i, rows[lo + i])
  }

  /** `e` is the failure that comes after exactly `n` others. */
  ghost predicate IsFailure(rows: seq<Row>, e: Entry, n: int) {
    e.index < |rows| && e.row == rows[e.index] && Failing(e.row) && FailuresBefore(rows, e.index) == n
  }

  ghost predicate Listed(rows: seq<Row>, es: seq<Entry>, dropped: int, k: nat)
    requires k < |rows|
  {
    Failing(rows[k]) && FailuresBefore(rows, k) >= dropped ==>
      FailuresBefore(rows, k) - dropped < |es| && es[FailuresBefore(rows, k) - dropped].index == k
  }

  /** The failures so far except for the first `dropped`. */
  ghost predicate LateFailures(rows: seq<Row>, es: seq<Entry>, dropped: int, hi: int) {
    && 0 <= hi <= |rows| && 0 <= dropped && |es| == FailuresBefore(rows, hi) - dropped
    && (forall i :: 0 <= i < |es| ==> es[i].index < hi && IsFailure(rows, es[i], dropped + i))
    && (forall k: nat :: k < hi ==> Listed(rows, es, dropped, k))
  }

  lemma {:induction false} FailuresGrow(rows: seq<Row>, j: nat, k: nat)
    requires j <= k <= |rows|
    ensures FailuresBefore(rows, j) <= FailuresBefore(rows, k)
    ensures j < k && Failing(rows[j]) ==> FailuresBefore(rows, j) < FailuresBefore(rows, k)
    decreases k
  {
    if j < k {
      FailuresGrow(rows, j, k - 1);
    }
  }

  lemma WindowHas(rows: seq<Row>, es: seq<Entry>, lo: int, hi: int)
    requires Window(rows, es, lo, hi)
    ensures Of(rows, es) && DistinctIndexes(es)
    ensures forall k: nat :: Has(es, k) <==> lo <= k < hi
  {
    forall k: nat | lo <= k < hi ensures Has(es, k) {
      assert es[k - lo].index == k;
    }
  }

  lemma LateFailuresHas(rows: seq<Row>, es: seq<Entry>, dropped: int)
    requires LateFailures(rows, es, dropped, |rows|)
    ensures Of(rows, es)
    ensures forall k: nat :: Has(es, k) <==> k < |rows| && Failing(rows[k]) && FailuresBefore(rows, k) >= dropped
  {
    hide FailuresBefore;
    forall k: nat ensures Has(es, k) <==> k < |rows| && Failing(rows[k]) && FailuresBefore(rows, k) >= dropped {
      if k < |rows| {
        assert Listed(rows, es, dropped, k);
      }
      if i :| 0 <= i < |es| && es[i].index == k {
        assert IsFailure(rows, es[i], dropped + i);
      }
    }
  }

  lemma FailuresNext(rows: seq<Row>, es: seq<Entry>, dropped: int, hi: int)
    requires LateFailures(rows, es, dropped, hi) && hi < |rows|
    ensures Put(es, Entry(hi, rows[hi])) == es + [Entry(hi, rows[hi])]
    ensures LateFailures(rows, if Failing(rows[hi]) then es + [Entry(hi, rows[hi])] else es, dropped, hi + 1)
  {
    var e := Entry(hi, rows[hi]);
    var all := if Failing(rows[hi]) then es + [e] else es;
    Fresh(es, e);
    assert |all| == FailuresBefore(rows, hi + 1) - dropped;
    hide FailuresBefore, Put;
    forall i | 0 <= i < |all| ensures all[i].index < hi + 1 && IsFailure(rows, all[i], dropped + i) {
      assert i < |es| ==> IsFailure(rows, es[i], dropped + i);
    }
    forall k: nat | k < hi + 1 ensures Listed(rows, all, dropped, k) {
      assert k < hi ==> Listed(rows, es, dropped, k);
    }
  }

  lemma FailuresDrop(rows: seq<Row>, es: seq<Entry>, dropped: int, hi: int)
    requires LateFailures(rows, es, dropped, hi) && es != []
    ensures LateFailures(rows, es[1..], dropped + 1, hi)
  {
    hide FailuresBefore;
    var rest, fewer := es[1..], dropped + 1;
    forall i | 0 <= i < |rest| ensures rest[i].index < hi && IsFailure(rows, rest[i], dropped + 1 + i) {
      assert IsFailure(rows, es[i + 1], dropped + (i + 1));
    }
    forall k: nat | k < hi ensures Listed(rows, rest, fewer, k) {
      assert Listed(rows, es, dropped, k);
    }
  }

  lemma Fresh(m: seq<Entry>, e: Entry)
    requires forall i :: 0 <= i < |m| ==> m[i].index < e.index
    ensures Put(m, e) == m + [e]
  {
  }

  // The projection.

  datatype Projection = Projection(rows: seq<Row>, discarded: nat, omitted: nat, truncated: bool)

  ghost function Matched(match_: Text -> Option<Row>, lines: seq<Text>): seq<Row> {
    if lines == [] then []
    else
      var before, row := Matched(match_, lines[..|lines| - 1]), match_(lines[|lines| - 1]);
      if row.Some? then before + [row.value] else before
  }

  ghost function Discarded(match_: Text -> Option<Row>, lines: seq<Text>): nat {
    if lines == [] then 0
    else
      var line := lines[|lines| - 1];
      Discarded(match_, lines[..|lines| - 1]) + if match_(line).None? && line != [] then 1 else 0
  }

  lemma MatchedNext(match_: Text -> Option<Row>, lines: seq<Text>, i: nat)
    requires i < |lines|
    ensures Matched(match_, lines[..i + 1])
         == Matched(match_, lines[..i]) + if match_(lines[i]).Some? then [match_(lines[i]).value] else []
    ensures Discarded(match_, lines[..i + 1])
         == Discarded(match_, lines[..i]) + if match_(lines[i]).None? && lines[i] != [] then 1 else 0
  {
    assert lines[..i + 1][..i] == lines[..i];
  }

  ghost predicate InFirst(rows: seq<Row>, k: nat) { k < |rows| && k < FIRST }

  ghost predicate InLast(rows: seq<Row>, k: nat) { k < |rows| && |rows| - k <= LAST }

  ghost predicate InFailures(rows: seq<Row>, dropped: int, k: nat) {
    k < |rows| && Failing(rows[k]) && FailuresBefore(rows, k) >= dropped
  }

  lemma WindowsHave(rows: seq<Row>, first: seq<Entry>, last: seq<Entry>, failures: seq<Entry>, dropped: int)
    requires Windows(rows, first, last, failures, dropped, |rows|)
    ensures Of(rows, first) && DistinctIndexes(first) && Of(rows, last) && Of(rows, failures)
    ensures forall k: nat :: Has(first, k) <==> InFirst(rows, k)
    ensures forall k: nat :: Has(last, k) <==> InLast(rows, k)
    ensures forall k: nat :: Has(failures, k) <==> InFailures(rows, dropped, k)
  {
    var m := |rows|;
    WindowHas(rows, first, 0, if m < FIRST then m else FIRST);
    WindowHas(rows, last, if m < LAST then 0 else m - LAST, m);
    LateFailuresHas(rows, failures, dropped);
    hide Window, LateFailures, Has, Of, DistinctIndexes, FailuresBefore, Failing;
  }

  /** The three maps together hold exactly the rows to keep. */
  lemma Merged(rows: seq<Row>, first: seq<Entry>, last: seq<Entry>, failures: seq<Entry>, dropped: int)
    requires Windows(rows, first, last, failures, dropped, |rows|)
    ensures RowsOf(Sorting.Sort(PutAll(PutAll(first, last), failures), ByIndex)) == Selection(rows, |rows|)
  {
    WindowsHave(rows, first, last, failures, dropped);
    forall i: nat | i < |rows| ensures Kept(rows, i) <==> InFirst(rows, i) || InLast(rows, i) || InFailures(rows, dropped, i) {
      KeptWhen(rows, i, dropped, |failures|);
    }
    hide *;
    PutMany(rows, first, last);
    PutMany(rows, PutAll(first, last), failures);
    SortAscending(rows, PutAll(PutAll(first, last), failures));
    WholeSelection(rows, Sorting.Sort(PutAll(PutAll(first, last), failures), ByIndex));
  }

  lemma KeptWhen(rows: seq<Row>, k: nat, dropped: int, left: nat)
    requires k < |rows| && left == FailuresBefore(rows, |rows|) - dropped
    requires left <= FAILURES && dropped >= 0 && (dropped > 0 ==> left == FAILURES)
    ensures Kept(rows, k) <==> k < FIRST || |rows| - k <= LAST || (Failing(rows[k]) && FailuresBefore(rows, k) >= dropped)
  {
    FailuresGrow(rows, k, |rows|);
  }

  lemma WholeSelection(rows: seq<Row>, ordered: seq<Entry>)
    requires Of(rows, ordered) && Ascending(ordered)
    requires forall i: nat :: i < |rows| ==> (Has(ordered, i) <==> Kept(rows, i))
    ensures RowsOf(ordered) == Selection(rows, |rows|)
  {
    AscendingSelection(rows, ordered, |rows|, |ordered|);
    assert ordered[..|ordered|] == ordered;
  }

  /** The rows, in three windows as they stand after the first `m` of them. */
  ghost predicate Windows(rows: seq<Row>, first: seq<Entry>, last: seq<Entry>, failures: seq<Entry>, dropped: int, m: nat) {
    && m <= |rows|
    && Window(rows, first, 0, if m < FIRST then m else FIRST)
    && Window(rows, last, if m < LAST then 0 else m - LAST, m)
    && LateFailures(rows, failures, dropped, m) && |failures| <= FAILURES && (dropped > 0 ==> |failures| == FAILURES)
  }

  lemma WindowNext(rows: seq<Row>, es: seq<Entry>, lo: int, hi: int)
    requires Window(rows, es, lo, hi) && hi < |rows|
    ensures Put(es, Entry(hi, rows[hi])) == es + [Entry(hi, rows[hi])]
    ensures Window(rows, es + [Entry(hi, rows[hi])], lo, hi + 1)
    ensures |es| == hi - lo
  {
    Fresh(es, Entry(hi, rows[hi]));
  }

  /** Puts a new entry and evicts the oldest if there are now too many. */
  function Push(m: seq<Entry>, e: Entry, limit: nat): seq<Entry> {
    var r := Put(m, e);
    if |r| > limit then r[1..] else r
  }

  lemma FirstNext(rows: seq<Row>, first: seq<Entry>, m: nat)
    requires m < |rows| && Window(rows, first, 0, if m < FIRST then m else FIRST)
    ensures Window(rows, if |first| < FIRST then Put(first, Entry(m, rows[m])) else first, 0, if m + 1 < FIRST then m + 1 else FIRST)
  {
    if m < FIRST {
      WindowNext(rows, first, 0, m);
    }
    hide Put;
  }

  lemma LastNext(rows: seq<Row>, last: seq<Entry>, m: nat)
    requires m < |rows| && Window(rows, last, if m < LAST then 0 else m - LAST, m)
    ensures Window(rows, Push(last, Entry(m, rows[m]), LAST), if m + 1 < LAST then 0 else m + 1 - LAST, m + 1)
  {
    var lo := if m < LAST then 0 else m - LAST;
    WindowNext(rows, last, lo, m);
    hide Put;
    if m >= LAST {
      WindowDrop(rows, Put(last, Entry(m, rows[m])), lo, m + 1);
    }
  }

  lemma FailureNext(rows: seq<Row>, failures: seq<Entry>, dropped: int, m: nat)
    requires m < |rows| && Failing(rows[m]) && LateFailures(rows, failures, dropped, m)
    requires |failures| <= FAILURES && (dropped > 0 ==> |failures| == FAILURES)
    ensures var r, d := Push(failures, Entry(m, rows[m]), FAILURES), if |failures| == FAILURES then dropped + 1 else dropped;
            LateFailures(rows, r, d, m + 1) && |r| <= FAILURES && (d > 0 ==> |r| == FAILURES)
  {
    FailuresNext(rows, failures, dropped, m);
    hide Put;
    if |failures| == FAILURES {
      FailuresDrop(rows, Put(failures, Entry(m, rows[m])), dropped, m + 1);
    }
    hide LateFailures;
  }

  lemma FailingWhen(row: Row)
    ensures Failing(row) <==> row.errno.Some?
  {
  }

  method Take(ghost rows: seq<Row>, row: Row, m: nat, first: seq<Entry>, last: seq<Entry>, failures: seq<Entry>, ghost dropped: int)
    returns (first': seq<Entry>, last': seq<Entry>, failures': seq<Entry>, ghost dropped': int)
    requires m < |rows| && rows[m] == row && Windows(rows, first, last, failures, dropped, m)
    ensures Windows(rows, first', last', failures', dropped', m + 1)
  {
    hide Put, Push, Window, LateFailures, Failing;
    FirstNext(rows, first, m);
    LastNext(rows, last, m);
    if Failing(row) {
      FailureNext(rows, failures, dropped, m);
    } else {
      FailuresNext(rows, failures, dropped, m);
    }
    var e := Entry(m, row);
    first' := if |first| < FIRST then Put(first, e) else first;
    last' := Push(last, e, LAST);
    failures', dropped' := failures, dropped;
    FailingWhen(row);
    if row.errno.Some? {
      failures' := Push(failures, e, FAILURES);
      dropped' := if |failures| == FAILURES then dropped + 1 else dropped;
    }
  }

  lemma WindowDrop(rows: seq<Row>, es: seq<Entry>, lo: int, hi: int)
    requires Window(rows, es, lo, hi) && lo < hi
    ensures Window(rows, es[1..], lo + 1, hi)
  {
  }

  lemma {:induction false} MatchedPrefix(match_: Text -> Option<Row>, lines: seq<Text>, i: nat)
    requires i <= |lines|
    ensures var some, all := Matched(match_, lines[..i]), Matched(match_, lines);
            |some| <= |all| && all[..|some|] == some
    decreases |lines| - i
  {
    if i < |lines| {
      MatchedNext(match_, lines, i);
      MatchedPrefix(match_, lines, i + 1);
      hide Matched;
      var some, more, all := Matched(match_, lines[..i]), Matched(match_, lines[..i + 1]), Matched(match_, lines);
      assert all[..|some|] == all[..|more|][..|some|];
    } else {
      assert lines[..i] == lines;
    }
  }

  /** Exactly the rows to keep, in order; the rest are counted. */
  method ProjectNativeSyscallTrace(match_: Text -> Option<Row>, raw: Text) returns (p: Projection)
    ensures var lines := Lines.Split(if |raw| > MAX_TRACE_LENGTH then raw[..MAX_TRACE_LENGTH] else raw);
            var rows := Matched(match_, lines);
            && p.rows == Selection(rows, |rows|)
            && p.omitted == |rows| - |p.rows|
            && p.discarded == Discarded(match_, lines)
            && (p.truncated <==> |raw| > MAX_TRACE_LENGTH || p.omitted > 0)
  {
    hide LateFailures, Window, Selection, Matched, Discarded;
    var limited := if |raw| > MAX_TRACE_LENGTH then raw[..MAX_TRACE_LENGTH] else raw;
    var lines := Lines.Split(limited);
    var first: seq<Entry>, last: seq<Entry>, failures: seq<Entry> := [], [], [];
    ghost var rows, dropped := Matched(match_, lines), 0;
    var matched, discarded: nat := 0, 0;
    NothingTaken(rows);
    NothingMatched(match_, lines);
    for i := 0 to |lines|
      invariant matched == |Matched(match_, lines[..i])| && discarded == Discarded(match_, lines[..i])
      invariant Windows(rows, first, last, failures, dropped, matched)
    {
      MatchedNext(match_, lines, i);
      var row := match_(lines[i]);
      if row.None? {
        discarded := if lines[i] != [] then discarded + 1 else discarded;
      } else {
        MatchedPrefix(match_, lines, i + 1);
        first, last, failures, dropped := Take(rows, row.value, matched, first, last, failures, dropped);
        matched := matched + 1;
      }
    }
    assert lines[..|lines|] == lines;
    Merged(rows, first, last, failures, dropped);
    SelectionFits(rows, |rows|);
    var kept := RowsOf(Sorting.Sort(PutAll(PutAll(first, last), failures), ByIndex));
    p := Projection(kept, discarded, matched - |kept|, |raw| > MAX_TRACE_LENGTH || matched > |kept|);
  }

  lemma NothingMatched(match_: Text -> Option<Row>, lines: seq<Text>)
    ensures Matched(match_, lines[..0]) == [] && Discarded(match_, lines[..0]) == 0
  {
  }

  lemma NothingTaken(rows: seq<Row>)
    ensures Windows(rows, [], [], [], 0, 0)
  {
  }

  lemma {:induction false} SelectionFits(rows: seq<Row>, k: nat)
    requires k <= |rows|
    ensures |Selection(rows, k)| <= k
  {
    if k > 0 {
      SelectionFits(rows, k - 1);
    }
  }

  // The id map.

  const MAX_ID := 0xffff_ffff
  const MAX_RANGES := 340
  const MAX_MAP_LENGTH := 16_384

  datatype Range = Range(inside: nat, outside: nat, length: nat)

  ghost predicate RangeFits(r: Range) {
    r.length >= 1 && r.inside + r.length <= MAX_ID && r.outside + r.length <= MAX_ID
  }

  ghost function Inside(r: Range): Intervals.Span { Intervals.Span(r.inside, r.inside + r.length) }

  ghost function Outside(r: Range): Intervals.Span { Intervals.Span(r.outside, r.outside + r.length) }

  ghost function Spans(rows: seq<Range>, side: Range -> Intervals.Span): (s: seq<Intervals.Span>)
    ensures |s| == |rows| && forall i :: 0 <= i < |rows| ==> s[i] == side(rows[i])
  {
    seq(|rows|, i requires 0 <= i < |rows| => side(rows[i]))
  }

  /** The ranges that the lines stand for, or nothing if any line stands for none. */
  ghost function Ranges(match_: Text -> Option<Range>, lines: seq<Text>): Option<seq<Range>> {
    if lines == [] then Some([])
    else
      var before, row := Ranges(match_, lines[..|lines| - 1]), match_(lines[|lines| - 1]);
      if before.Some? && row.Some? then Some(before.value + [row.value]) else None
  }

  /** Within 32 bits, and no id on either side in two ranges. */
  ghost predicate Translates(rows: seq<Range>) {
    && (forall i :: 0 <= i < |rows| ==> RangeFits(rows[i]))
    && Intervals.AllApart(Spans(rows, Inside))
    && Intervals.AllApart(Spans(rows, Outside))
  }

  /** The lines of a map file, which is bounded and ends its last line. */
  ghost function MapLines(raw: Text): Option<seq<Text>> {
    if |raw| > MAX_MAP_LENGTH || raw == [] || raw[|raw| - 1] != LINE_FEED then None else Some(Lines.Split(Trim(raw)))
  }

  /** Whether no two ranges meet, on either side. */
  method SidesApart(rows: seq<Range>) returns (apart: bool)
    requires forall k :: 0 <= k < |rows| ==> RangeFits(rows[k])
    ensures apart <==> Intervals.AllApart(Spans(rows, Inside)) && Intervals.AllApart(Spans(rows, Outside))
  {
    hide Intervals.AllApart;
    var insides := seq(|rows|, i requires 0 <= i < |rows| => Intervals.Span(rows[i].inside, rows[i].inside + rows[i].length));
    var outsides := seq(|rows|, i requires 0 <= i < |rows| => Intervals.Span(rows[i].outside, rows[i].outside + rows[i].length));
    forall i | 0 <= i < |rows| ensures insides[i].start < insides[i].end && outsides[i].start < outsides[i].end {
      assert RangeFits(rows[i]);
    }
    assert insides == Spans(rows, Inside) && outsides == Spans(rows, Outside);
    var inside := Intervals.NeighboursApart(insides);
    var outside := Intervals.NeighboursApart(outsides);
    return inside && outside;
  }

  method ProjectNativeIdMap(match_: Text -> Option<Range>, raw: Text) returns (r: Option<seq<Range>>)
    ensures r.Some? <==>
            && MapLines(raw).Some? && |MapLines(raw).value| <= MAX_RANGES && !AllSpace(raw)
            && Ranges(match_, MapLines(raw).value).Some? && Translates(Ranges(match_, MapLines(raw).value).value)
    ensures r.Some? ==> r == Ranges(match_, MapLines(raw).value)
  {
    hide Trim, AllSpace, IsSpace, Lines.Split, Intervals.AllApart, Spans, Inside, Outside;
    if |raw| > MAX_MAP_LENGTH || raw == [] || raw[|raw| - 1] != LINE_FEED {
      return None;
    }
    var lines := Lines.Split(Trim(raw));
    FirstLineEmpty(raw);
    if |lines| > MAX_RANGES || lines[0] == [] {
      return None;
    }
    var rows: seq<Range> := [];
    for i := 0 to |lines|
      invariant Ranges(match_, lines[..i]) == Some(rows)
      invariant forall k :: 0 <= k < |rows| ==> RangeFits(rows[k])
    {
      assert lines[..i + 1][..i] == lines[..i];
      var row := match_(lines[i]);
      if row.None? || row.value.length < 1 || row.value.inside + row.value.length > MAX_ID || row.value.outside + row.value.length > MAX_ID {
        RangesKept(match_, lines, i + 1);
        assert Ranges(match_, lines).Some? ==> row.Some? && Ranges(match_, lines).value[|rows|] == row.value;
        return None;
      }
      rows := rows + [row.value];
    }
    assert lines[..|lines|] == lines;
    var apart := SidesApart(rows);
    return if apart then Some(rows) else None;
  }

  /** After trimming, the first line is empty only if nothing is left. */
  lemma FirstLineEmpty(raw: Text)
    ensures Lines.Split(Trim(raw))[0] == [] <==> AllSpace(raw)
  {
    var front, back := TrimLeaves(raw);
    var t := Trim(raw);
    assert t == [] || t[0] != LINE_FEED;
    if AllSpace(raw) {
      SkipSpaceAll(raw);
    }
  }

  lemma {:induction false} RangesKept(match_: Text -> Option<Range>, lines: seq<Text>, i: nat)
    requires i <= |lines|
    ensures Ranges(match_, lines).Some? ==>
              && Ranges(match_, lines[..i]).Some?
              && Ranges(match_, lines[..i]).value <= Ranges(match_, lines).value
    decreases |lines| - i
  {
    if i < |lines| {
      RangesKept(match_, lines, i + 1);
      assert lines[..i + 1][..i] == lines[..i];
    } else {
      assert lines[..i] == lines;
    }
  }

  /** Where `id` inside the namespace is found outside. */
  ghost predicate MapsTo(rows: seq<Range>, id: int, out: int) {
    exists k :: 0 <= k < |rows| && Through(rows[k], id, out)
  }

  ghost predicate Through(r: Range, id: int, out: int) {
    r.inside <= id < r.inside + r.length && out == r.outside + (id - r.inside)
  }

  /** An accepted map is a partial injection: no id has two translations, and no two ids have the same one. */
  lemma PartialInjection(rows: seq<Range>, a: int, x: int, b: int, y: int)
    requires Translates(rows) && MapsTo(rows, a, x) && MapsTo(rows, b, y)
    ensures a == b <==> x == y
    ensures 0 <= a < MAX_ID && 0 <= x < MAX_ID
  {
    hide Intervals.AllApart;
    var i: nat :| i < |rows| && Through(rows[i], a, x);
    var j: nat :| j < |rows| && Through(rows[j], b, y);
    var inside, outside := Spans(rows, Inside), Spans(rows, Outside);
    assert RangeFits(rows[i]);
    if i != j {
      PairApart(inside, i, j);
      PairApart(outside, i, j);
    }
  }

  lemma PairApart(spans: seq<Intervals.Span>, i: nat, j: nat)
    requires Intervals.AllApart(spans) && i < |spans| && j < |spans| && i != j
    ensures Intervals.Apart(spans[i], spans[j])
  {
    if j < i {
      assert Intervals.Apart(spans[j], spans[i]);
    }
  }
}
