/**
 Selecting a workflow's current attempt (scripts/github-release-evidence.ts). Runs are listed page by page, every
 attempt of every run is read, and only the attempt that started last of all can pass.
 */
module WorkflowAttempts {
  import opened Wrappers
  import opened UnicodeText
  import opened Sequences
  import Sorting

  const PAGE_SIZE := 25
  const MAX_PAGES := 20
  const MAX_ATTEMPTS := 10

  // The request budget: each request is counted, and refused past the limit or when the time is over.

  const MAX_REQUESTS := 256

  ghost predicate MayAsk(timely: nat -> bool, k: nat) { k <= MAX_REQUESTS && timely(k) }

  /** All requests after the first `from`, up to the `to`-th, are within the budget. */
  ghost predicate AllAsked(timely: nat -> bool, from: nat, to: nat) {
    forall k: nat :: from < k <= to ==> MayAsk(timely, k)
  }

  lemma RequestCounts(timely: nat -> bool, k: nat)
    ensures MayAsk(timely, k) <==> k <= MAX_REQUESTS && timely(k)
  {
  }

  lemma AskedJoined(timely: nat -> bool, a: nat, b: nat, c: nat)
    requires a <= b <= c
    ensures AllAsked(timely, a, c) <==> AllAsked(timely, a, b) && AllAsked(timely, b, c)
  {
  }

  // Paged listings.

  datatype Page<T> = Page(total: int, items: seq<T>)

  function Items<T>(get: nat -> Option<Page<T>>, n: nat): seq<T> {
    if n == 0 then [] else Items(get, n - 1) + (if get(n).Some? then get(n).value.items else [])
  }

  /** Pages 1 to `n` list everything: one total throughout, reached on the last page, and every page before it full. */
  ghost predicate Inventory<T>(get: nat -> Option<Page<T>>, limit: nat, n: nat) {
    && 1 <= n <= MAX_PAGES
    && (forall k: nat :: 1 <= k <= n ==> PageFits(get, limit, |Items(get, n)|, k))
    && (forall k: nat :: 1 <= k < n ==> PageFull(get, |Items(get, n)|, k))
  }

  ghost predicate PageFits<T>(get: nat -> Option<Page<T>>, limit: nat, total: nat, k: nat) {
    get(k).Some? && get(k).value.total == total && total <= limit && |get(k).value.items| <= PAGE_SIZE
  }

  ghost predicate PageFull<T>(get: nat -> Option<Page<T>>, total: nat, k: nat) {
    get(k).Some? && |get(k).value.items| == PAGE_SIZE && |Items(get, k)| < total
  }

  lemma ItemsStart<T>(get: nat -> Option<Page<T>>)
    ensures Items(get, 0) == []
  {
  }

  lemma ItemsStep<T>(get: nat -> Option<Page<T>>, n: nat)
    requires n > 0 && get(n).Some?
    ensures Items(get, n) == Items(get, n - 1) + get(n).value.items
  {
  }

  lemma Complete<T>(get: nat -> Option<Page<T>>, limit: nat, n: nat)
    requires 1 <= n <= MAX_PAGES
    requires PageFits(get, limit, |Items(get, n)|, n)
    requires forall k: nat :: 1 <= k < n ==> Unfinished(get, limit, |Items(get, n)|, k)
    ensures Inventory(get, limit, n)
  {
    hide Items, PageFits, PageFull;
    forall k: nat | 1 <= k <= n ensures PageFits(get, limit, |Items(get, n)|, k) {
      assert k < n ==> Unfinished(get, limit, |Items(get, n)|, k);
    }
    forall k: nat | 1 <= k < n ensures PageFull(get, |Items(get, n)|, k) {
      assert Unfinished(get, limit, |Items(get, n)|, k);
    }
  }

  lemma InventoryBound<T>(get: nat -> Option<Page<T>>, limit: nat, n: nat)
    requires Inventory(get, limit, n)
    ensures n <= MAX_PAGES
  {
  }

  /** Page `k` leaves a listing of `total` entries unfinished. */
  ghost predicate Unfinished<T>(get: nat -> Option<Page<T>>, limit: nat, total: nat, k: nat) {
    PageFits(get, limit, total, k) && PageFull(get, total, k)
  }

  /** After unfinished pages a complete listing has at least one page more, and agrees with them on the total. */
  lemma NextPage<T>(get: nat -> Option<Page<T>>, limit: nat, n: nat, page: nat, total: nat)
    requires Inventory(get, limit, n) && 1 <= page
    requires forall k: nat :: 1 <= k < page ==> Unfinished(get, limit, total, k)
    ensures page <= n
    ensures page > 1 ==> total == |Items(get, n)|
    ensures PageFits(get, limit, |Items(get, n)|, page)
    ensures page < n ==> PageFull(get, |Items(get, n)|, page)
  {
    hide Items;
    if page > 1 {
      assert Unfinished(get, limit, total, 1);
      assert PageFits(get, limit, |Items(get, n)|, 1);
    }
    if n < page && Unfinished(get, limit, total, n) {
      assert false;
    }
  }

  /** Lists everything, one request a page, of which `start` have been made before. */
  method Pages<T>(get: nat -> Option<Page<T>>, limit: nat, timely: nat -> bool, start: nat) returns (r: Option<seq<T>>, asked: nat)
    ensures r.Some? <==> Listing(get, limit).Some? && AllAsked(timely, start, start + PageCount(get, limit))
    ensures r.Some? ==> r == Listing(get, limit) && asked == start + PageCount(get, limit)
  {
    hide Items, Inventory, Listing, PageCount;
    asked := start;
    ItemsStart(get);
    var rows: seq<T> := [];
    var total: Option<int> := None;
    for page := 1 to MAX_PAGES + 1
      invariant rows == Items(get, page - 1) && asked == start + page - 1 && AllAsked(timely, start, asked)
      invariant total.Some? <==> page > 1
      invariant total.Some? ==> total.value >= 0
      invariant forall k: nat :: 1 <= k < page ==> total.Some? && Unfinished(get, limit, total.value, k)
    {
      forall n: nat | Inventory(get, limit, n)
        ensures page <= n && PageFits(get, limit, |Items(get, n)|, page) && (page < n ==> PageFull(get, |Items(get, n)|, page))
        ensures total.Some? ==> total.value == |Items(get, n)|
      {
        NextPage(get, limit, n, page, if total.Some? then total.value else 0);
      }
      NotListedSooner(get, limit, page);
      asked := asked + 1;
      RequestCounts(timely, asked);
      if asked > MAX_REQUESTS || !timely(asked) || get(page).None? {
        return None, asked;
      }
      var value := get(page).value;
      if value.total < 0 || value.total > limit || (total.Some? && total.value != value.total) {
        return None, asked;
      }
      total := Some(value.total);
      if |value.items| > PAGE_SIZE {
        return None, asked;
      }
      rows := rows + value.items;
      ItemsStep(get, page);
      if |rows| > value.total || (value.items == [] && |rows| != value.total) {
        return None, asked;
      }
      if |rows| == value.total {
        Complete(get, limit, page);
        ListedAt(get, limit, page);
        return Some(rows), asked;
      }
      if |value.items| != PAGE_SIZE {
        return None, asked;
      }
    }
    forall n: nat | Inventory(get, limit, n) ensures false {
      NextPage(get, limit, n, MAX_PAGES + 1, total.value);
      InventoryBound(get, limit, n);
    }
    ListedSomewhere(get, limit);
    return None, asked;
  }

  /** What the pages list, if they list anything completely, and in how many pages. */
  ghost function Listing<T>(get: nat -> Option<Page<T>>, limit: nat): Option<seq<T>> {
    if exists n: nat :: Inventory(get, limit, n) then
      var n: nat :| Inventory(get, limit, n);
      Some(Items(get, n))
    else None
  }

  ghost function PageCount<T>(get: nat -> Option<Page<T>>, limit: nat): nat {
    if exists n: nat :: Inventory(get, limit, n) then
      var n: nat :| Inventory(get, limit, n);
      n
    else 0
  }

  lemma OneInventory<T>(get: nat -> Option<Page<T>>, limit: nat, n: nat, n': nat)
    requires Inventory(get, limit, n) && Inventory(get, limit, n')
    ensures n == n'
  {
    NextPage(get, limit, n, n', |Items(get, n')|);
    NextPage(get, limit, n', n, |Items(get, n)|);
  }

  lemma ListedAt<T>(get: nat -> Option<Page<T>>, limit: nat, n: nat)
    requires Inventory(get, limit, n)
    ensures Listing(get, limit) == Some(Items(get, n)) && PageCount(get, limit) == n
  {
    hide Inventory, Items;
    forall n': nat | Inventory(get, limit, n') ensures n' == n {
      OneInventory(get, limit, n, n');
    }
  }

  lemma ListedSomewhere<T>(get: nat -> Option<Page<T>>, limit: nat)
    ensures Listing(get, limit).Some? <==> exists n: nat :: Inventory(get, limit, n)
  {
  }

  /** If every complete listing has at least `page` pages, one that is there needs as many requests. */
  lemma NotListedSooner<T>(get: nat -> Option<Page<T>>, limit: nat, page: nat)
    requires forall n: nat :: Inventory(get, limit, n) ==> page <= n
    ensures Listing(get, limit).Some? ==>
              page <= PageCount(get, limit) && Inventory(get, limit, PageCount(get, limit))
              && Listing(get, limit) == Some(Items(get, PageCount(get, limit)))
  {
    hide Inventory, Items;
    if n: nat :| Inventory(get, limit, n) {
      ListedAt(get, limit, n);
    }
  }

  // Runs and attempts. A start time is the number of seconds that its canonical text stands for.

  type Positive = n: int | n >= 1 witness 1

  datatype RunStatus = Completed | Queued | InProgress | Waiting | Pending | Requested

  datatype Conclusion =
    | Success | Failure | Cancelled | TimedOut | ActionRequired | Neutral | Skipped | Stale | StartupFailure

  datatype Run = Run(
    id: nat, runNumber: nat, attempt: Positive, workflowId: nat, path: Text, event: Text,
    status: RunStatus, conclusion: Option<Conclusion>, startedAt: int, createdAt: Text, updatedAt: Text)
  {
    ghost predicate Succeeded() { status == Completed && conclusion == Some(Success) }
  }

  predicate LaterFirst(a: Run, b: Run) { b.startedAt <= a.startedAt }

  ghost predicate OneWorkflow(rows: seq<Run>) {
    && (forall i, j :: 0 <= i < j < |rows| ==> rows[i].runNumber != rows[j].runNumber)
    && (forall i, j :: 0 <= i < j < |rows| ==> rows[i].workflowId == rows[j].workflowId)
  }

  /** `None` rejects the history; `Some(None)` is a workflow that never ran. */
  ghost function LatestAttempt(rows: seq<Run>): Option<Option<Run>> {
    if !OneWorkflow(rows) then None
    else
      var ordered := Sorting.Sort(rows, LaterFirst);
      if |ordered| > 1 && ordered[0].startedAt == ordered[1].startedAt then None
      else Some(if ordered == [] then None else Some(ordered[0]))
  }

  /** The loop's selection: numbers and workflow are compared, the attempts sorted, and the top two looked at. */
  method SelectLatest(rows: seq<Run>) returns (r: Option<Option<Run>>)
    ensures r == LatestAttempt(rows)
  {
    if exists i, j :: 0 <= i < j < |rows| && rows[i].runNumber == rows[j].runNumber {
      return None;
    }
    if exists i, j :: 0 <= i < j < |rows| && rows[i].workflowId != rows[j].workflowId {
      return None;
    }
    var ordered := Sorting.Sort(rows, LaterFirst);
    if |ordered| > 1 && ordered[0].startedAt == ordered[1].startedAt {
      return None;
    }
    return Some(if ordered == [] then None else Some(ordered[0]));
  }

  /** The attempt at `k` started after all the others. */
  ghost predicate IsLatest(rows: seq<Run>, k: nat) {
    k < |rows| && forall j :: 0 <= j < |rows| && j != k ==> rows[j].startedAt < rows[k].startedAt
  }

  /** The top of the sorted list and a look at its neighbour find the one latest attempt, and find out when there is none. */
  lemma LatestIsMaximum(rows: seq<Run>)
    requires OneWorkflow(rows)
    ensures forall k: nat :: IsLatest(rows, k) ==> LatestAttempt(rows) == Some(Some(rows[k]))
    ensures LatestAttempt(rows) == None <==> rows != [] && !exists k: nat :: IsLatest(rows, k)
    ensures LatestAttempt(rows) == Some(None) <==> rows == []
  {
    if rows != [] {
      var ordered := Sorting.Sort(rows, LaterFirst);
      Sorting.SortSorted(rows, LaterFirst);
      Sorting.DistinctPermutation(rows, ordered);
      Sorting.SameElements(rows, ordered);
      hide Sorting.Sort, OneWorkflow;
      if |ordered| > 1 && ordered[0].startedAt == ordered[1].startedAt {
        TwoTops(rows, ordered);
      } else {
        OneTop(rows, ordered);
      }
    }
  }

  lemma TwoTops(rows: seq<Run>, ordered: seq<Run>)
    requires |ordered| > 1 && ordered[0] != ordered[1] && ordered[0].startedAt == ordered[1].startedAt
    requires forall run :: run in rows <==> run in ordered
    requires Sorting.Sorted(ordered, LaterFirst)
    ensures !exists k: nat :: IsLatest(rows, k)
  {
    assert ordered[0] in rows && ordered[1] in rows;
    forall k: nat | k < |rows| ensures rows[k] in ordered && rows[k].startedAt <= ordered[0].startedAt {
      assert rows[k] in rows;
      var top :| 0 <= top < |ordered| && ordered[top] == rows[k];
      assert top > 0 ==> LaterFirst(ordered[0], ordered[top]);
    }
  }

  lemma OneTop(rows: seq<Run>, ordered: seq<Run>)
    requires ordered != [] && (|ordered| > 1 ==> ordered[0].startedAt != ordered[1].startedAt)
    requires forall run :: run in rows <==> run in ordered
    requires Sorting.Distinct(rows) && Sorting.Sorted(ordered, LaterFirst)
    ensures exists k: nat :: IsLatest(rows, k)
    ensures forall k: nat :: IsLatest(rows, k) ==> rows[k] == ordered[0]
  {
    assert ordered[0] in rows;
    var top :| 0 <= top < |rows| && rows[top] == ordered[0];
    forall j | 0 <= j < |rows| && j != top ensures rows[j].startedAt < ordered[0].startedAt {
      assert rows[j] in rows && rows[j] in ordered;
      var i :| 0 <= i < |ordered| && ordered[i] == rows[j];
      assert LaterFirst(ordered[0], ordered[1]);
      assert i > 1 ==> LaterFirst(ordered[1], ordered[i]);
    }
    assert IsLatest(rows, top);
  }

  // One workflow's whole history.

  /** What the service answers for a run, and for each of its attempts; `None` is a failed or malformed answer. */
  datatype Service = Service(run: nat -> Option<Run>, attempt: (nat, Positive) -> Option<Run>)

  ghost predicate SameRun(observed: Run, history: Run, attempt: Positive) {
    && observed.id == history.id && observed.runNumber == history.runNumber && observed.workflowId == history.workflowId
    && observed.path == history.path && observed.event == history.event && observed.attempt == attempt
  }

  /** Creation and update times differ between a run and its own last attempt; all else must agree. */
  ghost predicate SameLatestAttempt(observed: Run, current: Run) {
    observed.(createdAt := current.createdAt, updatedAt := current.updatedAt) == current
  }

  ghost predicate Observed(service: Service, history: Run, a: Positive) {
    service.attempt(history.id, a).Some? && SameRun(service.attempt(history.id, a).value, history, a)
  }

  /** Attempt `a`; the listed run only stands in where there is none, and every use asks for `Observed` too. */
  ghost function Attempt(service: Service, history: Run, a: Positive): Run {
    if Observed(service, history, a) then service.attempt(history.id, a).value else history
  }

  ghost function Last(service: Service, history: Run): Run {
    Attempt(service, history, history.attempt)
  }

  ghost predicate After(service: Service, history: Run, a: Positive) {
    && Observed(service, history, a)
    && (a > 1 ==> Observed(service, history, a - 1)
                  && Attempt(service, history, a - 1).startedAt < Attempt(service, history, a).startedAt)
  }

  /** One listed run whose attempts 1, 2, ... are all there, each started after the one before, the last being the run itself. */
  ghost predicate Coherent(service: Service, events: seq<Text>, history: Run) {
    && history.event in events && history.attempt <= MAX_ATTEMPTS
    && service.run(history.id) == Some(history)
    && (forall a: Positive :: a <= history.attempt ==> After(service, history, a))
    && SameLatestAttempt(Last(service, history), history)
  }

  ghost predicate Done(service: Service, history: Run, a: Positive) {
    Observed(service, history, a) && Attempt(service, history, a).status == Completed
  }

  ghost predicate Settled(service: Service, history: Run) {
    forall a: Positive :: a <= history.attempt ==> Done(service, history, a)
  }

  /** One request for a run and one for each of its attempts. */
  ghost function RunRequests(history: Run): nat { 1 + history.attempt }

  method InspectRun(service: Service, events: seq<Text>, history: Run, timely: nat -> bool, start: nat)
    returns (r: Option<(Run, bool)>, asked: nat)
    ensures r.Some? <==> Coherent(service, events, history) && AllAsked(timely, start, start + RunRequests(history))
    ensures r.Some? ==> asked == start + RunRequests(history)
    ensures r.Some? ==> r.value.0 == Last(service, history)
    ensures r.Some? ==> (r.value.1 <==> !Settled(service, history))
  {
    asked := start;
    if history.event !in events || history.attempt > MAX_ATTEMPTS {
      return None, asked;
    }
    asked := asked + 1;
    RequestCounts(timely, asked);
    if asked > MAX_REQUESTS || !timely(asked) || service.run(history.id) != Some(history) {
      return None, asked;
    }
    var previous: Option<Run> := None;
    var pending := false;
    for a := 1 to history.attempt + 1
      invariant asked == start + a && AllAsked(timely, start, asked)
      invariant previous.Some? <==> a > 1
      invariant previous.Some? ==> Observed(service, history, a - 1) && previous.value == Attempt(service, history, a - 1)
      invariant forall b: Positive :: b < a ==> After(service, history, b)
      invariant pending <==> exists b: Positive :: b < a && !Done(service, history, b)
    {
      asked := asked + 1;
      RequestCounts(timely, asked);
      if asked > MAX_REQUESTS || !timely(asked) {
        return None, asked;
      }
      var answer := service.attempt(history.id, a);
      if answer.None? || answer.value.id != history.id || answer.value.runNumber != history.runNumber
         || answer.value.workflowId != history.workflowId || answer.value.path != history.path
         || answer.value.event != history.event || answer.value.attempt != a
      {
        assert !After(service, history, a);
        return None, asked;
      }
      var observed := answer.value;
      if previous.Some? && previous.value.startedAt >= observed.startedAt {
        assert !After(service, history, a);
        return None, asked;
      }
      assert Done(service, history, a) <==> observed.status == Completed;
      previous := Some(observed);
      pending := pending || observed.status != Completed;
    }
    if previous.value.(createdAt := history.createdAt, updatedAt := history.updatedAt) != history {
      return None, asked;
    }
    return Some((previous.value, pending)), asked;
  }

  datatype Status = Missing | Fail | Pass

  datatype Row = Row(run: Option<Run>, status: Status)

  ghost predicate AllCoherent(service: Service, events: seq<Text>, histories: seq<Run>) {
    forall k :: 0 <= k < |histories| ==> Coherent(service, events, histories[k])
  }

  ghost predicate AllSettled(service: Service, histories: seq<Run>) {
    forall k :: 0 <= k < |histories| ==> Settled(service, histories[k])
  }

  /** The last attempt of run `k` started after every other attempt of every run of the workflow. */
  ghost predicate Current(service: Service, histories: seq<Run>, k: nat) {
    && k < |histories| && Observed(service, histories[k], histories[k].attempt)
    && forall j, a: Positive :: 0 <= j < |histories| && a <= histories[j].attempt && (j, a) != (k, histories[k].attempt) ==>
         StartsBefore(service, histories[j], a, Last(service, histories[k]))
  }

  ghost predicate StartsBefore(service: Service, history: Run, a: Positive, run: Run) {
    Observed(service, history, a) && Attempt(service, history, a).startedAt < run.startedAt
  }

  ghost function LastAttempts(service: Service, events: seq<Text>, histories: seq<Run>): (r: seq<Run>)
    requires AllCoherent(service, events, histories)
    ensures |r| == |histories|
    ensures forall k :: 0 <= k < |r| ==> r[k] == Last(service, histories[k])
  {
    if histories == [] then []
    else
      var last := |histories| - 1;
      assert Coherent(service, events, histories[last]);
      assert forall k :: 0 <= k < last ==> histories[..last][k] == histories[k];
      LastAttempts(service, events, histories[..last]) + [Last(service, histories[last])]
  }

  /** Within one run the last attempt is the latest. */
  lemma {:induction false} LastIsLatest(service: Service, events: seq<Text>, history: Run, a: Positive)
    requires Coherent(service, events, history) && a < history.attempt
    ensures StartsBefore(service, history, a, Last(service, history))
    decreases history.attempt - a
  {
    assert After(service, history, a + 1);
    if a + 1 < history.attempt {
      LastIsLatest(service, events, history, a + 1);
    }
  }

  /** So the latest of the last attempts is the latest of all attempts. */
  lemma LatestOfAll(service: Service, events: seq<Text>, histories: seq<Run>, k: nat)
    requires AllCoherent(service, events, histories)
    ensures IsLatest(LastAttempts(service, events, histories), k) <==> Current(service, histories, k)
  {
    var lasts := LastAttempts(service, events, histories);
    if IsLatest(lasts, k) {
      assert Coherent(service, events, histories[k]);
      assert After(service, histories[k], histories[k].attempt);
      var top := Last(service, histories[k]);
      forall j, a: Positive | 0 <= j < |histories| && a <= histories[j].attempt && (j, a) != (k, histories[k].attempt)
        ensures StartsBefore(service, histories[j], a, top)
      {
        assert Coherent(service, events, histories[j]);
        assert After(service, histories[j], histories[j].attempt);
        if a < histories[j].attempt {
          LastIsLatest(service, events, histories[j], a);
        }
        assert j != k ==> lasts[j].startedAt < lasts[k].startedAt;
      }
    }
    if Current(service, histories, k) {
      forall j | 0 <= j < |lasts| && j != k ensures lasts[j].startedAt < lasts[k].startedAt {
        assert StartsBefore(service, histories[j], histories[j].attempt, Last(service, histories[k]));
      }
    }
  }

  /** Every run was coherent, they share one workflow, and if there are any runs then one attempt is the latest of all. */
  ghost predicate Conclusive(service: Service, events: seq<Text>, histories: seq<Run>) {
    && AllCoherent(service, events, histories)
    && OneWorkflow(histories)
    && (histories != [] ==> exists k: nat :: Current(service, histories, k))
  }

  lemma SelectionIsCurrent(service: Service, events: seq<Text>, histories: seq<Run>)
    requires AllCoherent(service, events, histories)
    ensures LatestAttempt(LastAttempts(service, events, histories)).Some? <==> Conclusive(service, events, histories)
    ensures LatestAttempt(LastAttempts(service, events, histories)) == Some(None) <==> histories == []
    ensures OneWorkflow(histories) ==> forall k: nat :: Current(service, histories, k) ==>
              LatestAttempt(LastAttempts(service, events, histories)) == Some(Some(Last(service, histories[k])))
  {
    hide LatestAttempt, Current, IsLatest, AllCoherent, OneWorkflow;
    var lasts := LastAttempts(service, events, histories);
    SameWorkflow(service, events, histories);
    forall k: nat ensures IsLatest(lasts, k) <==> Current(service, histories, k) {
      LatestOfAll(service, events, histories, k);
    }
    forall k: nat | Current(service, histories, k) ensures k < |histories| && lasts[k] == Last(service, histories[k]) {
      CurrentListed(service, events, histories, k);
    }
    if OneWorkflow(lasts) {
      LatestIsMaximum(lasts);
    } else {
      NoSelection(lasts);
    }
  }

  lemma CurrentListed(service: Service, events: seq<Text>, histories: seq<Run>, k: nat)
    requires AllCoherent(service, events, histories) && Current(service, histories, k)
    ensures k < |histories| && LastAttempts(service, events, histories)[k] == Last(service, histories[k])
  {
  }

  lemma NoSelection(rows: seq<Run>)
    requires !OneWorkflow(rows)
    ensures LatestAttempt(rows) == None && rows != []
  {
  }

  /** The last attempts bear the numbers and the workflow of their runs. */
  lemma SameWorkflow(service: Service, events: seq<Text>, histories: seq<Run>)
    requires AllCoherent(service, events, histories)
    ensures OneWorkflow(LastAttempts(service, events, histories)) <==> OneWorkflow(histories)
    ensures histories == [] ==> OneWorkflow(histories)
  {
    var lasts := LastAttempts(service, events, histories);
    forall k | 0 <= k < |histories| ensures lasts[k].runNumber == histories[k].runNumber && lasts[k].workflowId == histories[k].workflowId {
      assert Coherent(service, events, histories[k]);
      assert After(service, histories[k], histories[k].attempt);
    }
  }

  // The jobs of the selected attempt.

  const MAX_JOBS := 100

  datatype StepRow = StepRow(name: Text, number: nat, status: RunStatus, conclusion: Option<Conclusion>)

  datatype Job = Job(id: nat, name: Text, status: RunStatus, conclusion: Option<Conclusion>, steps: seq<StepRow>) {
    ghost predicate Succeeded() { status == Completed && conclusion == Some(Success) }
  }

  /** A step of the workflow file: the name it will be listed under, if it has one, and whether it runs on Linux only. */
  datatype StepDefinition = StepDefinition(expected: Option<Text>, linuxOnly: bool)

  /** A job of the workflow file; no steps if they are not a list. */
  datatype JobDefinition = JobDefinition(steps: Option<seq<StepDefinition>>)

  /** A required workflow: `definitions` is its file, if it is valid, and `list` lists an attempt's jobs. */
  datatype Requirement = Requirement(
    path: Text, events: seq<Text>, names: seq<Text>, native: bool, definitions: Option<Text -> Option<JobDefinition>>,
    list: Run -> (nat -> Option<Page<Job>>))

  const INACTIVE := Plain("native-arm64")
  const NATIVE_SERVICE := Plain("native-service")
  const ON_MACOS := Plain("native-service (macos-15)")

  function FindJob(jobs: seq<Job>, name: Text): (r: Option<Job>)
    ensures r.Some? ==> r.value in jobs && r.value.name == name
    ensures r.None? ==> forall j :: j in jobs ==> j.name != name
  {
    if jobs == [] then None else if jobs[0].name == name then Some(jobs[0]) else FindJob(jobs[1..], name)
  }

  function FindStep(steps: seq<StepRow>, number: nat): (r: Option<StepRow>)
    ensures r.Some? ==> r.value in steps && r.value.number == number
    ensures r.None? ==> forall s :: s in steps ==> s.number != number
  {
    if steps == [] then None else if steps[0].number == number then Some(steps[0]) else FindStep(steps[1..], number)
  }

  ghost function DefinitionOf(q: Requirement, name: Text): Option<JobDefinition>
    requires q.definitions.Some?
  {
    q.definitions.value(if q.native then NATIVE_SERVICE else name)
  }

  /** Step `i` of the definition was listed two places on, under its name, and ended as it should. */
  ghost predicate StepPasses(q: Requirement, name: Text, steps: seq<StepRow>, d: StepDefinition, i: nat) {
    var seen := FindStep(steps, i + 2);
    && seen.Some? && d.expected == Some(seen.value.name) && seen.value.status == Completed
    && seen.value.conclusion == Some(if q.native && name == ON_MACOS && d.linuxOnly then Skipped else Success)
  }

  ghost predicate AllNamed(steps: seq<StepDefinition>) {
    forall i :: 0 <= i < |steps| ==> steps[i].expected.Some?
  }

  /** The definition of a job is missing or cannot be compared with what ran. */
  ghost predicate Unbound(q: Requirement, jobs: seq<Job>, name: Text)
    requires q.definitions.Some?
  {
    var d, seen := DefinitionOf(q, name), FindJob(jobs, name);
    d.None? || (seen.Some? && seen.value.Succeeded() && (d.value.steps.None? || !AllNamed(d.value.steps.value)))
  }

  /** The job ran, succeeded, and so did every step that its definition has. */
  ghost predicate JobPasses(q: Requirement, jobs: seq<Job>, name: Text)
    requires q.definitions.Some?
  {
    var d, seen := DefinitionOf(q, name), FindJob(jobs, name);
    && d.Some? && d.value.steps.Some? && seen.Some? && seen.value.Succeeded()
    && forall i: nat :: i < |d.value.steps.value| ==> StepPasses(q, name, seen.value.steps, d.value.steps.value[i], i)
  }

  ghost predicate InactiveSkipped(jobs: seq<Job>) {
    var seen := FindJob(jobs, INACTIVE);
    seen.Some? && seen.value.status == Completed && seen.value.conclusion == Some(Skipped) && seen.value.steps == []
  }

  ghost function JobId(j: Job): nat { j.id }

  ghost function JobName(j: Job): Text { j.name }

  ghost function StepNumber(s: StepRow): nat { s.number }

  /** No job id and no job name is listed twice, and no step number within a job. */
  ghost predicate WellListed(jobs: seq<Job>) {
    && Sorting.Distinct(Apply(JobId, jobs)) && Sorting.Distinct(Apply(JobName, jobs))
    && forall k :: 0 <= k < |jobs| ==> Sorting.Distinct(Apply(StepNumber, jobs[k].steps))
  }

  /** None rejects the attempt's jobs; otherwise whether they are as required. */
  ghost function Judge(q: Requirement, run: Run, listed: Option<seq<Job>>): Option<bool> {
    if listed.None? || !WellListed(listed.value) || q.definitions.None?
       || exists k :: 0 <= k < |q.names| && Unbound(q, listed.value, q.names[k])
    then None
    else Some(run.Succeeded() && |listed.value| == |q.names| + (if q.native then 1 else 0)
              && (q.native ==> InactiveSkipped(listed.value))
              && forall k :: 0 <= k < |q.names| ==> JobPasses(q, listed.value, q.names[k]))
  }

  ghost function Verdict(q: Requirement): Run -> Option<bool> {
    run => Judge(q, run, Listing(q.list(run), MAX_JOBS))
  }

  /** One job's steps, in the order of the definition: `None` rejects. */
  method JudgeSteps(q: Requirement, name: Text, steps: seq<StepRow>, definition: seq<StepDefinition>) returns (r: Option<bool>)
    ensures r.None? <==> !AllNamed(definition)
    ensures r.Some? ==> (r.value <==> forall i: nat :: i < |definition| ==> StepPasses(q, name, steps, definition[i], i))
  {
    hide FindStep;
    var passes := true;
    for i := 0 to |definition|
      invariant forall k :: 0 <= k < i ==> definition[k].expected.Some?
      invariant passes <==> forall k: nat :: k < i ==> StepPasses(q, name, steps, definition[k], k)
    {
      var d := definition[i];
      if d.expected.None? {
        return None;
      }
      var seen := FindStep(steps, i + 2);
      var ends := if q.native && name == ON_MACOS && d.linuxOnly then Skipped else Success;
      if seen.None? || seen.value.name != d.expected.value || seen.value.status != Completed || seen.value.conclusion != Some(ends) {
        assert !StepPasses(q, name, steps, definition[i], i);
        passes := false;
      }
    }
    return Some(passes);
  }

  /** The required jobs, one after the other. */
  method JudgeRequired(q: Requirement, jobs: seq<Job>) returns (r: Option<bool>)
    requires q.definitions.Some?
    ensures r.None? <==> exists k :: 0 <= k < |q.names| && Unbound(q, jobs, q.names[k])
    ensures r.Some? ==> (r.value <==> forall k :: 0 <= k < |q.names| ==> JobPasses(q, jobs, q.names[k]))
  {
    hide FindJob, StepPasses, AllNamed;
    var passes := true;
    for k := 0 to |q.names|
      invariant forall i :: 0 <= i < k ==> !Unbound(q, jobs, q.names[i])
      invariant passes <==> forall i :: 0 <= i < k ==> JobPasses(q, jobs, q.names[i])
    {
      var name := q.names[k];
      var seen := FindJob(jobs, name);
      var definition := q.definitions.value(if q.native then NATIVE_SERVICE else name);
      if definition.None? {
        assert Unbound(q, jobs, q.names[k]);
        return None;
      }
      if seen.None? || seen.value.status != Completed || seen.value.conclusion != Some(Success) {
        assert !JobPasses(q, jobs, q.names[k]);
        passes := false;
      } else if definition.value.steps.None? {
        assert Unbound(q, jobs, q.names[k]);
        return None;
      } else {
        var judged := JudgeSteps(q, name, seen.value.steps, definition.value.steps.value);
        if judged.None? {
          assert Unbound(q, jobs, q.names[k]);
          return None;
        }
        assert judged.value <==> JobPasses(q, jobs, q.names[k]);
        passes := passes && judged.value;
      }
    }
    return Some(passes);
  }

  method CheckListed(jobs: seq<Job>) returns (ok: bool)
    ensures ok <==> WellListed(jobs)
  {
    hide Apply;
    for k := 0 to |jobs|
      invariant forall i :: 0 <= i < k ==> Sorting.Distinct(Apply(StepNumber, jobs[i].steps))
    {
      var steps := jobs[k].steps;
      if exists i, j :: 0 <= i < j < |steps| && steps[i].number == steps[j].number {
        assert !Sorting.Distinct(Apply(StepNumber, jobs[k].steps));
        return false;
      }
    }
    if exists i, j :: 0 <= i < j < |jobs| && jobs[i].id == jobs[j].id {
      assert !Sorting.Distinct(Apply(JobId, jobs));
      return false;
    }
    if exists i, j :: 0 <= i < j < |jobs| && jobs[i].name == jobs[j].name {
      assert !Sorting.Distinct(Apply(JobName, jobs));
      return false;
    }
    return true;
  }

  ghost function JobRequests(q: Requirement, run: Run): nat { PageCount(q.list(run), MAX_JOBS) }

  method JudgeJobs(q: Requirement, run: Run, timely: nat -> bool, start: nat) returns (r: Option<bool>, asked: nat)
    ensures r.Some? <==> Verdict(q)(run).Some? && AllAsked(timely, start, start + JobRequests(q, run))
    ensures r.Some? ==> r == Verdict(q)(run) && asked == start + JobRequests(q, run)
  {
    hide WellListed, Unbound, JobPasses, Inventory, Items, Listing, PageCount, AllAsked, FindJob;
    var listed;
    listed, asked := Pages(q.list(run), MAX_JOBS, timely, start);
    if listed.None? {
      return None, asked;
    }
    var ok := CheckListed(listed.value);
    if !ok || q.definitions.None? {
      return None, asked;
    }
    var judged := JudgeRequired(q, listed.value);
    if judged.None? {
      return None, asked;
    }
    var passes := run.status == Completed && run.conclusion == Some(Success);
    if |listed.value| != |q.names| + (if q.native then 1 else 0) {
      passes := false;
    }
    if q.native {
      var inactive := FindJob(listed.value, INACTIVE);
      if inactive.None? || inactive.value.status != Completed || inactive.value.conclusion != Some(Skipped) || inactive.value.steps != [] {
        passes := false;
      }
    }
    return Some(passes && judged.value), asked;
  }

  ghost function Expected(q: Requirement): set<Text> {
    Elements(q.names) + if q.native then {INACTIVE} else {}
  }

  /**
   For required names without repetition: the jobs pass exactly when the attempt succeeded, the listing is complete and without
   repetition, the jobs listed are by name the required ones and no others, and each of them is as its definition asks.
   */
  lemma JudgeMeaning(q: Requirement, run: Run)
    requires Sorting.Distinct(q.names) && INACTIVE !in q.names
    ensures Verdict(q)(run) == Some(true) <==>
      var listed := Listing(q.list(run), MAX_JOBS);
      && listed.Some? && WellListed(listed.value) && q.definitions.Some? && run.Succeeded()
      && Elements(Apply(JobName, listed.value)) == Expected(q)
      && (q.native ==> InactiveSkipped(listed.value))
      && forall k :: 0 <= k < |q.names| ==> JobPasses(q, listed.value, q.names[k])
  {
    hide Listing, Apply, StepPasses, FindStep;
    var listed := Listing(q.list(run), MAX_JOBS);
    if listed.Some? && WellListed(listed.value) && q.definitions.Some?
       && (q.native ==> InactiveSkipped(listed.value)) && forall k :: 0 <= k < |q.names| ==> JobPasses(q, listed.value, q.names[k])
    {
      forall k | 0 <= k < |q.names| ensures !Unbound(q, listed.value, q.names[k]) {
        PassingBound(q, listed.value, q.names[k]);
      }
      ExpectedListed(q, listed.value);
    }
  }

  lemma PassingBound(q: Requirement, jobs: seq<Job>, name: Text)
    requires q.definitions.Some? && JobPasses(q, jobs, name)
    ensures !Unbound(q, jobs, name)
  {
    hide FindStep, FindJob;
    var definition := DefinitionOf(q, name).value.steps.value;
    forall i | 0 <= i < |definition| ensures definition[i].expected.Some? {
      assert StepPasses(q, name, FindJob(jobs, name).value.steps, definition[i], i);
    }
  }

  lemma NameListed(jobs: seq<Job>, name: Text)
    requires FindJob(jobs, name).Some?
    ensures name in Elements(Apply(JobName, jobs))
  {
    hide FindJob, Apply;
    var k :| 0 <= k < |jobs| && jobs[k] == FindJob(jobs, name).value;
    assert Apply(JobName, jobs)[k] == name;
  }

  /** If all expected jobs are there, there are no others exactly when the number is right. */
  lemma ExpectedListed(q: Requirement, jobs: seq<Job>)
    requires Sorting.Distinct(q.names) && INACTIVE !in q.names && q.definitions.Some? && WellListed(jobs)
    requires (q.native ==> InactiveSkipped(jobs)) && forall k :: 0 <= k < |q.names| ==> JobPasses(q, jobs, q.names[k])
    ensures Elements(Apply(JobName, jobs)) == Expected(q) <==> |jobs| == |q.names| + if q.native then 1 else 0
  {
    hide Apply, JobPasses, InactiveSkipped, Expected, Elements;
    ElementCount(Apply(JobName, jobs));
    ExpectedCount(q);
    ExpectedThere(q, jobs);
    if |Expected(q)| == |Elements(Apply(JobName, jobs))| {
      SameSize(Expected(q), Elements(Apply(JobName, jobs)));
    }
  }

  lemma ExpectedCount(q: Requirement)
    requires Sorting.Distinct(q.names) && INACTIVE !in q.names
    ensures |Expected(q)| == |q.names| + if q.native then 1 else 0
  {
    ElementCount(q.names);
    assert INACTIVE !in Elements(q.names);
  }

  lemma ExpectedThere(q: Requirement, jobs: seq<Job>)
    requires q.definitions.Some?
    requires (q.native ==> InactiveSkipped(jobs)) && forall k :: 0 <= k < |q.names| ==> JobPasses(q, jobs, q.names[k])
    ensures Expected(q) <= Elements(Apply(JobName, jobs))
  {
    hide Apply, FindJob, StepPasses;
    forall x | x in Expected(q) ensures x in Elements(Apply(JobName, jobs)) {
      if x in Elements(q.names) {
        var k :| 0 <= k < |q.names| && q.names[k] == x;
        assert JobPasses(q, jobs, q.names[k]);
      }
      NameListed(jobs, x);
    }
  }

  ghost function OfWorkflow(rows: seq<Run>, path: Text): seq<Run> {
    if rows == [] then []
    else OfWorkflow(rows[..|rows| - 1], path) + if rows[|rows| - 1].path == path then [rows[|rows| - 1]] else []
  }

  lemma ListedRun(rows: seq<Run>, path: Text, i: nat)
    requires i < |OfWorkflow(rows, path)|
    ensures OfWorkflow(rows, path)[i] in rows
  {
    OfWorkflowIs(rows, path);
    assert OfWorkflow(rows, path)[i] in OfWorkflow(rows, path);
  }

  method FilterRuns(rows: seq<Run>, path: Text) returns (histories: seq<Run>)
    ensures histories == OfWorkflow(rows, path)
  {
    histories := [];
    for i := 0 to |rows|
      invariant histories == OfWorkflow(rows[..i], path)
    {
      assert rows[..i + 1][..i] == rows[..i];
      if rows[i].path == path {
        histories := histories + [rows[i]];
      }
    }
    assert rows[..|rows|] == rows;
  }

  /** Exactly the runs of the path are kept, each as often as it is listed. */
  lemma {:induction false} OfWorkflowIs(rows: seq<Run>, path: Text)
    ensures forall h :: h in OfWorkflow(rows, path) <==> h in rows && h.path == path
    ensures forall h :: multiset(OfWorkflow(rows, path))[h] == if h.path == path then multiset(rows)[h] else 0
  {
    if rows != [] {
      OfWorkflowIs(rows[..|rows| - 1], path);
      assert rows == rows[..|rows| - 1] + [rows[|rows| - 1]];
    }
  }

  /** Some run's last attempt is the latest of all, succeeded, and has the jobs it should have. */
  ghost predicate CurrentPasses(service: Service, jobs: Run -> Option<bool>, histories: seq<Run>) {
    exists k: nat :: Current(service, histories, k)
                     && Last(service, histories[k]).Succeeded()
                     && jobs(Last(service, histories[k])) == Some(true)
  }

  ghost predicate JobsRejected(service: Service, jobs: Run -> Option<bool>, histories: seq<Run>) {
    exists k: nat :: Current(service, histories, k) && jobs(Last(service, histories[k])).None?
  }

  lemma Extended(service: Service, events: seq<Text>, histories: seq<Run>, i: nat)
    requires i < |histories| && AllCoherent(service, events, histories[..i]) && Coherent(service, events, histories[i])
    ensures AllCoherent(service, events, histories[..i + 1])
    ensures LastAttempts(service, events, histories[..i + 1])
         == LastAttempts(service, events, histories[..i]) + [Last(service, histories[i])]
    ensures AllSettled(service, histories[..i + 1]) <==> AllSettled(service, histories[..i]) && Settled(service, histories[i])
  {
    assert histories[..i + 1][..i] == histories[..i];
  }

  ghost function RunsRequests(histories: seq<Run>): nat {
    if histories == [] then 0 else RunsRequests(histories[..|histories| - 1]) + RunRequests(histories[|histories| - 1])
  }

  /** The attempt that started last of all. */
  ghost function CurrentRun(service: Service, histories: seq<Run>): Option<Run> {
    if exists k: nat :: Current(service, histories, k) then
      var k: nat :| Current(service, histories, k);
      Some(Last(service, histories[k]))
    else None
  }

  /** The requests for one workflow: all its runs and attempts, and the jobs of the selected attempt if all are finished. */
  ghost function Requests(service: Service, q: Requirement, before: seq<Run>): nat {
    var histories := OfWorkflow(before, q.path);
    RunsRequests(histories)
    + if AllSettled(service, histories) && CurrentRun(service, histories).Some? then
        JobRequests(q, CurrentRun(service, histories).value)
      else 0
  }

  lemma {:induction false} RunsRequestsGrow(histories: seq<Run>, i: nat)
    requires i <= |histories|
    ensures RunsRequests(histories[..i]) <= RunsRequests(histories)
  {
    if i < |histories| {
      RunsRequestsGrow(histories[..|histories| - 1], i);
      assert histories[..|histories| - 1][..i] == histories[..i];
    } else {
      assert histories[..i] == histories;
    }
  }

  lemma RunsRequestsStep(histories: seq<Run>, i: nat)
    requires i < |histories|
    ensures RunsRequests(histories[..i + 1]) == RunsRequests(histories[..i]) + RunRequests(histories[i])
    ensures RunsRequests(histories[..i]) + RunRequests(histories[i]) <= RunsRequests(histories)
  {
    assert histories[..i + 1][..i] == histories[..i];
    RunsRequestsGrow(histories, i + 1);
  }

  /** All runs of one workflow, with all their attempts. */
  method InspectRuns(service: Service, events: seq<Text>, histories: seq<Run>, timely: nat -> bool, start: nat)
    returns (r: Option<(seq<Run>, bool)>, asked: nat)
    ensures r.Some? <==> AllCoherent(service, events, histories) && AllAsked(timely, start, start + RunsRequests(histories))
    ensures r.Some? ==> r.value.0 == LastAttempts(service, events, histories) && (r.value.1 <==> !AllSettled(service, histories))
    ensures r.Some? ==> asked == start + RunsRequests(histories)
  {
    hide Coherent, LastAttempts, Settled, Last, RunsRequests, RunRequests, AllAsked;
    asked := start;
    var attempts: seq<Run> := [];
    var pending := false;
    NoRuns(service, events, timely, start);
    assert histories[..0] == [];
    for i := 0 to |histories|
      invariant AllCoherent(service, events, histories[..i])
      invariant attempts == LastAttempts(service, events, histories[..i])
      invariant pending <==> !AllSettled(service, histories[..i])
      invariant asked == start + RunsRequests(histories[..i]) && AllAsked(timely, start, asked)
    {
      RunsRequestsStep(histories, i);
      AskedJoined(timely, start, asked, asked + RunRequests(histories[i]));
      AskedJoined(timely, start, asked + RunRequests(histories[i]), start + RunsRequests(histories));
      var seen, after := InspectRun(service, events, histories[i], timely, asked);
      if seen.None? {
        return None, after;
      }
      Extended(service, events, histories, i);
      attempts := attempts + [seen.value.0];
      pending := pending || seen.value.1;
      asked := after;
    }
    assert histories[..|histories|] == histories;
    return Some((attempts, pending)), asked;
  }

  lemma NoRuns(service: Service, events: seq<Text>, timely: nat -> bool, start: nat)
    ensures AllCoherent(service, events, []) && LastAttempts(service, events, []) == [] && AllSettled(service, [])
    ensures RunsRequests([]) == 0 && AllAsked(timely, start, start)
  {
  }

  /** One required workflow. */
  method InspectWorkflow(service: Service, q: Requirement, before: seq<Run>, timely: nat -> bool, start: nat)
    returns (r: Option<Row>, attempts: seq<Run>, asked: nat)
    ensures r.Some? <==> Acceptable(service, q, before) && AllAsked(timely, start, start + Requests(service, q, before))
    ensures r.Some? ==> Inspected(service, q, before, r.value) && asked == start + Requests(service, q, before)
    ensures r.Some? ==> OverListing(service, q, before, r.value)
    ensures r.Some? ==> AreLasts(service, q, before, attempts)
  {
    hide OfWorkflow, Coherent, Current, OneWorkflow, LatestAttempt, LastAttempts, Settled, Last, Verdict, JobRequests, RunsRequests, AllAsked,
      OverListing;
    var histories := FilterRuns(before, q.path);
    var seen;
    seen, asked := InspectRuns(service, q.events, histories, timely, start);
    AskedJoined(timely, start, start + RunsRequests(histories), start + Requests(service, q, before));
    if seen.None? {
      return None, [], asked;
    }
    attempts := seen.value.0;
    SelectionIsCurrent(service, q.events, histories);
    var current := SelectLatest(attempts);
    if current.None? {
      return None, attempts, asked;
    }
    CurrentSelected(service, q.events, histories);
    if current.value.None? {
      RowOverListing(service, q, before, Row(None, Missing));
      return Some(Row(None, Missing)), attempts, asked;
    }
    if seen.value.1 {
      RowOverListing(service, q, before, Row(current.value, Fail));
      return Some(Row(current.value, Fail)), attempts, asked;
    }
    var verdict;
    verdict, asked := JudgeJobs(q, current.value.value, timely, asked);
    if verdict.None? {
      return None, attempts, asked;
    }
    PassingSucceeded(q, current.value.value);
    RowOverListing(service, q, before, Row(current.value, if verdict.value then Pass else Fail));
    return Some(Row(current.value, if verdict.value then Pass else Fail)), attempts, asked;
  }

  lemma PassingSucceeded(q: Requirement, run: Run)
    ensures Verdict(q)(run) == Some(true) ==> run.status == Completed && run.conclusion == Some(Success)
  {
    assert Verdict(q)(run) == Judge(q, run, Listing(q.list(run), MAX_JOBS));
  }

  /** What the selection finds is the current run, if there is any run. */
  lemma CurrentSelected(service: Service, events: seq<Text>, histories: seq<Run>)
    requires Conclusive(service, events, histories)
    ensures LatestAttempt(LastAttempts(service, events, histories)) == Some(CurrentRun(service, histories))
    ensures CurrentRun(service, histories).Some? <==> histories != []
  {
    hide Coherent, Current, OneWorkflow, LatestAttempt, LastAttempts, Last;
    SelectionIsCurrent(service, events, histories);
    if histories == [] {
      NoneCurrent(service);
    }
  }

  lemma NoneCurrent(service: Service)
    ensures forall k: nat :: !Current(service, [], k)
  {
  }

  // The whole candidate: the listing, every required workflow, and then everything once more.

  predicate ById(a: Run, b: Run) { a.id <= b.id }

  ghost predicate DistinctIds(rows: seq<Run>) {
    forall i, j :: 0 <= i < j < |rows| ==> rows[i].id != rows[j].id
  }

  /** The rows of a complete listing without repeated ids, in the order of their ids. */
  ghost predicate Listed(get: nat -> Option<Page<Run>>, rows: seq<Run>) {
    exists n: nat :: Inventory(get, PAGE_SIZE * MAX_PAGES, n) && multiset(rows) == multiset(Items(get, n)) && Ascending(rows)
  }

  ghost function ListRequests(get: nat -> Option<Page<Run>>): nat { PageCount(get, PAGE_SIZE * MAX_PAGES) }

  method ListRuns(get: nat -> Option<Page<Run>>, timely: nat -> bool, start: nat) returns (r: Option<seq<Run>>, asked: nat)
    ensures forall rows :: Listed(get, rows) && AllAsked(timely, start, start + ListRequests(get)) <==> r == Some(rows)
    ensures r.Some? ==> asked == start + ListRequests(get)
  {
    hide Inventory, Items, Sorting.Sort, DistinctIds, Listing, PageCount, AllAsked;
    ListedMeans(get);
    var all;
    all, asked := Pages(get, PAGE_SIZE * MAX_PAGES, timely, start);
    if all.None? {
      return None, asked;
    }
    var items := all.value;
    if exists i, j :: 0 <= i < j < |items| && items[i].id == items[j].id {
      RepeatedId(items);
      return None, asked;
    }
    DifferentIds(items);
    return Some(Sorting.Sort(all.value, ById)), asked;
  }

  lemma RepeatedId(items: seq<Run>)
    requires exists i, j :: 0 <= i < j < |items| && items[i].id == items[j].id
    ensures !DistinctIds(items)
  {
  }

  lemma DifferentIds(items: seq<Run>)
    requires forall i, j :: 0 <= i < j < |items| ==> items[i].id != items[j].id
    ensures DistinctIds(items)
  {
  }

  ghost predicate Ascending(rows: seq<Run>) {
    forall i, j :: 0 <= i < j < |rows| ==> rows[i].id < rows[j].id
  }

  lemma ListedMeans(get: nat -> Option<Page<Run>>)
    ensures forall rows :: Listed(get, rows) <==>
              var all := Listing(get, PAGE_SIZE * MAX_PAGES);
              all.Some? && DistinctIds(all.value) && rows == Sorting.Sort(all.value, ById)
  {
    hide Inventory, Items, Sorting.Sort, DistinctIds, Ascending;
    forall n: nat | Inventory(get, PAGE_SIZE * MAX_PAGES, n)
      ensures Listing(get, PAGE_SIZE * MAX_PAGES) == Some(Items(get, n))
    {
      ListedAt(get, PAGE_SIZE * MAX_PAGES, n);
    }
    if Listing(get, PAGE_SIZE * MAX_PAGES).Some? {
      var items := Listing(get, PAGE_SIZE * MAX_PAGES).value;
      forall rows ensures multiset(rows) == multiset(items) && Ascending(rows) <==> DistinctIds(items) && rows == Sorting.Sort(items, ById) {
        if DistinctIds(items) {
          SortedAscends(items);
        }
        if multiset(rows) == multiset(items) && Ascending(rows) {
          AscendingDistinct(rows);
          DistinctIdsPermutation(rows, items);
          SortedAscends(items);
          AscendingUnique(rows, Sorting.Sort(items, ById));
        }
      }
    }
  }

  lemma AscendingDistinct(rows: seq<Run>)
    requires Ascending(rows)
    ensures DistinctIds(rows)
  {
  }

  lemma SortedAscends(items: seq<Run>)
    requires DistinctIds(items)
    ensures Ascending(Sorting.Sort(items, ById))
  {
    hide Sorting.Sort;
    var ordered := Sorting.Sort(items, ById);
    Sorting.SortSorted(items, ById);
    DistinctIdsPermutation(items, ordered);
    forall i, j | 0 <= i < j < |ordered| ensures ordered[i].id < ordered[j].id {
      assert ById(ordered[i], ordered[j]);
    }
  }

  lemma {:induction false} AscendingUnique(a: seq<Run>, b: seq<Run>)
    requires Ascending(a) && Ascending(b) && multiset(a) == multiset(b)
    ensures a == b
  {
    hide Ascending;
    assert |a| == |multiset(a)| == |b|;
    if a != [] {
      SameFirst(a, b);
      assert a == [a[0]] + a[1..] && b == [b[0]] + b[1..];
      assert multiset(a[1..]) == multiset(a) - multiset{a[0]} && multiset(b[1..]) == multiset(b) - multiset{b[0]};
      AscendingTail(a);
      AscendingTail(b);
      AscendingUnique(a[1..], b[1..]);
    }
  }

  lemma AscendingTail(a: seq<Run>)
    requires Ascending(a) && a != []
    ensures Ascending(a[1..])
  {
  }

  lemma SameFirst(a: seq<Run>, b: seq<Run>)
    requires Ascending(a) && Ascending(b) && multiset(a) == multiset(b) && a != [] && b != []
    ensures a[0] == b[0]
  {
    Sorting.SameElements(a, b);
    assert a[0] in a && b[0] in b;
    var i :| 0 <= i < |b| && b[i] == a[0];
    var j :| 0 <= j < |a| && a[j] == b[0];
  }

  /** What one workflow's row says. */
  ghost predicate Inspected(service: Service, q: Requirement, before: seq<Run>, row: Row) {
    var histories := OfWorkflow(before, q.path);
    && Conclusive(service, q.events, histories) && !(AllSettled(service, histories) && JobsRejected(service, Verdict(q), histories))
    && (row.status == Pass <==> AllSettled(service, histories) && CurrentPasses(service, Verdict(q), histories))
    && (row.status == Missing <==> histories == []) && (row.run.None? <==> row.status == Missing)
    && forall k: nat :: Current(service, histories, k) ==> row.run == Some(Last(service, histories[k]))
  }

  // What a row says of the listing itself.

  /** Attempt `a` of a run as the service gives it: finished, and either the `top` one itself or started before it. */
  ghost predicate FinishedBefore(service: Service, h: Run, a: Positive, sel: Run, top: Run) {
    && service.attempt(h.id, a).Some? && service.attempt(h.id, a).value.status == Completed
    && ((h == sel && a == sel.attempt) || service.attempt(h.id, a).value.startedAt < top.startedAt)
  }

  /** A listed run of the workflow whose last attempt, `top`, started after every other attempt of every run of the workflow. */
  ghost predicate TopOf(service: Service, before: seq<Run>, path: Text, sel: Run, top: Run) {
    && sel in before && sel.path == path && service.attempt(sel.id, sel.attempt) == Some(top)
    && forall h, a: Positive :: h in before && h.path == path && a <= h.attempt && (h != sel || a != sel.attempt) ==>
         service.attempt(h.id, a).Some? && service.attempt(h.id, a).value.startedAt < top.startedAt
  }

  ghost predicate AllFinished(service: Service, before: seq<Run>, path: Text) {
    forall h, a: Positive :: h in before && h.path == path && a <= h.attempt ==>
      service.attempt(h.id, a).Some? && service.attempt(h.id, a).value.status == Completed
  }

  /**
   MISSING exactly if no listed run has the path; otherwise the run given is the attempt that started after all others, and the
   row is PASS exactly if all attempts of all listed runs with the path are finished, that one succeeded and its jobs pass.
   */
  ghost predicate OverListing(service: Service, q: Requirement, before: seq<Run>, row: Row) {
    && (row.status == Missing <==> forall h :: h in before ==> h.path != q.path)
    && (row.status == Missing <==> row.run.None?)
    && (row.run.Some? ==>
          && (exists sel :: TopOf(service, before, q.path, sel, row.run.value))
          && (row.status == Pass <==>
                && AllFinished(service, before, q.path)
                && row.run.value.status == Completed && row.run.value.conclusion == Some(Success)
                && Verdict(q)(row.run.value) == Some(true)))
  }

  lemma CurrentIsTop(service: Service, q: Requirement, before: seq<Run>, k: nat)
    requires AllCoherent(service, q.events, OfWorkflow(before, q.path)) && Current(service, OfWorkflow(before, q.path), k)
    ensures var sel := OfWorkflow(before, q.path)[k]; TopOf(service, before, q.path, sel, Last(service, sel))
  {
    hide OfWorkflow;
    OfWorkflowIs(before, q.path);
    var histories := OfWorkflow(before, q.path);
    var sel, top := histories[k], Last(service, histories[k]);
    assert sel in histories;
    forall h, a: Positive | h in before && h.path == q.path && a <= h.attempt && (h != sel || a != sel.attempt)
      ensures service.attempt(h.id, a).Some? && service.attempt(h.id, a).value.startedAt < top.startedAt
    {
      assert h in histories;
      var j :| 0 <= j < |histories| && histories[j] == h;
      assert StartsBefore(service, histories[j], a, top);
    }
  }

  lemma SettledIsFinished(service: Service, q: Requirement, before: seq<Run>)
    requires AllCoherent(service, q.events, OfWorkflow(before, q.path))
    ensures AllSettled(service, OfWorkflow(before, q.path)) <==> AllFinished(service, before, q.path)
  {
    hide OfWorkflow;
    OfWorkflowIs(before, q.path);
    var histories := OfWorkflow(before, q.path);
    if AllSettled(service, histories) {
      forall h, a: Positive | h in before && h.path == q.path && a <= h.attempt
        ensures service.attempt(h.id, a).Some? && service.attempt(h.id, a).value.status == Completed
      {
        assert h in histories;
        var j :| 0 <= j < |histories| && histories[j] == h;
        assert Settled(service, histories[j]) && Done(service, histories[j], a);
      }
    }
    if AllFinished(service, before, q.path) {
      forall j | 0 <= j < |histories| ensures Settled(service, histories[j]) {
        assert histories[j] in histories && Coherent(service, q.events, histories[j]);
        forall a: Positive | a <= histories[j].attempt ensures Done(service, histories[j], a) {
          assert After(service, histories[j], a);
        }
      }
    }
  }

  lemma RowOverListing(service: Service, q: Requirement, before: seq<Run>, row: Row)
    requires Inspected(service, q, before, row)
    ensures OverListing(service, q, before, row)
  {
    hide OfWorkflow, Coherent, Current, OneWorkflow, AllSettled, AllFinished, Verdict, TopOf, Last;
    OfWorkflowIs(before, q.path);
    SettledIsFinished(service, q, before);
    var histories := OfWorkflow(before, q.path);
    assert histories != [] ==> histories[0] in histories;
    if row.run.Some? {
      var k: nat :| Current(service, histories, k);
      OneCurrent(service, q.events, histories, k);
      CurrentIsTop(service, q, before, k);
      PassingSucceeded(q, row.run.value);
      CurrentInside(service, histories, k);
      assert TopOf(service, before, q.path, histories[k], row.run.value);
    }
  }

  lemma CurrentInside(service: Service, histories: seq<Run>, k: nat)
    requires Current(service, histories, k)
    ensures k < |histories|
  {
  }

  /** The attempt that is the latest of all is one. */
  lemma OneCurrent(service: Service, events: seq<Text>, histories: seq<Run>, k: nat)
    requires Conclusive(service, events, histories) && Current(service, histories, k)
    ensures forall j: nat :: Current(service, histories, j) ==> Last(service, histories[j]) == Last(service, histories[k])
  {
    hide Coherent, Current, OneWorkflow, Last, LatestAttempt;
    SelectionIsCurrent(service, events, histories);
  }

  ghost predicate Acceptable(service: Service, q: Requirement, before: seq<Run>) {
    var histories := OfWorkflow(before, q.path);
    Conclusive(service, q.events, histories) && !(AllSettled(service, histories) && JobsRejected(service, Verdict(q), histories))
  }

  /** At the second reading this run and its last attempt are what they were. */
  ghost predicate Unchanged(first: Service, again: Service, history: Run) {
    again.run(history.id) == Some(history) && again.attempt(history.id, history.attempt) == Some(Last(first, history))
  }

  ghost predicate AllUnchanged(first: Service, again: Service, q: Requirement, before: seq<Run>) {
    forall h :: h in OfWorkflow(before, q.path) ==> Unchanged(first, again, h)
  }

  /** The listing is the same twice, every workflow can be judged, and the judged attempts are the same twice. */
  ghost predicate Observable(first: Service, again: Service, list: nat -> Option<Page<Run>>, relist: nat -> Option<Page<Run>>,
                             required: seq<Requirement>, before: seq<Run>) {
    && Listed(list, before) && Listed(relist, before)
    && forall q :: q in required ==> Acceptable(first, q, before) && AllUnchanged(first, again, q, before)
  }

  method RereadWorkflow(first: Service, again: Service, q: Requirement, before: seq<Run>, attempts: seq<Run>,
                        timely: nat -> bool, start: nat)
    returns (same: bool, asked: nat)
    requires DistinctIds(before) && AreLasts(first, q, before, attempts)
    ensures same <==> AllUnchanged(first, again, q, before) && AllAsked(timely, start, start + 2 * |OfWorkflow(before, q.path)|)
    ensures same ==> asked == start + 2 * |OfWorkflow(before, q.path)|
  {
    hide OfWorkflow, LastAttempts, DistinctIds;
    var histories := OfWorkflow(before, q.path);
    asked := start;
    for i := 0 to |attempts|
      invariant forall k :: 0 <= k < i ==> Unchanged(first, again, histories[k])
      invariant asked == start + 2 * i && AllAsked(timely, start, asked)
    {
      var latest := attempts[i];
      LastBelongs(first, q.events, histories[i]);
      ListedRun(before, q.path, i);
      var original := FindRun(before, latest.id, histories[i]);
      asked := asked + 1;
      RequestCounts(timely, asked);
      if asked > MAX_REQUESTS || !timely(asked) {
        return false, asked;
      }
      if again.run(latest.id) != Some(original) {
        assert !Unchanged(first, again, histories[i]);
        return false, asked;
      }
      asked := asked + 1;
      RequestCounts(timely, asked);
      if asked > MAX_REQUESTS || !timely(asked) {
        return false, asked;
      }
      if again.attempt(latest.id, latest.attempt) != Some(latest) {
        assert !Unchanged(first, again, histories[i]);
        return false, asked;
      }
    }
    return true, asked;
  }

  lemma LastBelongs(service: Service, events: seq<Text>, history: Run)
    requires Coherent(service, events, history)
    ensures Last(service, history).id == history.id && Last(service, history).attempt == history.attempt
  {
    assert After(service, history, history.attempt);
  }

  /** before.find: the first row of this id. */
  method FindRun(before: seq<Run>, id: nat, ghost sought: Run) returns (found: Run)
    requires DistinctIds(before) && sought in before && sought.id == id
    ensures found == sought
  {
    var i := 0;
    while before[i].id != id
      invariant 0 <= i < |before| && sought in before[i..]
      decreases |before| - i
    {
      i := i + 1;
    }
    return before[i];
  }

  ghost function RequiredRequests(service: Service, required: seq<Requirement>, before: seq<Run>, n: nat): nat
    requires n <= |required|
  {
    if n == 0 then 0 else RequiredRequests(service, required, before, n - 1) + Requests(service, required[n - 1], before)
  }

  ghost function RereadRequests(required: seq<Requirement>, before: seq<Run>, n: nat): nat
    requires n <= |required|
  {
    if n == 0 then 0 else RereadRequests(required, before, n - 1) + 2 * |OfWorkflow(before, required[n - 1].path)|
  }

  /** One request for the repository, two listings, every workflow, and two rereads for every run judged. */
  ghost function AllRequests(first: Service, list: nat -> Option<Page<Run>>, relist: nat -> Option<Page<Run>>,
                             required: seq<Requirement>, before: seq<Run>): nat
  {
    1 + ListRequests(list) + RequiredRequests(first, required, before, |required|) + ListRequests(relist)
    + RereadRequests(required, before, |required|)
  }

  lemma {:induction false} RequestsGrow(service: Service, required: seq<Requirement>, before: seq<Run>, m: nat, n: nat)
    requires m <= n <= |required|
    ensures RequiredRequests(service, required, before, m) <= RequiredRequests(service, required, before, n)
    ensures RereadRequests(required, before, m) <= RereadRequests(required, before, n)
    decreases n
  {
    hide Requests, OfWorkflow;
    if m < n {
      RequestsGrow(service, required, before, m, n - 1);
    }
  }

  lemma AskedWithin(timely: nat -> bool, a: nat, b: nat, c: nat, d: nat)
    requires a <= b <= c <= d && AllAsked(timely, a, d)
    ensures AllAsked(timely, b, c)
  {
  }

  /** It can be observed, and all requests that this takes are within the budget. */
  ghost predicate Affordable(first: Service, again: Service, list: nat -> Option<Page<Run>>, relist: nat -> Option<Page<Run>>,
                             required: seq<Requirement>, timely: nat -> bool, before: seq<Run>) {
    && Observable(first, again, list, relist, required, before)
    && AllAsked(timely, 0, AllRequests(first, list, relist, required, before))
  }

  /**
   The observation succeeds exactly when the repository is the right one, the listing is complete and the same twice, every
   workflow can be judged, no run or last attempt that was judged has changed since, and the requests that all of this takes are
   within the budget; its rows are the judgements.
   */
  method InspectCandidate(repository: bool, first: Service, again: Service, list: nat -> Option<Page<Run>>,
                          relist: nat -> Option<Page<Run>>, required: seq<Requirement>, timely: nat -> bool)
    returns (r: Option<(seq<Run>, seq<Row>)>)
    ensures r.Some? ==> repository && Affordable(first, again, list, relist, required, timely, r.value.0)
    ensures r.None? && repository ==> forall before :: !Affordable(first, again, list, relist, required, timely, before)
    ensures r.Some? ==> |r.value.1| == |required|
    ensures r.Some? ==>
              forall i :: 0 <= i < |required| ==> Inspected(first, required[i], r.value.0, r.value.1[i])
                                                  && OverListing(first, required[i], r.value.0, r.value.1[i])
  {
    hide OfWorkflow, Inspected, OverListing, Listed, Acceptable, AllUnchanged, Sorting.Sort, DistinctIds, AllAsked, Requests, ListRequests, AreLasts,
      MayAsk, RequiredRequests, RereadRequests;
    var asked: nat := 1;
    FirstRequest(timely);
    RequestCounts(timely, asked);
    if asked > MAX_REQUESTS || !timely(asked) || !repository {
      forall before | Affordable(first, again, list, relist, required, timely, before) ensures MayAsk(timely, 1) {
        AskedWithin(timely, 0, 0, 1, AllRequests(first, list, relist, required, before));
      }
      return None;
    }
    var before;
    before, asked := ListRuns(list, timely, asked);
    forall b | Affordable(first, again, list, relist, required, timely, b) ensures before == Some(b) {
      AskedWithin(timely, 0, 1, 1 + ListRequests(list), AllRequests(first, list, relist, required, b));
    }
    if before.None? {
      return None;
    }
    ListedDistinct(list, before.value);
    var judged;
    judged, asked := InspectRequired(first, required, before.value, timely, asked);
    ghost var total := AllRequests(first, list, relist, required, before.value);
    if AllAsked(timely, 0, total) {
      AskedWithin(timely, 0, 1 + ListRequests(list),
                  1 + ListRequests(list) + RequiredRequests(first, required, before.value, |required|), total);
    }
    if judged.None? {
      return None;
    }
    var (rows, latest) := judged.value;
    forall i | 0 <= i < |required| ensures OverListing(first, required[i], before.value, rows[i]) {
      RowOverListing(first, required[i], before.value, rows[i]);
    }
    ghost var middle := asked;
    var after;
    after, asked := ListRuns(relist, timely, asked);
    if AllAsked(timely, 0, total) {
      AskedWithin(timely, 0, middle, middle + ListRequests(relist), total);
      AskedWithin(timely, 0, middle + ListRequests(relist), total, total);
    }
    if after != before {
      return None;
    }
    var same;
    same, asked := RereadRequired(first, again, required, before.value, latest, timely, asked);
    if !same {
      return None;
    }
    JoinedBudget(timely, 1, 1 + ListRequests(list), middle, middle + ListRequests(relist), total);
    return Some((before.value, rows));
  }

  lemma FirstRequest(timely: nat -> bool)
    ensures AllAsked(timely, 0, 1) <==> MayAsk(timely, 1)
  {
  }

  lemma JoinedBudget(timely: nat -> bool, a: nat, b: nat, c: nat, d: nat, e: nat)
    requires a <= b <= c <= d <= e
    requires AllAsked(timely, 0, a) && AllAsked(timely, a, b) && AllAsked(timely, b, c) && AllAsked(timely, c, d) && AllAsked(timely, d, e)
    ensures AllAsked(timely, 0, e)
  {
  }

  method InspectRequired(first: Service, required: seq<Requirement>, before: seq<Run>, timely: nat -> bool, start: nat)
    returns (r: Option<(seq<Row>, seq<seq<Run>>)>, asked: nat)
    ensures r.Some? <==>
            && (forall k :: 0 <= k < |required| ==> Acceptable(first, required[k], before))
            && AllAsked(timely, start, start + RequiredRequests(first, required, before, |required|))
    ensures r.Some? ==> asked == start + RequiredRequests(first, required, before, |required|)
    ensures r.Some? ==> |r.value.0| == |r.value.1| == |required| && forall k :: 0 <= k < |required| ==>
              Inspected(first, required[k], before, r.value.0[k]) && AreLasts(first, required[k], before, r.value.1[k])
  {
    hide Acceptable, Inspected, AreLasts, Requests, OfWorkflow, AllAsked;
    NothingAsked(timely, start);
    asked := start;
    var rows: seq<Row> := [];
    var latest: seq<seq<Run>> := [];
    for i := 0 to |required|
      invariant |rows| == |latest| == i
      invariant forall k :: 0 <= k < i ==> Acceptable(first, required[k], before)
      invariant forall k :: 0 <= k < i ==> Inspected(first, required[k], before, rows[k]) && AreLasts(first, required[k], before, latest[k])
      invariant asked == start + RequiredRequests(first, required, before, i) && AllAsked(timely, start, asked)
    {
      RequestsGrow(first, required, before, i + 1, |required|);
      ghost var next := asked + Requests(first, required[i], before);
      AskedJoined(timely, start, asked, next);
      AskedJoined(timely, start, next, start + RequiredRequests(first, required, before, |required|));
      var row, attempts, now := InspectWorkflow(first, required[i], before, timely, asked);
      if row.None? {
        return None, now;
      }
      rows, latest, asked := rows + [row.value], latest + [attempts], now;
    }
    return Some((rows, latest)), asked;
  }

  lemma NothingAsked(timely: nat -> bool, start: nat)
    ensures AllAsked(timely, start, start)
  {
  }

  method RereadRequired(first: Service, again: Service, required: seq<Requirement>, before: seq<Run>, latest: seq<seq<Run>>,
                        timely: nat -> bool, start: nat)
    returns (same: bool, asked: nat)
    requires DistinctIds(before) && |latest| == |required|
    requires forall k :: 0 <= k < |required| ==> AreLasts(first, required[k], before, latest[k])
    ensures same <==>
            && (forall k :: 0 <= k < |required| ==> AllUnchanged(first, again, required[k], before))
            && AllAsked(timely, start, start + RereadRequests(required, before, |required|))
  {
    hide AllUnchanged, AreLasts, OfWorkflow, AllAsked, DistinctIds, RereadRequests;
    NothingAsked(timely, start);
    NoRereads(required, before);
    asked := start;
    for i := 0 to |required|
      invariant forall k :: 0 <= k < i ==> AllUnchanged(first, again, required[k], before)
      invariant asked == start + RereadRequests(required, before, i) && AllAsked(timely, start, asked)
    {
      RequestsGrow(first, required, before, i + 1, |required|);
      RereadStep(required, before, i);
      ghost var next := asked + 2 * |OfWorkflow(before, required[i].path)|;
      AskedJoined(timely, start, asked, next);
      AskedJoined(timely, start, next, start + RereadRequests(required, before, |required|));
      same, asked := RereadWorkflow(first, again, required[i], before, latest[i], timely, asked);
      if !same {
        return false, asked;
      }
    }
    return true, asked;
  }

  lemma NoRereads(required: seq<Requirement>, before: seq<Run>)
    ensures RereadRequests(required, before, 0) == 0
  {
  }

  lemma RereadStep(required: seq<Requirement>, before: seq<Run>, i: nat)
    requires i < |required|
    ensures RereadRequests(required, before, i + 1) == RereadRequests(required, before, i) + 2 * |OfWorkflow(before, required[i].path)|
  {
    hide OfWorkflow;
  }

  ghost predicate AreLasts(service: Service, q: Requirement, before: seq<Run>, attempts: seq<Run>) {
    && AllCoherent(service, q.events, OfWorkflow(before, q.path))
    && attempts == LastAttempts(service, q.events, OfWorkflow(before, q.path))
  }

  lemma ListedDistinct(get: nat -> Option<Page<Run>>, rows: seq<Run>)
    requires Listed(get, rows)
    ensures DistinctIds(rows)
  {
    hide Inventory, Items;
  }

  lemma DistinctIdsPermutation(a: seq<Run>, b: seq<Run>)
    requires multiset(a) == multiset(b) && DistinctIds(a)
    ensures DistinctIds(b)
  {
    Sorting.DistinctPermutation(a, b);
    Sorting.SameElements(a, b);
    forall i, j | 0 <= i < j < |b| ensures b[i].id != b[j].id {
      assert b[i] in b && b[j] in b;
      var x :| 0 <= x < |a| && a[x] == b[i];
      var y :| 0 <= y < |a| && a[y] == b[j];
      assert x < y || y < x;
    }
  }

  /** If the history is coherent at the second reading too, the same attempt is still the latest of all. */
  lemma SelectionStillCurrent(first: Service, again: Service, q: Requirement, before: seq<Run>, k: nat)
    requires AllUnchanged(first, again, q, before)
    requires AllCoherent(first, q.events, OfWorkflow(before, q.path)) && AllCoherent(again, q.events, OfWorkflow(before, q.path))
    ensures Current(first, OfWorkflow(before, q.path), k) <==> Current(again, OfWorkflow(before, q.path), k)
  {
    hide OfWorkflow, Current;
    var histories := OfWorkflow(before, q.path);
    LatestOfAll(first, q.events, histories, k);
    LatestOfAll(again, q.events, histories, k);
    forall i | 0 <= i < |histories| ensures Last(first, histories[i]) == Last(again, histories[i]) {
      assert histories[i] in histories;
      assert Coherent(again, q.events, histories[i]) && Coherent(first, q.events, histories[i]);
      assert After(again, histories[i], histories[i].attempt) && After(first, histories[i], histories[i].attempt);
    }
    assert LastAttempts(first, q.events, histories) == LastAttempts(again, q.events, histories);
  }
}
