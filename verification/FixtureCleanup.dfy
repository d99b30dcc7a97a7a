/**
 Cleaning up owned native services (scripts/native-service-lifecycle.ts, cleanupOwnedNativeFixtures). The host may answer
 anything and may throw at any call; what it was asked and what it answered is its trace.
 */
module FixtureCleanup {
  import opened Wrappers
  import opened Sequences

  datatype Owned = Owned(vault: string, unit: string, unitPath: string, executable: string)

  datatype Row = Row(unit: string, serviceGone: bool, unitRemoved: bool)

  datatype Command = Command(exitCode: int, stdout: string, stderr: string)

  datatype Event =
    | Stop(owned: Owned, ok: bool)
    | State(owned: Owned, answer: Option<Command>)
    | Marker(owned: Owned, present: bool)
    | Defined(owned: Owned, present: bool)
    | Unlinked(owned: Owned, ok: bool)
    | Recorded(row: Row, ok: bool)
    | Reloaded(ok: bool)
    | RootRemoved(ok: bool)

  /** Nothing was thrown. */
  ghost predicate Quiet(e: Event) {
    match e
    case Stop(_, ok) => ok
    case State(_, answer) => answer.Some?
    case Unlinked(_, ok) => ok
    case Recorded(_, ok) => ok
    case Reloaded(ok) => ok
    case RootRemoved(ok) => ok
    case _ => true
  }

  ghost predicate About(e: Event, owned: Owned) {
    match e
    case Recorded(row, _) => row.unit == owned.unit
    case Reloaded(_) => false
    case RootRemoved(_) => false
    case _ => e.owned == owned
  }

  /** One answer of the host, for whichever call comes next. */
  datatype Answer = Answer(fails: bool, command: Command, present: bool)

  class Host {
    const script: nat -> Answer
    const clock: nat -> int
    var trace: seq<Event>
    var readings: nat

    constructor (script: nat -> Answer, clock: nat -> int)
      ensures trace == [] && readings == 0
    {
      this.script, this.clock := script, clock;
      trace, readings := [], 0;
    }

    /** Date.now(): the clock may stand still or go back. */
    method Now() returns (t: int)
      modifies this`readings
      ensures t == clock(old(readings)) && readings == old(readings) + 1
    {
      t := clock(readings);
      readings := readings + 1;
    }

    method AttemptStop(owned: Owned) returns (ok: bool)
      modifies this`trace
      ensures trace == old(trace) + [Stop(owned, ok)]
    {
      ok := !script(|trace|).fails;
      trace := trace + [Stop(owned, ok)];
    }

    method Query(owned: Owned) returns (answer: Option<Command>)
      modifies this`trace
      ensures trace == old(trace) + [State(owned, answer)]
    {
      answer := if script(|trace|).fails then None else Some(script(|trace|).command);
      trace := trace + [State(owned, answer)];
    }

    method MarkerExists(owned: Owned) returns (present: bool)
      modifies this`trace
      ensures trace == old(trace) + [Marker(owned, present)]
    {
      present := script(|trace|).present;
      trace := trace + [Marker(owned, present)];
    }

    method DefinitionExists(owned: Owned) returns (present: bool)
      modifies this`trace
      ensures trace == old(trace) + [Defined(owned, present)]
    {
      present := script(|trace|).present;
      trace := trace + [Defined(owned, present)];
    }

    method Unlink(owned: Owned) returns (ok: bool)
      modifies this`trace
      ensures trace == old(trace) + [Unlinked(owned, ok)]
    {
      ok := !script(|trace|).fails;
      trace := trace + [Unlinked(owned, ok)];
    }

    method Record(row: Row) returns (ok: bool)
      modifies this`trace
      ensures trace == old(trace) + [Recorded(row, ok)]
    {
      ok := !script(|trace|).fails;
      trace := trace + [Recorded(row, ok)];
    }

    method Reload() returns (ok: bool)
      modifies this`trace
      ensures trace == old(trace) + [Reloaded(ok)]
    {
      ok := !script(|trace|).fails;
      trace := trace + [Reloaded(ok)];
    }

    method RemoveRoot() returns (ok: bool)
      modifies this`trace
      ensures trace == old(trace) + [RootRemoved(ok)]
    {
      ok := !script(|trace|).fails;
      trace := trace + [RootRemoved(ok)];
    }
  }

  // What is asked of the part of the trace that belongs to one unit.

  ghost predicate SeenStopped(stopped: Command -> bool, e: Event) {
    e.State? && e.answer.Some? && stopped(e.answer.value)
  }

  /** At `k` the pid marker was found gone, right after the unit was seen stopped. */
  ghost predicate GoneAt(stopped: Command -> bool, s: seq<Event>, k: nat) {
    0 < k < |s| && s[k].Marker? && !s[k].present && SeenStopped(stopped, s[k - 1])
  }

  ghost predicate Gone(stopped: Command -> bool, s: seq<Event>) {
    exists k: nat :: k < |s| && GoneAt(stopped, s, k)
  }

  /** Wherever a definition is deleted, it was there, and its unit was gone. */
  ghost predicate SafeAt(stopped: Command -> bool, s: seq<Event>, k: nat)
    requires k < |s|
  {
    s[k].Unlinked? ==> k >= 3 && s[k - 1].Defined? && s[k - 1].present && GoneAt(stopped, s, k - 2)
  }

  /** A definition found there once its unit was gone is deleted next. */
  ghost predicate PromptAt(stopped: Command -> bool, s: seq<Event>, k: nat)
    requires k < |s|
  {
    k > 0 && GoneAt(stopped, s, k - 1) && s[k].Defined? && s[k].present ==> k + 1 < |s| && s[k + 1].Unlinked?
  }

  ghost predicate AllQuiet(s: seq<Event>) {
    forall e :: e in s ==> Quiet(e)
  }

  /** Stopping, then asking for the state over and over. */
  ghost predicate Waiting(s: seq<Event>, owned: Owned) {
    s != [] && s[0].Stop? && s[0].owned == owned && forall k :: 1 <= k < |s| ==> s[k].State? && s[k].owned == owned
  }

  /** What may follow the wait: nothing, or a look for the marker, then one for the definition, then its deletion. */
  ghost predicate Ending(stopped: Command -> bool, last: Event, tail: seq<Event>, owned: Owned) {
    || tail == []
    || (SeenStopped(stopped, last) && tail == [Marker(owned, true)])
    || (SeenStopped(stopped, last) && tail == [Marker(owned, false), Defined(owned, false)])
    || (SeenStopped(stopped, last) && |tail| == 3 && tail[..2] == [Marker(owned, false), Defined(owned, true)]
        && tail[2].Unlinked? && tail[2].owned == owned)
  }

  ghost predicate Sound(stopped: Command -> bool, s: seq<Event>, owned: Owned) {
    forall k: nat :: k < |s| ==> SoundAt(stopped, s, owned, k)
  }

  ghost predicate SoundAt(stopped: Command -> bool, s: seq<Event>, owned: Owned, k: nat)
    requires k < |s|
  {
    About(s[k], owned) && (s[k].Stop? <==> k == 0) && SafeAt(stopped, s, k) && PromptAt(stopped, s, k)
  }

  lemma AttemptSound(stopped: Command -> bool, wait: seq<Event>, tail: seq<Event>, closing: seq<Event>, owned: Owned)
    requires Waiting(wait, owned) && Ending(stopped, wait[|wait| - 1], tail, owned)
    requires |closing| == 2 && closing[0].Defined? && closing[0].owned == owned && closing[1].Recorded? && About(closing[1], owned)
    ensures Sound(stopped, wait + tail + closing, owned)
  {
    var s, n := wait + tail + closing, |wait|;
    hide SeenStopped;
    forall k: nat | k < |s| ensures SoundAt(stopped, s, owned, k) {
      if k < n {
        assert s[k] == wait[k];
      } else {
        assert s[n - 1] == wait[n - 1];
      }
    }
  }

  lemma AttemptGone(stopped: Command -> bool, wait: seq<Event>, tail: seq<Event>, closing: seq<Event>, owned: Owned)
    requires Waiting(wait, owned) && Ending(stopped, wait[|wait| - 1], tail, owned)
    requires |closing| == 2 && closing[0].Defined? && closing[1].Recorded?
    ensures Gone(stopped, wait + tail + closing) <==> |tail| > 1
  {
    var s, n := wait + tail + closing, |wait|;
    hide SeenStopped;
    forall k: nat | k < |s| ensures GoneAt(stopped, s, k) <==> k == n && |tail| > 1 {
      if k < n {
        assert s[k] == wait[k];
      } else {
        assert s[n - 1] == wait[n - 1];
      }
    }
    assert |tail| > 1 ==> GoneAt(stopped, s, n);
  }

  lemma QuietAppend(s: seq<Event>, e: Event)
    ensures AllQuiet(s + [e]) <==> AllQuiet(s) && Quiet(e)
  {
    assert forall x :: x in s + [e] <==> x in s || x == e;
  }

  /**
   Stopping one unit and asking for its state until it is seen stopped or the time is up: it is asked again exactly while it was
   not seen stopped and the clock was short of the deadline. The wait is followed for `polls` further questions; if it has not
   ended then, all of them were called for, so that a wait that ends at all has ended for every larger number.
   */
  method StopAndWait(host: Host, stopped: Command -> bool, owned: Owned, timeout: int, polls: nat)
    returns (ended: bool, answer: Option<Command>, ghost s: seq<Event>)
    modifies host
    ensures host.trace == old(host.trace) + s && s != [] && Waiting(s, owned)
    ensures answer.Some? <==> AllQuiet(s)
    ensures answer.Some? ==> s[|s| - 1] == State(owned, answer)
    ensures AllAskedAgain(host, stopped, old(host.readings), timeout, s)
    ensures ended && answer.Some? && !stopped(answer.value) ==>
              host.clock(old(host.readings) + |s| - 1) >= host.clock(old(host.readings)) + timeout
    ensures !ended ==> |s| == polls + 2 && AskedAgain(host, stopped, old(host.readings), timeout, s[|s| - 1], |s| - 1)
  {
    hide Quiet, AllQuiet, Waiting, AllAskedAgain;
    NothingLoud();
    ghost var start := host.readings;
    var ok := host.AttemptStop(owned);
    s := [Stop(owned, ok)];
    QuietAppend([], Stop(owned, ok));
    assert [] + [Stop(owned, ok)] == s;
    WaitStart(host, stopped, host.readings, timeout, owned, ok);
    KindsQuiet(owned);
    if !ok {
      return true, None, s;
    }
    answer := host.Query(owned);
    QuietAppend(s, State(owned, answer));
    WaitPush(s, owned, answer);
    s := s + [State(owned, answer)];
    if answer.None? {
      return true, answer, s;
    }
    var now := host.Now();
    var deadline := now + timeout;
    var waiting := !stopped(answer.value);
    if waiting {
      now := host.Now();
      waiting := now < deadline;
    }
    var left := polls;
    while waiting && left > 0
      invariant host.trace == old(host.trace) + s && Waiting(s, owned)
      invariant |s| == polls - left + 2 && s[|s| - 1] == State(owned, answer)
      invariant answer.Some? <==> AllQuiet(s)
      invariant waiting ==> answer.Some? && !stopped(answer.value) && host.readings == start + |s| && host.clock(start + |s| - 1) < deadline
      invariant !waiting && answer.Some? && !stopped(answer.value) ==> host.clock(start + |s| - 1) >= deadline
      invariant AllAskedAgain(host, stopped, start, timeout, s)
      decreases left
    {
      answer := host.Query(owned);
      QuietAppend(s, State(owned, answer));
      AskedPush(host, stopped, start, timeout, s, State(owned, answer));
      WaitPush(s, owned, answer);
      s := s + [State(owned, answer)];
      waiting := answer.Some? && !stopped(answer.value);
      if waiting {
        now := host.Now();
        waiting := now < deadline;
      }
      left := left - 1;
    }
    ended := !waiting;
  }

  /** It was not seen stopped, and the reading of the clock that followed was short of the deadline. */
  ghost predicate AskedAgain(host: Host, stopped: Command -> bool, start: nat, timeout: int, e: Event, k: int)
    requires k > 0
  {
    e.State? && e.answer.Some? && !stopped(e.answer.value) && host.clock(start + k) < host.clock(start) + timeout
  }

  ghost predicate AllAskedAgain(host: Host, stopped: Command -> bool, start: nat, timeout: int, s: seq<Event>) {
    forall k :: 1 <= k < |s| - 1 ==> AskedAgain(host, stopped, start, timeout, s[k], k)
  }

  lemma AskedPush(host: Host, stopped: Command -> bool, start: nat, timeout: int, s: seq<Event>, e: Event)
    requires |s| >= 2 && AllAskedAgain(host, stopped, start, timeout, s)
    requires AskedAgain(host, stopped, start, timeout, s[|s| - 1], |s| - 1)
    ensures AllAskedAgain(host, stopped, start, timeout, s + [e])
  {
  }

  lemma WaitStart(host: Host, stopped: Command -> bool, start: nat, timeout: int, owned: Owned, ok: bool)
    ensures Waiting([Stop(owned, ok)], owned) && AllAskedAgain(host, stopped, start, timeout, [Stop(owned, ok)])
    ensures forall e :: AllAskedAgain(host, stopped, start, timeout, [Stop(owned, ok)] + [e])
  {
  }

  lemma WaitPush(s: seq<Event>, owned: Owned, answer: Option<Command>)
    requires Waiting(s, owned)
    ensures Waiting(s + [State(owned, answer)], owned)
  {
  }

  lemma NothingLoud()
    ensures AllQuiet([])
  {
  }

  lemma KindsQuiet(owned: Owned)
    ensures forall ok :: Quiet(Stop(owned, ok)) <==> ok
    ensures forall answer :: Quiet(State(owned, answer)) <==> answer.Some?
    ensures forall present :: Quiet(Marker(owned, present)) && Quiet(Defined(owned, present))
    ensures forall ok :: Quiet(Unlinked(owned, ok)) <==> ok
    ensures forall row, ok :: Quiet(Recorded(row, ok)) <==> ok
  {
  }

  /** The part of the trace for one unit says all that its row says, and deletes its definition only when that is safe. */
  ghost predicate Segment(stopped: Command -> bool, s: seq<Event>, owned: Owned, row: Row) {
    && Sound(stopped, s, owned) && |s| >= 3
    && row.unit == owned.unit
    && (row.serviceGone <==> Gone(stopped, s))
    && s[|s| - 2] == Defined(owned, !row.unitRemoved)
    && s[|s| - 1].Recorded? && s[|s| - 1].row == row
  }

  /** A wait that goes on after `polls` questions. */
  ghost predicate StillWaiting(host: Host, stopped: Command -> bool, owned: Owned, timeout: int, polls: nat, start: nat, s: seq<Event>) {
    && Waiting(s, owned) && |s| == polls + 2 && AllAskedAgain(host, stopped, start, timeout, s)
    && AskedAgain(host, stopped, start, timeout, s[|s| - 1], |s| - 1)
  }

  /** What follows the sight of a stopped unit: it is gone if it has no marker, and then its definition is deleted. */
  method RemoveDefinition(host: Host, stopped: Command -> bool, owned: Owned, ghost last: Event)
    returns (gone: bool, removed: bool, ghost tail: seq<Event>)
    requires SeenStopped(stopped, last)
    modifies host`trace
    ensures host.trace == old(host.trace) + tail && Ending(stopped, last, tail, owned)
    ensures gone <==> |tail| > 1
    ensures removed <==> AllQuiet(tail)
  {
    hide Quiet, AllQuiet, SeenStopped;
    KindsQuiet(owned);
    NothingLoud();
    var present := host.MarkerExists(owned);
    tail := [Marker(owned, present)];
    QuietAppend([], Marker(owned, present));
    assert [] + tail == tail;
    gone, removed := !present, true;
    if gone {
      var there := host.DefinitionExists(owned);
      QuietAppend(tail, Defined(owned, there));
      tail := tail + [Defined(owned, there)];
      if there {
        removed := host.Unlink(owned);
        QuietAppend(tail, Unlinked(owned, removed));
        tail := tail + [Unlinked(owned, removed)];
      }
    }
  }

  /** `None` is a wait that has not ended; then nothing but the wait has happened. */
  method CleanUnit(host: Host, stopped: Command -> bool, owned: Owned, timeout: int, polls: nat)
    returns (done: Option<(Row, nat)>, ghost s: seq<Event>)
    modifies host
    ensures host.trace == old(host.trace) + s
    ensures done.None? ==> StillWaiting(host, stopped, owned, timeout, polls, old(host.readings), s)
    ensures done.Some? ==> Segment(stopped, s, owned, done.value.0) && (done.value.1 == 0 <==> AllQuiet(s))
  {
    hide Quiet, AllQuiet, Sound, Waiting, Gone, AllAskedAgain;
    KindsQuiet(owned);
    ghost var wait;
    var ended, answer;
    ended, answer, wait := StopAndWait(host, stopped, owned, timeout, polls);
    s := wait;
    if !ended {
      return None, s;
    }
    var errors := if answer.None? then 1 else 0;
    var gone, removed := false, true;
    ghost var tail: seq<Event> := [];
    if answer.Some? && stopped(answer.value) {
      gone, removed, tail := RemoveDefinition(host, stopped, owned, wait[|wait| - 1]);
      QuietConcat(wait, tail);
      s := wait + tail;
    } else {
      assert s == wait + tail;
    }
    if !removed {
      errors := 1;
    }
    var left := host.DefinitionExists(owned);
    QuietAppend(s, Defined(owned, left));
    s := s + [Defined(owned, left)];
    var row := Row(owned.unit, gone, !left);
    var ok := host.Record(row);
    QuietAppend(s, Recorded(row, ok));
    s := s + [Recorded(row, ok)];
    errors := if ok then errors else errors + 1;
    ghost var closing := [Defined(owned, left), Recorded(row, ok)];
    assert s == wait + tail + closing;
    AttemptSound(stopped, wait, tail, closing, owned);
    AttemptGone(stopped, wait, tail, closing, owned);
    return Some((row, errors)), s;
  }

  // All units.

  datatype Report = Report(serviceGone: bool, unitRemoved: bool, rootRemoved: bool, rows: seq<Row>, errors: nat)

  /** Row by row, the last unit first. */
  ghost predicate Segments(stopped: Command -> bool, segments: seq<seq<Event>>, units: seq<Owned>, rows: seq<Row>) {
    && |segments| == |rows| <= |units|
    && forall k :: 0 <= k < |rows| ==> Segment(stopped, segments[k], units[|units| - 1 - k], rows[k])
  }

  ghost predicate AllGone(rows: seq<Row>) {
    forall k :: 0 <= k < |rows| ==> rows[k].serviceGone
  }

  ghost predicate AllRemoved(rows: seq<Row>) {
    forall k :: 0 <= k < |rows| ==> rows[k].unitRemoved
  }

  /** What follows the units: a reload if there were any, and the removal of the root only after a flawless cleanup. */
  ghost predicate Ended(units: seq<Owned>, root: bool, before: seq<Event>, after: seq<Event>, report: Report) {
    && (units != [] ==> after != [] && after[0].Reloaded?)
    && (report.errors == 0 <==> AllQuiet(before + after))
    && var reloaded := if units == [] then [] else after[..1];
       if AllGone(report.rows) && AllRemoved(report.rows) && AllQuiet(before + reloaded) && root
       then after == reloaded + [RootRemoved(report.rootRemoved)]
       else after == reloaded && !report.rootRemoved
  }

  method CleanupOwnedNativeFixtures(host: Host, stopped: Command -> bool, root: bool, units: seq<Owned>, timeout: int, polls: nat)
    returns (r: Option<Report>, ghost rows: seq<Row>, ghost segments: seq<seq<Event>>, ghost after: seq<Event>, ghost start: nat)
    modifies host
    ensures host.trace == old(host.trace) + Flatten(segments) + after
    ensures Segments(stopped, segments, units, rows)
    ensures r.None? ==> |rows| < |units| && StillWaiting(host, stopped, units[|units| - 1 - |rows|], timeout, polls, start, after)
    ensures r.Some? ==> |rows| == |units| && r.value.rows == rows && Ended(units, root, Flatten(segments), after, r.value)
    ensures r.Some? ==> r.value.serviceGone == AllGone(rows) && r.value.unitRemoved == AllRemoved(rows)
  {
    hide Segment, AllQuiet, Quiet, Segments, StillWaiting;
    var recorded: seq<Row> := [];
    rows, start := [], 0;
    var errors: nat := 0;
    segments := [];
    ghost var done: seq<Event> := [];
    NothingLoud();
    NoSegments(stopped, units);
    for i := 0 to |units|
      invariant recorded == rows && |rows| == i && Segments(stopped, segments, units, rows)
      invariant done == Flatten(segments) && host.trace == old(host.trace) + done
      invariant errors == 0 <==> AllQuiet(done)
    {
      start := host.readings;
      var unitDone, s := CleanUnit(host, stopped, units[|units| - 1 - i], timeout, polls);
      if unitDone.None? {
        return None, rows, segments, s, start;
      }
      var (row, failed) := unitDone.value;
      NextSegment(stopped, segments, units, rows, s, row);
      QuietConcat(done, s);
      segments := segments + [s];
      done := done + s;
      recorded := recorded + [row];
      rows := rows + [row];
      errors := errors + failed;
    }
    after := [];
    LoudEnds();
    if |units| > 0 {
      var ok := host.Reload();
      QuietAppend(done, Reloaded(ok));
      after := [Reloaded(ok)];
      errors := if ok then errors else errors + 1;
    }
    ghost var reloaded := after;
    assert done + [] == done;
    assert errors == 0 <==> AllQuiet(done + reloaded);
    var gone := forall k :: 0 <= k < |recorded| ==> recorded[k].serviceGone;
    var removed := forall k :: 0 <= k < |recorded| ==> recorded[k].unitRemoved;
    var rootRemoved := false;
    if gone && removed && errors == 0 && root {
      rootRemoved := host.RemoveRoot();
      QuietAppend(done + after, RootRemoved(rootRemoved));
      assert done + (after + [RootRemoved(rootRemoved)]) == done + after + [RootRemoved(rootRemoved)];
      after := after + [RootRemoved(rootRemoved)];
      errors := if rootRemoved then errors else errors + 1;
    }
    assert reloaded == if units == [] then [] else after[..1];
    return Some(Report(gone, removed, rootRemoved, recorded, errors)), rows, segments, after, start;
  }

  lemma LoudEnds()
    ensures forall ok :: Quiet(Reloaded(ok)) <==> ok
    ensures forall ok :: Quiet(RootRemoved(ok)) <==> ok
  {
  }

  lemma QuietConcat(a: seq<Event>, b: seq<Event>)
    ensures AllQuiet(a + b) <==> AllQuiet(a) && AllQuiet(b)
  {
    assert forall x :: x in a + b <==> x in a || x in b;
  }

  lemma NoSegments(stopped: Command -> bool, units: seq<Owned>)
    ensures Segments(stopped, [], units, []) && Flatten<Event>([]) == []
  {
  }

  lemma NextSegment(stopped: Command -> bool, segments: seq<seq<Event>>, units: seq<Owned>, rows: seq<Row>, s: seq<Event>, row: Row)
    requires Segments(stopped, segments, units, rows) && |rows| < |units|
    requires Segment(stopped, s, units[|units| - 1 - |rows|], row)
    ensures Segments(stopped, segments + [s], units, rows + [row])
    ensures Flatten(segments + [s]) == Flatten(segments) + s
  {
    hide Segment;
    FlattenPush(segments, s);
  }

  // What the whole trace then says.

  /** A definition is deleted nowhere but right after its own unit was seen stopped, without a marker. */
  lemma {:induction false} DeletionIsSafe(stopped: Command -> bool, segments: seq<seq<Event>>, units: seq<Owned>, rows: seq<Row>, k: nat)
    requires Segments(stopped, segments, units, rows) && k < |Flatten(segments)|
    ensures SafeAt(stopped, Flatten(segments), k)
    ensures var t := Flatten(segments);
            t[k].Unlinked? ==> t[k - 1].owned == t[k - 2].owned == t[k - 3].owned == t[k].owned && t[k].owned in units
    decreases |segments|
  {
    var n := |segments| - 1;
    var before, s := Flatten(segments[..n]), segments[n];
    var t := before + s;
    if k < |before| {
      DeletionIsSafe(stopped, segments[..n], units, rows[..n], k);
      assert SafeAt(stopped, before, k);
      assert t[k] == before[k];
      if t[k].Unlinked? {
        assert t[k - 1] == before[k - 1] && t[k - 2] == before[k - 2] && t[k - 3] == before[k - 3];
      }
    } else {
      DeletionInSegment(stopped, s, units[|units| - 1 - n], rows[n], k - |before|);
      assert t[k] == s[k - |before|];
      if t[k].Unlinked? {
        assert t[k - 1] == s[k - |before| - 1] && t[k - 2] == s[k - |before| - 2] && t[k - 3] == s[k - |before| - 3];
      }
    }
  }

  lemma DeletionInSegment(stopped: Command -> bool, s: seq<Event>, owned: Owned, row: Row, k: nat)
    requires Segment(stopped, s, owned, row) && k < |s|
    ensures SafeAt(stopped, s, k)
    ensures s[k].Unlinked? ==> s[k].owned == s[k - 1].owned == s[k - 2].owned == s[k - 3].owned == owned
  {
    assert SoundAt(stopped, s, owned, k);
    if s[k].Unlinked? {
      assert SoundAt(stopped, s, owned, k - 1) && SoundAt(stopped, s, owned, k - 2) && SoundAt(stopped, s, owned, k - 3);
    }
  }

  /** Once the root is asked to go, every unit was seen gone, its definition was last found missing, and nothing had failed. */
  lemma RootGoesLast(stopped: Command -> bool, root: bool, units: seq<Owned>, segments: seq<seq<Event>>, after: seq<Event>, report: Report)
    requires |report.rows| == |units| && Segments(stopped, segments, units, report.rows)
    requires Ended(units, root, Flatten(segments), after, report)
    requires exists k :: 0 <= k < |after| && after[k].RootRemoved?
    ensures root && AllQuiet(Flatten(segments))
    ensures forall k :: 0 <= k < |units| ==>
              Gone(stopped, segments[k]) && segments[k][|segments[k]| - 2] == Defined(units[|units| - 1 - k], false)
  {
    hide Sound, Gone, AllQuiet;
    var reloaded := if units == [] then [] else after[..1];
    QuietConcat(Flatten(segments), reloaded);
    forall k | 0 <= k < |units|
      ensures Gone(stopped, segments[k]) && segments[k][|segments[k]| - 2] == Defined(units[|units| - 1 - k], false)
    {
      assert Segment(stopped, segments[k], units[|units| - 1 - k], report.rows[k]);
    }
  }
}
