/**
 The inventory of a native lifecycle receipt (scripts/native-lifecycle-proof.ts): one pass over the recorded steps must find the
 required steps in order, and the cleanup must list exactly the units that the receipt speaks of.
 */
module LifecycleSteps {
  import opened Wrappers
  import opened UnicodeText
  import opened Sequences
  import Sorting

  type Id = Text
  type Unit = Text
  type Digest = Text

  datatype Platform = Linux | Darwin

  /** The names of steps, phases and services that the validation knows; the lists may be any. */
  datatype Policy = Policy(
    required: seq<Id>, diagnostics: seq<Id>, onlyDarwin: set<Id>, onlyLinux: set<Id>, restarts: set<Id>,
    privateUnit: Id, repeated: Id, uninstrumented: Id, running: Id, publicStatus: Id, gracefulExit: Platform -> Id,
    phases: seq<Id>, models: set<Id>, services: seq<Id>, copied: Id, failed: Id, recovered: Id)

  const MAX_STEPS := 128
  const MAX_PID := 0x8000_0000

  /**
   A step as recorded. `sound` says whether its evidence has the form that its name calls for, as far as that is a matter of one
   field at a time; the process ids are those of the service manager, of the marker file and of the public status.
   */
  datatype Step = Step(
    id: Id, passed: bool, sound: bool, unit: Unit, instance: Text,
    managerPid: Option<int>, markerPid: Option<int>, statusPid: Option<int>)

  ghost predicate Knows(p: Policy, id: Id) { id in p.required || id in p.diagnostics }

  ghost predicate Runs(p: Policy, platform: Platform, id: Id) {
    match platform case Linux => id !in p.onlyDarwin case Darwin => id !in p.onlyLinux
  }

  ghost predicate StepFits(p: Policy, platform: Platform, s: Step) {
    Knows(p, s.id) && s.passed && Runs(p, platform, s.id) && s.sound && (s.id in p.restarts ==> OneProcess(s))
  }

  /** The manager and the marker name one process. */
  ghost predicate OneProcess(s: Step) {
    s.managerPid.Some? && 2 <= s.managerPid.value < MAX_PID && s.managerPid == s.markerPid
  }

  function FindStep(steps: seq<Step>, id: Id): (k: Option<nat>)
    ensures k.Some? ==> k.value < |steps| && steps[k.value].id == id
    ensures forall i :: 0 <= i < (if k.Some? then k.value else |steps|) ==> steps[i].id != id
  {
    if steps == [] then None
    else if steps[0].id == id then Some(0)
    else
      match FindStep(steps[1..], id)
      case None => None
      case Some(k) => Some(k + 1)
  }

  /** The public status gives the process id that the manager gave when the service was first seen running. */
  ghost predicate StatusAgrees(p: Policy, steps: seq<Step>, s: Step) {
    s.id == p.publicStatus ==>
      FindStep(steps, p.running).Some? && s.statusPid == steps[FindStep(steps, p.running).value].managerPid
  }

  ghost function Count(steps: seq<Step>, n: nat, id: Id): nat
    requires n <= |steps|
  {
    if n == 0 then 0 else Count(steps, n - 1, id) + if steps[n - 1].id == id then 1 else 0
  }

  ghost function Allowed(p: Policy, platform: Platform, id: Id): nat {
    if platform == Darwin && id == p.repeated then 2 else 1
  }

  // One cursor against a subsequence.

  /** How far the cursor has come in `required` after `n` steps. */
  ghost function Cursor(required: seq<Id>, steps: seq<Step>, n: nat): (c: nat)
    requires n <= |steps|
    ensures c <= |required|
  {
    if n == 0 then 0
    else
      var c := Cursor(required, steps, n - 1);
      if c < |required| && steps[n - 1].id == required[c] then c + 1 else c
  }

  /** The first `n` required steps are found at the places `at`, in order. */
  ghost predicate Places(required: seq<Id>, steps: seq<Step>, at: seq<nat>, n: nat) {
    && n <= |required| && |at| == n
    && (forall i :: 0 <= i < n ==> at[i] < |steps| && steps[at[i]].id == required[i])
    && (forall i, j :: 0 <= i < j < n ==> at[i] < at[j])
  }

  ghost predicate Subsequence(required: seq<Id>, steps: seq<Step>) {
    exists at :: Places(required, steps, at, |required|)
  }

  lemma {:induction false} CursorGrows(required: seq<Id>, steps: seq<Step>, m: nat, n: nat)
    requires m <= n <= |steps|
    ensures Cursor(required, steps, m) <= Cursor(required, steps, n)
    decreases n
  {
    if m < n {
      CursorGrows(required, steps, m, n - 1);
    }
  }

  lemma {:induction false} CursorReaches(required: seq<Id>, steps: seq<Step>, at: seq<nat>, n: nat)
    requires Places(required, steps, at, n) && n > 0
    ensures Cursor(required, steps, at[n - 1] + 1) >= n
  {
    var here := at[n - 1];
    if n > 1 {
      CursorReaches(required, steps, at[..n - 1], n - 1);
      CursorGrows(required, steps, at[n - 2] + 1, here);
    }
    assert steps[here].id == required[n - 1];
  }

  ghost predicate PlacedBefore(required: seq<Id>, steps: seq<Step>, at: seq<nat>, c: nat, n: nat) {
    Places(required, steps, at, c) && forall i :: 0 <= i < |at| ==> at[i] < n
  }

  lemma PlacesNext(required: seq<Id>, steps: seq<Step>, at: seq<nat>, c: nat, n: nat)
    requires PlacedBefore(required, steps, at, c, n) && n < |steps| && c < |required| && steps[n].id == required[c]
    ensures PlacedBefore(required, steps, at + [n], c + 1, n + 1)
  {
  }

  lemma {:induction false} CursorPlaces(required: seq<Id>, steps: seq<Step>, n: nat)
    requires n <= |steps|
    ensures exists at :: PlacedBefore(required, steps, at, Cursor(required, steps, n), n)
  {
    if n == 0 {
      var none: seq<nat> := [];
      assert PlacedBefore(required, steps, none, Cursor(required, steps, n), n);
    } else {
      CursorPlaces(required, steps, n - 1);
      var c := Cursor(required, steps, n - 1);
      var at: seq<nat> :| PlacedBefore(required, steps, at, c, n - 1);
      if Cursor(required, steps, n) > c {
        PlacesNext(required, steps, at, c, n - 1);
        assert PlacedBefore(required, steps, at + [n - 1], Cursor(required, steps, n), n);
      } else {
        assert PlacedBefore(required, steps, at, Cursor(required, steps, n), n);
      }
    }
  }

  /** The cursor comes to the end exactly when the required steps are a subsequence of the recorded ones. */
  lemma CursorFindsSubsequence(required: seq<Id>, steps: seq<Step>)
    ensures Cursor(required, steps, |steps|) == |required| <==> Subsequence(required, steps)
  {
    CursorPlaces(required, steps, |steps|);
    hide Cursor, Places;
    var at: seq<nat> :| PlacedBefore(required, steps, at, Cursor(required, steps, |steps|), |steps|);
    if Subsequence(required, steps) {
      SubsequenceReached(required, steps);
    }
  }

  lemma SubsequenceReached(required: seq<Id>, steps: seq<Step>)
    requires Subsequence(required, steps)
    ensures Cursor(required, steps, |steps|) == |required|
  {
    var at: seq<nat> :| Places(required, steps, at, |required|);
    if required != [] {
      var last := at[|required| - 1];
      CursorReaches(required, steps, at, |required|);
      CursorGrows(required, steps, last + 1, |steps|);
      hide Cursor, Places;
    }
  }

  // The scan.

  /** No process instance is seen at two steps that should each have started a new one. */
  ghost predicate FreshInstances(p: Policy, steps: seq<Step>, n: nat)
    requires n <= |steps|
  {
    forall i, j :: 0 <= i < j < n && steps[i].id in p.restarts && steps[j].id in p.restarts ==> steps[i].instance != steps[j].instance
  }

  ghost function Instances(p: Policy, steps: seq<Step>, n: nat): set<Text>
    requires n <= |steps|
  {
    if n == 0 then {} else Instances(p, steps, n - 1) + if steps[n - 1].id in p.restarts then {steps[n - 1].instance} else {}
  }

  lemma {:induction false} InstancesHave(p: Policy, steps: seq<Step>, n: nat)
    requires n <= |steps|
    ensures forall k :: 0 <= k < n && steps[k].id in p.restarts ==> steps[k].instance in Instances(p, steps, n)
    ensures forall x :: x in Instances(p, steps, n) ==> exists k :: 0 <= k < n && steps[k].id in p.restarts && steps[k].instance == x
  {
    if n > 0 {
      InstancesHave(p, steps, n - 1);
    }
  }

  lemma StartFresh(p: Policy, steps: seq<Step>)
    ensures FreshInstances(p, steps, 0)
  {
  }

  lemma FreshNext(p: Policy, steps: seq<Step>, n: nat)
    requires n < |steps| && FreshInstances(p, steps, n)
    ensures FreshInstances(p, steps, n + 1) <==> (steps[n].id in p.restarts ==> steps[n].instance !in Instances(p, steps, n))
    ensures !FreshInstances(p, steps, n + 1) ==> !FreshInstances(p, steps, |steps|)
  {
    InstancesHave(p, steps, n);
    hide Instances;
  }

  ghost function Units(p: Policy, steps: seq<Step>, n: nat): seq<Unit>
    requires n <= |steps|
  {
    if n == 0 then [] else Units(p, steps, n - 1) + if steps[n - 1].id == p.privateUnit then [steps[n - 1].unit] else []
  }

  ghost predicate Inventory(p: Policy, platform: Platform, steps: seq<Step>) {
    && |steps| <= MAX_STEPS
    && (forall k :: 0 <= k < |steps| ==> StatusAgrees(p, steps, steps[k]))
    && (forall k :: 0 <= k < |steps| ==> StepFits(p, platform, steps[k]))
    && (forall id :: Count(steps, |steps|, id) <= Allowed(p, platform, id))
    && FreshInstances(p, steps, |steps|)
    && Subsequence(p.required, steps)
    && Count(steps, |steps|, p.gracefulExit(platform)) == 1
    && (platform == Darwin ==> Count(steps, |steps|, p.uninstrumented) == 1 && Count(steps, |steps|, p.repeated) == 2)
  }

  lemma {:induction false} CountGrows(steps: seq<Step>, m: nat, n: nat, id: Id)
    requires m <= n <= |steps|
    ensures Count(steps, m, id) <= Count(steps, n, id)
    decreases n
  {
    if m < n {
      CountGrows(steps, m, n - 1, id);
    }
  }

  function CountIn(counts: map<Id, nat>, id: Id): nat {
    if id in counts then counts[id] else 0
  }

  ghost predicate CountsAre(counts: map<Id, nat>, steps: seq<Step>, n: nat)
    requires n <= |steps|
  {
    forall id :: CountIn(counts, id) == Count(steps, n, id)
  }

  lemma NothingCounted(steps: seq<Step>)
    ensures CountsAre(map[], steps, 0)
  {
  }

  lemma CountsNext(counts: map<Id, nat>, steps: seq<Step>, n: nat)
    requires n < |steps| && CountsAre(counts, steps, n)
    ensures CountIn(counts, steps[n].id) == Count(steps, n, steps[n].id)
    ensures CountsAre(counts[steps[n].id := CountIn(counts, steps[n].id) + 1], steps, n + 1)
  {
    var after := counts[steps[n].id := CountIn(counts, steps[n].id) + 1];
    forall id ensures CountIn(after, id) == Count(steps, n + 1, id) {
      assert CountIn(counts, id) == Count(steps, n, id);
    }
  }

  lemma CountsRead(counts: map<Id, nat>, steps: seq<Step>)
    requires CountsAre(counts, steps, |steps|)
    ensures forall id :: CountIn(counts, id) == Count(steps, |steps|, id)
  {
  }

  lemma AllowedIs(p: Policy, platform: Platform, id: Id)
    ensures Allowed(p, platform, id) == if platform == Darwin && id == p.repeated then 2 else 1
  {
  }

  /** What is asked of each step alone, and of the public status. */
  method ValidateStep(p: Policy, platform: Platform, steps: seq<Step>, s: Step) returns (ok: bool)
    ensures ok <==> StepFits(p, platform, s) && StatusAgrees(p, steps, s)
  {
    if (s.id !in p.required && s.id !in p.diagnostics) || !s.passed || !s.sound {
      return false;
    }
    if (platform == Linux && s.id in p.onlyDarwin) || (platform == Darwin && s.id in p.onlyLinux) {
      return false;
    }
    if s.id in p.restarts {
      if s.managerPid.None? || s.markerPid != s.managerPid || s.managerPid.value <= 1 || s.managerPid.value > 0x7FFF_FFFF {
        return false;
      }
    }
    if s.id == p.publicStatus {
      var running := FindStep(steps, p.running);
      if running.None? || s.statusPid != steps[running.value].managerPid {
        return false;
      }
    }
    return true;
  }

  method OriginalSteps(p: Policy, platform: Platform, steps: seq<Step>) returns (r: Option<seq<Unit>>)
    ensures r.Some? <==> Inventory(p, platform, steps)
    ensures r.Some? ==> r.value == Units(p, steps, |steps|)
  {
    hide FreshInstances, StepFits, Allowed, Subsequence, StatusAgrees, CountsAre, CountIn;
    if |steps| > MAX_STEPS {
      return None;
    }
    StartFresh(p, steps);
    NothingCounted(steps);
    var next: nat := 0;
    var counts: map<Id, nat> := map[];
    var units: seq<Unit> := [];
    var instances: set<Text> := {};
    for n := 0 to |steps|
      invariant next == Cursor(p.required, steps, n) && units == Units(p, steps, n)
      invariant CountsAre(counts, steps, n)
      invariant forall id :: Count(steps, n, id) <= Allowed(p, platform, id)
      invariant forall k :: 0 <= k < n ==> StepFits(p, platform, steps[k]) && StatusAgrees(p, steps, steps[k])
      invariant instances == Instances(p, steps, n) && FreshInstances(p, steps, n)
    {
      var s := steps[n];
      FreshNext(p, steps, n);
      var fits := ValidateStep(p, platform, steps, s);
      if !fits {
        return None;
      }
      CountsNext(counts, steps, n);
      var count := CountIn(counts, s.id) + 1;
      counts := counts[s.id := count];
      AllowedIs(p, platform, s.id);
      if count > (if platform == Darwin && s.id == p.repeated then 2 else 1) {
        CountGrows(steps, n + 1, |steps|, s.id);
        return None;
      }
      if next < |p.required| && s.id == p.required[next] {
        next := next + 1;
      }
      if s.id == p.privateUnit {
        units := units + [s.unit];
      }
      if s.id in p.restarts {
        if s.instance in instances {
          return None;
        }
        instances := instances + {s.instance};
      }
    }
    CursorFindsSubsequence(p.required, steps);
    CountsRead(counts, steps);
    if next != |p.required| || CountIn(counts, p.gracefulExit(platform)) != 1 {
      return None;
    }
    if platform == Darwin && (CountIn(counts, p.uninstrumented) != 1 || CountIn(counts, p.repeated) != 2) {
      return None;
    }
    return Some(units);
  }

  lemma {:induction false} CountTwo(steps: seq<Step>, n: nat, i: nat, j: nat)
    requires i < j < n <= |steps| && steps[i].id == steps[j].id
    ensures Count(steps, n, steps[i].id) >= 2
  {
    if j < n - 1 {
      CountTwo(steps, n - 1, i, j);
    } else {
      CountGrows(steps, i + 1, j, steps[i].id);
    }
  }

  /** In an accepted inventory the public status, the manager and the marker all name one process. */
  lemma PublicStatusIsManager(p: Policy, platform: Platform, steps: seq<Step>, i: nat, j: nat)
    requires Inventory(p, platform, steps) && p.running in p.restarts && Allowed(p, platform, p.running) == 1
    requires i < |steps| && steps[i].id == p.publicStatus && j < |steps| && steps[j].id == p.running
    ensures steps[j].managerPid.Some? && steps[i].statusPid == steps[j].managerPid == steps[j].markerPid
  {
    hide Subsequence, FreshInstances;
    assert StatusAgrees(p, steps, steps[i]) && StepFits(p, platform, steps[j]);
    var k := FindStep(steps, p.running).value;
    if k < j {
      CountTwo(steps, |steps|, k, j);
    }
  }

  // The phases, the recovery services and the cleanup list.

  /** A model observed at work: the process instance and the receipt of its run. */
  datatype Start = Start(instance: Text, receipt: Text)

  /** `unit` is the unit that the evidence names, if it names one that can have been started; `starts` are a model phase's. */
  datatype Phase = Phase(
    id: Id, passed: bool, sound: bool, unit: Option<Unit>, starts: seq<Start>, eventText: Option<Digest>, copy: Option<Digest>,
    preimage: Text)

  datatype Service = Service(id: Id, sound: bool, unit: Unit, eventText: Digest)

  datatype CleanupRow = CleanupRow(unit: Unit, serviceGone: bool, unitRemoved: bool)

  datatype Cleanup = Cleanup(attempted: bool, serviceGone: bool, unitRemoved: bool, rootRemoved: bool, rows: seq<CleanupRow>)

  datatype Receipt = Receipt(steps: seq<Step>, phases: seq<Phase>, services: seq<Service>, cleanup: Cleanup)

  const MAX_PHASES := 17
  const MAX_SERVICES := 5
  const MAX_CLEANUP := 32

  ghost function InstanceOf(s: Start): Text { s.instance }

  ghost function ReceiptOf(s: Start): Text { s.receipt }

  ghost function ServiceUnit(s: Service): Unit { s.unit }

  ghost function RowUnit(c: CleanupRow): Unit { c.unit }

  /** What the model phases among the first `n` observed. */
  ghost function Starts(p: Policy, phases: seq<Phase>, n: nat): seq<Start>
    requires n <= |phases|
  {
    if n == 0 then [] else Starts(p, phases, n - 1) + if phases[n - 1].id in p.models then phases[n - 1].starts else []
  }

  /** No process instance and no receipt is shown twice. */
  ghost predicate Fresh(s: seq<Start>) {
    Sorting.Distinct(Apply(InstanceOf, s)) && Sorting.Distinct(Apply(ReceiptOf, s))
  }

  ghost function PhaseUnits(phases: seq<Phase>): set<Unit> {
    set k | 0 <= k < |phases| && phases[k].unit.Some? :: phases[k].unit.value
  }

  ghost predicate LastNamed(phases: seq<Phase>, id: Id, k: int) {
    0 <= k < |phases| && phases[k].id == id && forall j :: k < j < |phases| ==> phases[j].id != id
  }

  /** The last phase of this name. */
  function Admitted(phases: seq<Phase>, id: Id): (r: Option<Phase>)
    ensures r.None? ==> forall k :: 0 <= k < |phases| ==> phases[k].id != id
    ensures r.Some? ==> exists k :: LastNamed(phases, id, k) && r.value == phases[k]
  {
    if phases == [] then None
    else if phases[|phases| - 1].id == id then
      assert LastNamed(phases, id, |phases| - 1);
      Some(phases[|phases| - 1])
    else
      var front := phases[..|phases| - 1];
      assert forall k :: LastNamed(front, id, k) ==> LastNamed(phases, id, k);
      Admitted(front, id)
  }

  ghost predicate PhaseFits(phase: Phase) { phase.passed && phase.sound }

  ghost predicate PhasesFit(p: Policy, phases: seq<Phase>) {
    && |phases| <= MAX_PHASES && |phases| == |p.phases| && (forall k :: 0 <= k < |phases| ==> phases[k].id == p.phases[k])
    && (forall k :: 0 <= k < |phases| ==> PhaseFits(phases[k]))
    && Fresh(Starts(p, phases, |phases|))
  }

  /** The three recoveries start from one copy, and the recovered database is the one that was copied. */
  ghost predicate CopiesAgree(p: Policy, phases: seq<Phase>) {
    var first, failed, recovered := Admitted(phases, p.copied), Admitted(phases, p.failed), Admitted(phases, p.recovered);
    && first.Some? && failed.Some? && recovered.Some?
    && first.value.copy == failed.value.copy == recovered.value.copy && first.value.preimage == recovered.value.preimage
  }

  /** A service preserved the text that its phase did. */
  ghost predicate ServiceFits(phases: seq<Phase>, s: Service) {
    s.sound && Admitted(phases, s.id).Some? && Admitted(phases, s.id).value.eventText == Some(s.eventText)
  }

  ghost predicate ServicesFit(p: Policy, phases: seq<Phase>, services: seq<Service>) {
    && |services| <= MAX_SERVICES && |services| == |p.services| && (forall k :: 0 <= k < |services| ==> services[k].id == p.services[k])
    && (forall k :: 0 <= k < |services| ==> ServiceFits(phases, services[k]))
    && Sorting.Distinct(Apply(ServiceUnit, services))
  }

  /** Every unit that the receipt speaks of. */
  ghost function Gathered(p: Policy, r: Receipt): set<Unit> {
    Elements(Units(p, r.steps, |r.steps|)) + PhaseUnits(r.phases) + Elements(Apply(ServiceUnit, r.services))
  }

  ghost predicate RowClean(c: CleanupRow) { c.serviceGone && c.unitRemoved }

  /** Each gathered unit was cleaned up, once, and nothing else was. */
  ghost predicate Clean(p: Policy, r: Receipt) {
    && r.cleanup.attempted && r.cleanup.serviceGone && r.cleanup.unitRemoved && r.cleanup.rootRemoved
    && |r.cleanup.rows| <= MAX_CLEANUP
    && (forall k :: 0 <= k < |r.cleanup.rows| ==> RowClean(r.cleanup.rows[k]))
    && Sorting.Distinct(Apply(RowUnit, r.cleanup.rows))
    && Elements(Apply(RowUnit, r.cleanup.rows)) == Gathered(p, r)
  }

  /** What has been seen of starts. */
  ghost predicate Seen(s: seq<Start>, instances: set<Text>, receipts: set<Text>) {
    instances == Elements(Apply(InstanceOf, s)) && receipts == Elements(Apply(ReceiptOf, s))
  }

  lemma FreshPush(s: seq<Start>, x: Start, instances: set<Text>, receipts: set<Text>)
    requires Seen(s, instances, receipts)
    ensures Fresh(s + [x]) <==> Fresh(s) && x.instance !in instances && x.receipt !in receipts
    ensures Seen(s + [x], instances + {x.instance}, receipts + {x.receipt})
  {
    hide Elements, Sorting.Distinct;
    assert Apply(InstanceOf, s + [x]) == Apply(InstanceOf, s) + [x.instance];
    assert Apply(ReceiptOf, s + [x]) == Apply(ReceiptOf, s) + [x.receipt];
    ElementsPush(Apply(InstanceOf, s), x.instance);
    ElementsPush(Apply(ReceiptOf, s), x.receipt);
  }

  lemma FreshFront(s: seq<Start>, t: seq<Start>)
    requires Fresh(s + t)
    ensures Fresh(s)
  {
    hide Apply;
    assert Apply(InstanceOf, s) == Apply(InstanceOf, s + t)[..|s|] && Apply(ReceiptOf, s) == Apply(ReceiptOf, s + t)[..|s|];
  }

  method AddStarts(ghost before: seq<Start>, starts: seq<Start>, instances: set<Text>, receipts: set<Text>)
    returns (ok: bool, instances': set<Text>, receipts': set<Text>)
    requires Seen(before, instances, receipts) && Fresh(before)
    ensures ok <==> Fresh(before + starts)
    ensures ok ==> Seen(before + starts, instances', receipts')
  {
    hide Seen, Fresh;
    instances', receipts' := instances, receipts;
    assert before + starts[..0] == before;
    for k := 0 to |starts|
      invariant Seen(before + starts[..k], instances', receipts') && Fresh(before + starts[..k])
    {
      var x := starts[k];
      FreshPush(before + starts[..k], x, instances', receipts');
      assert before + starts[..k] + [x] == before + starts[..k + 1];
      if x.instance in instances' || x.receipt in receipts' {
        if Fresh(before + starts) {
          assert before + starts[..k + 1] + starts[k + 1..] == before + starts;
          FreshFront(before + starts[..k + 1], starts[k + 1..]);
        }
        return false, instances', receipts';
      }
      instances', receipts' := instances' + {x.instance}, receipts' + {x.receipt};
    }
    assert starts[..|starts|] == starts;
    return true, instances', receipts';
  }

  lemma {:induction false} StartsFront(p: Policy, phases: seq<Phase>, n: nat)
    requires n <= |phases| && Fresh(Starts(p, phases, |phases|))
    ensures Fresh(Starts(p, phases, n))
    decreases |phases| - n
  {
    hide Fresh;
    if n < |phases| {
      StartsFront(p, phases, n + 1);
      FreshFront(Starts(p, phases, n), if phases[n].id in p.models then phases[n].starts else []);
    }
  }

  lemma PhaseUnitsPush(phases: seq<Phase>, n: nat)
    requires n < |phases|
    ensures PhaseUnits(phases[..n + 1]) == PhaseUnits(phases[..n]) + if phases[n].unit.Some? then {phases[n].unit.value} else {}
  {
    var before, after := phases[..n], phases[..n + 1];
    assert after[n] == phases[n] && forall k :: 0 <= k < n ==> before[k] == after[k];
    forall u ensures u in PhaseUnits(after) <==> u in PhaseUnits(before) || phases[n].unit == Some(u) {
      if u in PhaseUnits(before) {
        var k :| 0 <= k < n && before[k].unit == Some(u);
        assert after[k].unit == Some(u);
      }
      if u in PhaseUnits(after) {
        var k :| 0 <= k < n + 1 && after[k].unit == Some(u);
        assert k < n ==> before[k].unit == Some(u);
      }
      if phases[n].unit == Some(u) {
        assert after[n].unit == Some(u);
      }
    }
  }

  lemma PhaseFitsWhen(phase: Phase)
    ensures PhaseFits(phase) <==> phase.passed && phase.sound
  {
  }

  method ValidatePhases(p: Policy, phases: seq<Phase>) returns (r: Option<set<Unit>>)
    ensures r.Some? <==> PhasesFit(p, phases)
    ensures r.Some? ==> r.value == PhaseUnits(phases)
  {
    hide Seen, Fresh, PhaseFits, PhaseUnits;
    if |phases| > MAX_PHASES || Apply((phase: Phase) => phase.id, phases) != p.phases {
      return None;
    }
    var units: set<Unit> := {};
    var instances: set<Text>, receipts: set<Text> := {}, {};
    NothingSeen();
    assert Starts(p, phases, 0) == [];
    for n := 0 to |phases|
      invariant forall k :: 0 <= k < n ==> PhaseFits(phases[k])
      invariant Fresh(Starts(p, phases, n)) && Seen(Starts(p, phases, n), instances, receipts)
      invariant units == PhaseUnits(phases[..n])
    {
      var phase := phases[n];
      PhaseFitsWhen(phase);
      if !phase.passed || !phase.sound {
        return None;
      }
      PhaseUnitsPush(phases, n);
      if phase.id in p.models {
        var ok;
        ok, instances, receipts := AddStarts(Starts(p, phases, n), phase.starts, instances, receipts);
        if !ok {
          if Fresh(Starts(p, phases, |phases|)) {
            StartsFront(p, phases, n + 1);
          }
          return None;
        }
      } else {
        assert Starts(p, phases, n + 1) == Starts(p, phases, n);
      }
      if phase.unit.Some? {
        units := units + {phase.unit.value};
      }
    }
    assert phases[..|phases|] == phases;
    return Some(units);
  }

  lemma NothingSeen()
    ensures Fresh([]) && Seen([], {}, {}) && PhaseUnits([]) == {}
  {
  }

  lemma ServiceFitsWhen(phases: seq<Phase>, s: Service)
    ensures ServiceFits(phases, s) <==> s.sound && Admitted(phases, s.id).Some? && Admitted(phases, s.id).value.eventText == Some(s.eventText)
  {
  }

  method ValidateServices(p: Policy, phases: seq<Phase>, services: seq<Service>) returns (r: Option<set<Unit>>)
    ensures r.Some? <==> ServicesFit(p, phases, services)
    ensures r.Some? ==> r.value == Elements(Apply(ServiceUnit, services))
  {
    hide Elements, Sorting.Distinct, ServiceFits, Apply;
    if |services| > MAX_SERVICES || Apply((s: Service) => s.id, services) != p.services {
      return None;
    }
    var units: set<Unit> := {};
    NoElements();
    assert Apply(ServiceUnit, services[..0]) == [];
    for k := 0 to |services|
      invariant forall j :: 0 <= j < k ==> ServiceFits(phases, services[j])
      invariant units == Elements(Apply(ServiceUnit, services[..k])) && Sorting.Distinct(Apply(ServiceUnit, services[..k]))
    {
      var s := services[k];
      assert services[..k + 1] == services[..k] + [s];
      assert Apply(ServiceUnit, services[..k + 1]) == Apply(ServiceUnit, services[..k]) + [s.unit];
      ElementsPush(Apply(ServiceUnit, services[..k]), s.unit);
      ServiceFitsWhen(phases, s);
      var phase := Admitted(phases, s.id);
      if !s.sound || phase.None? || phase.value.eventText != Some(s.eventText) {
        return None;
      }
      if s.unit in units {
        DistinctFront(services, k + 1);
        return None;
      }
      units := units + {s.unit};
    }
    assert services[..|services|] == services;
    return Some(units);
  }

  lemma NoElements()
    ensures Elements<Text>([]) == {} && Sorting.Distinct<Text>([])
  {
  }

  lemma DistinctFront(services: seq<Service>, n: nat)
    requires n <= |services|
    ensures Sorting.Distinct(Apply(ServiceUnit, services)) ==> Sorting.Distinct(Apply(ServiceUnit, services[..n]))
  {
    hide Apply;
    assert Apply(ServiceUnit, services[..n]) == Apply(ServiceUnit, services)[..n];
  }

  /** The three recoveries, by name. */
  method CompareCopies(p: Policy, phases: seq<Phase>) returns (ok: bool)
    ensures ok <==> CopiesAgree(p, phases)
  {
    hide LastNamed;
    var first, failed, recovered := Admitted(phases, p.copied), Admitted(phases, p.failed), Admitted(phases, p.recovered);
    if first.None? || failed.None? || recovered.None? {
      return false;
    }
    return failed.value.copy == first.value.copy && recovered.value.copy == first.value.copy && recovered.value.preimage == first.value.preimage;
  }

  method ValidateInventory(p: Policy, platform: Platform, r: Receipt) returns (ok: bool)
    ensures ok <==>
            && Inventory(p, platform, r.steps) && PhasesFit(p, r.phases) && CopiesAgree(p, r.phases)
            && ServicesFit(p, r.phases, r.services) && Clean(p, r)
  {
    hide Inventory, Units, PhasesFit, CopiesAgree, ServicesFit, Elements, PhaseUnits;
    var original := OriginalSteps(p, platform, r.steps);
    if original.None? {
      return false;
    }
    var phaseUnits := ValidatePhases(p, r.phases);
    if phaseUnits.None? {
      return false;
    }
    var agree := CompareCopies(p, r.phases);
    if !agree {
      return false;
    }
    var serviceUnits := ValidateServices(p, r.phases, r.services);
    if serviceUnits.None? {
      return false;
    }
    var units := Elements(original.value) + phaseUnits.value + serviceUnits.value;
    if !r.cleanup.attempted || !r.cleanup.serviceGone || !r.cleanup.unitRemoved || !r.cleanup.rootRemoved
       || |r.cleanup.rows| > MAX_CLEANUP || exists k :: 0 <= k < |r.cleanup.rows| && (!r.cleanup.rows[k].serviceGone || !r.cleanup.rows[k].unitRemoved)
    {
      return false;
    }
    var removed := Apply((c: CleanupRow) => c.unit, r.cleanup.rows);
    assert removed == Apply(RowUnit, r.cleanup.rows);
    ElementCount(removed);
    if |Elements(removed)| != |removed| || |removed| != |units| || !(units <= Elements(removed)) {
      return false;
    }
    SameSize(units, Elements(removed));
    return true;
  }
}
