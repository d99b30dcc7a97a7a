/**
 The offline release decision (scripts/go-no-go.ts) over the gate receipts an evidence index may name
 (scripts/release-evidence.ts). A gate id is its family and its member; a text that names no gate is `Unknown`.
 */
module GateEvaluation {
  import opened Wrappers
  import Sorting

  type Digest = string
  type Reason = string

  // The product's own lists, of any length.

  datatype Policy = Policy(targets: seq<string>, journeys: seq<string>, connectors: seq<Connector>) {
    ghost predicate Valid() {
      && Sorting.Distinct(targets) && Sorting.Distinct(journeys)
      && forall i, j :: 0 <= i < j < |connectors| ==> connectors[i].id != connectors[j].id
    }
  }

  datatype Connector = Connector(id: string, evidence: string)

  const TARGETS := ["bun-linux-x64-baseline", "bun-darwin-arm64"]

  const JOURNEYS := [
    "connect-resume", "correct-belief", "revoke-purge", "retrieve-trustworthily", "import-estate-slice", "daily-loop",
    "useful-insight", "install-recover"]

  const CONNECTORS := [
    Connector("telegram", "live-account"), Connector("gmail", "live-account"), Connector("google-calendar", "live-account"),
    Connector("imap", "live-account"), Connector("ics", "file-import"), Connector("whoop", "live-account"),
    Connector("x-api", "live-account"), Connector("screenpipe", "local-source"), Connector("markdown-folder", "file-import"),
    Connector("chatgpt-export", "file-import"), Connector("claude-export", "file-import"), Connector("x-archive", "file-import"),
    Connector("whatsapp-export", "file-import"), Connector("pocket", "file-import"), Connector("omnivore", "file-import")]

  /** The lists as they are now hold no repetition. */
  lemma PresentPolicyValid()
    ensures Policy(TARGETS, JOURNEYS, CONNECTORS).Valid()
  {
    hide TARGETS, JOURNEYS, CONNECTORS;
    TargetsDiffer();
    JourneysDiffer();
    ConnectorsDiffer();
  }

  lemma TargetsDiffer()
    ensures Sorting.Distinct(TARGETS)
  {
    assert TARGETS[0][4] != TARGETS[1][4];
  }

  /** No two journeys have one length and one third letter. */
  lemma JourneysDiffer()
    ensures Sorting.Distinct(JOURNEYS)
  {
    var at := [(14, 'n'), (14, 'r'), (12, 'v'), (22, 't'), (19, 'p'), (10, 'i'), (14, 'e'), (15, 's')];
    forall i | 0 <= i < |JOURNEYS| ensures |JOURNEYS[i]| == at[i].0 && JOURNEYS[i][2] == at[i].1 {}
    assert forall i, j :: 0 <= i < j < |at| ==> at[i] != at[j];
  }

  const CONNECTOR_MARKS := [
    (8, 't'), (5, 'g'), (15, 'g'), (4, 'i'), (3, 'i'), (5, 'w'), (5, 'x'), (10, 's'), (15, 'm'), (14, 'c'), (13, 'c'), (9, 'x'),
    (15, 'w'), (6, 'p'), (8, 'o')]

  lemma ConnectorMarks()
    ensures |CONNECTOR_MARKS| == |CONNECTORS|
    ensures forall i :: 0 <= i < |CONNECTORS| ==> |CONNECTORS[i].id| == CONNECTOR_MARKS[i].0 && CONNECTORS[i].id[0] == CONNECTOR_MARKS[i].1
  {
  }

  lemma MarksDiffer()
    ensures forall i, j :: 0 <= i < j < |CONNECTOR_MARKS| ==> CONNECTOR_MARKS[i] != CONNECTOR_MARKS[j]
  {
  }

  /** No two connectors have one length and one first letter. */
  lemma ConnectorsDiffer()
    ensures forall i, j :: 0 <= i < j < |CONNECTORS| ==> CONNECTORS[i].id != CONNECTORS[j].id
  {
    hide CONNECTORS, CONNECTOR_MARKS;
    ConnectorMarks();
    MarksDiffer();
  }

  datatype GateId =
    | EvidenceIndex | Artifact(target: string) | Engine(target: string) | Native(target: string) | Lifecycle(target: string)
    | RequiredChecks | IndependentReview | P0Disposition | Surface | Journey(name: string) | Connected(name: string)
    | UnfamiliarUser | OwnerRails | EstateParity | FinalCutover | FixtureObservation | Unknown(text: string)

  datatype Status = PASS | FAIL | MISSING | UNVERIFIABLE | NOT_IMPLEMENTED

  datatype Gate = Gate(
    id: GateId, scope: string, status: Status, reason: Reason, required: bool, target: Option<string>, evidence: Option<Digest>)

  const NO_PRODUCER := "trusted-producer-not-implemented"
  const SUPERSEDED := "superseded-readiness-gate"

  function Row(id: GateId, scope: string, status: Status, reason: Reason, required: bool): (r: Gate)
    ensures r.id == id
  {
    Gate(id, scope, status, reason, required, None, None)
  }

  function TargetId(target: string, kind: nat): GateId {
    match kind case 0 => Artifact(target) case 1 => Engine(target) case 2 => Native(target) case _ => Lifecycle(target)
  }

  function TargetRow(target: string, kind: nat): (r: Gate)
    ensures r.id == TargetId(target, kind)
  {
    var row := match kind
      case 0 => Row(Artifact(target), "automated-fixture-integrity", MISSING, "artifact-proof-missing", true)
      case 1 => Row(Engine(target), "effective-sqlite-runtime", MISSING, "missing-engine-proof", true)
      case 2 => Row(Native(target), "native-execution-attestation", UNVERIFIABLE, "producer-revision-and-native-attestation-unavailable", true)
      case _ => Row(Lifecycle(target), "native-installed-service", UNVERIFIABLE, "trusted-online-lifecycle-observation-required", true);
    row.(target := Some(target))
  }

  function TargetRows(p: Policy): seq<Gate> {
    seq(4 * |p.targets|, i requires 0 <= i < 4 * |p.targets| => TargetRow(p.targets[i / 4], i % 4))
  }

  function CandidateRows(): seq<Gate> {
    [ Row(RequiredChecks, "exact-candidate-ci", MISSING, "required-checks-receipt-missing", true),
      Row(IndependentReview, "independent-review", NOT_IMPLEMENTED, NO_PRODUCER, true),
      Row(P0Disposition, "current-head-findings", MISSING, "p0-disposition-receipt-missing", true),
      Row(Surface, "product-surface-inventory", NOT_IMPLEMENTED, NO_PRODUCER, true) ]
  }

  function JourneyRows(p: Policy): seq<Gate> {
    seq(|p.journeys|, i requires 0 <= i < |p.journeys| =>
      Row(Journey(p.journeys[i]), "complete-product-journey", MISSING, "journey-receipt-missing", true))
  }

  function ConnectorRows(p: Policy): seq<Gate> {
    seq(|p.connectors|, i requires 0 <= i < |p.connectors| =>
      Row(Connected(p.connectors[i].id), p.connectors[i].evidence, MISSING, "connector-receipt-missing", true))
  }

  function LastRows(): seq<Gate> {
    [ Row(UnfamiliarUser, "non-author-zero-coaching", NOT_IMPLEMENTED, NO_PRODUCER, true),
      Row(OwnerRails, "supervised-owner-observation", NOT_IMPLEMENTED, SUPERSEDED, false),
      Row(EstateParity, "paired-estate-observation", NOT_IMPLEMENTED, SUPERSEDED, false),
      Row(FinalCutover, "owner-operational-authority", NOT_IMPLEMENTED, SUPERSEDED, false),
      Row(FixtureObservation, "fixture-only", MISSING, "fixture-observation-not-supplied", false) ]
  }

  function Gates(p: Policy): seq<Gate> {
    [Row(EvidenceIndex, "evidence-integrity", MISSING, "index-missing", true)]
    + TargetRows(p) + CandidateRows() + JourneyRows(p) + ConnectorRows(p) + LastRows()
  }

  ghost predicate DistinctIds(rows: seq<Gate>) {
    forall i, j :: 0 <= i < j < |rows| ==> rows[i].id != rows[j].id
  }

  /** Which block of the list an id belongs to. */
  function Stage(id: GateId): nat {
    match id
    case EvidenceIndex => 0
    case Artifact(_) => 1
    case Engine(_) => 1
    case Native(_) => 1
    case Lifecycle(_) => 1
    case Journey(_) => 3
    case Connected(_) => 4
    case RequiredChecks => 2
    case IndependentReview => 2
    case P0Disposition => 2
    case Surface => 2
    case _ => 5
  }

  ghost predicate Block(rows: seq<Gate>, stage: nat) {
    DistinctIds(rows) && forall i :: 0 <= i < |rows| ==> Stage(rows[i].id) == stage
  }

  ghost predicate Below(rows: seq<Gate>, stage: nat) {
    DistinctIds(rows) && forall i :: 0 <= i < |rows| ==> Stage(rows[i].id) < stage
  }

  lemma Join(a: seq<Gate>, b: seq<Gate>, stage: nat)
    requires Below(a, stage) && Block(b, stage)
    ensures Below(a + b, stage + 1)
  {
    hide Stage;
  }

  lemma IndexBelow(index: seq<Gate>)
    requires |index| == 1 && index[0].id == EvidenceIndex
    ensures Below(index, 1)
  {
  }

  /** No two gates have one id. */
  lemma GatesDistinct(p: Policy)
    requires p.Valid()
    ensures DistinctIds(Gates(p))
  {
    hide Block, Below, TargetRows, CandidateRows, JourneyRows, ConnectorRows, LastRows, Row, DistinctIds;
    var index := [Row(EvidenceIndex, "evidence-integrity", MISSING, "index-missing", true)];
    IndexBelow(index);
    TargetsBlock(p);
    CandidateBlock();
    LastBlock();
    ListedBlocks(p);
    Join(index, TargetRows(p), 1);
    Join(index + TargetRows(p), CandidateRows(), 2);
    Join(index + TargetRows(p) + CandidateRows(), JourneyRows(p), 3);
    Join(index + TargetRows(p) + CandidateRows() + JourneyRows(p), ConnectorRows(p), 4);
    Join(index + TargetRows(p) + CandidateRows() + JourneyRows(p) + ConnectorRows(p), LastRows(), 5);
    BelowDistinct(Gates(p), 6);
  }

  lemma BelowDistinct(rows: seq<Gate>, stage: nat)
    requires Below(rows, stage)
    ensures DistinctIds(rows)
  {
  }

  lemma CandidateBlock()
    ensures Block(CandidateRows(), 2)
  {
    hide Row;
  }

  lemma LastBlock()
    ensures Block(LastRows(), 5)
  {
    hide Row;
  }

  lemma ListedBlocks(p: Policy)
    requires p.Valid()
    ensures Block(JourneyRows(p), 3) && Block(ConnectorRows(p), 4)
  {
  }

  lemma TargetIdsDiffer(t: string, k: nat, u: string, l: nat)
    requires k < 4 && l < 4 && (t != u || k != l)
    ensures TargetId(t, k) != TargetId(u, l)
  {
  }

  lemma TargetsBlock(p: Policy)
    requires p.Valid()
    ensures Block(TargetRows(p), 1)
  {
    var rows := TargetRows(p);
    hide TargetRow;
    forall i | 0 <= i < |rows| ensures Stage(rows[i].id) == 1 && rows[i].id == TargetId(p.targets[i / 4], i % 4) {
      assert rows[i] == TargetRow(p.targets[i / 4], i % 4);
    }
    hide TargetRows;
    forall i, j | 0 <= i < j < |rows| ensures rows[i].id != rows[j].id {
      assert i / 4 != j / 4 || i % 4 != j % 4;
      TargetIdsDiffer(p.targets[i / 4], i % 4, p.targets[j / 4], j % 4);
    }
  }

  // Deciding over rows of any origin.

  datatype Profile = ReleaseCandidate | OneZero

  datatype Decision = Decision(go: bool, accepted: bool)

  ghost predicate Keeps(row: Gate, item: Gate) {
    row.id == item.id && row.required && row.target == item.target && row.scope == item.scope
  }

  ghost predicate Bears(row: Gate) {
    (row.required ==> row.status == PASS) && row.status != FAIL
  }

  /** What a GO takes: known gates once each, every required gate there unaltered, and every row in order. */
  ghost predicate Acceptable(p: Policy, rows: seq<Gate>) {
    && DistinctIds(rows)
    && (forall row :: row in rows ==> exists item :: item in Gates(p) && item.id == row.id)
    && (forall item :: item in Gates(p) && item.required ==> exists row :: row in rows && Keeps(row, item))
    && (forall row :: row in rows ==> Bears(row))
  }

  method ReleaseDecision(p: Policy, profile: Profile, rows: seq<Gate>) returns (d: Decision)
    ensures d.go <==> Acceptable(p, rows)
    ensures d.accepted <==> d.go && profile == OneZero
  {
    hide Gates, Keeps, Bears, Acceptable, Indexed, HasGate;
    var inventory := Gates(p);
    var known := IdsOf(inventory);
    KnownIds(inventory);
    var byId: map<GateId, Gate> := map[];
    NothingIndexed(rows);
    for i := 0 to |rows|
      invariant forall k :: 0 <= k < i ==> HasGate(inventory, rows[k].id)
      invariant Indexed(byId, rows[..i])
    {
      if rows[i].id !in known || rows[i].id in byId {
        NotAcceptable(p, byId, rows, i);
        return Decision(false, false);
      }
      IndexedNext(byId, rows, i);
      byId := byId[rows[i].id := rows[i]];
    }
    assert rows[..|rows|] == rows;
    var complete := forall k | 0 <= k < |inventory| ::
      inventory[k].required ==>
        inventory[k].id in byId && byId[inventory[k].id].required && byId[inventory[k].id].target == inventory[k].target
        && byId[inventory[k].id].scope == inventory[k].scope;
    var borne := forall k | 0 <= k < |rows| :: (!rows[k].required || rows[k].status == PASS) && rows[k].status != FAIL;
    forall k | 0 <= k < |inventory| && inventory[k].id in byId
      ensures Keeps(byId[inventory[k].id], inventory[k]) <==>
              byId[inventory[k].id].required && byId[inventory[k].id].target == inventory[k].target
              && byId[inventory[k].id].scope == inventory[k].scope
    {
      IndexedId(byId, rows, inventory[k].id);
      KeepsWhen(byId[inventory[k].id], inventory[k]);
    }
    forall k | 0 <= k < |rows|
      ensures Bears(rows[k]) <==> (!rows[k].required || rows[k].status == PASS) && rows[k].status != FAIL
    {
      BearsWhen(rows[k]);
    }
    IndexedAcceptable(p, byId, rows);
    return Decision(complete && borne, profile == OneZero && complete && borne);
  }

  lemma IndexedId(byId: map<GateId, Gate>, rows: seq<Gate>, id: GateId)
    requires Indexed(byId, rows) && id in byId
    ensures byId[id].id == id
  {
  }

  lemma KeepsWhen(row: Gate, item: Gate)
    ensures Keeps(row, item) <==> row.id == item.id && row.required && row.target == item.target && row.scope == item.scope
  {
  }

  lemma BearsWhen(row: Gate)
    ensures Bears(row) <==> (!row.required || row.status == PASS) && row.status != FAIL
  {
  }

  function IdsOf(rows: seq<Gate>): set<GateId> {
    set k | 0 <= k < |rows| :: rows[k].id
  }

  lemma KnownIds(rows: seq<Gate>)
    ensures forall id :: id in IdsOf(rows) <==> HasGate(rows, id)
  {
  }

  lemma NothingIndexed(rows: seq<Gate>)
    ensures Indexed(map[], rows[..0])
  {
  }

  ghost predicate Indexed(byId: map<GateId, Gate>, rows: seq<Gate>) {
    && DistinctIds(rows)
    && (forall k :: 0 <= k < |rows| ==> rows[k].id in byId && byId[rows[k].id] == rows[k])
    && (forall id :: id in byId ==> byId[id] in rows && byId[id].id == id)
  }

  lemma IndexedNext(byId: map<GateId, Gate>, rows: seq<Gate>, i: nat)
    requires i < |rows| && Indexed(byId, rows[..i]) && rows[i].id !in byId
    ensures Indexed(byId[rows[i].id := rows[i]], rows[..i + 1])
  {
    var next, all := byId[rows[i].id := rows[i]], rows[..i + 1];
    assert all == rows[..i] + [rows[i]];
    forall k | 0 <= k < i ensures all[k].id in byId && byId[all[k].id] == all[k] && all[k].id != rows[i].id {
      assert rows[..i][k] == all[k];
    }
    forall j, k | 0 <= j < k < |all| ensures all[j].id != all[k].id {
      assert k < i ==> rows[..i][j] == all[j] && rows[..i][k] == all[k];
    }
  }

  lemma NotAcceptable(p: Policy, byId: map<GateId, Gate>, rows: seq<Gate>, i: nat)
    requires i < |rows| && Indexed(byId, rows[..i])
    requires rows[i].id in byId || !HasGate(Gates(p), rows[i].id)
    ensures !Acceptable(p, rows)
  {
    hide Gates;
    if rows[i].id in byId {
      var j :| 0 <= j < i && rows[..i][j] == byId[rows[i].id];
      assert rows[j].id == rows[i].id;
    } else {
      assert rows[i] in rows;
      forall item | item in Gates(p) ensures item.id != rows[i].id {
        var k :| 0 <= k < |Gates(p)| && Gates(p)[k] == item;
      }
    }
  }

  lemma IndexedAcceptable(p: Policy, byId: map<GateId, Gate>, rows: seq<Gate>)
    requires Indexed(byId, rows)
    requires forall k :: 0 <= k < |rows| ==> HasGate(Gates(p), rows[k].id)
    ensures Acceptable(p, rows) <==>
            && (forall k :: 0 <= k < |Gates(p)| && Gates(p)[k].required ==> Gates(p)[k].id in byId && Keeps(byId[Gates(p)[k].id], Gates(p)[k]))
            && (forall k :: 0 <= k < |rows| ==> Bears(rows[k]))
  {
    hide Gates, Bears;
    var inventory := Gates(p);
    forall item | item in inventory
      ensures (exists row :: row in rows && Keeps(row, item)) <==> item.id in byId && Keeps(byId[item.id], item)
    {
      if item.id in byId && Keeps(byId[item.id], item) {
        assert byId[item.id] in rows;
      }
    }
    forall row | row in rows ensures exists item :: item in inventory && item.id == row.id {
      var k :| 0 <= k < |rows| && rows[k] == row;
      var j :| 0 <= j < |inventory| && inventory[j].id == row.id;
      assert inventory[j] in inventory;
    }
    assert forall k :: 0 <= k < |inventory| ==> inventory[k] in inventory;
    assert forall k :: 0 <= k < |rows| ==> rows[k] in rows;
  }

  /** The order of the rows never matters. */
  lemma DecisionPermutation(p: Policy, a: seq<Gate>, b: seq<Gate>)
    requires multiset(a) == multiset(b)
    ensures Acceptable(p, a) <==> Acceptable(p, b)
  {
    hide Gates, Keeps, Bears;
    Sorting.SameElements(a, b);
    if Acceptable(p, a) {
      IdsPermutation(a, b);
    }
    if Acceptable(p, b) {
      IdsPermutation(b, a);
    }
  }

  lemma IdsPermutation(a: seq<Gate>, b: seq<Gate>)
    requires multiset(a) == multiset(b) && DistinctIds(a)
    ensures DistinctIds(b)
  {
    Sorting.DistinctPermutation(a, b);
    Sorting.SameElements(a, b);
    forall i, j | 0 <= i < j < |b| ensures b[i].id != b[j].id {
      assert b[i] in b && b[j] in b;
      var x :| 0 <= x < |a| && a[x] == b[i];
      var y :| 0 <= y < |a| && a[y] == b[j];
      assert x < y || y < x;
    }
  }

  /** A GO means that every required gate of the policy has passed. */
  lemma GoMeansEveryGate(p: Policy, rows: seq<Gate>)
    requires Acceptable(p, rows)
    ensures forall item :: item in Gates(p) && item.required ==> exists row :: row in rows && row.id == item.id && row.status == PASS
  {
    hide Gates;
    forall item | item in Gates(p) && item.required ensures exists row :: row in rows && row.id == item.id && row.status == PASS {
      var row :| row in rows && Keeps(row, item);
      assert Bears(row);
    }
  }

  // Gate receipts.

  datatype Producer =
    | NativeAttestation | NativeLifecycle | RequiredChecksRun | Reviewer | P0Finder | SurfaceInventory | JourneyProof
    | ConnectorEvidence | UnfamiliarUserRun | OwnerObservation | EstateObservation | CutoverAuthority | Unregistered(text: string)

  datatype Receipt = Receipt(producer: Producer, gate: GateId, target: Option<string>, path: string, sha256: Digest)

  predicate Allows(p: Policy, r: Receipt) {
    match r.producer
    case NativeAttestation => r.target.Some? && r.target.value in p.targets && r.gate == Native(r.target.value)
    case NativeLifecycle => r.target.Some? && r.target.value in p.targets && r.gate == Lifecycle(r.target.value)
    case RequiredChecksRun => r.target.None? && r.gate == RequiredChecks
    case Reviewer => r.target.None? && r.gate == IndependentReview
    case P0Finder => r.target.None? && r.gate == P0Disposition
    case SurfaceInventory => r.target.None? && r.gate == Surface
    case JourneyProof => r.target.None? && r.gate.Journey? && r.gate.name in p.journeys
    case ConnectorEvidence => r.target.None? && r.gate.Connected? && exists k :: 0 <= k < |p.connectors| && p.connectors[k].id == r.gate.name
    case UnfamiliarUserRun => r.target.None? && r.gate == UnfamiliarUser
    case OwnerObservation => r.target.None? && r.gate == OwnerRails
    case EstateObservation => r.target.None? && r.gate == EstateParity
    case CutoverAuthority => r.target.None? && r.gate == FinalCutover
    case Unregistered(_) => false
  }

  datatype MappingFault = DuplicateGate | UnknownProducer | MismatchedGate

  ghost predicate DistinctGates(rs: seq<Receipt>) {
    forall i, j :: 0 <= i < j < |rs| ==> rs[i].gate != rs[j].gate
  }

  ghost function RowFault(p: Policy, r: Receipt): Option<MappingFault> {
    if r.producer.Unregistered? then Some(UnknownProducer) else if !Allows(p, r) then Some(MismatchedGate) else None
  }

  ghost function FirstFault(p: Policy, rs: seq<Receipt>): Option<MappingFault> {
    if rs == [] then None
    else if RowFault(p, rs[0]).Some? then RowFault(p, rs[0])
    else FirstFault(p, rs[1..])
  }

  ghost function GateReceiptMappingError(p: Policy, rs: seq<Receipt>): Option<MappingFault> {
    if !DistinctGates(rs) then Some(DuplicateGate) else FirstFault(p, rs)
  }

  /** The loop over the rows, once repeated gates are ruled out. */
  method MapReceipts(p: Policy, rs: seq<Receipt>) returns (fault: Option<MappingFault>)
    ensures fault == GateReceiptMappingError(p, rs)
  {
    hide Allows, FirstFault, GateReceiptMappingError;
    NoFaultBefore(p, rs);
    if exists i, j :: 0 <= i < j < |rs| && rs[i].gate == rs[j].gate {
      return Some(DuplicateGate);
    }
    for k := 0 to |rs|
      invariant FirstFault(p, rs[k..]) == FirstFault(p, rs)
    {
      FirstFaultFrom(p, rs, k);
      if rs[k].producer.Unregistered? {
        return Some(UnknownProducer);
      }
      if !Allows(p, rs[k]) {
        return Some(MismatchedGate);
      }
    }
    return None;
  }

  lemma NoFaultBefore(p: Policy, rs: seq<Receipt>)
    ensures FirstFault(p, rs[0..]) == FirstFault(p, rs) && FirstFault(p, rs[|rs|..]) == None
    ensures GateReceiptMappingError(p, rs)
            == if exists i, j :: 0 <= i < j < |rs| && rs[i].gate == rs[j].gate then Some(DuplicateGate) else FirstFault(p, rs)
  {
    hide FirstFault;
    assert rs[0..] == rs && rs[|rs|..] == [];
    assert FirstFault(p, []) == None by {
      FirstFaultIs(p, []);
    }
  }

  lemma FirstFaultFrom(p: Policy, rs: seq<Receipt>, k: nat)
    requires k < |rs|
    ensures FirstFault(p, rs[k..])
            == if rs[k].producer.Unregistered? then Some(UnknownProducer)
               else if !Allows(p, rs[k]) then Some(MismatchedGate)
               else FirstFault(p, rs[k + 1..])
  {
    hide Allows;
    assert rs[k..][0] == rs[k] && rs[k..][1..] == rs[k + 1..];
  }

  lemma {:induction false} FirstFaultIs(p: Policy, rs: seq<Receipt>)
    ensures FirstFault(p, rs).None? <==> forall r :: r in rs ==> RowFault(p, r).None?
    ensures FirstFault(p, rs).Some? ==> exists r :: r in rs && RowFault(p, r) == FirstFault(p, rs)
  {
    hide RowFault;
    if rs != [] {
      FirstFaultIs(p, rs[1..]);
      assert rs == [rs[0]] + rs[1..];
    }
  }

  lemma ReceiptsDistinctPermutation(a: seq<Receipt>, b: seq<Receipt>)
    requires multiset(a) == multiset(b) && DistinctGates(a)
    ensures DistinctGates(b)
  {
    Sorting.DistinctPermutation(a, b);
    Sorting.SameElements(a, b);
    forall i, j | 0 <= i < j < |b| ensures b[i].gate != b[j].gate {
      assert b[i] in b && b[j] in b;
      var x :| 0 <= x < |a| && a[x] == b[i];
      var y :| 0 <= y < |a| && a[y] == b[j];
      assert x < y || y < x;
    }
  }

  /** Whether a set of receipts maps to gates at all is a matter of the set, not of its order. */
  lemma MappingPermutation(p: Policy, a: seq<Receipt>, b: seq<Receipt>)
    requires multiset(a) == multiset(b)
    ensures GateReceiptMappingError(p, a).None? <==> GateReceiptMappingError(p, b).None?
    ensures GateReceiptMappingError(p, a) == Some(DuplicateGate) <==> GateReceiptMappingError(p, b) == Some(DuplicateGate)
  {
    hide RowFault;
    Sorting.SameElements(a, b);
    FirstFaultIs(p, a);
    FirstFaultIs(p, b);
    if DistinctGates(a) {
      ReceiptsDistinctPermutation(a, b);
    }
    if DistinctGates(b) {
      ReceiptsDistinctPermutation(b, a);
    }
    NoDuplicateFault(p, a);
    NoDuplicateFault(p, b);
  }

  lemma NoDuplicateFault(p: Policy, rs: seq<Receipt>)
    ensures FirstFault(p, rs) != Some(DuplicateGate)
  {
    FirstFaultIs(p, rs);
  }

  ghost predicate Mixed(p: Policy, rs: seq<Receipt>) {
    && DistinctGates(rs)
    && (exists r :: r in rs && RowFault(p, r) == Some(UnknownProducer))
    && (exists r :: r in rs && RowFault(p, r) == Some(MismatchedGate))
  }

  /** The reason given for refusing is another matter: it depends on the order exactly when the rows have faults of both kinds. */
  lemma ReasonDependsOnOrder(p: Policy, rs: seq<Receipt>)
    ensures (forall b: seq<Receipt> :: multiset(b) == multiset(rs) ==> GateReceiptMappingError(p, b) == GateReceiptMappingError(p, rs))
       <==> !Mixed(p, rs)
  {
    hide RowFault;
    if Mixed(p, rs) {
      var u :| u in rs && RowFault(p, u) == Some(UnknownProducer);
      var m :| m in rs && RowFault(p, m) == Some(MismatchedGate);
      BroughtForward(p, rs, u);
      BroughtForward(p, rs, m);
    } else {
      forall b: seq<Receipt> | multiset(b) == multiset(rs) ensures GateReceiptMappingError(p, b) == GateReceiptMappingError(p, rs) {
        OneReason(p, rs, b);
      }
    }
  }

  lemma OneReason(p: Policy, a: seq<Receipt>, b: seq<Receipt>)
    requires multiset(a) == multiset(b) && !Mixed(p, a)
    ensures GateReceiptMappingError(p, b) == GateReceiptMappingError(p, a)
  {
    MappingPermutation(p, a, b);
    Sorting.SameElements(a, b);
    FirstFaultIs(p, a);
    FirstFaultIs(p, b);
    assert forall r :: RowFault(p, r) != Some(DuplicateGate);
    hide RowFault, FirstFault;
  }

  lemma MovedToFront(rs: seq<Receipt>, k: nat)
    requires k < |rs|
    ensures multiset([rs[k]] + (rs[..k] + rs[k + 1..])) == multiset(rs)
  {
    assert rs == rs[..k] + [rs[k]] + rs[k + 1..];
  }

  lemma BroughtForward(p: Policy, rs: seq<Receipt>, r: Receipt)
    requires DistinctGates(rs) && r in rs && RowFault(p, r).Some?
    ensures exists b: seq<Receipt> :: multiset(b) == multiset(rs) && GateReceiptMappingError(p, b) == RowFault(p, r)
  {
    hide RowFault;
    var k :| 0 <= k < |rs| && rs[k] == r;
    var b := [r] + (rs[..k] + rs[k + 1..]);
    MovedToFront(rs, k);
    ReceiptsDistinctPermutation(rs, b);
    assert GateReceiptMappingError(p, b) == RowFault(p, r) by {
      assert b[0] == r;
    }
  }

  const DIGEST_EXAMPLE: Digest := "e3b0c44298fc1c149afbf4c8996fb92427ae41e4649b934ca495991b7852b855"
  const UNREGISTERED := Receipt(Unregistered("kizuki.other/v1"), Surface, None, "/evidence/surface.json", DIGEST_EXAMPLE)
  const MISMATCHED := Receipt(Reviewer, P0Disposition, None, "/evidence/review.json", DIGEST_EXAMPLE)

  /** Two receipts that are refused for two reasons, as they are listed one way or the other. */
  lemma ReasonsDiffer(p: Policy)
    ensures Mixed(p, [UNREGISTERED, MISMATCHED])
    ensures GateReceiptMappingError(p, [UNREGISTERED, MISMATCHED]) == Some(UnknownProducer)
    ensures GateReceiptMappingError(p, [MISMATCHED, UNREGISTERED]) == Some(MismatchedGate)
  {
    var rs := [UNREGISTERED, MISMATCHED];
    assert rs[0] in rs && rs[1] in rs;
    assert RowFault(p, UNREGISTERED) == Some(UnknownProducer) && RowFault(p, MISMATCHED) == Some(MismatchedGate);
  }

  // Consuming receipts.

  datatype Evaluation = Evaluation(status: Status, reason: Reason, credit: bool)

  datatype Proved = Proved(proof: Digest, package: Digest, engine: Status, engineReason: Reason)

  datatype ArtifactRef = ArtifactRef(target: string, directory: string, proof: string, sha256: Digest)

  /** Older index schemas carry no receipts at all. */
  datatype Index = Index(artifacts: seq<ArtifactRef>, fixture: Option<string>, receipts: Option<seq<Receipt>>)

  /**
   What the evaluator finds outside: what each verification returns or fails with. Reading a receipt's file and checking its
   digest is part of consuming it.
   */
  datatype World = World(
    verify: ArtifactRef -> Result<Proved, Reason>,
    fixture: string -> Result<Digest, Reason>,
    surfaceActive: bool,
    consume: Receipt -> Result<Evaluation, Reason>,
    consumeNative: (Receipt, Option<Digest>) -> Result<Evaluation, Reason>)

  /** The index with the digest of its file, or why there is none. */
  type IndexRead = Result<(Index, Digest), Reason>

  ghost function Failed(g: Gate, reason: Reason): Gate {
    g.(status := FAIL, reason := reason)
  }

  ghost function Credited(g: Gate, r: Receipt, e: Result<Evaluation, Reason>): Gate {
    match e
    case Ok(v) => g.(status := v.status, reason := v.reason, evidence := if v.credit then Some(r.sha256) else None)
    case Err(reason) => Failed(g, reason)
  }

  /** The package of the first artifact for `target` that verified. */
  ghost function PackageOf(w: World, artifacts: seq<ArtifactRef>, target: string): Option<Digest> {
    if artifacts == [] then None
    else if artifacts[0].target == target && w.verify(artifacts[0]).Ok? then Some(w.verify(artifacts[0]).value.package)
    else PackageOf(w, artifacts[1..], target)
  }

  datatype Phase = SurfacePhase | FamilyPhase | NativePhase

  ghost predicate InPhase(w: World, phase: Phase, r: Receipt) {
    match phase
    case SurfacePhase => r.producer == SurfaceInventory && r.gate == Surface && w.surfaceActive
    case FamilyPhase => r.producer in {RequiredChecksRun, P0Finder, JourneyProof, ConnectorEvidence}
    case NativePhase => r.producer == NativeAttestation && r.target.Some?
  }

  ghost function Outcome(w: World, artifacts: seq<ArtifactRef>, phase: Phase, r: Receipt): Result<Evaluation, Reason> {
    if phase == NativePhase && r.target.Some? then w.consumeNative(r, PackageOf(w, artifacts, r.target.value)) else w.consume(r)
  }

  ghost function Step(w: World, artifacts: seq<ArtifactRef>, phase: Phase, r: Receipt, g: Gate): (h: Gate)
    ensures h.id == g.id && h.scope == g.scope && h.required == g.required && h.target == g.target
  {
    if InPhase(w, phase, r) && r.gate == g.id then Credited(g, r, Outcome(w, artifacts, phase, r)) else g
  }

  ghost function AfterReceipts(w: World, artifacts: seq<ArtifactRef>, phase: Phase, rs: seq<Receipt>, g: Gate): (h: Gate)
    ensures h.id == g.id && h.scope == g.scope && h.required == g.required && h.target == g.target
  {
    if rs == [] then g
    else Step(w, artifacts, phase, rs[|rs| - 1], AfterReceipts(w, artifacts, phase, rs[..|rs| - 1], g))
  }

  function Find(rows: seq<Gate>, id: GateId): (k: nat)
    requires exists i :: 0 <= i < |rows| && rows[i].id == id
    ensures k < |rows| && rows[k].id == id
  {
    if rows[0].id == id then 0
    else
      assert exists i :: 0 <= i < |rows[1..]| && rows[1..][i].id == id by {
        var i :| 0 <= i < |rows| && rows[i].id == id;
        assert rows[1..][i - 1].id == id;
      }
      1 + Find(rows[1..], id)
  }

  ghost predicate HasGate(rows: seq<Gate>, id: GateId) {
    exists i :: 0 <= i < |rows| && rows[i].id == id
  }

  /** One pass over the receipts: each updates the row that it names. */
  method ConsumeReceipts(w: World, artifacts: seq<ArtifactRef>, phase: Phase, rs: seq<Receipt>, start: seq<Gate>) returns (rows: seq<Gate>)
    requires DistinctIds(start) && forall k :: 0 <= k < |rs| ==> HasGate(start, rs[k].gate)
    ensures |rows| == |start| && forall k :: 0 <= k < |rows| ==> rows[k] == AfterReceipts(w, artifacts, phase, rs, start[k])
  {
    hide Outcome, InPhase, Credited, Step;
    rows := start;
    for i := 0 to |rs|
      invariant |rows| == |start|
      invariant forall k :: 0 <= k < |rows| ==> rows[k] == AfterReceipts(w, artifacts, phase, rs[..i], start[k])
    {
      var r := rs[i];
      assert rs[..i + 1][..i] == rs[..i];
      assert HasGate(rows, r.gate) by {
        var k :| 0 <= k < |start| && start[k].id == r.gate;
        assert rows[k].id == r.gate;
      }
      var k := Find(rows, r.gate);
      assert forall j :: 0 <= j < |rows| && j != k ==> start[j].id != start[k].id;
      forall j | 0 <= j < |rows| && j != k ensures Step(w, artifacts, phase, r, rows[j]) == rows[j] {
        StepElsewhere(w, artifacts, phase, r, rows[j]);
      }
      var row := ConsumeReceipt(w, artifacts, phase, r, rows[k]);
      rows := rows[k := row];
    }
    assert rs[..|rs|] == rs;
  }

  lemma StepElsewhere(w: World, artifacts: seq<ArtifactRef>, phase: Phase, r: Receipt, g: Gate)
    requires r.gate != g.id
    ensures Step(w, artifacts, phase, r, g) == g
  {
  }

  /** One receipt and the row that it names. */
  method ConsumeReceipt(w: World, artifacts: seq<ArtifactRef>, phase: Phase, r: Receipt, row: Gate) returns (row': Gate)
    requires row.id == r.gate
    ensures row' == Step(w, artifacts, phase, r, row)
  {
    row' := row;
    var evaluated: Result<Evaluation, Reason>;
    match phase {
      case SurfacePhase =>
        if r.producer != SurfaceInventory || r.gate != Surface || !w.surfaceActive {
          return;
        }
        evaluated := w.consume(r);
      case FamilyPhase =>
        if r.producer != RequiredChecksRun && r.producer != P0Finder && r.producer != JourneyProof && r.producer != ConnectorEvidence {
          return;
        }
        evaluated := w.consume(r);
      case NativePhase =>
        if r.producer != NativeAttestation || r.target.None? {
          return;
        }
        var package := FindPackage(w, artifacts, r.target.value);
        evaluated := w.consumeNative(r, package);
    }
    match evaluated {
      case Ok(v) => row' := row.(status := v.status, reason := v.reason, evidence := if v.credit then Some(r.sha256) else None);
      case Err(reason) => row' := row.(status := FAIL, reason := reason);
    }
  }

  /** evidence.find: the first artifact for the target that verified. */
  method FindPackage(w: World, artifacts: seq<ArtifactRef>, target: string) returns (package: Option<Digest>)
    ensures package == PackageOf(w, artifacts, target)
  {
    assert artifacts[0..] == artifacts;
    for k := 0 to |artifacts|
      invariant PackageOf(w, artifacts[k..], target) == PackageOf(w, artifacts, target)
    {
      assert artifacts[k..][0] == artifacts[k] && artifacts[k..][1..] == artifacts[k + 1..];
      if artifacts[k].target == target && w.verify(artifacts[k]).Ok? {
        return Some(w.verify(artifacts[k]).value.package);
      }
    }
    assert artifacts[|artifacts|..] == [];
    return None;
  }

  ghost function ArtifactStep(w: World, a: ArtifactRef, g: Gate): (h: Gate)
    ensures h.id == g.id && h.scope == g.scope && h.required == g.required && h.target == g.target
  {
    match w.verify(a)
    case Ok(v) =>
      if g.id == Artifact(a.target) then
        g.(status := PASS, reason := "package-and-recorded-fixture-steps-consistent", evidence := Some(v.proof))
      else if g.id == Engine(a.target) then g.(status := v.engine, reason := v.engineReason, evidence := Some(v.proof))
      else g
    case Err(reason) => if g.id == Artifact(a.target) || g.id == Engine(a.target) then Failed(g, reason) else g
  }

  ghost function AfterArtifacts(w: World, artifacts: seq<ArtifactRef>, g: Gate): (h: Gate)
    ensures h.id == g.id && h.scope == g.scope && h.required == g.required && h.target == g.target
  {
    if artifacts == [] then g
    else ArtifactStep(w, artifacts[|artifacts| - 1], AfterArtifacts(w, artifacts[..|artifacts| - 1], g))
  }

  method VerifyArtifacts(w: World, artifacts: seq<ArtifactRef>, start: seq<Gate>) returns (rows: seq<Gate>)
    requires DistinctIds(start)
    requires forall k :: 0 <= k < |artifacts| ==> HasGate(start, Artifact(artifacts[k].target)) && HasGate(start, Engine(artifacts[k].target))
    ensures |rows| == |start| && forall k :: 0 <= k < |rows| ==> rows[k] == AfterArtifacts(w, artifacts, start[k])
  {
    hide ArtifactStep, DistinctIds, HasGate, AfterArtifacts;
    rows := start;
    NoArtifacts(w, start);
    for i := 0 to |artifacts|
      invariant |rows| == |start|
      invariant forall k :: 0 <= k < |rows| ==> rows[k] == AfterArtifacts(w, artifacts[..i], start[k])
    {
      var a := artifacts[i];
      SameIds(start, rows);
      OneMoreArtifact(w, artifacts, i, start);
      rows := RecordTarget(w, a, rows);
    }
    assert artifacts[..|artifacts|] == artifacts;
  }

  /** The two rows of one artifact's target. */
  method RecordTarget(w: World, a: ArtifactRef, start: seq<Gate>) returns (rows: seq<Gate>)
    requires DistinctIds(start) && HasGate(start, Artifact(a.target)) && HasGate(start, Engine(a.target))
    ensures |rows| == |start| && forall k :: 0 <= k < |rows| ==> rows[k] == ArtifactStep(w, a, start[k])
  {
    hide ArtifactStep, DistinctIds, HasGate;
    GateThere(start, Artifact(a.target));
    GateThere(start, Engine(a.target));
    var gate, engine := Find(start, Artifact(a.target)), Find(start, Engine(a.target));
    BothUpdated(w, a, start, gate, engine);
    var gate', engine' := RecordArtifact(w, a, start[gate], start[engine]);
    rows := start[gate := gate'][engine := engine'];
  }

  method RecordArtifact(w: World, a: ArtifactRef, gate: Gate, engine: Gate) returns (gate': Gate, engine': Gate)
    requires gate.id == Artifact(a.target) && engine.id == Engine(a.target)
    ensures gate' == ArtifactStep(w, a, gate) && engine' == ArtifactStep(w, a, engine)
  {
    hide ArtifactStep, Failed;
    ArtifactGateStep(w, a, gate);
    EngineGateStep(w, a, engine);
    match w.verify(a) {
      case Ok(v) =>
        gate' := gate.(evidence := Some(v.proof), status := PASS, reason := "package-and-recorded-fixture-steps-consistent");
        engine' := engine.(status := v.engine, reason := v.engineReason, evidence := Some(v.proof));
      case Err(reason) =>
        gate', engine' := gate.(status := FAIL, reason := reason), engine.(status := FAIL, reason := reason);
    }
  }

  lemma ArtifactGateStep(w: World, a: ArtifactRef, g: Gate)
    requires g.id == Artifact(a.target)
    ensures w.verify(a).Ok? ==>
              ArtifactStep(w, a, g)
              == g.(status := PASS, reason := "package-and-recorded-fixture-steps-consistent", evidence := Some(w.verify(a).value.proof))
    ensures w.verify(a).Err? ==> ArtifactStep(w, a, g) == g.(status := FAIL, reason := w.verify(a).error)
  {
  }

  lemma EngineGateStep(w: World, a: ArtifactRef, g: Gate)
    requires g.id == Engine(a.target)
    ensures w.verify(a).Ok? ==>
              ArtifactStep(w, a, g)
              == g.(status := w.verify(a).value.engine, reason := w.verify(a).value.engineReason, evidence := Some(w.verify(a).value.proof))
    ensures w.verify(a).Err? ==> ArtifactStep(w, a, g) == g.(status := FAIL, reason := w.verify(a).error)
  {
  }

  lemma NoArtifacts(w: World, start: seq<Gate>)
    ensures forall k :: 0 <= k < |start| ==> AfterArtifacts(w, [], start[k]) == start[k]
  {
  }

  lemma OneMoreArtifact(w: World, artifacts: seq<ArtifactRef>, i: nat, start: seq<Gate>)
    requires i < |artifacts|
    ensures forall k :: 0 <= k < |start| ==>
              AfterArtifacts(w, artifacts[..i + 1], start[k]) == ArtifactStep(w, artifacts[i], AfterArtifacts(w, artifacts[..i], start[k]))
  {
    hide ArtifactStep;
    assert artifacts[..i + 1][..i] == artifacts[..i];
  }

  lemma GateThere(rows: seq<Gate>, id: GateId)
    requires HasGate(rows, id)
    ensures exists i :: 0 <= i < |rows| && rows[i].id == id
  {
  }

  /** An artifact's step changes nothing but its own two rows, so updating those is updating all. */
  lemma BothUpdated(w: World, a: ArtifactRef, rows: seq<Gate>, gate: nat, engine: nat)
    requires DistinctIds(rows) && gate < |rows| && engine < |rows|
    requires rows[gate].id == Artifact(a.target) && rows[engine].id == Engine(a.target)
    ensures var updated := rows[gate := ArtifactStep(w, a, rows[gate])][engine := ArtifactStep(w, a, rows[engine])];
      |updated| == |rows| && forall k :: 0 <= k < |rows| ==> updated[k] == ArtifactStep(w, a, rows[k])
  {
    forall k | 0 <= k < |rows| && k != gate && k != engine ensures ArtifactStep(w, a, rows[k]) == rows[k] {
      assert rows[k].id != rows[gate].id && rows[k].id != rows[engine].id;
    }
  }

  lemma SameIds(a: seq<Gate>, b: seq<Gate>)
    requires |a| == |b| && forall k :: 0 <= k < |a| ==> a[k].id == b[k].id
    ensures DistinctIds(a) <==> DistinctIds(b)
    ensures forall id :: HasGate(a, id) <==> HasGate(b, id)
  {
    forall id ensures HasGate(a, id) <==> HasGate(b, id) {
      if i :| 0 <= i < |a| && a[i].id == id {
        assert b[i].id == id;
      }
      if i :| 0 <= i < |b| && b[i].id == id {
        assert a[i].id == id;
      }
    }
  }

  ghost function FaultReason(fault: MappingFault): Reason {
    match fault
    case DuplicateGate => "duplicate-gate"
    case UnknownProducer => "unknown-producer"
    case MismatchedGate => "mismatched-gate-or-target"
  }

  ghost function Mapping(p: Policy, index: Index): Option<MappingFault> {
    if index.receipts.Some? then GateReceiptMappingError(p, index.receipts.value) else None
  }

  ghost function IndexStep(p: Policy, read: IndexRead, g: Gate): (h: Gate)
    ensures h.id == g.id && h.scope == g.scope && h.required == g.required && h.target == g.target
  {
    if g.id != EvidenceIndex then g
    else
      match read
      case Err(reason) => Failed(g, reason)
      case Ok((index, digest)) =>
        if Mapping(p, index).Some? then Failed(g, FaultReason(Mapping(p, index).value))
        else g.(status := PASS, reason := "closed-index-validated", evidence := Some(digest))
  }

  ghost function FixtureStep(w: World, index: Index, g: Gate): (h: Gate)
    ensures h.id == g.id && h.scope == g.scope && h.required == g.required && h.target == g.target
  {
    if g.id != FixtureObservation || index.fixture.None? then g
    else
      match w.fixture(index.fixture.value)
      case Ok(digest) => g.(status := PASS, reason := "fixture-observation-validated-no-release-credit", evidence := Some(digest))
      case Err(reason) => Failed(g, reason)
  }

  ghost function BeforeReceipts(p: Policy, read: IndexRead, w: World, g: Gate): (h: Gate)
    ensures h.id == g.id && h.scope == g.scope && h.required == g.required && h.target == g.target
  {
    if read.Err? then IndexStep(p, read, g)
    else FixtureStep(w, read.value.0, AfterArtifacts(w, read.value.0.artifacts, IndexStep(p, read, g)))
  }

  ghost function ThreePasses(w: World, index: Index, rs: seq<Receipt>, g: Gate): (h: Gate)
    ensures h.id == g.id && h.scope == g.scope && h.required == g.required && h.target == g.target
  {
    AfterReceipts(w, index.artifacts, NativePhase, rs,
                  AfterReceipts(w, index.artifacts, FamilyPhase, rs, AfterReceipts(w, index.artifacts, SurfacePhase, rs, g)))
  }

  ghost function Final(p: Policy, read: IndexRead, w: World, g: Gate): (h: Gate)
    ensures h.id == g.id && h.scope == g.scope && h.required == g.required && h.target == g.target
  {
    var h := BeforeReceipts(p, read, w, g);
    if read.Err? || read.value.0.receipts.None? || Mapping(p, read.value.0).Some? then h
    else ThreePasses(w, read.value.0, read.value.0.receipts.value, h)
  }

  /** An index that parsed names only targets of the policy. */
  ghost predicate Parsed(p: Policy, read: IndexRead) {
    read.Ok? ==> forall k :: 0 <= k < |read.value.0.artifacts| ==> read.value.0.artifacts[k].target in p.targets
  }

  datatype Report = Report(profile: Profile, decision: Decision, gates: seq<Gate>)

  method ConsumeAll(w: World, index: Index, rs: seq<Receipt>, start: seq<Gate>) returns (rows: seq<Gate>)
    requires DistinctIds(start) && forall k :: 0 <= k < |rs| ==> HasGate(start, rs[k].gate)
    ensures |rows| == |start| && forall k :: 0 <= k < |rows| ==> rows[k] == ThreePasses(w, index, rs, start[k])
  {
    hide AfterReceipts, HasGate, DistinctIds;
    rows := ConsumeReceipts(w, index.artifacts, SurfacePhase, rs, start);
    SameIds(start, rows);
    rows := ConsumeReceipts(w, index.artifacts, FamilyPhase, rs, rows);
    SameIds(start, rows);
    rows := ConsumeReceipts(w, index.artifacts, NativePhase, rs, rows);
  }

  lemma UpdatedAt(rows: seq<Gate>, id: GateId)
    requires DistinctIds(rows) && HasGate(rows, id)
    ensures exists i :: 0 <= i < |rows| && rows[i].id == id
    ensures var k := Find(rows, id); forall j :: 0 <= j < |rows| && j != k ==> rows[j].id != id
  {
  }

  /** Everything but the receipts: the index row, the artifacts and the fixture diagnostic. */
  method EvaluateArtifacts(p: Policy, read: IndexRead, w: World) returns (rows: seq<Gate>, mapped: bool)
    requires p.Valid() && Parsed(p, read)
    ensures mapped <==> read.Ok? && Mapping(p, read.value.0).None?
    ensures |rows| == |Gates(p)| && forall k :: 0 <= k < |rows| ==> rows[k] == BeforeReceipts(p, read, w, Gates(p)[k])
  {
    hide Gates, AfterArtifacts, GateReceiptMappingError, HasGate, DistinctIds, IndexStep, FixtureStep;
    var start := Gates(p);
    GatesDistinct(p);
    GatesThere(p);
    UpdatedAt(start, EvidenceIndex);
    IndexStepElsewhere(p, read, start);
    var at := Find(start, EvidenceIndex);
    var indexRow;
    indexRow, mapped := RecordIndex(p, read, start[at]);
    rows := start[at := indexRow];
    assert forall k :: 0 <= k < |rows| ==> rows[k] == IndexStep(p, read, start[k]);
    SameIds(start, rows);
    if read.Ok? {
      var index := read.value.0;
      rows := VerifyArtifacts(w, index.artifacts, rows);
      SameIds(start, rows);
      FixtureStepElsewhere(w, index, rows);
      if index.fixture.Some? {
        UpdatedAt(rows, FixtureObservation);
        var diagnostic := Find(rows, FixtureObservation);
        var fixtureRow := RecordFixture(w, index, rows[diagnostic]);
        rows := rows[diagnostic := fixtureRow];
      }
    }
  }

  method RecordIndex(p: Policy, read: IndexRead, row: Gate) returns (row': Gate, mapped: bool)
    requires row.id == EvidenceIndex
    ensures row' == IndexStep(p, read, row)
    ensures mapped <==> read.Ok? && Mapping(p, read.value.0).None?
  {
    match read {
      case Err(reason) =>
        return row.(status := FAIL, reason := reason), false;
      case Ok((index, digest)) =>
        var fault: Option<MappingFault> := None;
        if index.receipts.Some? {
          fault := MapReceipts(p, index.receipts.value);
        }
        match fault {
          case Some(DuplicateGate) => return row.(status := FAIL, reason := "duplicate-gate"), false;
          case Some(UnknownProducer) => return row.(status := FAIL, reason := "unknown-producer"), false;
          case Some(MismatchedGate) => return row.(status := FAIL, reason := "mismatched-gate-or-target"), false;
          case None => return row.(status := PASS, reason := "closed-index-validated", evidence := Some(digest)), true;
        }
    }
  }

  method RecordFixture(w: World, index: Index, row: Gate) returns (row': Gate)
    requires row.id == FixtureObservation && index.fixture.Some?
    ensures row' == FixtureStep(w, index, row)
  {
    match w.fixture(index.fixture.value) {
      case Ok(digest) =>
        row' := row.(evidence := Some(digest), status := PASS, reason := "fixture-observation-validated-no-release-credit");
      case Err(reason) =>
        row' := row.(status := FAIL, reason := reason);
    }
  }

  lemma IndexStepElsewhere(p: Policy, read: IndexRead, rows: seq<Gate>)
    ensures forall k :: 0 <= k < |rows| && rows[k].id != EvidenceIndex ==> IndexStep(p, read, rows[k]) == rows[k]
  {
  }

  lemma FixtureStepElsewhere(w: World, index: Index, rows: seq<Gate>)
    ensures forall k :: 0 <= k < |rows| && (rows[k].id != FixtureObservation || index.fixture.None?) ==>
              FixtureStep(w, index, rows[k]) == rows[k]
  {
  }

  lemma Joined(a: seq<Gate>, b: seq<Gate>, id: GateId)
    ensures HasGate(a + b, id) <==> HasGate(a, id) || HasGate(b, id)
  {
    if i :| 0 <= i < |a| && a[i].id == id {
      assert (a + b)[i].id == id;
    }
    if i :| 0 <= i < |b| && b[i].id == id {
      assert (a + b)[|a| + i].id == id;
    }
  }

  lemma IndexRow(index: seq<Gate>, id: GateId)
    requires |index| == 1 && index[0].id == EvidenceIndex
    ensures HasGate(index, id) <==> id == EvidenceIndex
  {
    assert index[0].id == EvidenceIndex;
  }

  lemma InBlock(p: Policy, id: GateId)
    ensures HasGate(Gates(p), id) <==>
            || id == EvidenceIndex || HasGate(TargetRows(p), id) || HasGate(CandidateRows(), id)
            || HasGate(JourneyRows(p), id) || HasGate(ConnectorRows(p), id) || HasGate(LastRows(), id)
  {
    hide HasGate, TargetRows, CandidateRows, JourneyRows, ConnectorRows, LastRows, Row;
    var index := [Row(EvidenceIndex, "evidence-integrity", MISSING, "index-missing", true)];
    IndexRow(index, id);
    Joined(index, TargetRows(p), id);
    Joined(index + TargetRows(p), CandidateRows(), id);
    Joined(index + TargetRows(p) + CandidateRows(), JourneyRows(p), id);
    Joined(index + TargetRows(p) + CandidateRows() + JourneyRows(p), ConnectorRows(p), id);
    Joined(index + TargetRows(p) + CandidateRows() + JourneyRows(p) + ConnectorRows(p), LastRows(), id);
  }

  lemma TargetThere(p: Policy, target: string, kind: nat)
    requires target in p.targets && kind < 4
    ensures HasGate(Gates(p), TargetId(target, kind))
  {
    hide TargetId, TargetRows, Gates;
    var i :| 0 <= i < |p.targets| && p.targets[i] == target;
    TargetAt(p, i, kind);
    InBlock(p, TargetId(target, kind));
  }

  lemma TargetAt(p: Policy, i: nat, kind: nat)
    requires i < |p.targets| && kind < 4
    ensures 4 * i + kind < |TargetRows(p)| && TargetRows(p)[4 * i + kind].id == TargetId(p.targets[i], kind)
  {
    hide TargetRow, TargetId;
    assert (4 * i + kind) / 4 == i && (4 * i + kind) % 4 == kind;
  }

  lemma GatesThere(p: Policy)
    ensures HasGate(Gates(p), EvidenceIndex) && HasGate(Gates(p), FixtureObservation)
    ensures forall target :: target in p.targets ==> HasGate(Gates(p), Artifact(target)) && HasGate(Gates(p), Engine(target))
  {
    InBlock(p, EvidenceIndex);
    InBlock(p, FixtureObservation);
    assert LastRows()[4].id == FixtureObservation;
    forall target | target in p.targets ensures HasGate(Gates(p), Artifact(target)) && HasGate(Gates(p), Engine(target)) {
      TargetThere(p, target, 0);
      TargetThere(p, target, 1);
    }
  }

  lemma FixedThere()
    ensures forall id :: id in {RequiredChecks, IndependentReview, P0Disposition, Surface} ==> HasGate(CandidateRows(), id)
    ensures forall id :: id in {UnfamiliarUser, OwnerRails, EstateParity, FinalCutover} ==> HasGate(LastRows(), id)
  {
    hide CandidateRows, LastRows, HasGate;
    CandidateIds();
    LastIds();
    forall id | id in {RequiredChecks, IndependentReview, P0Disposition, Surface} ensures HasGate(CandidateRows(), id) {
      ListedId(CandidateRows(), id);
    }
    forall id | id in {UnfamiliarUser, OwnerRails, EstateParity, FinalCutover} ensures HasGate(LastRows(), id) {
      ListedId(LastRows(), id);
    }
  }

  lemma CandidateIds()
    ensures var c := CandidateRows(); |c| == 4 && c[0].id == RequiredChecks && c[1].id == IndependentReview && c[2].id == P0Disposition && c[3].id == Surface
  {
    hide Row;
  }

  lemma LastIds()
    ensures var l := LastRows(); |l| == 5 && l[0].id == UnfamiliarUser && l[1].id == OwnerRails && l[2].id == EstateParity && l[3].id == FinalCutover
  {
    hide Row;
  }

  lemma ListedId(rows: seq<Gate>, id: GateId)
    requires |rows| >= 4 && (rows[0].id == id || rows[1].id == id || rows[2].id == id || rows[3].id == id)
    ensures HasGate(rows, id)
  {
  }

  lemma ListedThere(p: Policy)
    ensures forall i :: 0 <= i < |p.journeys| ==> HasGate(JourneyRows(p), Journey(p.journeys[i]))
    ensures forall i :: 0 <= i < |p.connectors| ==> HasGate(ConnectorRows(p), Connected(p.connectors[i].id))
  {
    hide Row;
    forall i | 0 <= i < |p.journeys| ensures HasGate(JourneyRows(p), Journey(p.journeys[i])) {
      assert JourneyRows(p)[i].id == Journey(p.journeys[i]);
    }
    forall i | 0 <= i < |p.connectors| ensures HasGate(ConnectorRows(p), Connected(p.connectors[i].id)) {
      assert ConnectorRows(p)[i].id == Connected(p.connectors[i].id);
    }
  }

  /** A receipt that the mapping admits names a gate of the policy. */
  lemma AllowedGateThere(p: Policy, r: Receipt)
    requires Allows(p, r)
    ensures HasGate(Gates(p), r.gate)
  {
    InBlock(p, r.gate);
    FixedThere();
    ListedThere(p);
    hide Gates, HasGate, CandidateRows, LastRows, JourneyRows, ConnectorRows, TargetRows;
    if r.producer == NativeAttestation {
      TargetThere(p, r.target.value, 2);
    } else if r.producer == NativeLifecycle {
      TargetThere(p, r.target.value, 3);
    }
  }

  lemma MappedAllowed(p: Policy, rs: seq<Receipt>)
    requires GateReceiptMappingError(p, rs).None?
    ensures DistinctGates(rs) && forall k :: 0 <= k < |rs| ==> Allows(p, rs[k])
  {
    FirstFaultIs(p, rs);
    forall k | 0 <= k < |rs| ensures Allows(p, rs[k]) {
      assert rs[k] in rs;
      assert RowFault(p, rs[k]).None?;
    }
  }

  lemma NamedGatesThere(p: Policy, rs: seq<Receipt>)
    requires GateReceiptMappingError(p, rs).None?
    ensures forall k :: 0 <= k < |rs| ==> HasGate(Gates(p), rs[k].gate)
  {
    MappedAllowed(p, rs);
    hide Gates, Allows;
    forall k | 0 <= k < |rs| ensures HasGate(Gates(p), rs[k].gate) {
      AllowedGateThere(p, rs[k]);
    }
  }

  // What the passes come to.

  /** The one pass that would consume a receipt, if any would. */
  ghost function PassOf(w: World, r: Receipt): Option<Phase> {
    if InPhase(w, SurfacePhase, r) then Some(SurfacePhase)
    else if InPhase(w, FamilyPhase, r) then Some(FamilyPhase)
    else if InPhase(w, NativePhase, r) then Some(NativePhase)
    else None
  }

  ghost function Settled(w: World, artifacts: seq<ArtifactRef>, r: Receipt, g: Gate): Gate {
    if PassOf(w, r).Some? then Credited(g, r, Outcome(w, artifacts, PassOf(w, r).value, r)) else g
  }

  lemma {:induction false} PassOverOthers(w: World, artifacts: seq<ArtifactRef>, phase: Phase, rs: seq<Receipt>, g: Gate)
    requires forall k :: 0 <= k < |rs| ==> rs[k].gate != g.id
    ensures AfterReceipts(w, artifacts, phase, rs, g) == g
  {
    if rs != [] {
      PassOverOthers(w, artifacts, phase, rs[..|rs| - 1], g);
    }
  }

  lemma {:induction false} PassOverOwn(w: World, artifacts: seq<ArtifactRef>, phase: Phase, rs: seq<Receipt>, k: nat, g: Gate)
    requires DistinctGates(rs) && k < |rs| && rs[k].gate == g.id
    ensures AfterReceipts(w, artifacts, phase, rs, g) == Step(w, artifacts, phase, rs[k], g)
  {
    hide Step;
    var last := |rs| - 1;
    if k < last {
      PassOverOwn(w, artifacts, phase, rs[..last], k, g);
      OtherStep(w, artifacts, phase, rs[last], Step(w, artifacts, phase, rs[k], g));
    } else {
      PassOverOthers(w, artifacts, phase, rs[..last], g);
    }
  }

  lemma OtherStep(w: World, artifacts: seq<ArtifactRef>, phase: Phase, r: Receipt, g: Gate)
    requires r.gate != g.id
    ensures Step(w, artifacts, phase, r, g) == g
  {
  }

  /** All three passes together do to a gate exactly what its own receipt says, and nothing to a gate that no receipt names. */
  lemma EachReceiptItsGate(w: World, index: Index, rs: seq<Receipt>, g: Gate)
    requires DistinctGates(rs)
    ensures (forall k :: 0 <= k < |rs| ==> rs[k].gate != g.id) ==> ThreePasses(w, index, rs, g) == g
    ensures forall k :: 0 <= k < |rs| && rs[k].gate == g.id ==> ThreePasses(w, index, rs, g) == Settled(w, index.artifacts, rs[k], g)
  {
    var a := index.artifacts;
    if k :| 0 <= k < |rs| && rs[k].gate == g.id {
      var g1 := Step(w, a, SurfacePhase, rs[k], g);
      var g2 := Step(w, a, FamilyPhase, rs[k], g1);
      PassOverOwn(w, a, SurfacePhase, rs, k, g);
      PassOverOwn(w, a, FamilyPhase, rs, k, g1);
      PassOverOwn(w, a, NativePhase, rs, k, g2);
      hide Credited, Outcome;
    } else {
      PassOverOthers(w, a, SurfacePhase, rs, g);
      PassOverOthers(w, a, FamilyPhase, rs, g);
      PassOverOthers(w, a, NativePhase, rs, g);
    }
  }

  lemma ReceiptsPermutation(w: World, index: Index, a: seq<Receipt>, b: seq<Receipt>, g: Gate)
    requires multiset(a) == multiset(b) && DistinctGates(a)
    ensures ThreePasses(w, index, a, g) == ThreePasses(w, index, b, g)
  {
    ReceiptsDistinctPermutation(a, b);
    Sorting.SameElements(a, b);
    EachReceiptItsGate(w, index, a, g);
    EachReceiptItsGate(w, index, b, g);
    hide ThreePasses, Settled;
    if k :| 0 <= k < |a| && a[k].gate == g.id {
      assert a[k] in b;
      var l :| 0 <= l < |b| && b[l] == a[k];
    } else {
      forall l | 0 <= l < |b| ensures b[l].gate != g.id {
        assert b[l] in b && b[l] in a;
      }
    }
  }

  function WithReceipts(index: Index, digest: Digest, rs: seq<Receipt>): IndexRead {
    Ok((index.(receipts := Some(rs)), digest))
  }

  /** Reordering the receipts moves no gate; when the mapping is refused, the refusal's reason is all that may change. */
  lemma ReceiptOrderIrrelevant(p: Policy, index: Index, digest: Digest, w: World, a: seq<Receipt>, b: seq<Receipt>, g: Gate)
    requires multiset(a) == multiset(b)
    ensures var x, y := Final(p, WithReceipts(index, digest, a), w, g), Final(p, WithReceipts(index, digest, b), w, g);
            && (g.id != EvidenceIndex || GateReceiptMappingError(p, a).None? ==> x == y)
            && x.(reason := "") == y.(reason := "")
  {
    MappingPermutation(p, a, b);
    BeforePermutation(p, index, digest, w, a, b, g);
    if GateReceiptMappingError(p, a).None? {
      ReceiptsPermutation(w, index, a, b, BeforeReceipts(p, WithReceipts(index, digest, a), w, g));
      SameArtifacts(w, index, a);
      SameArtifacts(w, index, b);
    }
    hide GateReceiptMappingError, ThreePasses, BeforeReceipts;
  }

  lemma SameArtifacts(w: World, index: Index, rs: seq<Receipt>)
    ensures forall g: Gate :: ThreePasses(w, index.(receipts := Some(rs)), rs, g) == ThreePasses(w, index, rs, g)
  {
  }

  lemma BeforePermutation(p: Policy, index: Index, digest: Digest, w: World, a: seq<Receipt>, b: seq<Receipt>, g: Gate)
    requires GateReceiptMappingError(p, a).None? <==> GateReceiptMappingError(p, b).None?
    ensures var x, y := BeforeReceipts(p, WithReceipts(index, digest, a), w, g), BeforeReceipts(p, WithReceipts(index, digest, b), w, g);
            && x.(reason := "") == y.(reason := "")
            && (g.id != EvidenceIndex || GateReceiptMappingError(p, a).None? ==> x == y)
  {
    hide GateReceiptMappingError;
    var v, u := WithReceipts(index, digest, a), WithReceipts(index, digest, b);
    var x, y := IndexStep(p, v, g), IndexStep(p, u, g);
    assert x.(reason := "") == y.(reason := "");
    if g.id == EvidenceIndex {
      ArtifactsPassOver(w, index.artifacts, x);
      ArtifactsPassOver(w, index.artifacts, y);
    }
  }

  lemma {:induction false} ArtifactsPassOver(w: World, artifacts: seq<ArtifactRef>, g: Gate)
    requires !g.id.Artifact? && !g.id.Engine?
    ensures AfterArtifacts(w, artifacts, g) == g
  {
    if artifacts != [] {
      ArtifactsPassOver(w, artifacts[..|artifacts| - 1], g);
    }
  }

  /** Gates that nothing the offline evaluator reads can move. */
  predicate Beyond(id: GateId) {
    id in {IndependentReview, UnfamiliarUser, OwnerRails, EstateParity, FinalCutover} || id.Lifecycle?
  }

  lemma BeyondReach(p: Policy, read: IndexRead, w: World, g: Gate)
    requires Beyond(g.id)
    ensures Final(p, read, w, g) == g
  {
    hide ThreePasses, GateReceiptMappingError, AfterArtifacts;
    if read.Ok? {
      var index := read.value.0;
      ArtifactsPassOver(w, index.artifacts, g);
      assert BeforeReceipts(p, read, w, g) == g;
      if index.receipts.Some? && Mapping(p, index).None? {
        var rs := index.receipts.value;
        MappedAllowed(p, rs);
        EachReceiptItsGate(w, index, rs, g);
        forall k | 0 <= k < |rs| && rs[k].gate == g.id ensures Settled(w, index.artifacts, rs[k], g) == g {
          assert Allows(p, rs[k]);
        }
      }
    }
  }

  /** The decision is NO-GO whatever the index holds and whatever the receipts say. */
  lemma NeverGo(p: Policy, read: IndexRead, w: World, rows: seq<Gate>)
    requires |rows| == |Gates(p)| && forall k :: 0 <= k < |rows| ==> rows[k] == Final(p, read, w, Gates(p)[k])
    ensures !Acceptable(p, rows)
  {
    ReviewAt(p);
    var at := 1 + |TargetRows(p)| + 1;
    BeyondReach(p, read, w, Gates(p)[at]);
    assert rows[at] in rows && !Bears(rows[at]);
  }

  lemma ReviewAt(p: Policy)
    ensures var at := 1 + |TargetRows(p)| + 1;
            at < |Gates(p)| && Gates(p)[at] == Row(IndependentReview, "independent-review", NOT_IMPLEMENTED, NO_PRODUCER, true)
  {
    hide TargetRows, JourneyRows, ConnectorRows, LastRows, Row;
    assert CandidateRows()[1] == Row(IndependentReview, "independent-review", NOT_IMPLEMENTED, NO_PRODUCER, true);
  }

  /** Any gate left at PASS by the receipts was put there by the one receipt that names it. */
  lemma PassIsEarned(p: Policy, read: IndexRead, w: World, g: Gate)
    requires g.status != PASS && Final(p, read, w, g).status == PASS
    requires !(g.id.EvidenceIndex? || g.id.Artifact? || g.id.Engine? || g.id.FixtureObservation?)
    ensures read.Ok? && read.value.0.receipts.Some?
    ensures var rs := read.value.0.receipts.value;
            exists k :: 0 <= k < |rs| && rs[k].gate == g.id && Allows(p, rs[k]) && PassOf(w, rs[k]).Some?
                        && Outcome(w, read.value.0.artifacts, PassOf(w, rs[k]).value, rs[k]).Ok?
                        && Outcome(w, read.value.0.artifacts, PassOf(w, rs[k]).value, rs[k]).value.status == PASS
  {
    if read.Ok? {
      var index := read.value.0;
      ArtifactsPassOver(w, index.artifacts, g);
      if index.receipts.Some? && Mapping(p, index).None? {
        MappedAllowed(p, index.receipts.value);
        EachReceiptItsGate(w, index, index.receipts.value, g);
        hide ThreePasses, GateReceiptMappingError, Allows, PassOf, Outcome;
      }
    }
  }

  // What the report tells of each gate, in terms of the index and of what was found outside alone.

  /** The producer that a gate takes receipts from, and the target that they must name. */
  ghost predicate TakenFrom(p: Policy, gate: GateId, producer: Producer, target: Option<string>) {
    match gate
    case Native(t) => producer == NativeAttestation && target == Some(t) && t in p.targets
    case Lifecycle(t) => producer == NativeLifecycle && target == Some(t) && t in p.targets
    case RequiredChecks => producer == RequiredChecksRun && target == None
    case IndependentReview => producer == Reviewer && target == None
    case P0Disposition => producer == P0Finder && target == None
    case Surface => producer == SurfaceInventory && target == None
    case Journey(name) => producer == JourneyProof && target == None && name in p.journeys
    case Connected(name) => producer == ConnectorEvidence && target == None && exists c :: c in p.connectors && c.id == name
    case UnfamiliarUser => producer == UnfamiliarUserRun && target == None
    case OwnerRails => producer == OwnerObservation && target == None
    case EstateParity => producer == EstateObservation && target == None
    case FinalCutover => producer == CutoverAuthority && target == None
    case _ => false
  }

  ghost predicate Takes(p: Policy, r: Receipt) {
    TakenFrom(p, r.gate, r.producer, r.target)
  }

  /** The table by producer and the table by gate are one relation. */
  lemma AllowsByGate(p: Policy, r: Receipt)
    ensures Allows(p, r) <==> Takes(p, r)
  {
    if r.gate.Connected? && exists c :: c in p.connectors && c.id == r.gate.name {
      var c :| c in p.connectors && c.id == r.gate.name;
      var k :| 0 <= k < |p.connectors| && p.connectors[k] == c;
    }
  }

  ghost predicate Mapped(p: Policy, rs: seq<Receipt>) {
    DistinctGates(rs) && forall r :: r in rs ==> Takes(p, r)
  }

  ghost predicate FirstWrong(p: Policy, rs: seq<Receipt>, k: int) {
    0 <= k < |rs| && !Takes(p, rs[k]) && forall j :: 0 <= j < k ==> Takes(p, rs[j])
  }

  /** The row of the index: passed with its digest, or the first thing that is wrong with it. */
  ghost predicate IndexTold(p: Policy, read: IndexRead, g: Gate) {
    match read
    case Err(reason) => g.status == FAIL && g.reason == reason && g.evidence == None
    case Ok((index, digest)) =>
      if index.receipts.None? || Mapped(p, index.receipts.value) then
        g.status == PASS && g.reason == "closed-index-validated" && g.evidence == Some(digest)
      else
        && g.status == FAIL && g.evidence == None
        && (!DistinctGates(index.receipts.value) ==> g.reason == "duplicate-gate")
        && (DistinctGates(index.receipts.value) ==>
              exists k :: FirstWrong(p, index.receipts.value, k)
                          && g.reason == if index.receipts.value[k].producer.Unregistered? then "unknown-producer" else "mismatched-gate-or-target")
  }

  ghost predicate LastFor(artifacts: seq<ArtifactRef>, target: string, k: int) {
    0 <= k < |artifacts| && artifacts[k].target == target && forall j :: k < j < |artifacts| ==> artifacts[j].target != target
  }

  ghost predicate NoneFor(artifacts: seq<ArtifactRef>, target: string) {
    forall j :: 0 <= j < |artifacts| ==> artifacts[j].target != target
  }

  /** The rows of a target: as its artifact verified, or as listed where the index has none for it. */
  ghost predicate ArtifactTold(w: World, artifacts: seq<ArtifactRef>, target: string, start: Gate, g: Gate) {
    && (NoneFor(artifacts, target) ==> g == start)
    && forall k :: LastFor(artifacts, target, k) ==>
         match w.verify(artifacts[k])
         case Ok(v) =>
           && g.evidence == Some(v.proof)
           && (g.id.Artifact? ==> g.status == PASS && g.reason == "package-and-recorded-fixture-steps-consistent")
           && (g.id.Engine? ==> g.status == v.engine && g.reason == v.engineReason)
         case Err(reason) =>
           && g.status == FAIL && g.reason == reason
           && (NoneFor(artifacts[..k], target) ==> g.evidence == None)
  }

  ghost predicate FixtureTold(w: World, index: Index, start: Gate, g: Gate) {
    match index.fixture
    case None => g == start
    case Some(fixture) =>
      match w.fixture(fixture)
      case Ok(digest) => g.status == PASS && g.reason == "fixture-observation-validated-no-release-credit" && g.evidence == Some(digest)
      case Err(reason) => g.status == FAIL && g.reason == reason && g.evidence == None
  }

  ghost predicate FirstPackage(w: World, artifacts: seq<ArtifactRef>, target: Option<string>, package: Digest, k: int) {
    && 0 <= k < |artifacts| && Some(artifacts[k].target) == target
    && w.verify(artifacts[k]).Ok? && w.verify(artifacts[k]).value.package == package
    && forall j :: 0 <= j < k && Some(artifacts[j].target) == target ==> w.verify(artifacts[j]).Err?
  }

  /** The first verified package for a target, where there is one. */
  ghost predicate PackageFor(w: World, artifacts: seq<ArtifactRef>, target: Option<string>, package: Option<Digest>) {
    match package
    case None => forall k :: 0 <= k < |artifacts| && Some(artifacts[k].target) == target ==> w.verify(artifacts[k]).Err?
    case Some(digest) => exists k :: FirstPackage(w, artifacts, target, digest, k)
  }

  /** The receipts that the evaluator consumes. */
  ghost predicate Consumed(w: World, r: Receipt) {
    match r.producer
    case RequiredChecksRun => true
    case P0Finder => true
    case JourneyProof => true
    case ConnectorEvidence => true
    case NativeAttestation => true
    case SurfaceInventory => w.surfaceActive
    case _ => false
  }

  /** What consuming a receipt comes to: a native attestation is judged beside the package of its target, every other receipt alone. */
  ghost predicate ConsumedAs(w: World, artifacts: seq<ArtifactRef>, r: Receipt, e: Result<Evaluation, Reason>) {
    && Consumed(w, r)
    && if r.producer == NativeAttestation then exists package :: PackageFor(w, artifacts, r.target, package) && e == w.consumeNative(r, package)
       else e == w.consume(r)
  }

  /** The evaluation's own status and reason, with the receipt's digest for evidence if it credits; a FAIL with the error's reason if there is none. */
  ghost predicate ShownBy(r: Receipt, e: Result<Evaluation, Reason>, g: Gate) {
    match e
    case Ok(v) => g.status == v.status && g.reason == v.reason && (if v.credit then g.evidence == Some(r.sha256) else g.evidence == None)
    case Err(reason) => g.status == FAIL && g.reason == reason && g.evidence == None
  }

  /** A gate that receipts may name shows what its own one came to; without one that is consumed, it stays as listed. */
  ghost predicate ReceiptsTold(w: World, artifacts: seq<ArtifactRef>, rs: seq<Receipt>, start: Gate, g: Gate) {
    && (forall r :: r in rs && r.gate == start.id && Consumed(w, r) ==> exists e :: ConsumedAs(w, artifacts, r, e) && ShownBy(r, e, g))
    && ((forall r :: r in rs && Consumed(w, r) ==> r.gate != start.id) ==> g == start)
  }

  ghost predicate RowTold(p: Policy, read: IndexRead, w: World, start: Gate, g: Gate) {
    && g.id == start.id && g.scope == start.scope && g.required == start.required && g.target == start.target
    && (start.id == EvidenceIndex ==> IndexTold(p, read, g))
    && (start.id != EvidenceIndex && read.Err? ==> g == start)
    && (read.Ok? ==>
          var index := read.value.0;
          match start.id
          case EvidenceIndex => true
          case Artifact(target) => ArtifactTold(w, index.artifacts, target, start, g)
          case Engine(target) => ArtifactTold(w, index.artifacts, target, start, g)
          case FixtureObservation => FixtureTold(w, index, start, g)
          case _ =>
            if index.receipts.Some? && Mapped(p, index.receipts.value) then ReceiptsTold(w, index.artifacts, index.receipts.value, start, g)
            else g == start)
  }

  lemma MappedIs(p: Policy, rs: seq<Receipt>)
    ensures GateReceiptMappingError(p, rs).None? <==> Mapped(p, rs)
  {
    hide Allows, Takes;
    FirstFaultIs(p, rs);
    forall r ensures RowFault(p, r).None? <==> Takes(p, r) {
      RowFaultIs(p, r);
    }
    hide RowFault;
  }

  lemma RowFaultIs(p: Policy, r: Receipt)
    ensures RowFault(p, r) == if Takes(p, r) then None else if r.producer.Unregistered? then Some(UnknownProducer) else Some(MismatchedGate)
  {
    AllowsByGate(p, r);
  }

  lemma {:induction false} FirstFaultAt(p: Policy, rs: seq<Receipt>)
    requires FirstFault(p, rs).Some?
    ensures exists k :: FirstWrong(p, rs, k) && FirstFault(p, rs) == RowFault(p, rs[k])
  {
    hide RowFault, Takes;
    RowFaultIs(p, rs[0]);
    if RowFault(p, rs[0]).Some? {
      assert FirstWrong(p, rs, 0);
    } else {
      FirstFaultAt(p, rs[1..]);
      var k :| FirstWrong(p, rs[1..], k) && FirstFault(p, rs[1..]) == RowFault(p, rs[1..][k]);
      assert rs[1..][k] == rs[k + 1];
      forall j | 0 <= j < k + 1 ensures Takes(p, rs[j]) {
        assert j > 0 ==> rs[1..][j - 1] == rs[j];
      }
      assert FirstWrong(p, rs, k + 1);
    }
  }

  lemma IndexRowTold(p: Policy, read: IndexRead, start: Gate)
    requires start.id == EvidenceIndex && start.evidence == None
    ensures IndexTold(p, read, IndexStep(p, read, start))
  {
    if read.Ok? && read.value.0.receipts.Some? {
      var rs := read.value.0.receipts.value;
      MappedIs(p, rs);
      hide Mapped, Takes, RowFault;
      if DistinctGates(rs) && !Mapped(p, rs) {
        FirstFaultAt(p, rs);
        var k :| FirstWrong(p, rs, k) && FirstFault(p, rs) == RowFault(p, rs[k]);
        RowFaultIs(p, rs[k]);
      }
      hide FirstWrong, DistinctGates, FirstFault;
    }
  }

  lemma {:induction false} ArtifactRowTold(w: World, artifacts: seq<ArtifactRef>, target: string, start: Gate)
    requires start.id in {Artifact(target), Engine(target)} && start.evidence == None
    ensures ArtifactTold(w, artifacts, target, start, AfterArtifacts(w, artifacts, start))
  {
    if artifacts != [] {
      var init, last := artifacts[..|artifacts| - 1], |artifacts| - 1;
      ArtifactRowTold(w, init, target, start);
      LastForInit(artifacts, target);
      var g := AfterArtifacts(w, init, start);
      hide AfterArtifacts, ArtifactTold, NoneFor, LastFor;
      if artifacts[last].target == target {
        ArtifactRowLast(w, artifacts, target, start, g);
      } else {
        ArtifactRowKept(w, artifacts, target, start, g);
      }
      AfterArtifactsLast(w, artifacts, start);
    }
  }

  lemma AfterArtifactsLast(w: World, artifacts: seq<ArtifactRef>, start: Gate)
    requires artifacts != []
    ensures AfterArtifacts(w, artifacts, start)
            == ArtifactStep(w, artifacts[|artifacts| - 1], AfterArtifacts(w, artifacts[..|artifacts| - 1], start))
  {
  }

  lemma LastForInit(artifacts: seq<ArtifactRef>, target: string)
    requires artifacts != []
    ensures var last := |artifacts| - 1;
            && (artifacts[last].target == target ==> !NoneFor(artifacts, target) && forall k :: LastFor(artifacts, target, k) <==> k == last)
            && (artifacts[last].target != target ==>
                  && (NoneFor(artifacts, target) <==> NoneFor(artifacts[..last], target))
                  && forall k :: LastFor(artifacts, target, k) <==> LastFor(artifacts[..last], target, k))
  {
  }

  lemma ArtifactRowLast(w: World, artifacts: seq<ArtifactRef>, target: string, start: Gate, g: Gate)
    requires artifacts != [] && artifacts[|artifacts| - 1].target == target && start.evidence == None
    requires g.id == start.id && g.id in {Artifact(target), Engine(target)}
    requires ArtifactTold(w, artifacts[..|artifacts| - 1], target, start, g)
    ensures ArtifactTold(w, artifacts, target, start, ArtifactStep(w, artifacts[|artifacts| - 1], g))
  {
    hide NoneFor, LastFor;
    LastForInit(artifacts, target);
    if g.id == Artifact(target) {
      ArtifactGateStep(w, artifacts[|artifacts| - 1], g);
    } else {
      EngineGateStep(w, artifacts[|artifacts| - 1], g);
    }
    hide ArtifactStep;
  }

  lemma ArtifactRowKept(w: World, artifacts: seq<ArtifactRef>, target: string, start: Gate, g: Gate)
    requires artifacts != [] && artifacts[|artifacts| - 1].target != target
    requires g.id in {Artifact(target), Engine(target)}
    requires ArtifactTold(w, artifacts[..|artifacts| - 1], target, start, g)
    ensures ArtifactTold(w, artifacts, target, start, ArtifactStep(w, artifacts[|artifacts| - 1], g))
  {
    var last := |artifacts| - 1;
    LastForInit(artifacts, target);
    hide NoneFor, LastFor;
    assert ArtifactStep(w, artifacts[last], g) == g;
    hide ArtifactStep;
    forall k | LastFor(artifacts, target, k)
      ensures k < last && artifacts[..last][k] == artifacts[k] && artifacts[..last][..k] == artifacts[..k]
    {
      LastForBefore(artifacts, target, k);
    }
  }

  lemma LastForBefore(artifacts: seq<ArtifactRef>, target: string, k: int)
    requires artifacts != [] && artifacts[|artifacts| - 1].target != target && LastFor(artifacts, target, k)
    ensures 0 <= k < |artifacts| - 1
  {
  }

  lemma {:induction false} PackageIs(w: World, artifacts: seq<ArtifactRef>, target: string)
    ensures PackageFor(w, artifacts, Some(target), PackageOf(w, artifacts, target))
  {
    if artifacts != [] {
      var rest, package := artifacts[1..], PackageOf(w, artifacts, target);
      assert forall j :: 0 <= j < |rest| ==> rest[j] == artifacts[j + 1];
      if artifacts[0].target != target || w.verify(artifacts[0]).Err? {
        PackageIs(w, rest, target);
        if package.Some? {
          var k: nat :| FirstPackage(w, rest, Some(target), package.value, k);
          assert FirstPackage(w, artifacts, Some(target), package.value, k + 1);
        }
      } else {
        assert FirstPackage(w, artifacts, Some(target), package.value, 0);
      }
    }
  }

  /** An allowed receipt is settled by its one outcome, or left alone. */
  lemma SettledTold(p: Policy, w: World, artifacts: seq<ArtifactRef>, r: Receipt, start: Gate)
    requires Takes(p, r) && r.gate == start.id && start.evidence == None
    ensures !Consumed(w, r) ==> Settled(w, artifacts, r, start) == start
    ensures Consumed(w, r) ==> exists e :: ConsumedAs(w, artifacts, r, e) && ShownBy(r, e, Settled(w, artifacts, r, start))
  {
    PassOfConsumed(p, w, r);
    if Consumed(w, r) {
      OutcomeConsumed(p, w, artifacts, r);
      hide PassOf, Outcome, Consumed, ConsumedAs, Takes;
      assert ShownBy(r, Outcome(w, artifacts, PassOf(w, r).value, r), Settled(w, artifacts, r, start));
    }
  }

  lemma PassOfConsumed(p: Policy, w: World, r: Receipt)
    requires Takes(p, r)
    ensures Consumed(w, r) <==> PassOf(w, r).Some?
    ensures Consumed(w, r) ==> (r.producer == NativeAttestation <==> PassOf(w, r) == Some(NativePhase))
    ensures r.producer == NativeAttestation ==> r.target.Some?
  {
    AllowsByGate(p, r);
    hide Takes;
  }

  lemma OutcomeConsumed(p: Policy, w: World, artifacts: seq<ArtifactRef>, r: Receipt)
    requires Takes(p, r) && Consumed(w, r)
    ensures PassOf(w, r).Some? && ConsumedAs(w, artifacts, r, Outcome(w, artifacts, PassOf(w, r).value, r))
  {
    PassOfConsumed(p, w, r);
    hide Takes, PassOf, PackageFor, PackageOf, Consumed;
    if r.producer == NativeAttestation {
      PackageIs(w, artifacts, r.target.value);
    }
  }

  lemma ReceiptRowsTold(p: Policy, w: World, index: Index, rs: seq<Receipt>, start: Gate)
    requires Mapped(p, rs) && start.evidence == None
    ensures ReceiptsTold(w, index.artifacts, rs, start, ThreePasses(w, index, rs, start))
  {
    hide ThreePasses, Settled, ConsumedAs, Consumed, ShownBy;
    EachReceiptItsGate(w, index, rs, start);
    if k :| 0 <= k < |rs| && rs[k].gate == start.id {
      assert rs[k] in rs;
      SettledTold(p, w, index.artifacts, rs[k], start);
      hide Takes;
      forall r | r in rs && r.gate == start.id ensures r == rs[k] {
        var l :| 0 <= l < |rs| && rs[l] == r;
        assert l < k || k < l || l == k;
      }
    } else {
      forall r | r in rs ensures r.gate != start.id {
        var l :| 0 <= l < |rs| && rs[l] == r;
      }
    }
  }

  ghost predicate OutOfReceipts(id: GateId) {
    id == EvidenceIndex || id == FixtureObservation || id.Artifact? || id.Engine?
  }

  lemma ReceiptsPassOver(p: Policy, w: World, index: Index, rs: seq<Receipt>, g: Gate)
    requires Mapped(p, rs) && OutOfReceipts(g.id)
    ensures ThreePasses(w, index, rs, g) == g
  {
    forall k | 0 <= k < |rs| ensures rs[k].gate != g.id {
      assert rs[k] in rs;
    }
    EachReceiptItsGate(w, index, rs, g);
  }

  /** Every row of the report, told without the steps that lead there. */
  lemma FinalTold(p: Policy, read: IndexRead, w: World, start: Gate)
    requires start.evidence == None
    ensures RowTold(p, read, w, start, Final(p, read, w, start))
  {
    hide IndexTold, ArtifactTold, ReceiptsTold, FixtureTold, IndexStep, FixtureStep, AfterArtifacts, ThreePasses, GateReceiptMappingError, Mapped;
    StepsElsewhere(p, read, w, start);
    if start.id == EvidenceIndex {
      IndexRowTold(p, read, start);
    }
    if read.Ok? {
      var index := read.value.0;
      if start.id.Artifact? || start.id.Engine? {
        ArtifactRowTold(w, index.artifacts, start.id.target, start);
      }
      if start.id == FixtureObservation {
        FixtureRowTold(w, index, start);
      }
      if index.receipts.Some? {
        MappedIs(p, index.receipts.value);
        if Mapped(p, index.receipts.value) {
          if OutOfReceipts(start.id) {
            ReceiptsPassOver(p, w, index, index.receipts.value, BeforeReceipts(p, read, w, start));
          } else {
            ReceiptRowsTold(p, w, index, index.receipts.value, start);
          }
        }
      }
    }
  }

  /** Before the receipts, only the index row, the rows of the targets and the fixture row move. */
  lemma StepsElsewhere(p: Policy, read: IndexRead, w: World, start: Gate)
    ensures start.id != EvidenceIndex ==> IndexStep(p, read, start) == start
    ensures read.Ok? ==>
              var index := read.value.0;
              && (forall g: Gate :: g.id == start.id && !g.id.Artifact? && !g.id.Engine? ==> AfterArtifacts(w, index.artifacts, g) == g)
              && (forall g: Gate :: g.id == start.id && g.id != FixtureObservation ==> FixtureStep(w, index, g) == g)
  {
    hide AfterArtifacts, GateReceiptMappingError;
    if read.Ok? {
      forall g: Gate | g.id == start.id && !g.id.Artifact? && !g.id.Engine?
        ensures AfterArtifacts(w, read.value.0.artifacts, g) == g
      {
        ArtifactsPassOver(w, read.value.0.artifacts, g);
      }
    }
  }

  lemma FixtureRowTold(w: World, index: Index, start: Gate)
    requires start.id == FixtureObservation && start.evidence == None
    ensures FixtureTold(w, index, start, FixtureStep(w, index, start))
  {
  }

  // The list of gates.

  ghost predicate Known(p: Policy, id: GateId) {
    match id
    case Artifact(t) => t in p.targets
    case Engine(t) => t in p.targets
    case Native(t) => t in p.targets
    case Lifecycle(t) => t in p.targets
    case Journey(name) => name in p.journeys
    case Connected(name) => exists c :: c in p.connectors && c.id == name
    case Unknown(_) => false
    case _ => true
  }

  ghost predicate Optional(id: GateId) {
    id in {OwnerRails, EstateParity, FinalCutover, FixtureObservation}
  }

  /** How a gate stands before anything is read: never passed, without evidence, and required but for four. */
  ghost predicate AsListed(p: Policy, g: Gate) {
    && Known(p, g.id) && g.evidence == None
    && (g.required <==> !Optional(g.id))
    && (match g.id
        case Artifact(t) => g.target == Some(t) && g.status == MISSING
        case Engine(t) => g.target == Some(t) && g.status == MISSING
        case Native(t) => g.target == Some(t) && g.status == UNVERIFIABLE
        case Lifecycle(t) => g.target == Some(t) && g.status == UNVERIFIABLE
        case Connected(name) => g.target == None && g.status == MISSING && Connector(name, g.scope) in p.connectors
        case Journey(_) => g.target == None && g.status == MISSING
        case EvidenceIndex => g.target == None && g.status == MISSING
        case RequiredChecks => g.target == None && g.status == MISSING
        case P0Disposition => g.target == None && g.status == MISSING
        case FixtureObservation => g.target == None && g.status == MISSING
        case _ => g.target == None && g.status == NOT_IMPLEMENTED)
  }

  ghost predicate AllAsListed(p: Policy, rows: seq<Gate>) {
    forall g :: g in rows ==> AsListed(p, g)
  }

  lemma TargetsListed(p: Policy)
    ensures AllAsListed(p, TargetRows(p))
  {
    var rows := TargetRows(p);
    forall i | 0 <= i < |rows| ensures AsListed(p, rows[i]) {
      TargetRowListed(p, p.targets[i / 4], i % 4);
    }
  }

  lemma TargetRowListed(p: Policy, target: string, kind: nat)
    requires target in p.targets
    ensures AsListed(p, TargetRow(target, kind))
  {
    TargetRowIs(target, kind);
    hide TargetRow;
  }

  lemma TargetRowIs(target: string, kind: nat)
    ensures var row := TargetRow(target, kind);
            row.required && row.target == Some(target) && row.evidence == None && row.status == if kind < 2 then MISSING else UNVERIFIABLE
  {
  }

  lemma RowListed(p: Policy, id: GateId, scope: string, status: Status, reason: Reason, required: bool)
    requires required <==> !Optional(id)
    requires
      || (id in {EvidenceIndex, RequiredChecks, P0Disposition, FixtureObservation} && status == MISSING)
      || (id in {IndependentReview, Surface, UnfamiliarUser, OwnerRails, EstateParity, FinalCutover} && status == NOT_IMPLEMENTED)
    ensures AsListed(p, Row(id, scope, status, reason, required))
  {
  }

  lemma CandidatesListed(p: Policy)
    ensures AllAsListed(p, CandidateRows())
  {
    hide AsListed, Row;
    RowListed(p, RequiredChecks, "exact-candidate-ci", MISSING, "required-checks-receipt-missing", true);
    RowListed(p, IndependentReview, "independent-review", NOT_IMPLEMENTED, NO_PRODUCER, true);
    RowListed(p, P0Disposition, "current-head-findings", MISSING, "p0-disposition-receipt-missing", true);
    RowListed(p, Surface, "product-surface-inventory", NOT_IMPLEMENTED, NO_PRODUCER, true);
  }

  lemma LastListed(p: Policy)
    ensures AllAsListed(p, LastRows())
  {
    hide AsListed, Row;
    RowListed(p, UnfamiliarUser, "non-author-zero-coaching", NOT_IMPLEMENTED, NO_PRODUCER, true);
    RowListed(p, OwnerRails, "supervised-owner-observation", NOT_IMPLEMENTED, SUPERSEDED, false);
    RowListed(p, EstateParity, "paired-estate-observation", NOT_IMPLEMENTED, SUPERSEDED, false);
    RowListed(p, FinalCutover, "owner-operational-authority", NOT_IMPLEMENTED, SUPERSEDED, false);
    RowListed(p, FixtureObservation, "fixture-only", MISSING, "fixture-observation-not-supplied", false);
  }

  lemma NamedListed(p: Policy)
    ensures AllAsListed(p, JourneyRows(p)) && AllAsListed(p, ConnectorRows(p))
  {
    forall i | 0 <= i < |p.connectors| ensures AsListed(p, ConnectorRows(p)[i]) {
      assert p.connectors[i] in p.connectors;
      assert Connector(p.connectors[i].id, p.connectors[i].evidence) == p.connectors[i];
    }
  }

  /** The gates of a policy are the known ones, once each, and as they stand before anything is read. */
  lemma GatesListed(p: Policy)
    ensures forall id :: HasGate(Gates(p), id) <==> Known(p, id)
    ensures forall g :: g in Gates(p) ==> AsListed(p, g)
  {
    var index := Row(EvidenceIndex, "evidence-integrity", MISSING, "index-missing", true);
    TargetsListed(p);
    CandidatesListed(p);
    LastListed(p);
    RowListed(p, EvidenceIndex, "evidence-integrity", MISSING, "index-missing", true);
    NamedListed(p);
    hide TargetRows, CandidateRows, JourneyRows, ConnectorRows, LastRows, AsListed, HasGate, Row, Known;
    assert AllAsListed(p, [index]);
    BothListed(p, [index], TargetRows(p));
    BothListed(p, [index] + TargetRows(p), CandidateRows());
    BothListed(p, [index] + TargetRows(p) + CandidateRows(), JourneyRows(p));
    BothListed(p, [index] + TargetRows(p) + CandidateRows() + JourneyRows(p), ConnectorRows(p));
    BothListed(p, [index] + TargetRows(p) + CandidateRows() + JourneyRows(p) + ConnectorRows(p), LastRows());
    hide Gates, AllAsListed;
    forall id ensures HasGate(Gates(p), id) <==> Known(p, id) {
      if HasGate(Gates(p), id) {
        ThereKnown(p, id);
      }
      if Known(p, id) {
        KnownThere(p, id);
      }
    }
  }

  lemma BothListed(p: Policy, a: seq<Gate>, b: seq<Gate>)
    requires AllAsListed(p, a) && AllAsListed(p, b)
    ensures AllAsListed(p, a + b)
  {
  }

  lemma ThereKnown(p: Policy, id: GateId)
    requires HasGate(Gates(p), id) && AllAsListed(p, Gates(p))
    ensures Known(p, id)
  {
    hide Gates, Known;
    var i :| 0 <= i < |Gates(p)| && Gates(p)[i].id == id;
    assert AsListed(p, Gates(p)[i]);
  }

  lemma KnownThere(p: Policy, id: GateId)
    requires Known(p, id)
    ensures HasGate(Gates(p), id)
  {
    hide Gates, HasGate, TargetRows, CandidateRows, JourneyRows, ConnectorRows, LastRows;
    GatesThere(p);
    FixedThere();
    ListedThere(p);
    InBlock(p, id);
    match id {
      case Native(t) => TargetThere(p, t, 2);
      case Lifecycle(t) => TargetThere(p, t, 3);
      case Connected(name) =>
        var c :| c in p.connectors && c.id == name;
        var k :| 0 <= k < |p.connectors| && p.connectors[k] == c;
      case _ =>
    }
  }

  // The whole evaluation.

  lemma FinalRows(p: Policy, read: IndexRead, w: World, mapped: bool, rows: seq<Gate>)
    requires forall g :: g in Gates(p) ==> AsListed(p, g)
    requires mapped <==> read.Ok? && Mapping(p, read.value.0).None?
    requires |rows| == |Gates(p)|
    requires forall k :: 0 <= k < |rows| ==>
               rows[k] == if mapped && read.value.0.receipts.Some? then
                            ThreePasses(w, read.value.0, read.value.0.receipts.value, BeforeReceipts(p, read, w, Gates(p)[k]))
                          else BeforeReceipts(p, read, w, Gates(p)[k])
    ensures forall k :: 0 <= k < |rows| ==> rows[k] == Final(p, read, w, Gates(p)[k]) && RowTold(p, read, w, Gates(p)[k], rows[k])
  {
    hide Gates, ThreePasses, BeforeReceipts, RowTold, Mapping;
    forall k | 0 <= k < |rows| ensures rows[k] == Final(p, read, w, Gates(p)[k]) && RowTold(p, read, w, Gates(p)[k], rows[k]) {
      assert AsListed(p, Gates(p)[k]);
      FinalTold(p, read, w, Gates(p)[k]);
    }
  }

  method EvaluateRelease(p: Policy, profile: Profile, read: IndexRead, w: World) returns (report: Report)
    requires p.Valid() && Parsed(p, read)
    ensures |report.gates| == |Gates(p)|
    ensures forall k :: 0 <= k < |report.gates| ==> report.gates[k] == Final(p, read, w, Gates(p)[k])
    ensures forall k :: 0 <= k < |report.gates| ==> RowTold(p, read, w, Gates(p)[k], report.gates[k])
    ensures report.profile == profile && !report.decision.go && !report.decision.accepted
  {
    hide Gates, RowTold, Final, ThreePasses, BeforeReceipts, GateReceiptMappingError, Acceptable, HasGate, DistinctIds;
    GatesDistinct(p);
    GatesListed(p);
    var rows, mapped := EvaluateArtifacts(p, read, w);
    SameIds(Gates(p), rows);
    if mapped && read.value.0.receipts.Some? {
      var rs := read.value.0.receipts.value;
      NamedGatesThere(p, rs);
      rows := ConsumeAll(w, read.value.0, rs, rows);
    }
    var decision := ReleaseDecision(p, profile, rows);
    FinalRows(p, read, w, mapped, rows);
    NeverGo(p, read, w, rows);
    report := Report(profile, decision, rows);
  }
}
