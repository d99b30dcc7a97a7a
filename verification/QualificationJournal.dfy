/**
 The qualification journal (scripts/qualification.ts): a lock-protected, hash-chained, append-only log that is
 read without the lock. First the log itself, then the samplers as a step system with crashes and torn writes.
 */
module QualificationJournal {
  import opened Wrappers
  import opened UnicodeText
  import opened Lines
  import opened Sequences

  type Digest = Text

  datatype Receipt = Receipt(runId: Text, sha256: Digest, finishedAt: int)
  datatype Sample = Sample(receipts: seq<Receipt>, rest: Text)
  datatype Entry = Entry(seqNo: nat, previous: Digest, sample: Sample, sha256: Digest)

  /** SHA-256, JSON.stringify of a payload and of an entry, and JSON.parse of a line with the check of its keys. */
  datatype Codec = Codec(
    hash: Text -> Digest,
    payload: (nat, Digest, Sample) -> Text,
    line: Entry -> Text,
    parse: Text -> Option<Entry>)

  /** Hashing is collision-free, and printing loses nothing and makes one line. */
  ghost predicate Faithful(c: Codec) {
    && (forall s, t :: c.hash(s) == c.hash(t) ==> s == t)
    && (forall n, p, x, n', p', x' :: c.payload(n, p, x) == c.payload(n', p', x') ==> n == n' && p == p' && x == x')
    && (forall e :: c.parse(c.line(e)) == Some(e) && OneLine(c.line(e)))
  }

  /** The printed genesis record is not the print of any payload. */
  ghost predicate GenesisApart(c: Codec, genesis: Text) {
    forall n, p, x :: c.payload(n, p, x) != genesis
  }

  // Loading.

  const MAX_ROWS := 100_000
  const MAX_BYTES := 64 * 1024 * 1024

  datatype LoadError = ByteLimit | Torn | RowLimit | Broken

  ghost function Seal(c: Codec, n: nat, previous: Digest, sample: Sample): Digest {
    c.hash(c.payload(n, previous, sample))
  }

  ghost function LastOf(first: Digest, entries: seq<Entry>): Digest {
    if entries == [] then first else entries[|entries| - 1].sha256
  }

  ghost predicate Links(c: Codec, first: Digest, entries: seq<Entry>, e: Entry) {
    && e.seqNo == |entries|
    && e.previous == LastOf(first, entries)
    && e.sha256 == Seal(c, e.seqNo, e.previous, e.sample)
  }

  /** The chain that the lines hold, if they hold one. */
  ghost function Chain(c: Codec, first: Digest, lines: seq<Text>): Option<seq<Entry>> {
    if lines == [] then Some([])
    else
      match Chain(c, first, lines[..|lines| - 1])
      case None => None
      case Some(entries) =>
        match c.parse(lines[|lines| - 1])
        case None => None
        case Some(e) => if Links(c, first, entries, e) then Some(entries + [e]) else None
  }

  ghost function Load(c: Codec, first: Digest, raw: Text): Result<seq<Entry>, LoadError> {
    if Utf8Length(raw) > MAX_BYTES then Err(ByteLimit)
    else if Partial(raw) != [] then Err(Torn)
    else if |CompleteLines(raw)| > MAX_ROWS then Err(RowLimit)
    else
      match Chain(c, first, CompleteLines(raw))
      case None => Err(Broken)
      case Some(entries) => Ok(entries)
  }

  ghost predicate WithinLimits(raw: Text) {
    Utf8Length(raw) <= MAX_BYTES && |CompleteLines(raw)| <= MAX_ROWS
  }

  /** A broken line stays broken whatever follows it. */
  lemma {:induction false} ChainPrefix(c: Codec, first: Digest, lines: seq<Text>, k: nat)
    requires k <= |lines| && Chain(c, first, lines).Some?
    ensures Chain(c, first, lines[..k]).Some?
    ensures var entries := Chain(c, first, lines).value;
      |entries| == |lines| && Chain(c, first, lines[..k]).value == entries[..k]
  {
    if k < |lines| {
      ChainPrefix(c, first, lines[..|lines| - 1], k);
      assert lines[..|lines| - 1][..k] == lines[..k];
      ChainPrefix(c, first, lines[..|lines| - 1], |lines| - 1);
    } else {
      assert lines[..k] == lines;
      if lines != [] {
        ChainPrefix(c, first, lines[..|lines| - 1], |lines| - 1);
      }
    }
  }

  lemma NoLines(c: Codec, first: Digest)
    ensures CompleteLines([]) == [] && Chain(c, first, []) == Some([])
  {
  }

  lemma ChainNext(c: Codec, first: Digest, lines: seq<Text>, i: nat)
    requires i < |lines| && Chain(c, first, lines[..i]).Some?
    ensures var entries, e := Chain(c, first, lines[..i]).value, c.parse(lines[i]);
      Chain(c, first, lines[..i + 1]) == if e.Some? && Links(c, first, entries, e.value) then Some(entries + [e.value]) else None
  {
    hide Links;
    assert lines[..i + 1][..i] == lines[..i];
  }

  lemma LinksWhen(c: Codec, first: Digest, entries: seq<Entry>, line: Text)
    ensures var e := c.parse(line);
      e.Some? ==>
        (Links(c, first, entries, e.value) <==>
         && e.value.seqNo == |entries| && e.value.previous == LastOf(first, entries)
         && e.value.sha256 == c.hash(c.payload(e.value.seqNo, e.value.previous, e.value.sample)))
  {
  }

  /** The loop of load. */
  method LoadJournal(c: Codec, first: Digest, raw: Text) returns (r: Result<seq<Entry>, LoadError>, last: Digest)
    ensures r == Load(c, first, raw)
    ensures r.Ok? ==> last == LastOf(first, r.value)
  {
    hide Chain, CompleteLines, Partial, Split, Utf8Length, Links;
    last := first;
    if Utf8Length(raw) > MAX_BYTES {
      return Err(ByteLimit), last;
    }
    NothingPartial(raw);
    NoLines(c, first);
    if raw != [] && raw[|raw| - 1] != LINE_FEED {
      return Err(Torn), last;
    }
    var lines := if raw == [] then [] else Split(raw[..|raw| - 1]);
    assert lines == CompleteLines(raw);
    if |lines| > MAX_ROWS {
      return Err(RowLimit), last;
    }
    var entries: seq<Entry> := [];
    assert lines[..0] == [];
    for i := 0 to |lines|
      invariant Chain(c, first, lines[..i]) == Some(entries)
      invariant last == LastOf(first, entries)
    {
      ChainNext(c, first, lines, i);
      LinksWhen(c, first, entries, lines[i]);
      var parsed := c.parse(lines[i]);
      if parsed.None? || !(parsed.value.seqNo == |entries| && parsed.value.previous == last &&
        parsed.value.sha256 == c.hash(c.payload(parsed.value.seqNo, parsed.value.previous, parsed.value.sample)))
      {
        if Chain(c, first, lines).Some? {
          ChainPrefix(c, first, lines, i + 1);
        }
        return Err(Broken), last;
      }
      entries := entries + [parsed.value];
      last := parsed.value.sha256;
    }
    assert lines[..|lines|] == lines;
    return Ok(entries), last;
  }

  // The last hash pins down the whole history.

  ghost predicate Linked(c: Codec, first: Digest, entries: seq<Entry>) {
    forall k :: 0 <= k < |entries| ==> Links(c, first, entries[..k], entries[k])
  }

  lemma {:induction false} ChainLinked(c: Codec, first: Digest, lines: seq<Text>)
    requires Chain(c, first, lines).Some?
    ensures Linked(c, first, Chain(c, first, lines).value)
  {
    if lines != [] {
      var before := lines[..|lines| - 1];
      ChainLinked(c, first, before);
      var entries, all := Chain(c, first, before).value, Chain(c, first, lines).value;
      forall k | 0 <= k < |all| ensures Links(c, first, all[..k], all[k]) {
        assert all[..k] == entries[..k];
        assert k < |entries| ==> all[k] == entries[k];
        assert k == |entries| ==> entries[..k] == entries;
      }
    }
  }

  lemma SealIdentifies(c: Codec, a: Entry, b: Entry)
    requires Faithful(c) && Seal(c, a.seqNo, a.previous, a.sample) == Seal(c, b.seqNo, b.previous, b.sample)
    ensures a.seqNo == b.seqNo && a.previous == b.previous && a.sample == b.sample
  {
  }

  lemma SealNotGenesis(c: Codec, genesis: Text, e: Entry)
    requires Faithful(c) && GenesisApart(c, genesis)
    ensures Seal(c, e.seqNo, e.previous, e.sample) != c.hash(genesis)
  {
  }

  lemma {:induction false} LastHashIdentifies(c: Codec, genesis: Text, a: seq<Entry>, b: seq<Entry>)
    requires Faithful(c) && GenesisApart(c, genesis)
    requires Linked(c, c.hash(genesis), a) && Linked(c, c.hash(genesis), b)
    requires LastOf(c.hash(genesis), a) == LastOf(c.hash(genesis), b)
    ensures a == b
    decreases |a|
  {
    hide Faithful, GenesisApart, Seal, Linked, Links;
    var first := c.hash(genesis);
    LastSealed(c, genesis, a);
    LastSealed(c, genesis, b);
    if a != [] && b != [] {
      var x, y := a[|a| - 1], b[|b| - 1];
      SealIdentifies(c, x, y);
      FrontLinked(c, first, a);
      FrontLinked(c, first, b);
      LastHashIdentifies(c, genesis, a[..|a| - 1], b[..|b| - 1]);
      assert a == a[..|a| - 1] + [x] && b == b[..|b| - 1] + [y];
    }
  }

  /** The last entry of a chain is sealed over the hash before it, and its own is not the genesis hash. */
  lemma LastSealed(c: Codec, genesis: Text, a: seq<Entry>)
    requires Faithful(c) && GenesisApart(c, genesis) && Linked(c, c.hash(genesis), a)
    ensures a != [] ==>
              var e := a[|a| - 1];
              && e.previous == LastOf(c.hash(genesis), a[..|a| - 1]) && e.seqNo == |a| - 1
              && e.sha256 == Seal(c, e.seqNo, e.previous, e.sample) != c.hash(genesis)
  {
    hide Faithful, GenesisApart, Seal;
    if a != [] {
      assert Links(c, c.hash(genesis), a[..|a| - 1], a[|a| - 1]);
      SealNotGenesis(c, genesis, a[|a| - 1]);
    }
  }

  lemma FrontLinked(c: Codec, first: Digest, entries: seq<Entry>)
    requires Linked(c, first, entries) && entries != []
    ensures Linked(c, first, entries[..|entries| - 1])
  {
    var front := entries[..|entries| - 1];
    forall k | 0 <= k < |front| ensures Links(c, first, front[..k], front[k]) {
      assert front[..k] == entries[..k];
      assert Links(c, first, entries[..k], entries[k]);
    }
  }

  /** Two accepted journals have the same last hash exactly when their lines hold the same entries. */
  lemma TamperingShows(c: Codec, genesis: Text, raw: Text, raw': Text)
    requires Faithful(c) && GenesisApart(c, genesis)
    requires Load(c, c.hash(genesis), raw).Ok? && Load(c, c.hash(genesis), raw').Ok?
    ensures var first := c.hash(genesis);
      var a, b := Load(c, first, raw).value, Load(c, first, raw').value;
      LastOf(first, a) == LastOf(first, b) <==> a == b
  {
    var first := c.hash(genesis);
    ChainLinked(c, first, CompleteLines(raw));
    ChainLinked(c, first, CompleteLines(raw'));
    if LastOf(first, Load(c, first, raw).value) == LastOf(first, Load(c, first, raw').value) {
      LastHashIdentifies(c, genesis, Load(c, first, raw).value, Load(c, first, raw').value);
    }
  }

  // The receipt filter of collect.

  /** The rows that `known` has not credited yet; None when a row contradicts it. */
  ghost function Collect(known: map<Text, Digest>, rows: seq<Receipt>, startAt: int): Option<seq<Receipt>>
    decreases rows
  {
    if rows == [] then Some([])
    else
      var r := rows[0];
      var seen := r.runId in known;
      if seen && known[r.runId] != r.sha256 then None
      else
        match Collect(known[r.runId := r.sha256], rows[1..], startAt)
        case None => None
        case Some(rest) => Some(if !seen && r.finishedAt >= startAt then [r] + rest else rest)
  }

  ghost predicate UniqueRuns(receipts: seq<Receipt>) {
    forall i, j :: 0 <= i < j < |receipts| ==> receipts[i].runId != receipts[j].runId
  }

  /** A collection credits only runs that were not known, each once, each from the rows and late enough. */
  lemma {:induction false} CollectCredits(known: map<Text, Digest>, rows: seq<Receipt>, startAt: int)
    requires Collect(known, rows, startAt).Some?
    ensures var kept := Collect(known, rows, startAt).value;
      && UniqueRuns(kept)
      && forall r :: r in kept ==> r.runId !in known && r in rows && r.finishedAt >= startAt
    decreases rows
  {
    if rows != [] {
      CollectCredits(known[rows[0].runId := rows[0].sha256], rows[1..], startAt);
    }
  }

  /** And it misses none: a run that is unknown and only appears late enough is credited. */
  lemma {:induction false} CollectComplete(known: map<Text, Digest>, rows: seq<Receipt>, startAt: int, r: Receipt)
    requires Collect(known, rows, startAt).Some?
    requires r in rows && r.runId !in known
    requires forall q :: q in rows && q.runId == r.runId ==> q.finishedAt >= startAt
    ensures exists q :: q in Collect(known, rows, startAt).value && q.runId == r.runId && q.sha256 == r.sha256
    decreases rows
  {
    var known' := known[rows[0].runId := rows[0].sha256];
    if rows[0].runId == r.runId {
      CollectAgrees(known', rows[1..], startAt, r);
      assert rows[0] in Collect(known, rows, startAt).value;
    } else {
      CollectComplete(known', rows[1..], startAt, r);
      var q :| q in Collect(known', rows[1..], startAt).value && q.runId == r.runId && q.sha256 == r.sha256;
      assert q in Collect(known, rows, startAt).value;
    }
  }

  lemma {:induction false} CollectAgrees(known: map<Text, Digest>, rows: seq<Receipt>, startAt: int, r: Receipt)
    requires Collect(known, rows, startAt).Some? && r.runId in known
    ensures r in rows ==> r.sha256 == known[r.runId]
    decreases rows
  {
    if rows != [] {
      CollectAgrees(known[rows[0].runId := rows[0].sha256], rows[1..], startAt, r);
    }
  }

  // The collection in terms of the rows alone.

  /** No row contradicts a run that is credited, or an earlier row. */
  ghost predicate Agreed(credits: seq<Receipt>, rows: seq<Receipt>) {
    && (forall c, r :: c in credits && r in rows && c.runId == r.runId ==> c.sha256 == r.sha256)
    && (forall i, j :: 0 <= i < j < |rows| && rows[i].runId == rows[j].runId ==> rows[i].sha256 == rows[j].sha256)
  }

  /** Row `k` is the first of its run, and the run is not credited. */
  ghost predicate FirstSight(credits: seq<Receipt>, rows: seq<Receipt>, k: nat)
    requires k < |rows|
  {
    (forall c :: c in credits ==> c.runId != rows[k].runId) && forall j :: 0 <= j < k ==> rows[j].runId != rows[k].runId
  }

  /** From row `k` on: the rows that are the first of an uncredited run and finished late enough, in order. */
  ghost function NewRuns(credits: seq<Receipt>, rows: seq<Receipt>, startAt: int, k: nat): seq<Receipt>
    requires k <= |rows|
    decreases |rows| - k
  {
    if k == |rows| then []
    else (if FirstSight(credits, rows, k) && rows[k].finishedAt >= startAt then [rows[k]] else []) + NewRuns(credits, rows, startAt, k + 1)
  }

  /** `known` holds the credited runs and those of the first `k` rows, each with its digest. */
  ghost predicate Remembers(known: map<Text, Digest>, credits: seq<Receipt>, rows: seq<Receipt>, k: nat)
    requires k <= |rows|
  {
    && (forall id :: id in known <==> (exists c :: c in credits && c.runId == id) || exists j :: 0 <= j < k && rows[j].runId == id)
    && (forall c :: c in credits ==> c.runId in known && known[c.runId] == c.sha256)
    && (forall j :: 0 <= j < k ==> rows[j].runId in known && known[rows[j].runId] == rows[j].sha256)
  }

  ghost predicate AgreedFrom(credits: seq<Receipt>, rows: seq<Receipt>, k: nat) {
    forall j :: k <= j < |rows| ==> RowAgrees(credits, rows, j)
  }

  ghost predicate RowAgrees(credits: seq<Receipt>, rows: seq<Receipt>, j: int)
    requires 0 <= j < |rows|
  {
    && (forall c :: c in credits && c.runId == rows[j].runId ==> c.sha256 == rows[j].sha256)
    && (forall i :: 0 <= i < j && rows[i].runId == rows[j].runId ==> rows[i].sha256 == rows[j].sha256)
  }

  lemma RememberNext(known: map<Text, Digest>, credits: seq<Receipt>, rows: seq<Receipt>, k: nat)
    requires k < |rows| && Remembers(known, credits, rows, k)
    ensures rows[k].runId in known <==> !FirstSight(credits, rows, k)
    ensures rows[k].runId in known ==> (known[rows[k].runId] == rows[k].sha256 <==> RowAgrees(credits, rows, k))
    ensures rows[k].runId !in known ==> RowAgrees(credits, rows, k)
    ensures RowAgrees(credits, rows, k) ==> Remembers(known[rows[k].runId := rows[k].sha256], credits, rows, k + 1)
  {
    var id := rows[k].runId;
    if id in known {
      if c :| c in credits && c.runId == id {
        assert known[id] == c.sha256;
      } else {
        var j :| 0 <= j < k && rows[j].runId == id;
        assert known[id] == rows[j].sha256;
      }
    }
  }

  lemma {:induction false} CollectFrom(known: map<Text, Digest>, credits: seq<Receipt>, rows: seq<Receipt>, startAt: int, k: nat)
    requires k <= |rows| && Remembers(known, credits, rows, k)
    ensures Collect(known, rows[k..], startAt) ==
            if AgreedFrom(credits, rows, k) then Some(NewRuns(credits, rows, startAt, k)) else None
    decreases |rows| - k
  {
    hide Collect, Remembers, FirstSight, RowAgrees;
    if k == |rows| {
      NoRows(startAt);
    } else {
      RememberNext(known, credits, rows, k);
      CollectStep(known, rows[k..], startAt);
      assert rows[k..][0] == rows[k] && rows[k..][1..] == rows[k + 1..];
      if RowAgrees(credits, rows, k) {
        CollectFrom(known[rows[k].runId := rows[k].sha256], credits, rows, startAt, k + 1);
      }
    }
  }

  lemma AgreedMeaning(credits: seq<Receipt>, rows: seq<Receipt>)
    ensures AgreedFrom(credits, rows, 0) <==> Agreed(credits, rows)
  {
    if Agreed(credits, rows) {
      forall j | 0 <= j < |rows| ensures RowAgrees(credits, rows, j) {
        assert rows[j] in rows;
      }
    }
    if AgreedFrom(credits, rows, 0) {
      forall c, r | c in credits && r in rows && c.runId == r.runId ensures c.sha256 == r.sha256 {
        var j :| 0 <= j < |rows| && rows[j] == r;
        assert RowAgrees(credits, rows, j);
      }
      forall i, j | 0 <= i < j < |rows| && rows[i].runId == rows[j].runId ensures rows[i].sha256 == rows[j].sha256 {
        assert RowAgrees(credits, rows, j);
      }
    }
  }

  lemma {:induction false} KnownRemembers(credits: seq<Receipt>, rows: seq<Receipt>)
    requires UniqueRuns(credits)
    ensures Remembers(Known(credits), credits, rows, 0)
  {
    hide Remembers;
    if credits == [] {
      NothingRemembered(rows);
    } else {
      var front, last := credits[..|credits| - 1], credits[|credits| - 1];
      KnownRemembers(front, rows);
      assert credits == front + [last];
      RememberCredit(Known(front), front, last, rows);
    }
  }

  lemma NothingRemembered(rows: seq<Receipt>)
    ensures Remembers(map[], [], rows, 0)
  {
  }

  lemma RememberCredit(known: map<Text, Digest>, front: seq<Receipt>, last: Receipt, rows: seq<Receipt>)
    requires UniqueRuns(front + [last]) && Remembers(known, front, rows, 0)
    ensures Remembers(known[last.runId := last.sha256], front + [last], rows, 0)
  {
    var credits, next := front + [last], known[last.runId := last.sha256];
    forall c | c in front ensures c.runId != last.runId {
      var k :| 0 <= k < |front| && front[k] == c;
      assert credits[k] == c && credits[|front|] == last;
    }
    forall id ensures id in next <==> exists c :: c in credits && c.runId == id {
      if id in known {
        var c :| c in front && c.runId == id;
        assert c in credits;
      }
      assert last in credits;
    }
  }

  /** The collection refuses exactly rows that contradict the credits or each other, and otherwise credits exactly the new runs. */
  lemma CollectExactly(credits: seq<Receipt>, rows: seq<Receipt>, startAt: int)
    requires UniqueRuns(credits)
    ensures Collect(Known(credits), rows, startAt) ==
            if Agreed(credits, rows) then Some(NewRuns(credits, rows, startAt, 0)) else None
  {
    KnownRemembers(credits, rows);
    CollectFrom(Known(credits), credits, rows, startAt, 0);
    AgreedMeaning(credits, rows);
    assert rows[0..] == rows;
  }

  /** A run is among the new ones exactly when its first row is there, late enough, and it is not credited. */
  lemma {:induction false} NewRunsAre(credits: seq<Receipt>, rows: seq<Receipt>, startAt: int, k: nat)
    requires k <= |rows|
    ensures forall r :: r in NewRuns(credits, rows, startAt, k) <==>
              exists j: nat :: k <= j < |rows| && rows[j] == r && FirstSight(credits, rows, j) && r.finishedAt >= startAt
    decreases |rows| - k
  {
    hide FirstSight;
    if k < |rows| {
      NewRunsAre(credits, rows, startAt, k + 1);
    }
  }

  ghost function Onto(kept: seq<Receipt>, r: Option<seq<Receipt>>): Option<seq<Receipt>> {
    match r
    case None => None
    case Some(rest) => Some(kept + rest)
  }

  method CollectReceipts(known0: map<Text, Digest>, rows: seq<Receipt>, startAt: int) returns (r: Option<seq<Receipt>>)
    ensures r == Collect(known0, rows, startAt)
  {
    hide Collect, Onto;
    var known := known0;
    var kept: seq<Receipt> := [];
    assert rows[0..] == rows && rows[|rows|..] == [];
    OntoNothing(Collect(known, rows, startAt));
    NoRows(startAt);
    for i := 0 to |rows|
      invariant Collect(known0, rows, startAt) == Onto(kept, Collect(known, rows[i..], startAt))
    {
      var row := rows[i];
      assert rows[i..][0] == row && rows[i..][1..] == rows[i + 1..];
      CollectStep(known, rows[i..], startAt);
      OntoStep(kept, [row], Collect(known[row.runId := row.sha256], rows[i + 1..], startAt));
      OntoStep(kept, [], Collect(known[row.runId := row.sha256], rows[i + 1..], startAt));
      var seen := row.runId in known;
      if seen && known[row.runId] != row.sha256 {
        return None;
      }
      known := known[row.runId := row.sha256];
      if !seen && row.finishedAt >= startAt {
        kept := kept + [row];
      }
    }
    OntoStep([], kept, Some([]));
    return Some(kept);
  }

  lemma OntoNothing(r: Option<seq<Receipt>>)
    ensures Onto([], r) == r
  {
    if r.Some? {
      assert [] + r.value == r.value;
    }
  }

  lemma NoRows(startAt: int)
    ensures forall known :: Collect(known, [], startAt) == Some([])
    ensures forall kept :: Onto(kept, Some([])) == Some(kept) && Onto(kept, None) == None
  {
    forall kept: seq<Receipt> ensures Onto(kept, Some([])) == Some(kept) {
      assert kept + [] == kept;
    }
  }

  lemma OntoStep(kept: seq<Receipt>, more: seq<Receipt>, r: Option<seq<Receipt>>)
    ensures Onto(kept, Onto(more, r)) == Onto(kept + more, r) && (more == [] ==> kept + more == kept)
  {
    if r.Some? {
      assert kept + (more + r.value) == kept + more + r.value;
    }
  }

  lemma CollectStep(known: map<Text, Digest>, rows: seq<Receipt>, startAt: int)
    requires rows != []
    ensures var r, seen := rows[0], rows[0].runId in known;
      Collect(known, rows, startAt) ==
        if seen && known[r.runId] != r.sha256 then None
        else Onto(if !seen && r.finishedAt >= startAt then [r] else [], Collect(known[r.runId := r.sha256], rows[1..], startAt))
  {
    var rest := Collect(known[rows[0].runId := rows[0].sha256], rows[1..], startAt);
    if rest.Some? {
      assert [] + rest.value == rest.value;
    }
  }

  ghost function Credits(entries: seq<Entry>): seq<Receipt> {
    if entries == [] then [] else Credits(entries[..|entries| - 1]) + entries[|entries| - 1].sample.receipts
  }

  ghost function Known(receipts: seq<Receipt>): (known: map<Text, Digest>)
    ensures forall r :: r in receipts ==> r.runId in known
  {
    if receipts == [] then map[]
    else Known(receipts[..|receipts| - 1])[receipts[|receipts| - 1].runId := receipts[|receipts| - 1].sha256]
  }

  // The samplers. Any number of processes take steps in any order; each may crash at any step.

  type Pid = nat

  datatype Phase =
    | Idle
    | Locked
    | Loaded(entries: seq<Entry>)
    | Writing(entry: Entry, written: nat)
    | Releasing
    | Dead

  datatype Config = Config(codec: Codec, genesis: Text, startAt: int)

  /** The journal file, the lock file's owner, and what each process is about. */
  datatype State = State(journal: Text, lock: Option<Pid>, phases: map<Pid, Phase>)

  ghost function First(g: Config): Digest { g.codec.hash(g.genesis) }

  ghost function PhaseOf(s: State, p: Pid): Phase {
    if p in s.phases then s.phases[p] else Idle
  }

  ghost function LineText(c: Codec, e: Entry): Text { c.line(e) + [LINE_FEED] }

  /** What a collection makes of the run journal's rows: a rejected one, or None, credits nothing. */
  ghost function Sampled(entries: seq<Entry>, rows: Option<seq<Receipt>>, rest: Text, startAt: int): Sample {
    var kept := if rows.None? then None else Collect(Known(Credits(entries)), rows.value, startAt);
    Sample(if kept.None? then [] else kept.value, rest)
  }

  ghost function NextEntry(g: Config, entries: seq<Entry>, sample: Sample): Entry {
    var previous := LastOf(First(g), entries);
    Entry(|entries|, previous, sample, Seal(g.codec, |entries|, previous, sample))
  }

  datatype Step =
    | Acquire                                              // create the lock file, exclusively
    | LoadStep
    | Begin(rows: Option<seq<Receipt>>, rest: Text)        // collect and print; refuse past the byte limit
    | Write(units: nat)                                    // some more of the line reaches the file
    | WriteFails
    | Finish
    | Release                                              // unlink the lock file
    | Crash
    | RemoveLock                                           // an operator removes the lock file of a dead process

  ghost predicate Enabled(g: Config, s: State, p: Pid, step: Step) {
    var phase := PhaseOf(s, p);
    match step
    case Acquire => phase.Idle? && s.lock.None?
    case LoadStep => phase.Locked?
    case Begin(_, _) => phase.Loaded?
    case Write(units) => phase.Writing? && phase.written + units <= |LineText(g.codec, phase.entry)|
    case WriteFails => phase.Writing?
    case Finish => phase.Writing? && phase.written == |LineText(g.codec, phase.entry)|
    case Release => phase.Releasing?
    case Crash => true
    case RemoveLock => phase.Dead? && s.lock == Some(p)
  }

  ghost function Take(g: Config, s: State, p: Pid, step: Step): State
    requires Enabled(g, s, p, step)
  {
    var phase := PhaseOf(s, p);
    match step
    case Acquire => s.(lock := Some(p), phases := s.phases[p := Locked])
    case LoadStep =>
      (match Load(g.codec, First(g), s.journal)
       case Ok(entries) => s.(phases := s.phases[p := Loaded(entries)])
       case Err(_) => s.(phases := s.phases[p := Releasing]))
    case Begin(rows, rest) =>
      var entry := NextEntry(g, phase.entries, Sampled(phase.entries, rows, rest, g.startAt));
      if Utf8Length(s.journal) + Utf8Length(LineText(g.codec, entry)) > MAX_BYTES then s.(phases := s.phases[p := Releasing])
      else s.(phases := s.phases[p := Writing(entry, 0)])
    case Write(units) =>
      var written := phase.written + units;
      s.(journal := s.journal + LineText(g.codec, phase.entry)[phase.written..written],
         phases := s.phases[p := Writing(phase.entry, written)])
    case WriteFails => s.(phases := s.phases[p := Releasing])
    case Finish => s.(phases := s.phases[p := Releasing])
    case Release => s.(lock := None, phases := s.phases[p := Idle])
    case Crash => s.(phases := s.phases[p := Dead])
    case RemoveLock => s.(lock := None)
  }

  ghost predicate Next(g: Config, s: State, s': State) {
    exists p: Pid, step :: Enabled(g, s, p, step) && s' == Take(g, s, p, step)
  }

  const START := State([], None, map[])

  ghost predicate IsRun(g: Config, run: seq<State>) {
    && run != [] && run[0] == START
    && forall i :: 0 <= i < |run| - 1 ==> Next(g, run[i], run[i + 1])
  }

  // The invariant.

  ghost predicate HoldsLock(phase: Phase) { phase.Locked? || phase.Loaded? || phase.Writing? || phase.Releasing? }

  /** The whole entries on file. */
  ghost function Entries(g: Config, s: State): Option<seq<Entry>> {
    Chain(g.codec, First(g), CompleteLines(s.journal))
  }

  ghost predicate CanFollow(g: Config, entries: seq<Entry>, e: Entry) {
    Links(g.codec, First(g), entries, e) && UniqueRuns(Credits(entries + [e]))
  }

  /** What a process in `phase` relies on. */
  ghost predicate PhaseOk(g: Config, s: State, phase: Phase)
    requires Entries(g, s).Some?
  {
    match phase
    case Loaded(entries) => Partial(s.journal) == [] && entries == Entries(g, s).value
    case Writing(e, written) =>
      var line := LineText(g.codec, e);
      && written <= |line|
      && (written < |line| ==> Partial(s.journal) == line[..written] && CanFollow(g, Entries(g, s).value, e))
      && (written == |line| ==> Partial(s.journal) == [])
    case _ => true
  }

  ghost predicate ProcessOk(g: Config, s: State, p: Pid)
    requires Entries(g, s).Some?
  {
    PhaseOk(g, s, PhaseOf(s, p)) && (HoldsLock(PhaseOf(s, p)) ==> s.lock == Some(p))
  }

  ghost predicate Inv(g: Config, s: State) {
    && Entries(g, s).Some? && UniqueRuns(Credits(Entries(g, s).value))
    && (forall p: Pid :: ProcessOk(g, s, p))
  }

  lemma CreditsPush(entries: seq<Entry>, e: Entry)
    ensures Credits(entries + [e]) == Credits(entries) + e.sample.receipts
  {
    assert (entries + [e])[..|entries|] == entries;
  }

  lemma BeginFollows(g: Config, entries: seq<Entry>, rows: Option<seq<Receipt>>, rest: Text)
    requires UniqueRuns(Credits(entries))
    ensures CanFollow(g, entries, NextEntry(g, entries, Sampled(entries, rows, rest, g.startAt)))
  {
    var credits := Credits(entries);
    if rows.Some? && Collect(Known(credits), rows.value, g.startAt).Some? {
      CollectCredits(Known(credits), rows.value, g.startAt);
    }
    var sample := Sampled(entries, rows, rest, g.startAt);
    assert forall r :: r in sample.receipts ==> r.runId !in Known(credits);
    CreditsPush(entries, NextEntry(g, entries, sample));
    var all := credits + sample.receipts;
    forall i, j | 0 <= i < j < |all| ensures all[i].runId != all[j].runId {
      if i < |credits| <= j {
        assert all[i] in credits && all[j] in sample.receipts;
      }
    }
  }

  /** What an entry credits: the new runs, if the rows are there and agree, and otherwise nothing. */
  ghost predicate CreditsNew(e: Entry, credits: seq<Receipt>, rows: Option<seq<Receipt>>, startAt: int) {
    e.sample.receipts == if rows.Some? && Agreed(credits, rows.value) then NewRuns(credits, rows.value, startAt, 0) else []
  }

  lemma SampledCredits(g: Config, entries: seq<Entry>, rows: Option<seq<Receipt>>, rest: Text)
    requires UniqueRuns(Credits(entries))
    ensures var e := NextEntry(g, entries, Sampled(entries, rows, rest, g.startAt));
      CreditsNew(e, Credits(entries), rows, g.startAt) && e.sample.rest == rest
  {
    hide Collect, Known, NewRuns, Agreed;
    if rows.Some? {
      CollectExactly(Credits(entries), rows.value, g.startAt);
    }
  }

  /**
   A sampler that begins to write has the entry that follows what is on file, credits exactly the new runs of the rows it was
   given, and keeps within the byte limit.
   */
  lemma BeginExactly(g: Config, s: State, p: Pid, rows: Option<seq<Receipt>>, rest: Text)
    requires Inv(g, s) && Enabled(g, s, p, Begin(rows, rest))
    ensures var s' := Take(g, s, p, Begin(rows, rest));
      PhaseOf(s', p).Writing? ==>
        var e := PhaseOf(s', p).entry;
        && PhaseOf(s', p).written == 0 && CreditsNew(e, Credits(Entries(g, s).value), rows, g.startAt)
        && e.sample.rest == rest && e.seqNo == |Entries(g, s).value| && e.previous == LastOf(First(g), Entries(g, s).value)
        && e.sha256 == g.codec.hash(g.codec.payload(e.seqNo, e.previous, e.sample))
        && Utf8Length(s.journal) + Utf8Length(g.codec.line(e) + [LINE_FEED]) <= MAX_BYTES
  {
    hide Chain, CompleteLines, Partial, Credits, CreditsNew, Sampled, UniqueRuns;
    assert ProcessOk(g, s, p);
    SampledCredits(g, PhaseOf(s, p).entries, rows, rest);
  }

  ghost function AfterWrite(g: Config, s: State, e: Entry, written: nat, units: nat): State
    requires written + units <= |LineText(g.codec, e)|
  {
    s.(journal := s.journal + LineText(g.codec, e)[written..written + units])
  }

  /** Writing part of a line leaves the whole entries alone. */
  lemma WritePart(g: Config, s: State, e: Entry, written: nat, units: nat)
    requires Faithful(g.codec) && Entries(g, s).Some?
    requires written + units < |LineText(g.codec, e)| && PhaseOk(g, s, Writing(e, written))
    ensures var s' := AfterWrite(g, s, e, written, units);
      Entries(g, s') == Entries(g, s) && PhaseOk(g, s', Writing(e, written + units))
  {
    hide Chain;
    var line, text := LineText(g.codec, e), g.codec.line(e);
    assert OneLine(text) && g.codec.parse(text) == Some(e);
    var more := line[written..written + units];
    assert more == text[written..written + units];
    AppendPlain(s.journal, more);
    assert line[..written] + more == line[..written + units];
  }

  lemma ChainPush(c: Codec, first: Digest, lines: seq<Text>, text: Text, e: Entry)
    requires Chain(c, first, lines).Some? && c.parse(text) == Some(e) && Links(c, first, Chain(c, first, lines).value, e)
    ensures Chain(c, first, lines + [text]) == Some(Chain(c, first, lines).value + [e])
  {
    assert (lines + [text])[..|lines|] == lines;
  }

  lemma LineCompleted(journal: Text, text: Text, written: nat)
    requires OneLine(text) && written <= |text| && Partial(journal) == text[..written]
    ensures var journal' := journal + (text + [LINE_FEED])[written..];
      CompleteLines(journal') == CompleteLines(journal) + [text] && Partial(journal') == []
  {
    hide CompleteLines, Partial;
    AppendLine(journal, text[written..]);
    assert journal + (text + [LINE_FEED])[written..] == journal + text[written..] + [LINE_FEED];
    assert text[..written] + text[written..] == text;
  }

  /** The line feed turns the line into one more entry. */
  lemma WriteRest(g: Config, s: State, e: Entry, written: nat)
    requires Faithful(g.codec) && Entries(g, s).Some?
    requires written < |LineText(g.codec, e)| && PhaseOk(g, s, Writing(e, written))
    ensures var s' := AfterWrite(g, s, e, written, |LineText(g.codec, e)| - written);
      && CanFollow(g, Entries(g, s).value, e) && Entries(g, s') == Some(Entries(g, s).value + [e])
      && PhaseOk(g, s', Writing(e, |LineText(g.codec, e)|))
  {
    hide Chain, CompleteLines, Partial, Links, Credits;
    var line, text := LineText(g.codec, e), g.codec.line(e);
    assert OneLine(text) && g.codec.parse(text) == Some(e);
    assert line[..written] == text[..written];
    assert line[written..|line|] == line[written..];
    LineCompleted(s.journal, text, written);
    ChainPush(g.codec, First(g), CompleteLines(s.journal), text, e);
  }

  lemma WriteExtends(g: Config, s: State, e: Entry, written: nat, units: nat)
    requires Faithful(g.codec) && Entries(g, s).Some?
    requires written + units <= |LineText(g.codec, e)| && PhaseOk(g, s, Writing(e, written))
    ensures var s' := AfterWrite(g, s, e, written, units);
      && Entries(g, s').Some?
      && (Entries(g, s').value == Entries(g, s).value ||
          (CanFollow(g, Entries(g, s).value, e) && Entries(g, s').value == Entries(g, s).value + [e]))
      && PhaseOk(g, s', Writing(e, written + units))
  {
    if written + units < |LineText(g.codec, e)| {
      WritePart(g, s, e, written, units);
    } else if written < |LineText(g.codec, e)| {
      WriteRest(g, s, e, written);
    } else {
      assert s.journal + LineText(g.codec, e)[written..written + units] == s.journal;
    }
  }

  lemma WritePreservesCredits(g: Config, s: State, s': State, e: Entry)
    requires Entries(g, s).Some? && Entries(g, s').Some? && UniqueRuns(Credits(Entries(g, s).value))
    requires Entries(g, s').value == Entries(g, s).value ||
             (CanFollow(g, Entries(g, s).value, e) && Entries(g, s').value == Entries(g, s).value + [e])
    ensures UniqueRuns(Credits(Entries(g, s').value)) && Entries(g, s).value <= Entries(g, s').value
  {
  }

  /** A process that does not hold the lock relies on nothing. */
  lemma Bystander(g: Config, s: State, s': State, p: Pid, q: Pid)
    requires Entries(g, s).Some? && Entries(g, s').Some? && ProcessOk(g, s, p) && ProcessOk(g, s, q)
    requires p != q && HoldsLock(PhaseOf(s, p)) && PhaseOf(s', q) == PhaseOf(s, q)
    ensures ProcessOk(g, s', q)
  {
  }

  lemma WriteKeepsInv(g: Config, s: State, p: Pid, units: nat)
    requires Faithful(g.codec) && Inv(g, s) && Enabled(g, s, p, Write(units))
    ensures var s' := Take(g, s, p, Write(units));
      Inv(g, s') && s.journal <= s'.journal && Entries(g, s).value <= Entries(g, s').value
  {
    hide Faithful, Chain, Credits, CompleteLines, Partial, LineText, CanFollow;
    var phase := PhaseOf(s, p);
    assert ProcessOk(g, s, p);
    WriteExtends(g, s, phase.entry, phase.written, units);
    var s', written := Take(g, s, p, Write(units)), AfterWrite(g, s, phase.entry, phase.written, units);
    assert s'.journal == written.journal;
    assert Entries(g, s') == Entries(g, written);
    WritePreservesCredits(g, s, s', phase.entry);
    forall q: Pid ensures ProcessOk(g, s', q) {
      if q != p {
        Bystander(g, s, s', p, q);
      }
    }
  }

  lemma StepKeepsInv(g: Config, s: State, p: Pid, step: Step)
    requires Faithful(g.codec) && Inv(g, s) && Enabled(g, s, p, step)
    ensures var s' := Take(g, s, p, step);
      && Inv(g, s')
      && s.journal <= s'.journal && Entries(g, s).value <= Entries(g, s').value
  {
    if step.Write? {
      WriteKeepsInv(g, s, p, step.units);
    } else {
      var s' := Take(g, s, p, step);
      SameJournal(g, s, p, step);
      forall q: Pid ensures ProcessOk(g, s', q) {
        assert ProcessOk(g, s, p) && ProcessOk(g, s, q);
        if q == p {
          OwnStep(g, s, p, step);
        } else {
          OtherStep(g, s, p, step, q);
        }
      }
      hide Faithful, Credits, Take, Enabled, Entries, ProcessOk;
    }
  }

  lemma SameJournal(g: Config, s: State, p: Pid, step: Step)
    requires Enabled(g, s, p, step) && !step.Write?
    ensures Take(g, s, p, step).journal == s.journal && Entries(g, Take(g, s, p, step)) == Entries(g, s)
  {
    hide Chain, CompleteLines, LineText, Sampled;
  }

  /** A step other than a write changes no one else's phase, and takes the lock only when it is free. */
  lemma OtherStep(g: Config, s: State, p: Pid, step: Step, q: Pid)
    requires Entries(g, s).Some? && ProcessOk(g, s, p) && ProcessOk(g, s, q) && Enabled(g, s, p, step) && !step.Write? && p != q
    ensures Entries(g, Take(g, s, p, step)).Some? && ProcessOk(g, Take(g, s, p, step), q)
  {
    SameJournal(g, s, p, step);
    hide Chain, CompleteLines, Partial, LineText, Sampled, CanFollow, Entries;
    assert PhaseOf(Take(g, s, p, step), q) == PhaseOf(s, q);
  }

  lemma OwnStep(g: Config, s: State, p: Pid, step: Step)
    requires Entries(g, s).Some? && UniqueRuns(Credits(Entries(g, s).value)) && ProcessOk(g, s, p)
    requires Enabled(g, s, p, step) && !step.Write?
    ensures Entries(g, Take(g, s, p, step)).Some? && ProcessOk(g, Take(g, s, p, step), p)
  {
    SameJournal(g, s, p, step);
    var s', phase := Take(g, s, p, step), PhaseOf(s, p);
    if step.Begin? {
      BeginFollows(g, phase.entries, step.rows, step.rest);
      if PhaseOf(s', p).Writing? {
        WrittenNothing(g, s, s', p, step);
      }
    } else if step.LoadStep? {
      LoadSees(g, s);
    }
    hide Chain, Credits, CompleteLines, Partial, LineText, CanFollow, Sampled, Entries, Load, NextEntry, UniqueRuns;
  }

  /** What a load accepts has no partial line and is what is on file. */
  lemma LoadSees(g: Config, s: State)
    ensures Load(g.codec, First(g), s.journal).Ok? ==>
              Partial(s.journal) == [] && Entries(g, s) == Some(Load(g.codec, First(g), s.journal).value)
  {
    hide Chain, CompleteLines, Partial;
  }

  lemma WrittenNothing(g: Config, s: State, s': State, p: Pid, step: Step)
    requires Enabled(g, s, p, step) && s' == Take(g, s, p, step) && PhaseOf(s', p).Writing? && step.Begin?
    ensures PhaseOf(s', p).written == 0 < |LineText(g.codec, PhaseOf(s', p).entry)|
    ensures LineText(g.codec, PhaseOf(s', p).entry)[..0] == []
  {
  }

  lemma StartInv(g: Config)
    ensures Inv(g, START) && Entries(g, START) == Some([])
  {
    assert CompleteLines([]) == [];
  }

  lemma {:induction false} RunInv(g: Config, run: seq<State>, i: nat)
    requires Faithful(g.codec) && IsRun(g, run) && i < |run|
    ensures Inv(g, run[i])
  {
    hide Faithful;
    if i == 0 {
      StartInv(g);
    } else {
      RunInv(g, run, i - 1);
      assert Next(g, run[i - 1], run[i - 1 + 1]);
      var p: Pid, step :| Enabled(g, run[i - 1], p, step) && run[i] == Take(g, run[i - 1], p, step);
      StepKeepsInv(g, run[i - 1], p, step);
    }
  }

  lemma PrefixTransitive<T>(a: seq<T>, b: seq<T>, c: seq<T>)
    requires a <= b <= c
    ensures a <= c
  {
  }

  lemma RunStep(g: Config, run: seq<State>, j: nat)
    requires Faithful(g.codec) && IsRun(g, run) && 0 < j < |run|
    ensures Entries(g, run[j - 1]).Some? && Entries(g, run[j]).Some?
    ensures run[j - 1].journal <= run[j].journal && Entries(g, run[j - 1]).value <= Entries(g, run[j]).value
  {
    hide Faithful;
    RunInv(g, run, j - 1);
    assert Next(g, run[j - 1], run[j - 1 + 1]);
    var p: Pid, step :| Enabled(g, run[j - 1], p, step) && run[j] == Take(g, run[j - 1], p, step);
    StepKeepsInv(g, run[j - 1], p, step);
  }

  // What holds of every run.

  lemma {:induction false} GrowsTo(g: Config, run: seq<State>, i: nat, j: nat)
    requires Faithful(g.codec) && IsRun(g, run) && i <= j < |run|
    ensures run[i].journal <= run[j].journal
    ensures Entries(g, run[i]).Some? && Entries(g, run[j]).Some?
    ensures Entries(g, run[i]).value <= Entries(g, run[j]).value
    decreases j
  {
    hide *;
    RunEntries(g, run, j);
    if i < j {
      GrowsTo(g, run, i, j - 1);
      RunStep(g, run, j);
      PrefixTransitive(run[i].journal, run[j - 1].journal, run[j].journal);
      PrefixTransitive(Entries(g, run[i]).value, Entries(g, run[j - 1]).value, Entries(g, run[j]).value);
    }
  }

  lemma RunEntries(g: Config, run: seq<State>, j: nat)
    requires Faithful(g.codec) && IsRun(g, run) && j < |run|
    ensures Entries(g, run[j]).Some?
    ensures Linked(g.codec, First(g), Entries(g, run[j]).value)
    ensures UniqueRuns(Credits(Entries(g, run[j]).value))
  {
    hide Faithful, IsRun, Chain, Linked, UniqueRuns, Credits;
    RunInv(g, run, j);
    ChainLinked(g.codec, First(g), CompleteLines(run[j].journal));
  }

  /** The journal only grows, by whole linked entries, and never credits a run twice. */
  lemma JournalOnlyGrows(g: Config, run: seq<State>, i: nat, j: nat)
    requires Faithful(g.codec) && IsRun(g, run) && i <= j < |run|
    ensures run[i].journal <= run[j].journal
    ensures Entries(g, run[i]).Some? && Entries(g, run[j]).Some?
    ensures Entries(g, run[i]).value <= Entries(g, run[j]).value
    ensures Linked(g.codec, First(g), Entries(g, run[j]).value)
    ensures UniqueRuns(Credits(Entries(g, run[j]).value))
  {
    hide *;
    GrowsTo(g, run, i, j);
    RunEntries(g, run, j);
  }

  /**
   A reader takes no lock: it may see any front part of the file. It refuses what it sees exactly when that is torn or
   past the limits, never as broken; otherwise it gets a valid chain that is a front part of the chain on file then and
   ever after.
   */
  lemma ReaderSeesPrefix(g: Config, run: seq<State>, i: nat, j: nat, seen: nat)
    requires Faithful(g.codec) && IsRun(g, run) && i <= j < |run| && seen <= |run[i].journal|
    ensures Entries(g, run[j]).Some?
    ensures var r := Load(g.codec, First(g), run[i].journal[..seen]);
      && (r.Ok? <==> Partial(run[i].journal[..seen]) == [] && WithinLimits(run[i].journal[..seen]))
      && (r.Err? ==> r.error.Torn? || r.error.RowLimit? || r.error.ByteLimit?)
      && (r.Ok? ==> r.value <= Entries(g, run[j]).value && Linked(g.codec, First(g), r.value) && UniqueRuns(Credits(r.value)))
  {
    hide Faithful, IsRun, Chain, CompleteLines, Partial, Linked, Credits;
    JournalOnlyGrows(g, run, i, j);
    var journal := run[i].journal;
    PrefixLines(journal, seen);
    var lines, all := CompleteLines(journal[..seen]), CompleteLines(journal);
    assert lines == all[..|lines|];
    ChainPrefix(g.codec, First(g), all, |lines|);
    ChainLinked(g.codec, First(g), lines);
    CreditsPrefix(Entries(g, run[i]).value, |lines|);
    JournalOnlyGrows(g, run, i, i);
  }

  lemma {:induction false} CreditsPrefix(entries: seq<Entry>, k: nat)
    requires k <= |entries|
    ensures Credits(entries[..k]) <= Credits(entries)
  {
    if k < |entries| {
      CreditsPrefix(entries[..|entries| - 1], k);
      assert entries[..|entries| - 1][..k] == entries[..k];
    } else {
      assert entries[..k] == entries;
    }
  }

  /** Any two readers, at any two times, see chains of which one continues the other: the log never forks. */
  lemma NoFork(g: Config, run: seq<State>, i: nat, j: nat, seen: nat, seen': nat)
    requires Faithful(g.codec) && IsRun(g, run) && i <= j < |run|
    requires seen <= |run[i].journal| && seen' <= |run[j].journal|
    ensures var a := Load(g.codec, First(g), run[i].journal[..seen]);
      var b := Load(g.codec, First(g), run[j].journal[..seen']);
      a.Ok? && b.Ok? ==> a.value <= b.value || b.value <= a.value
  {
    hide Faithful;
    ReaderSeesPrefix(g, run, i, j, seen);
    ReaderSeesPrefix(g, run, j, j, seen');
  }

  /** A torn line that nobody is writing any more. */
  ghost predicate Frozen(s: State) {
    Partial(s.journal) != [] && forall p: Pid :: !PhaseOf(s, p).Writing?
  }

  lemma FrozenStep(g: Config, s: State, p: Pid, step: Step)
    requires Inv(g, s) && Enabled(g, s, p, step) && Frozen(s)
    ensures Take(g, s, p, step).journal == s.journal && Frozen(Take(g, s, p, step))
  {
    hide Chain, Credits, CompleteLines, Partial, Links;
    var s' := Take(g, s, p, step);
    assert ProcessOk(g, s, p);
    assert !PhaseOf(s, p).Loaded? && !PhaseOf(s, p).Writing?;
    forall q: Pid ensures !PhaseOf(s', q).Writing? {
      assert q != p ==> PhaseOf(s', q) == PhaseOf(s, q);
    }
  }

  /** After a torn write the journal stays as it is, whoever samples next. */
  lemma {:induction false} TornStaysTorn(g: Config, run: seq<State>, i: nat, j: nat)
    requires Faithful(g.codec) && IsRun(g, run) && i <= j < |run| && Frozen(run[i])
    ensures run[j].journal == run[i].journal && Frozen(run[j])
    ensures Load(g.codec, First(g), run[j].journal).Err?
    decreases j
  {
    hide Faithful, Chain, Inv, Take, Enabled, CompleteLines, Partial;
    if i < j {
      TornStaysTorn(g, run, i, j - 1);
      RunInv(g, run, j - 1);
      assert Next(g, run[j - 1], run[j - 1 + 1]);
      var p: Pid, step :| Enabled(g, run[j - 1], p, step) && run[j] == Take(g, run[j - 1], p, step);
      FrozenStep(g, run[j - 1], p, step);
    }
  }

  /** At most one process is past the creation of the lock file. */
  lemma MutualExclusion(g: Config, run: seq<State>, i: nat, p: Pid, q: Pid)
    requires Faithful(g.codec) && IsRun(g, run) && i < |run|
    requires HoldsLock(PhaseOf(run[i], p)) && HoldsLock(PhaseOf(run[i], q))
    ensures p == q
  {
    hide Faithful;
    RunInv(g, run, i);
    assert ProcessOk(g, run[i], p) && ProcessOk(g, run[i], q);
  }

  // The file never grows past its limit.

  /** What `p` has written so far stands at the end of the file, and there is room for the rest. */
  ghost predicate HasRoom(g: Config, s: State, p: Pid) {
    PhaseOf(s, p).Writing? ==>
      var line, w := LineText(g.codec, PhaseOf(s, p).entry), PhaseOf(s, p).written;
      && w <= |line| && w <= |s.journal| && s.journal[|s.journal| - w..] == line[..w]
      && Utf8Length(s.journal[..|s.journal| - w]) + Utf8Length(line) <= MAX_BYTES
  }

  ghost predicate Bounded(g: Config, s: State) {
    Utf8Length(s.journal) <= MAX_BYTES && forall p: Pid :: HasRoom(g, s, p)
  }

  lemma WriteKeepsRoom(g: Config, s: State, p: Pid, units: nat)
    requires HasRoom(g, s, p) && Enabled(g, s, p, Write(units))
    ensures var s' := Take(g, s, p, Write(units)); HasRoom(g, s', p) && Utf8Length(s'.journal) <= MAX_BYTES
  {
    hide Utf8Length, LineText;
    var s', line, w := Take(g, s, p, Write(units)), LineText(g.codec, PhaseOf(s, p).entry), PhaseOf(s, p).written;
    var base := s.journal[..|s.journal| - w];
    assert s.journal == base + line[..w];
    assert s'.journal == base + line[..w + units] by {
      assert line[..w] + line[w..w + units] == line[..w + units];
    }
    assert s'.journal[..|s'.journal| - (w + units)] == base && s'.journal[|s'.journal| - (w + units)..] == line[..w + units];
    Utf8LengthJoined(base, line[..w + units]);
    Utf8LengthJoined(line[..w + units], line[w + units..]);
    assert line[..w + units] + line[w + units..] == line;
  }

  lemma StepKeepsBound(g: Config, s: State, p: Pid, step: Step)
    requires Inv(g, s) && Bounded(g, s) && Enabled(g, s, p, step)
    ensures Bounded(g, Take(g, s, p, step))
  {
    hide Chain, Credits, CompleteLines, Partial, Utf8Length, LineText, CanFollow, Sampled, NextEntry, HasRoom;
    var s' := Take(g, s, p, step);
    if step.Write? {
      WriteKeepsRoom(g, s, p, step.units);
    } else {
      SameJournal(g, s, p, step);
    }
    forall q: Pid ensures HasRoom(g, s', q) {
      assert ProcessOk(g, s, p) && ProcessOk(g, s, q);
      if q == p {
        if !step.Write? {
          OwnRoom(g, s, p, step);
        }
      } else {
        SameRoom(g, s, s', q);
      }
    }
  }

  /** A step other than a write that leaves `p` writing has just begun, and has checked the room. */
  lemma OwnRoom(g: Config, s: State, p: Pid, step: Step)
    requires Enabled(g, s, p, step) && !step.Write? && HasRoom(g, s, p)
    ensures HasRoom(g, Take(g, s, p, step), p)
  {
    hide Sampled, NextEntry, Load, LineText, Utf8Length;
    var s' := Take(g, s, p, step);
    assert s'.journal == s.journal;
    assert s.journal[..|s.journal| - 0] == s.journal && s.journal[|s.journal| - 0..] == [];
  }

  lemma SameRoom(g: Config, s: State, s': State, q: Pid)
    requires HasRoom(g, s, q) && PhaseOf(s', q) == PhaseOf(s, q) && (PhaseOf(s, q).Writing? ==> s'.journal == s.journal)
    ensures HasRoom(g, s', q)
  {
    hide Utf8Length, LineText;
  }

  /** Over any run the file stays within the limit that every load asks of it. */
  lemma {:induction false} NeverTooLong(g: Config, run: seq<State>, i: nat)
    requires Faithful(g.codec) && IsRun(g, run) && i < |run|
    ensures Bounded(g, run[i]) && Utf8Length(run[i].journal) <= MAX_BYTES
  {
    hide Faithful, Inv, Enabled, Take, HasRoom;
    if i == 0 {
      StartBounded(g);
    } else {
      NeverTooLong(g, run, i - 1);
      RunInv(g, run, i - 1);
      assert Next(g, run[i - 1], run[i - 1 + 1]);
      var p: Pid, step :| Enabled(g, run[i - 1], p, step) && run[i] == Take(g, run[i - 1], p, step);
      StepKeepsBound(g, run[i - 1], p, step);
    }
  }

  lemma StartBounded(g: Config)
    ensures Bounded(g, START)
  {
  }

  /** So a reader is refused only a torn tail or too many rows. */
  lemma ReaderRefused(g: Config, run: seq<State>, i: nat, seen: nat)
    requires Faithful(g.codec) && IsRun(g, run) && i < |run| && seen <= |run[i].journal|
    ensures var part := run[i].journal[..seen];
      var r := Load(g.codec, First(g), part);
      && (r == Err(Torn) <==> part != [] && part[|part| - 1] != LINE_FEED)
      && (r.Err? ==> r.error == Torn || (r.error == RowLimit && |CompleteLines(part)| > MAX_ROWS))
  {
    hide Faithful, IsRun, Chain, CompleteLines, Partial, Utf8Length, Bounded;
    var part := run[i].journal[..seen];
    ReaderSeesPrefix(g, run, i, i, seen);
    NeverTooLong(g, run, i);
    Utf8LengthJoined(part, run[i].journal[seen..]);
    assert part + run[i].journal[seen..] == run[i].journal;
    NothingPartial(part);
  }

  // After a crash.

  /** A crash or a failed write in the middle of a line leaves it torn, for good as TornStaysTorn says. */
  lemma LineCanTear(g: Config, s: State, p: Pid, step: Step)
    requires Inv(g, s) && PhaseOf(s, p).Writing? && step in {Crash, WriteFails}
    requires 0 < PhaseOf(s, p).written < |LineText(g.codec, PhaseOf(s, p).entry)|
    ensures Enabled(g, s, p, step) && Frozen(Take(g, s, p, step)) && Take(g, s, p, step).journal == s.journal
  {
    hide Chain, Credits, CompleteLines, Partial, LineText, CanFollow;
    assert ProcessOk(g, s, p);
    var s' := Take(g, s, p, step);
    forall q: Pid ensures !PhaseOf(s', q).Writing? {
      assert ProcessOk(g, s, q);
    }
  }

  /** The state after some moves, if each can be made. */
  ghost function TakeAll(g: Config, s: State, moves: seq<(Pid, Step)>): Option<State>
    decreases |moves|
  {
    if moves == [] then Some(s)
    else if Enabled(g, s, moves[0].0, moves[0].1) then TakeAll(g, Take(g, s, moves[0].0, moves[0].1), moves[1..])
    else None
  }

  /** What one process does to add an entry whose line has `units` units. */
  ghost function SampleMoves(q: Pid, rows: Option<seq<Receipt>>, rest: Text, units: nat): seq<(Pid, Step)> {
    [(q, Acquire), (q, LoadStep), (q, Begin(rows, rest)), (q, Write(units)), (q, Finish), (q, Release)]
  }

  lemma MovesStep(g: Config, s: State, p: Pid, step: Step, rest: seq<(Pid, Step)>)
    requires Enabled(g, s, p, step)
    ensures TakeAll(g, s, [(p, step)] + rest) == TakeAll(g, Take(g, s, p, step), rest)
  {
    assert ([(p, step)] + rest)[1..] == rest;
  }

  /**
   If the crash left no torn line, then once the lock file is removed another process can add its entry; TornStaysTorn is the
   other case.
   */
  lemma CrashRecovers(g: Config, s: State, p: Pid, q: Pid, rows: Option<seq<Receipt>>, rest: Text)
    requires Faithful(g.codec) && Inv(g, s) && PhaseOf(s, p).Dead? && s.lock == Some(p) && PhaseOf(s, q).Idle?
    requires Partial(s.journal) == [] && WithinLimits(s.journal)
    requires var e := NextEntry(g, Entries(g, s).value, Sampled(Entries(g, s).value, rows, rest, g.startAt));
      Utf8Length(s.journal) + Utf8Length(LineText(g.codec, e)) <= MAX_BYTES
    ensures var e := NextEntry(g, Entries(g, s).value, Sampled(Entries(g, s).value, rows, rest, g.startAt));
      var done := TakeAll(g, s, [(p, RemoveLock)] + SampleMoves(q, rows, rest, |LineText(g.codec, e)|));
      && done.Some? && done.value.lock.None? && done.value.journal == s.journal + LineText(g.codec, e)
      && Entries(g, done.value) == Some(Entries(g, s).value + [e]) && e.sample.rest == rest
      && Credits(Entries(g, done.value).value) == Credits(Entries(g, s).value) +
         (if rows.Some? && Agreed(Credits(Entries(g, s).value), rows.value)
          then NewRuns(Credits(Entries(g, s).value), rows.value, g.startAt, 0) else [])
  {
    hide Faithful, Chain, Credits, CompleteLines, Partial, CanFollow, Sampled, NextEntry, LineText, Agreed, NewRuns, UniqueRuns;
    SampledCredits(g, Entries(g, s).value, rows, rest);
    CreditsPush(Entries(g, s).value, NextEntry(g, Entries(g, s).value, Sampled(Entries(g, s).value, rows, rest, g.startAt)));
    var entries := Entries(g, s).value;
    var e := NextEntry(g, entries, Sampled(entries, rows, rest, g.startAt));
    var units := |LineText(g.codec, e)|;
    var freed := Take(g, s, p, RemoveLock);
    StepKeepsInv(g, s, p, RemoveLock);
    MovesStep(g, s, p, RemoveLock, SampleMoves(q, rows, rest, units));
    SampleFully(g, freed, q, rows, rest, e);
  }

  lemma SampleFully(g: Config, s: State, q: Pid, rows: Option<seq<Receipt>>, rest: Text, e: Entry)
    requires Faithful(g.codec) && Inv(g, s) && s.lock.None? && PhaseOf(s, q).Idle?
    requires Partial(s.journal) == [] && WithinLimits(s.journal)
    requires e == NextEntry(g, Entries(g, s).value, Sampled(Entries(g, s).value, rows, rest, g.startAt))
    requires Utf8Length(s.journal) + Utf8Length(LineText(g.codec, e)) <= MAX_BYTES
    ensures var done := TakeAll(g, s, SampleMoves(q, rows, rest, |LineText(g.codec, e)|));
      && done.Some? && done.value.lock.None? && done.value.journal == s.journal + LineText(g.codec, e)
      && Entries(g, done.value) == Some(Entries(g, s).value + [e])
  {
    hide Faithful, Chain, Credits, CompleteLines, Partial, CanFollow, Sampled, NextEntry, LineText, Inv, Load;
    var line := LineText(g.codec, e);
    var s1, s2 := SampleLoads(g, s, q);
    var s3 := Take(g, s2, q, Begin(rows, rest));
    StepKeepsInv(g, s2, q, Begin(rows, rest));
    assert PhaseOf(s3, q) == Writing(e, 0) && s3.journal == s.journal && Entries(g, s3) == Entries(g, s);
    var s4 := Take(g, s3, q, Write(|line|));
    WholeLine(g, s3, q, e);
    var s5 := Take(g, s4, q, Finish);
    var s6 := Take(g, s5, q, Release);
    FollowMoves(g, s, q, rows, rest, |line|, [s1, s2, s3, s4, s5, s6]);
  }

  lemma SampleLoads(g: Config, s: State, q: Pid) returns (s1: State, s2: State)
    requires Faithful(g.codec) && Inv(g, s) && s.lock.None? && PhaseOf(s, q).Idle?
    requires Partial(s.journal) == [] && WithinLimits(s.journal)
    ensures Enabled(g, s, q, Acquire) && s1 == Take(g, s, q, Acquire)
    ensures Enabled(g, s1, q, LoadStep) && s2 == Take(g, s1, q, LoadStep)
    ensures Inv(g, s2) && s2.journal == s.journal && Entries(g, s).Some? && PhaseOf(s2, q) == Loaded(Entries(g, s).value)
  {
    hide Faithful, Chain, Credits, CompleteLines, Partial, CanFollow, Sampled, NextEntry, LineText;
    s1 := Take(g, s, q, Acquire);
    StepKeepsInv(g, s, q, Acquire);
    s2 := Take(g, s1, q, LoadStep);
    StepKeepsInv(g, s1, q, LoadStep);
  }

  lemma WholeLine(g: Config, s: State, q: Pid, e: Entry)
    requires Faithful(g.codec) && Inv(g, s) && PhaseOf(s, q) == Writing(e, 0)
    ensures var s' := Take(g, s, q, Write(|LineText(g.codec, e)|));
      && Entries(g, s') == Some(Entries(g, s).value + [e]) && s'.journal == s.journal + LineText(g.codec, e)
      && PhaseOf(s', q) == Writing(e, |LineText(g.codec, e)|)
  {
    hide Faithful, Chain, Credits, CompleteLines, Partial, CanFollow;
    assert ProcessOk(g, s, q);
    assert |LineText(g.codec, e)| > 0;
    WriteRest(g, s, e, 0);
    assert LineText(g.codec, e)[0..|LineText(g.codec, e)|] == LineText(g.codec, e);
  }

  lemma FollowMoves(g: Config, s: State, q: Pid, rows: Option<seq<Receipt>>, rest: Text, units: nat, states: seq<State>)
    requires |states| == 6
    requires Enabled(g, s, q, Acquire) && Take(g, s, q, Acquire) == states[0]
    requires Enabled(g, states[0], q, LoadStep) && Take(g, states[0], q, LoadStep) == states[1]
    requires Enabled(g, states[1], q, Begin(rows, rest)) && Take(g, states[1], q, Begin(rows, rest)) == states[2]
    requires Enabled(g, states[2], q, Write(units)) && Take(g, states[2], q, Write(units)) == states[3]
    requires Enabled(g, states[3], q, Finish) && Take(g, states[3], q, Finish) == states[4]
    requires Enabled(g, states[4], q, Release) && Take(g, states[4], q, Release) == states[5]
    ensures TakeAll(g, s, SampleMoves(q, rows, rest, units)) == Some(states[5])
  {
    hide Enabled, Take;
    var moves := SampleMoves(q, rows, rest, units);
    assert moves[1..][1..] == moves[2..] && moves[2..][1..] == moves[3..] && moves[3..][1..] == moves[4..] && moves[4..][1..] == moves[5..];
    assert TakeAll(g, states[4], moves[5..]) == Some(states[5]);
    assert TakeAll(g, states[3], moves[4..]) == Some(states[5]);
    assert TakeAll(g, states[2], moves[3..]) == Some(states[5]);
    assert TakeAll(g, states[1], moves[2..]) == Some(states[5]);
    assert TakeAll(g, states[0], moves[1..]) == Some(states[5]);
  }

  // Journals as the samplers print them.

  /** Every line is the print of the entry that it holds. */
  ghost predicate Printed(c: Codec, first: Digest, lines: seq<Text>) {
    Chain(c, first, lines).Some? && lines == Apply(c.line, Chain(c, first, lines).value)
  }

  /** Of accepted journals that were printed, equal last hashes mean the same text. */
  lemma PrintedIdentifies(c: Codec, genesis: Text, raw: Text, raw': Text)
    requires Faithful(c) && GenesisApart(c, genesis)
    requires Load(c, c.hash(genesis), raw).Ok? && Load(c, c.hash(genesis), raw').Ok?
    requires Printed(c, c.hash(genesis), CompleteLines(raw)) && Printed(c, c.hash(genesis), CompleteLines(raw'))
    ensures var first := c.hash(genesis);
      LastOf(first, Load(c, first, raw).value) == LastOf(first, Load(c, first, raw').value) <==> raw == raw'
  {
    hide Faithful, GenesisApart, Chain, CompleteLines, Partial;
    var first := c.hash(genesis);
    TamperingShows(c, genesis, raw, raw');
    if LastOf(first, Load(c, first, raw).value) == LastOf(first, Load(c, first, raw').value) {
      SameLines(raw, raw');
    }
  }

  /** The journal as samplers would have printed it. */
  ghost function PrintJournal(c: Codec, entries: seq<Entry>): Text {
    if entries == [] then [] else PrintJournal(c, entries[..|entries| - 1]) + LineText(c, entries[|entries| - 1])
  }

  lemma {:induction false} PrintedLines(c: Codec, entries: seq<Entry>)
    requires Faithful(c)
    ensures CompleteLines(PrintJournal(c, entries)) == Apply(c.line, entries) && Partial(PrintJournal(c, entries)) == []
  {
    if entries != [] {
      var front, e := entries[..|entries| - 1], entries[|entries| - 1];
      PrintedLines(c, front);
      assert OneLine(c.line(e));
      hide Faithful, CompleteLines, Partial;
      AppendLine(PrintJournal(c, front), c.line(e));
      assert PrintJournal(c, entries) == PrintJournal(c, front) + c.line(e) + [LINE_FEED];
      assert [] + c.line(e) == c.line(e);
    }
  }

  lemma {:induction false} PrintsChain(c: Codec, first: Digest, entries: seq<Entry>)
    requires Faithful(c) && Linked(c, first, entries)
    ensures Chain(c, first, Apply(c.line, entries)) == Some(entries)
  {
    if entries != [] {
      var front, e := entries[..|entries| - 1], entries[|entries| - 1];
      FrontLinked(c, first, entries);
      PrintsChain(c, first, front);
      assert Links(c, first, front, e) && c.parse(c.line(e)) == Some(e);
      hide Faithful, Linked, Links;
      assert Apply(c.line, entries) == Apply(c.line, front) + [c.line(e)];
      ChainPush(c, first, Apply(c.line, front), c.line(e), e);
      assert entries == front + [e];
    }
  }

  /**
   Every accepted journal has a printed twin: the one printed text of its entries, with the same last hash, accepted unless it is
   too long; and a journal is its own twin exactly when its lines are as printed.
   */
  lemma PrintedTwin(c: Codec, first: Digest, raw: Text)
    requires Faithful(c) && Load(c, first, raw).Ok?
    ensures var entries := Load(c, first, raw).value;
      var twin := PrintJournal(c, entries);
      && Printed(c, first, CompleteLines(twin)) && Partial(twin) == []
      && Load(c, first, twin) == (if Utf8Length(twin) <= MAX_BYTES then Ok(entries) else Err(ByteLimit))
      && (Printed(c, first, CompleteLines(raw)) <==> raw == twin)
  {
    hide Faithful, Chain, CompleteLines, Partial, Linked, PrintJournal, Apply, Load, Utf8Length;
    var entries := Load(c, first, raw).value;
    var twin := PrintJournal(c, entries);
    LoadedWhen(c, first, raw, entries);
    LoadedWhen(c, first, twin, entries);
    ChainLinked(c, first, CompleteLines(raw));
    ChainPrefix(c, first, CompleteLines(raw), |CompleteLines(raw)|);
    PrintedLines(c, entries);
    PrintsChain(c, first, entries);
    if Printed(c, first, CompleteLines(raw)) {
      SameLines(raw, twin);
    }
  }

  /** What loading is, for a text without a torn tail. */
  lemma LoadedWhen(c: Codec, first: Digest, raw: Text, entries: seq<Entry>)
    ensures Load(c, first, raw) == Ok(entries) <==>
              Utf8Length(raw) <= MAX_BYTES && Partial(raw) == [] && |CompleteLines(raw)| <= MAX_ROWS
              && Chain(c, first, CompleteLines(raw)) == Some(entries)
    ensures Utf8Length(raw) > MAX_BYTES ==> Load(c, first, raw) == Err(ByteLimit)
  {
    hide Chain, CompleteLines, Partial, Utf8Length;
  }

  /** Leading spaces on a line are skipped, as JSON.parse does. */
  ghost predicate SkipsSpaces(c: Codec) {
    forall t :: c.parse([SPACE] + t) == c.parse(t)
  }

  lemma {:induction false} ChainSame(c: Codec, first: Digest, a: seq<Text>, b: seq<Text>)
    requires |a| == |b| && forall k :: 0 <= k < |a| ==> c.parse(a[k]) == c.parse(b[k])
    ensures Chain(c, first, a) == Chain(c, first, b)
  {
    hide Links;
    if a != [] {
      ChainSame(c, first, a[..|a| - 1], b[..|b| - 1]);
    }
  }

  /** No last hash fixes the text of a journal, unless the journal is empty or at the limit: a space in front changes nothing. */
  lemma SpacedTwin(c: Codec, first: Digest, raw: Text)
    requires SkipsSpaces(c) && Load(c, first, raw).Ok? && raw != [] && Utf8Length(raw) < MAX_BYTES
    ensures [SPACE] + raw != raw && Load(c, first, [SPACE] + raw) == Load(c, first, raw)
  {
    hide Chain, CompleteLines, Partial;
    SpacedLines(raw);
    var lines, spaced := CompleteLines(raw), CompleteLines([SPACE] + raw);
    ChainSame(c, first, spaced, lines);
    assert |[SPACE] + raw| != |raw|;
    assert ([SPACE] + raw)[1..] == raw;
  }

  lemma SpacedLines(raw: Text)
    requires raw != [] && Partial(raw) == []
    ensures CompleteLines(raw) != [] && Partial([SPACE] + raw) == []
    ensures CompleteLines([SPACE] + raw) == [[SPACE] + CompleteLines(raw)[0]] + CompleteLines(raw)[1..]
  {
    NoPieces(raw);
    var pieces := Split(raw);
    assert |pieces| > 1 by {
      assert |pieces| == 1 ==> pieces == [[]];
    }
    assert ([SPACE] + raw)[1..] == raw;
    assert Split([SPACE] + raw) == [[SPACE] + pieces[0]] + pieces[1..];
  }

  /** What a sampler adds to the lines: nothing yet, or its entry's print. */
  lemma WriteLines(g: Config, s: State, e: Entry, written: nat, units: nat)
    requires Faithful(g.codec) && Entries(g, s).Some?
    requires written + units <= |LineText(g.codec, e)| && PhaseOk(g, s, Writing(e, written))
    ensures var s' := AfterWrite(g, s, e, written, units);
      || (CompleteLines(s'.journal) == CompleteLines(s.journal) && Entries(g, s') == Entries(g, s))
      || (CompleteLines(s'.journal) == CompleteLines(s.journal) + [g.codec.line(e)] && Entries(g, s') == Some(Entries(g, s).value + [e]))
  {
    hide Chain, CompleteLines, Partial, Links, Credits;
    var line, text := LineText(g.codec, e), g.codec.line(e);
    assert OneLine(text) && g.codec.parse(text) == Some(e);
    if written + units < |line| {
      WritePart(g, s, e, written, units);
      assert line[written..written + units] == text[written..written + units];
      AppendPlain(s.journal, text[written..written + units]);
    } else if written < |line| {
      WriteRest(g, s, e, written);
      assert line[..written] == text[..written] && line[written..|line|] == line[written..];
      LineCompleted(s.journal, text, written);
    } else {
      assert s.journal + line[written..written + units] == s.journal;
    }
  }

  lemma StepPrints(g: Config, s: State, p: Pid, step: Step)
    requires Faithful(g.codec) && Inv(g, s) && Enabled(g, s, p, step)
    requires Printed(g.codec, First(g), CompleteLines(s.journal))
    ensures Printed(g.codec, First(g), CompleteLines(Take(g, s, p, step).journal))
  {
    hide Faithful, Chain, Credits, CompleteLines, Partial, LineText, CanFollow;
    if step.Write? {
      var phase := PhaseOf(s, p);
      assert ProcessOk(g, s, p);
      WriteLines(g, s, phase.entry, phase.written, step.units);
      assert Take(g, s, p, step).journal == AfterWrite(g, s, phase.entry, phase.written, step.units).journal;
      assert Apply(g.codec.line, Entries(g, s).value + [phase.entry])
          == Apply(g.codec.line, Entries(g, s).value) + [g.codec.line(phase.entry)];
    } else {
      SameJournal(g, s, p, step);
    }
  }

  /** At every moment of every run the lines on file are the prints of their entries. */
  lemma {:induction false} RunPrints(g: Config, run: seq<State>, i: nat)
    requires Faithful(g.codec) && IsRun(g, run) && i < |run|
    ensures Printed(g.codec, First(g), CompleteLines(run[i].journal))
  {
    hide Faithful, Inv, Enabled, Take;
    if i == 0 {
      assert CompleteLines([]) == [];
    } else {
      RunPrints(g, run, i - 1);
      RunInv(g, run, i - 1);
      assert Next(g, run[i - 1], run[i - 1 + 1]);
      var p: Pid, step :| Enabled(g, run[i - 1], p, step) && run[i] == Take(g, run[i - 1], p, step);
      StepPrints(g, run[i - 1], p, step);
    }
  }

  lemma PrintedPrefix(c: Codec, first: Digest, lines: seq<Text>, k: nat)
    requires Printed(c, first, lines) && k <= |lines|
    ensures Printed(c, first, lines[..k])
  {
    ChainPrefix(c, first, lines, k);
  }

  /** Two readers of one run whose chains end in one hash have read the same text. */
  lemma SameHashSameText(g: Config, run: seq<State>, i: nat, j: nat, seen: nat, seen': nat)
    requires Faithful(g.codec) && GenesisApart(g.codec, g.genesis) && IsRun(g, run) && i < |run| && j < |run|
    requires seen <= |run[i].journal| && seen' <= |run[j].journal|
    ensures var first, a, b := First(g), run[i].journal[..seen], run[j].journal[..seen'];
      Load(g.codec, first, a).Ok? && Load(g.codec, first, b).Ok? ==>
        (LastOf(first, Load(g.codec, first, a).value) == LastOf(first, Load(g.codec, first, b).value) <==> a == b)
  {
    hide Faithful, GenesisApart, IsRun, Chain, CompleteLines, Partial, Printed;
    ReaderPrinted(g, run, i, seen);
    ReaderPrinted(g, run, j, seen');
    var a, b := run[i].journal[..seen], run[j].journal[..seen'];
    if Load(g.codec, First(g), a).Ok? && Load(g.codec, First(g), b).Ok? {
      PrintedIdentifies(g.codec, g.genesis, a, b);
    }
  }

  lemma ReaderPrinted(g: Config, run: seq<State>, i: nat, seen: nat)
    requires Faithful(g.codec) && IsRun(g, run) && i < |run| && seen <= |run[i].journal|
    ensures Printed(g.codec, First(g), CompleteLines(run[i].journal[..seen]))
  {
    hide Faithful, IsRun, Chain, CompleteLines, Printed;
    RunPrints(g, run, i);
    PrefixLines(run[i].journal, seen);
    var lines, all := CompleteLines(run[i].journal[..seen]), CompleteLines(run[i].journal);
    assert lines == all[..|lines|];
    PrintedPrefix(g.codec, First(g), all, |lines|);
  }
}
