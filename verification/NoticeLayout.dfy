/**
 Laying out third-party notices (scripts/release-notices.ts). The builder appends headings and licence texts to one document
 and records where each text went; the verifier reads the texts back from the document by those records.
 */
module NoticeLayout {
  import opened Wrappers
  import opened UnicodeText
  import opened Bytes
  import opened Sequences
  import opened Utf8
  import TextOrder
  import Sorting
  import Intervals

  const NOTICES_LIMIT := 4 * 1024 * 1024
  const LICENSE_LIMIT := 65_536
  const NOTICES_PER_COMPONENT := 16
  const COMPONENT_LIMIT := 256

  type Digest = Text

  /** A file that holds a text from `start` on, to its end unless a length is given. */
  datatype Supplied = Supplied(name: Text, source: Bytes, start: nat, length: Option<nat>)

  datatype Notice = Notice(path: Text, sourceDigest: Digest, sourceOffset: nat, length: nat, offset: nat, digest: Digest)

  datatype Kind = Npm | Runtime | Asset | Vendored

  /** A component but for its texts; `rest` is its source, its binaries and the digest of its inputs. */
  datatype Material = Material(
    kind: Kind, name: Text, version: Option<Text>, declared: Option<Text>, unresolved: seq<Text>, rest: Text)

  datatype Component = Component(material: Material, notices: seq<Notice>)

  datatype Distribution = Distribution(licenseDigest: Digest, noticesDigest: Digest, unresolved: bool, components: seq<Component>)

  /** The digest function, the digest of the runtime's notice, and the form asked of each single field of a component. */
  datatype Rules = Rules(hash: Bytes -> Digest, runtimeNotice: Digest, admits: Material -> bool)

  // What the document says besides the texts.

  const SUBJECT: Bytes := Ascii("Third-party material inventory for this ")
  const STATE: Bytes := Ascii("unpublished Kizuki candidate.\n")
  const CONTENT: Bytes := Ascii("Observed declarations and supplied texts ")
  const CAVEAT: Bytes := Ascii("are not a distribution assessment.\n\n")
  const PREAMBLE: Bytes := SUBJECT + STATE + CONTENT + CAVEAT

  ghost function Announce(name: Text): Bytes {
    Encode(Plain("Source: ") + name + [LINE_FEED])
  }

  ghost function Joined(ts: seq<Text>): Text {
    if ts == [] then [] else if |ts| == 1 then ts[0] else ts[0] + Plain(", ") + Joined(ts[1..])
  }

  function Or(t: Option<Text>, default: Text): Text {
    if t.Some? then t.value else default
  }

  ghost function Heading(m: Material): Bytes {
    var unresolved := Joined(m.unresolved);
    Encode(Plain("Component: ") + m.name + Plain(" (") + Or(m.version, Plain("unknown")) + Plain(")\nDeclared license: ")
           + Or(m.declared, Plain("unknown")) + Plain("\nUnresolved: ")
           + (if unresolved == [] then Plain("none recorded") else unresolved) + [LINE_FEED] + [LINE_FEED])
  }

  function KindText(kind: Kind): Text {
    match kind case Npm => Plain("npm") case Runtime => Plain("runtime") case Asset => Plain("asset") case Vendored => Plain("vendored")
  }

  function Identity(m: Material): Text {
    KindText(m.kind) + [COLON] + m.name + Plain("@") + Or(m.version, Plain("null"))
  }

  /** source.subarray(start, start + length), which is cut off at the end of the source. */
  ghost function Taken(t: Supplied): Bytes {
    var from := if t.start < |t.source| then t.start else |t.source|;
    var to := if t.length.None? || t.start + t.length.value > |t.source| then |t.source| else t.start + t.length.value;
    if from <= to then t.source[from..to] else []
  }

  const BLANK: Bytes := [10, 10]

  ghost function Part(t: Supplied): Bytes {
    Announce(t.name) + Taken(t) + BLANK
  }

  /** The first `n` texts, announced and separated. */
  ghost function Parts(ts: seq<Supplied>, n: nat): Bytes
    requires n <= |ts|
  {
    if n == 0 then [] else Parts(ts, n - 1) + Part(ts[n - 1])
  }

  ghost function NoticeAt(rules: Rules, base: nat, ts: seq<Supplied>, i: nat): Notice
    requires i < |ts|
  {
    var t := ts[i];
    Notice(t.name, rules.hash(t.source), t.start, |Taken(t)|, base + |Parts(ts, i)| + |Announce(t.name)|, rules.hash(Taken(t)))
  }

  ghost function Notices(rules: Rules, base: nat, ts: seq<Supplied>, n: nat): (r: seq<Notice>)
    requires n <= |ts|
    ensures |r| == n
  {
    if n == 0 then [] else Notices(rules, base, ts, n - 1) + [NoticeAt(rules, base, ts, n - 1)]
  }

  predicate NameLeq(a: Supplied, b: Supplied) { TextOrder.TextLeq(a.name, b.name) }

  /** One call of addTexts. */
  datatype Given = Given(material: Material, texts: seq<Supplied>)

  ghost function Ordered(g: Given): (ts: seq<Supplied>)
    ensures |ts| == |g.texts| && multiset(ts) == multiset(g.texts)
  {
    Sorting.Sort(g.texts, NameLeq)
  }

  ghost function Section(g: Given): Bytes {
    Heading(g.material) + Parts(Ordered(g), |Ordered(g)|)
  }

  /** The document after the first `n` calls. */
  ghost function Document(gs: seq<Given>, n: nat): Bytes
    requires n <= |gs|
  {
    if n == 0 then PREAMBLE else Document(gs, n - 1) + Section(gs[n - 1])
  }

  ghost function ComponentAt(rules: Rules, gs: seq<Given>, k: nat): Component
    requires k < |gs|
  {
    Component(gs[k].material, Notices(rules, |Document(gs, k)| + |Heading(gs[k].material)|, Ordered(gs[k]), |gs[k].texts|))
  }

  ghost function Components(rules: Rules, gs: seq<Given>, n: nat): (cs: seq<Component>)
    requires n <= |gs|
    ensures |cs| == n
  {
    if n == 0 then [] else Components(rules, gs, n - 1) + [ComponentAt(rules, gs, n - 1)]
  }

  // The same, step by step.

  /** subarray reaches from the start asked for to the end asked for, where the source has them. */
  method Subarray(t: Supplied) returns (bytes: Bytes)
    ensures bytes == Taken(t)
  {
    if t.start >= |t.source| {
      return [];
    }
    if t.length.Some? && t.start + t.length.value <= |t.source| {
      return t.source[t.start..t.start + t.length.value];
    }
    return t.source[t.start..];
  }

  /** What is taken are the bytes of the source from `start` on, to its end or for the length given. */
  lemma TakenIs(t: Supplied, k: nat)
    ensures k < |Taken(t)| <==> t.start + k < |t.source| && (t.length.Some? ==> k < t.length.value)
    ensures k < |Taken(t)| ==> Taken(t)[k] == t.source[t.start + k]
  {
    var from := if t.start < |t.source| then t.start else |t.source|;
    var to := if t.length.None? || t.start + t.length.value > |t.source| then |t.source| else t.start + t.length.value;
    assert from <= to ==> Taken(t) == t.source[from..to];
  }

  method JoinReasons(ts: seq<Text>) returns (joined: Text)
    ensures joined == Joined(ts)
  {
    if |ts| == 0 {
      return [];
    }
    joined := ts[0];
    assert ts[..1] == [ts[0]];
    for i := 1 to |ts|
      invariant joined == Joined(ts[..i])
    {
      assert ts[..i + 1] == ts[..i] + [ts[i]];
      JoinedPush(ts[..i], ts[i]);
      joined := joined + Plain(", ") + ts[i];
    }
    assert ts[..|ts|] == ts;
  }

  lemma {:induction false} JoinedPush(ts: seq<Text>, t: Text)
    requires ts != []
    ensures Joined(ts + [t]) == Joined(ts) + Plain(", ") + t
  {
    hide Plain;
    var all := ts + [t];
    if |ts| > 1 {
      assert all[1..] == ts[1..] + [t];
      JoinedPush(ts[1..], t);
      assert all[0] + Plain(", ") + (Joined(ts[1..]) + Plain(", ") + t) == (ts[0] + Plain(", ") + Joined(ts[1..])) + Plain(", ") + t;
    } else {
      assert all[1..] == [t];
    }
  }

  method ComponentHeading(m: Material) returns (heading: Bytes)
    ensures heading == Heading(m)
  {
    hide Joined, Encode, Plain;
    var reasons := JoinReasons(m.unresolved);
    if reasons == [] {
      reasons := Plain("none recorded");
    }
    var version := if m.version.Some? then m.version.value else Plain("unknown");
    var declared := if m.declared.Some? then m.declared.value else Plain("unknown");
    heading := Encode(Plain("Component: ") + m.name + Plain(" (") + version + Plain(")\nDeclared license: ") + declared
                      + Plain("\nUnresolved: ") + reasons + [LINE_FEED] + [LINE_FEED]);
  }

  /** Identities differ with the kind, and within a kind with what follows it. */
  lemma SameIdentity(a: Material, b: Material)
    ensures Identity(a) == Identity(b) <==>
              a.kind == b.kind
              && a.name + Plain("@") + Or(a.version, Plain("null")) == b.name + Plain("@") + Or(b.version, Plain("null"))
  {
    hide Plain, KindText;
    KindsDiffer();
    var x, y := a.name + Plain("@") + Or(a.version, Plain("null")), b.name + Plain("@") + Or(b.version, Plain("null"));
    IdentityIs(a);
    IdentityIs(b);
    hide Identity, Or;
    SamePrefix(KindText(a.kind), x, KindText(b.kind), y);
  }

  lemma IdentityIs(m: Material)
    ensures Identity(m) == KindText(m.kind) + ([COLON] + (m.name + Plain("@") + Or(m.version, Plain("null"))))
  {
    hide Plain, KindText, Or;
  }

  lemma SamePrefix(a: Text, x: Text, b: Text, y: Text)
    requires a != [] && b != [] && (a != b ==> a[0] != b[0])
    ensures a + ([COLON] + x) == b + ([COLON] + y) <==> a == b && x == y
  {
    var s, t := a + ([COLON] + x), b + ([COLON] + y);
    assert s[0] == a[0] && t[0] == b[0];
    assert s[|a| + 1..] == x && t[|b| + 1..] == y;
  }

  lemma KindsDiffer()
    ensures forall k: Kind, l: Kind :: k != l ==> KindText(k) != [] && KindText(l) != [] && KindText(k)[0] != KindText(l)[0]
    ensures forall k: Kind :: KindText(k) != []
  {
    assert KindText(Npm)[0] == 0x6E && KindText(Runtime)[0] == 0x72 && KindText(Asset)[0] == 0x61 && KindText(Vendored)[0] == 0x76;
  }

  // The builder.

  class Builder {
    const rules: Rules
    var length: nat
    var chunks: seq<Bytes>
    var components: seq<Component>
    ghost var given: seq<Given>

    /** The document so far is the layout of everything given so far. */
    ghost predicate Valid()
      reads this
    {
      && length == |Flatten(chunks)| <= NOTICES_LIMIT
      && Flatten(chunks) == Document(given, |given|)
      && components == Components(rules, given, |given|)
    }

    constructor (rules: Rules)
      ensures Valid() && given == [] && this.rules == rules
    {
      this.rules := rules;
      length, chunks, components, given := |PREAMBLE|, [PREAMBLE], [], [];
      new;
      FlattenPush([], PREAMBLE);
      assert [] + [PREAMBLE] == [PREAMBLE];
    }

    /** The offset where `bytes` went, or nothing if the document has become too long. */
    method Append(bytes: Bytes) returns (offset: Option<nat>)
      requires length == |Flatten(chunks)| <= NOTICES_LIMIT
      modifies this`length, this`chunks
      ensures offset == if old(length) + |bytes| <= NOTICES_LIMIT then Some(old(length)) else None
      ensures offset.Some? ==> length == |Flatten(chunks)| <= NOTICES_LIMIT && Flatten(chunks) == Flatten(old(chunks)) + bytes
    {
      var at := length;
      length := length + |bytes|;
      if length > NOTICES_LIMIT {
        return None;
      }
      FlattenPush(chunks, bytes);
      chunks := chunks + [bytes];
      return Some(at);
    }

    /** Announces a text and appends it; the offset is that of the text itself. */
    method AppendPart(text: Supplied) returns (offset: Option<nat>, bytes: Bytes)
      requires length == |Flatten(chunks)| <= NOTICES_LIMIT
      modifies this`length, this`chunks
      ensures var at := old(length) + |Announce(text.name)|;
              offset == if old(length) + |Part(text)| <= NOTICES_LIMIT then Some(at) else None
      ensures offset.Some? ==> length == |Flatten(chunks)| <= NOTICES_LIMIT && Flatten(chunks) == Flatten(old(chunks)) + Part(text)
      ensures bytes == Taken(text)
    {
      hide Flatten, Taken, NOTICES_LIMIT;
      ghost var before := Flatten(chunks);
      bytes := Subarray(text);
      var announced := Append(Encode(Plain("Source: ") + text.name + [LINE_FEED]));
      if announced.None? {
        return None, bytes;
      }
      offset := Append(bytes);
      if offset.None? {
        return None, bytes;
      }
      var ended := Append([LINE_FEED, LINE_FEED]);
      if ended.None? {
        return None, bytes;
      }
      assert before + Announce(text.name) + bytes + BLANK == before + Part(text);
    }

    method AddTexts(g: Given) returns (ok: bool)
      requires Valid()
      modifies this
      ensures ok <==> |Document(old(given) + [g], |old(given)| + 1)| <= NOTICES_LIMIT
      ensures ok ==> Valid() && given == old(given) + [g]
    {
      hide Flatten, Document, Components, Part, Parts, Notices, NoticeAt, Sorting.Sort, Taken, NOTICES_LIMIT, Heading, Announce;
      DocumentNext(rules, given, g);
      PartsNone(Ordered(g));
      ghost var done := Flatten(chunks) + Heading(g.material);
      var ordered := Sorting.Sort(g.texts, NameLeq);
      var notices: seq<Notice> := [];
      NoticesNone(rules, |done|, ordered);
      var heading := ComponentHeading(g.material);
      var headed := Append(heading);
      if headed.None? {
        return false;
      }
      for i := 0 to |ordered|
        invariant length == |Flatten(chunks)| <= NOTICES_LIMIT
        invariant Flatten(chunks) == done + Parts(ordered, i)
        invariant notices == Notices(rules, |done|, ordered, i)
        invariant components == old(components) && given == old(given)
      {
        var text := ordered[i];
        PartsNext(ordered, i);
        PartsShorter(ordered, i + 1);
        var offset, bytes := AppendPart(text);
        if offset.None? {
          return false;
        }
        NoticesNext(rules, |done|, ordered, i);
        NoticeIs(rules, |done|, ordered, i);
        assert done + (Parts(ordered, i) + Part(text)) == done + Parts(ordered, i) + Part(text);
        notices := notices + [Notice(text.name, rules.hash(text.source), text.start, |bytes|, offset.value, rules.hash(bytes))];
      }
      components := components + [Component(g.material, notices)];
      given := given + [g];
      ok := true;
    }

    /** Sorts the components and verifies everything; the result is published with the document and the licence. */
    method Finish(license: Bytes) returns (r: Option<Distribution>)
      requires Valid() && SourcesFit(given)
      ensures r == if Publishable(rules, given, license) then Some(Made(rules, given, license)) else None
    {
      hide Components, Document, Verified, Publishable, SourcesFit;
      var document := Flatten(chunks);
      var made := Distribution(rules.hash(license), rules.hash(document), true, Sorting.Sort(components, IdentityLeq));
      var ok := VerifyLayout(rules, made, license, document);
      BuilderSatisfiesVerifier(rules, given, license);
      return if ok then Some(made) else None;
    }
  }

  lemma NoticeIs(rules: Rules, base: nat, ts: seq<Supplied>, i: nat)
    requires i < |ts|
    ensures NoticeAt(rules, base, ts, i)
         == Notice(ts[i].name, rules.hash(ts[i].source), ts[i].start, |Taken(ts[i])|,
                   base + |Parts(ts, i)| + |Announce(ts[i].name)|, rules.hash(Taken(ts[i])))
  {
  }

  lemma NoticesNone(rules: Rules, base: nat, ts: seq<Supplied>)
    ensures Notices(rules, base, ts, 0) == []
  {
  }

  lemma NoticesNext(rules: Rules, base: nat, ts: seq<Supplied>, i: nat)
    requires i < |ts|
    ensures Notices(rules, base, ts, i + 1) == Notices(rules, base, ts, i) + [NoticeAt(rules, base, ts, i)]
  {
  }

  lemma {:induction false} NoticesAt(rules: Rules, base: nat, ts: seq<Supplied>, n: nat, i: nat)
    requires i < n <= |ts|
    ensures Notices(rules, base, ts, n)[i] == NoticeAt(rules, base, ts, i)
  {
    hide NoticeAt;
    if i < n - 1 {
      NoticesAt(rules, base, ts, n - 1, i);
    }
  }

  lemma PartsNone(ts: seq<Supplied>)
    ensures Parts(ts, 0) == []
  {
  }

  lemma PartsNext(ts: seq<Supplied>, i: nat)
    requires i < |ts|
    ensures Parts(ts, i + 1) == Parts(ts, i) + Part(ts[i])
  {
  }

  lemma {:induction false} PartsShorter(ts: seq<Supplied>, i: nat)
    requires i <= |ts|
    ensures |Parts(ts, i)| <= |Parts(ts, |ts|)|
    decreases |ts| - i
  {
    hide *;
    if i < |ts| {
      PartsShorter(ts, i + 1);
      PartsNext(ts, i);
    }
  }

  lemma {:induction false} DocumentPrefix(gs: seq<Given>, g: Given, n: nat)
    requires n <= |gs|
    ensures Document(gs + [g], n) == Document(gs, n)
  {
    hide Section;
    if n > 0 {
      DocumentPrefix(gs, g, n - 1);
    }
  }

  lemma DocumentNext(rules: Rules, gs: seq<Given>, g: Given)
    ensures Document(gs + [g], |gs| + 1) == (Document(gs, |gs|) + Heading(g.material)) + Parts(Ordered(g), |Ordered(g)|)
    ensures Components(rules, gs + [g], |gs| + 1) == Components(rules, gs, |gs|)
         + [Component(g.material, Notices(rules, |Document(gs, |gs|)| + |Heading(g.material)|, Ordered(g), |g.texts|))]
  {
    hide *;
    var all := gs + [g];
    assert all[|gs|] == g;
    DocumentPrefix(gs, g, |gs|);
    ComponentsPrefix(rules, gs, g, |gs|);
    ComponentsStep(rules, all, |gs|);
    ComponentIs(rules, all, |gs|);
    DocumentStep(all, |gs|);
  }

  lemma ComponentsStep(rules: Rules, gs: seq<Given>, n: nat)
    requires n < |gs|
    ensures Components(rules, gs, n + 1) == Components(rules, gs, n) + [ComponentAt(rules, gs, n)]
  {
  }

  lemma {:induction false} ComponentsAt(rules: Rules, gs: seq<Given>, n: nat, k: nat)
    requires k < n <= |gs|
    ensures Components(rules, gs, n)[k] == ComponentAt(rules, gs, k)
  {
    hide ComponentAt;
    if k < n - 1 {
      ComponentsAt(rules, gs, n - 1, k);
    }
  }

  lemma {:induction false} ComponentsPrefix(rules: Rules, gs: seq<Given>, g: Given, n: nat)
    requires n <= |gs|
    ensures Components(rules, gs + [g], n) == Components(rules, gs, n)
  {
    hide ComponentAt;
    if n > 0 {
      ComponentsPrefix(rules, gs, g, n - 1);
      SameComponent(rules, gs, g, n - 1);
    }
  }

  lemma SameComponent(rules: Rules, gs: seq<Given>, g: Given, k: nat)
    requires k < |gs|
    ensures ComponentAt(rules, gs + [g], k) == ComponentAt(rules, gs, k)
  {
    hide *;
    DocumentPrefix(gs, g, k);
    ComponentIs(rules, gs + [g], k);
    ComponentIs(rules, gs, k);
  }

  lemma ComponentIs(rules: Rules, gs: seq<Given>, k: nat)
    requires k < |gs|
    ensures ComponentAt(rules, gs, k)
         == Component(gs[k].material, Notices(rules, |Document(gs, k)| + |Heading(gs[k].material)|, Ordered(gs[k]), |gs[k].texts|))
  {
    hide Document, Notices, Ordered;
  }

  lemma DocumentStep(gs: seq<Given>, k: nat)
    requires k < |gs|
    ensures Document(gs, k + 1)
         == (Document(gs, k) + Heading(gs[k].material)) + Parts(Ordered(gs[k]), |Ordered(gs[k])|)
  {
    hide Parts, Ordered;
    var doc := Document(gs, k);
    assert Document(gs, k + 1) == doc + Section(gs[k]);
    hide Document;
    assert doc + (Heading(gs[k].material) + Parts(Ordered(gs[k]), |Ordered(gs[k])|))
        == (doc + Heading(gs[k].material)) + Parts(Ordered(gs[k]), |Ordered(gs[k])|);
  }

  // The verifier.

  function SpanOf(n: Notice): Intervals.Span { Intervals.Span(n.offset, n.offset + n.length) }

  ghost function SpansOf(notices: seq<Notice>): (s: seq<Intervals.Span>)
    ensures |s| == |notices| && forall i :: 0 <= i < |s| ==> s[i] == SpanOf(notices[i])
  {
    seq(|notices|, i requires 0 <= i < |notices| => SpanOf(notices[i]))
  }

  ghost function AllSpans(components: seq<Component>): seq<Intervals.Span> {
    if components == [] then [] else SpansOf(components[0].notices) + AllSpans(components[1..])
  }

  ghost predicate Below(a: Text, b: Text) { TextOrder.TextLeq(a, b) && a != b }

  ghost predicate Ascend(names: seq<Text>) {
    forall i :: 0 < i < |names| ==> Below(names[i - 1], names[i])
  }

  const SLASH: CodeUnit := 0x2F

  ghost predicate PlainUnit(c: CodeUnit) { c >= 0x20 && c != 0x7F && c != BACKSLASH }

  ghost predicate PlainSegment(segment: Text) { segment != [] && segment != [DOT] && segment != [DOT, DOT] }

  ghost predicate PlainSegments(segment: Text, rest: Text)
    decreases |rest|
  {
    if rest == [] then PlainSegment(segment)
    else if rest[0] == SLASH then PlainSegment(segment) && PlainSegments([], rest[1..])
    else PlainSegments(segment + [rest[0]], rest[1..])
  }

  /** A relative path of plain segments. */
  ghost predicate PathForm(path: Text) {
    1 <= |path| <= 1024 && (forall k :: 0 <= k < |path| ==> PlainUnit(path[k])) && PlainSegments([], path)
  }

  ghost predicate NoticeFits(n: Notice) {
    PathForm(n.path) && n.length != 0 && n.offset + n.length <= NOTICES_LIMIT && n.sourceOffset + n.length <= NOTICES_LIMIT
  }

  ghost predicate ReadsBack(rules: Rules, document: Bytes, n: Notice) {
    n.offset + n.length <= |document| && rules.hash(document[n.offset..n.offset + n.length]) == n.digest
  }

  ghost function PathOf(n: Notice): Text { n.path }

  ghost function DigestOf(n: Notice): Digest { n.digest }

  const MISSING: Text := Plain("license_text_missing")

  /** Package texts may be missing only if that is said, and the runtime must bring its pinned notice. */
  ghost predicate TextsThere(rules: Rules, m: Material, digests: seq<Digest>) {
    && (m.kind.Npm? && digests == [] ==> MISSING in m.unresolved)
    && (m.kind.Runtime? ==> rules.runtimeNotice in digests)
  }

  ghost predicate ComponentFits(rules: Rules, c: Component) {
    && |c.notices| <= NOTICES_PER_COMPONENT && Ascend(Apply(PathOf, c.notices))
    && (forall i :: 0 <= i < |c.notices| ==> NoticeFits(c.notices[i]))
    && rules.admits(c.material) && TextsThere(rules, c.material, Apply(DigestOf, c.notices))
  }

  ghost predicate ComponentReads(rules: Rules, document: Bytes, c: Component) {
    forall i :: 0 <= i < |c.notices| ==> ReadsBack(rules, document, c.notices[i])
  }

  function IdentityOf(c: Component): Text { Identity(c.material) }

  ghost function IsRuntime(c: Component): bool { c.material.kind.Runtime? }

  ghost function Count<T>(f: T -> bool, s: seq<T>): nat { multiset(Apply(f, s))[true] }

  ghost function Unresolved(c: Component): bool { c.material.unresolved != [] }

  /** The inventory is in form: sizes, order, one runtime, the right status, and no byte in two texts. */
  ghost predicate WellFormed(rules: Rules, d: Distribution) {
    && 1 <= |d.components| <= COMPONENT_LIMIT
    && (forall c :: c in d.components ==> ComponentFits(rules, c))
    && Ascend(Apply(IdentityOf, d.components))
    && Intervals.AllApart(AllSpans(d.components))
    && Count(IsRuntime, d.components) == 1
    && (d.unresolved <==> exists c :: c in d.components && Unresolved(c))
  }

  /** It is in form, both files are the recorded ones and well-formed text, and every span is the recorded text. */
  ghost predicate Verified(rules: Rules, d: Distribution, license: Bytes, document: Bytes) {
    && WellFormed(rules, d)
    && |license| <= LICENSE_LIMIT && |document| <= NOTICES_LIMIT
    && rules.hash(license) == d.licenseDigest && rules.hash(document) == d.noticesDigest
    && ValidUtf8(license) && ValidUtf8(document)
    && (forall c :: c in d.components ==> ComponentReads(rules, document, c))
  }

  method AreOrdered(names: seq<Text>) returns (ok: bool)
    ensures ok <==> Ascend(names)
  {
    hide TextOrder.TextLeq;
    for i := 0 to |names|
      invariant forall k :: 0 < k < i ==> Below(names[k - 1], names[k])
    {
      if i > 0 && (names[i - 1] == names[i] || !TextOrder.TextLeq(names[i - 1], names[i])) {
        assert !Below(names[i - 1], names[i]);
        return false;
      }
    }
    return true;
  }

  method IsPath(path: Text) returns (ok: bool)
    ensures ok <==> PathForm(path)
  {
    if path == [] || |path| > 1024 {
      return false;
    }
    for i := 0 to |path|
      invariant forall k :: 0 <= k < i ==> PlainUnit(path[k])
    {
      if path[i] < 0x20 || path[i] == 0x7F || path[i] == BACKSLASH {
        assert !PlainUnit(path[i]);
        return false;
      }
    }
    var segment: Text := [];
    assert path[0..] == path;
    for i := 0 to |path|
      invariant PlainSegments(segment, path[i..]) == PlainSegments([], path)
    {
      assert path[i..][0] == path[i] && path[i..][1..] == path[i + 1..];
      if path[i] == SLASH {
        if segment == [] || segment == [DOT] || segment == [DOT, DOT] {
          return false;
        }
        segment := [];
      } else {
        segment := segment + [path[i]];
      }
    }
    assert path[|path|..] == [];
    return segment != [] && segment != [DOT] && segment != [DOT, DOT];
  }

  method ParseNotice(n: Notice) returns (ok: bool)
    ensures ok <==> NoticeFits(n)
  {
    hide PathForm;
    ok := IsPath(n.path);
    if n.length == 0 || n.offset + n.length > NOTICES_LIMIT || n.sourceOffset + n.length > NOTICES_LIMIT {
      ok := false;
    }
  }

  method ParseComponent(rules: Rules, c: Component) returns (ok: bool, spans: seq<Intervals.Span>)
    ensures ok <==> ComponentFits(rules, c)
    ensures ok ==> spans == SpansOf(c.notices)
  {
    hide NoticeFits, Apply, Ascend, SpansOf;
    spans := [];
    if |c.notices| > NOTICES_PER_COMPONENT {
      return false, spans;
    }
    var names: seq<Text> := [];
    var pinned := false;
    NoNotices();
    assert c.notices[..0] == [];
    for i := 0 to |c.notices|
      invariant forall k :: 0 <= k < i ==> NoticeFits(c.notices[k])
      invariant names == Apply(PathOf, c.notices[..i]) && spans == SpansOf(c.notices[..i])
      invariant pinned <==> rules.runtimeNotice in Apply(DigestOf, c.notices[..i])
    {
      var n := c.notices[i];
      var fits := ParseNotice(n);
      if !fits {
        return false, spans;
      }
      assert c.notices[..i + 1] == c.notices[..i] + [n];
      NoticesPush(c.notices[..i], n);
      names := names + [n.path];
      spans := spans + [Intervals.Span(n.offset, n.offset + n.length)];
      pinned := pinned || n.digest == rules.runtimeNotice;
    }
    assert c.notices[..|c.notices|] == c.notices;
    var ordered := AreOrdered(names);
    if !ordered || !rules.admits(c.material) {
      return false, spans;
    }
    NoDigests(c.notices);
    if c.material.kind == Npm && |c.notices| == 0 && MISSING !in c.material.unresolved {
      return false, spans;
    }
    if c.material.kind == Runtime && !pinned {
      return false, spans;
    }
    return true, spans;
  }

  lemma NoNotices()
    ensures Apply(PathOf, []) == [] && Apply(DigestOf, []) == [] && SpansOf([]) == []
  {
  }

  lemma NoDigests(notices: seq<Notice>)
    ensures Apply(DigestOf, notices) == [] <==> |notices| == 0
  {
    assert |Apply(DigestOf, notices)| == |notices|;
    hide Apply;
  }

  lemma NoticesPush(notices: seq<Notice>, n: Notice)
    ensures Apply(PathOf, notices + [n]) == Apply(PathOf, notices) + [n.path]
    ensures Apply(DigestOf, notices + [n]) == Apply(DigestOf, notices) + [n.digest]
    ensures SpansOf(notices + [n]) == SpansOf(notices) + [Intervals.Span(n.offset, n.offset + n.length)]
  {
    assert (notices + [n])[..|notices|] == notices;
  }

  method ParseDistribution(rules: Rules, d: Distribution) returns (ok: bool)
    ensures ok <==> WellFormed(rules, d)
  {
    hide ComponentFits, SpansOf, Intervals.AllApart, Apply, AllSpans, Count, Ascend, Identity;
    var cs := d.components;
    if |cs| < 1 || |cs| > COMPONENT_LIMIT {
      return false;
    }
    var spans: seq<Intervals.Span> := [];
    var identities: seq<Text> := [];
    var unresolved, runtimes := false, 0;
    StartOfList(cs);
    for i := 0 to |cs|
      invariant forall k :: 0 <= k < i ==> ComponentFits(rules, cs[k])
      invariant spans + AllSpans(cs[i..]) == AllSpans(cs)
      invariant Intervals.Proper(spans)
      invariant identities == Apply(IdentityOf, cs[..i])
      invariant runtimes == Count(IsRuntime, cs[..i])
      invariant unresolved <==> exists k :: 0 <= k < i && Unresolved(cs[k])
    {
      var c := cs[i];
      var fits, more := ParseComponent(rules, c);
      if !fits {
        assert c in cs;
        return false;
      }
      FitsProper(rules, c);
      NextOfList(cs, i, spans);
      spans := spans + more;
      identities := identities + [Identity(c.material)];
      if c.material.unresolved != [] {
        assert Unresolved(cs[i]);
        unresolved := true;
      }
      if c.material.kind == Runtime {
        runtimes := runtimes + 1;
      }
    }
    assert cs[..|cs|] == cs;
    assert forall k :: 0 <= k < |cs| ==> cs[k] in cs;
    var ordered := AreOrdered(identities);
    var apart := Intervals.NeighboursApart(spans);
    return ordered && runtimes == 1 && apart && d.unresolved == unresolved;
  }

  lemma StartOfList(cs: seq<Component>)
    ensures cs[0..] == cs && Apply(IdentityOf, cs[..0]) == [] && Count(IsRuntime, cs[..0]) == 0 && AllSpans(cs[|cs|..]) == []
    ensures forall s: seq<Intervals.Span> :: s + [] == s
  {
  }

  lemma NextOfList(cs: seq<Component>, i: nat, spans: seq<Intervals.Span>)
    requires i < |cs|
    ensures spans + AllSpans(cs[i..]) == (spans + SpansOf(cs[i].notices)) + AllSpans(cs[i + 1..])
    ensures Apply(IdentityOf, cs[..i + 1]) == Apply(IdentityOf, cs[..i]) + [IdentityOf(cs[i])]
    ensures Count(IsRuntime, cs[..i + 1]) == Count(IsRuntime, cs[..i]) + if IsRuntime(cs[i]) then 1 else 0
  {
    hide SpansOf, IsRuntime, IdentityOf;
    assert cs[i..][1..] == cs[i + 1..];
    assert cs[..i + 1][..i] == cs[..i];
  }

  method VerifyLayout(rules: Rules, d: Distribution, license: Bytes, document: Bytes) returns (ok: bool)
    ensures ok <==> Verified(rules, d, license, document)
  {
    hide ComponentReads, WellFormed, ValidUtf8;
    var parsed := ParseDistribution(rules, d);
    if !parsed || |license| > LICENSE_LIMIT || |document| > NOTICES_LIMIT
       || rules.hash(license) != d.licenseDigest || rules.hash(document) != d.noticesDigest
       || !ValidUtf8(license) || !ValidUtf8(document)
    {
      return false;
    }
    for i := 0 to |d.components|
      invariant forall k :: 0 <= k < i ==> ComponentReads(rules, document, d.components[k])
    {
      var readBack := ReadTexts(rules, document, d.components[i]);
      if !readBack {
        assert d.components[i] in d.components;
        return false;
      }
    }
    return true;
  }

  method ReadTexts(rules: Rules, document: Bytes, c: Component) returns (ok: bool)
    ensures ok <==> ComponentReads(rules, document, c)
  {
    for i := 0 to |c.notices|
      invariant forall k :: 0 <= k < i ==> ReadsBack(rules, document, c.notices[k])
    {
      var n := c.notices[i];
      if n.offset + n.length > |document| || rules.hash(document[n.offset..n.offset + n.length]) != n.digest {
        assert !ReadsBack(rules, document, c.notices[i]);
        return false;
      }
    }
    return true;
  }

  lemma FitsProper(rules: Rules, c: Component)
    requires ComponentFits(rules, c)
    ensures Intervals.Proper(SpansOf(c.notices))
  {
    forall i | 0 <= i < |c.notices| ensures SpansOf(c.notices)[i].start < SpansOf(c.notices)[i].end {
      assert NoticeFits(c.notices[i]);
    }
  }

  // What the builder made, read by the verifier.

  /** `text` stands at `at`. */
  ghost predicate Contains(document: Bytes, at: nat, text: Bytes) {
    at + |text| <= |document| && document[at..at + |text|] == text
  }

  lemma ContainsHere(a: Bytes, text: Bytes, b: Bytes)
    ensures Contains(a + text + b, |a|, text)
  {
  }

  lemma ContainsEarlier(a: Bytes, b: Bytes, at: nat, text: Bytes)
    requires Contains(a, at, text)
    ensures Contains(a + b, at, text)
  {
    assert (a + b)[at..at + |text|] == a[at..at + |text|];
  }

  lemma ContainsLater(a: Bytes, b: Bytes, at: nat, text: Bytes)
    requires Contains(b, at, text)
    ensures Contains(a + b, |a| + at, text)
  {
    assert (a + b)[|a| + at..|a| + at + |text|] == b[at..at + |text|];
  }

  lemma {:induction false} PartsContain(ts: seq<Supplied>, n: nat, i: nat)
    requires i < n <= |ts|
    ensures Contains(Parts(ts, n), |Parts(ts, i)| + |Announce(ts[i].name)|, Taken(ts[i]))
  {
    hide *;
    PartsNext(ts, n - 1);
    var t := ts[n - 1];
    if i < n - 1 {
      PartsContain(ts, n - 1, i);
      ContainsEarlier(Parts(ts, n - 1), Part(t), |Parts(ts, i)| + |Announce(ts[i].name)|, Taken(ts[i]));
    } else {
      PartContains(t);
      ContainsLater(Parts(ts, i), Part(t), |Announce(t.name)|, Taken(t));
    }
  }

  lemma PartContains(t: Supplied)
    ensures Contains(Part(t), |Announce(t.name)|, Taken(t))
  {
    hide Contains, Taken;
    ContainsHere(Announce(t.name), Taken(t), BLANK);
  }

  lemma {:induction false} DocumentContains(gs: seq<Given>, k: nat, n: nat, at: nat, text: Bytes)
    requires k <= n <= |gs| && Contains(Document(gs, k), at, text)
    ensures Contains(Document(gs, n), at, text)
    decreases n
  {
    hide Section, Contains;
    if k < n {
      DocumentContains(gs, k, n - 1, at, text);
      ContainsEarlier(Document(gs, n - 1), Section(gs[n - 1]), at, text);
    }
  }

  /** Every recorded offset and length cuts the exact supplied text back out of the document. */
  lemma RecordsReadBack(rules: Rules, gs: seq<Given>, k: nat, i: nat)
    requires k < |gs| && i < |gs[k].texts|
    ensures |Ordered(gs[k])| == |gs[k].texts| == |Components(rules, gs, |gs|)[k].notices|
    ensures var n, text := Components(rules, gs, |gs|)[k].notices[i], Taken(Ordered(gs[k])[i]);
            n.length == |text| && Contains(Document(gs, |gs|), n.offset, text)
  {
    hide *;
    var ts := Ordered(gs[k]);
    var before := Document(gs, k) + Heading(gs[k].material);
    var at := |Parts(ts, i)| + |Announce(ts[i].name)|;
    PartsContain(ts, |ts|, i);
    RecordIs(rules, gs, k, i);
    DocumentStep(gs, k);
    ContainsLater(before, Parts(ts, |ts|), at, Taken(ts[i]));
    DocumentContains(gs, k + 1, |gs|, |before| + at, Taken(ts[i]));
  }

  lemma RecordIs(rules: Rules, gs: seq<Given>, k: nat, i: nat)
    requires k < |gs| && i < |Ordered(gs[k])|
    ensures |Ordered(gs[k])| == |gs[k].texts| == |Components(rules, gs, |gs|)[k].notices|
    ensures Components(rules, gs, |gs|)[k].notices[i] == NoticeAt(rules, |Document(gs, k) + Heading(gs[k].material)|, Ordered(gs[k]), i)
    ensures var n, ts := Components(rules, gs, |gs|)[k].notices[i], Ordered(gs[k]);
            && n.path == ts[i].name && n.length == |Taken(ts[i])| && n.digest == rules.hash(Taken(ts[i])) && n.sourceOffset == ts[i].start
            && n.offset == |Document(gs, k) + Heading(gs[k].material)| + (|Parts(ts, i)| + |Announce(ts[i].name)|)
  {
    hide Document, Parts, NoticeAt, Taken, Notices, Components;
    ComponentsAt(rules, gs, |gs|, k);
    ComponentIs(rules, gs, k);
    NoticesAt(rules, |Document(gs, k) + Heading(gs[k].material)|, Ordered(gs[k]), |gs[k].texts|, i);
    NoticeIs(rules, |Document(gs, k) + Heading(gs[k].material)|, Ordered(gs[k]), i);
  }

  // No two texts share a byte.

  lemma {:induction false} PartsGrow(ts: seq<Supplied>, i: nat, j: nat)
    requires i <= j <= |ts|
    ensures |Parts(ts, i)| <= |Parts(ts, j)|
    decreases j
  {
    hide *;
    if i < j {
      PartsGrow(ts, i, j - 1);
      PartsNext(ts, j - 1);
    }
  }

  /** The spans of component `k` lie one after the other in the part of the document that it added. */
  lemma SectionSpans(rules: Rules, gs: seq<Given>, k: nat)
    requires k < |gs|
    ensures Intervals.AllApart(SpansOf(ComponentAt(rules, gs, k).notices))
    ensures forall i :: 0 <= i < |ComponentAt(rules, gs, k).notices| ==>
              |Document(gs, k)| <= SpansOf(ComponentAt(rules, gs, k).notices)[i].start
              && SpansOf(ComponentAt(rules, gs, k).notices)[i].end <= |Document(gs, k + 1)|
  {
    hide Document, Ordered, Parts, NoticeAt, ComponentAt, Notices;
    var ts, notices := Ordered(gs[k]), ComponentAt(rules, gs, k).notices;
    var spans := SpansOf(notices);
    ComponentIs(rules, gs, k);
    forall i: nat | i < |spans|
      ensures spans[i].start >= |Document(gs, k)| + |Heading(gs[k].material)| + |Parts(ts, i)|
      ensures spans[i].end <= |Document(gs, k)| + |Heading(gs[k].material)| + |Parts(ts, i + 1)|
      ensures spans[i].end <= |Document(gs, k + 1)|
    {
      NoticesAt(rules, |Document(gs, k)| + |Heading(gs[k].material)|, ts, |gs[k].texts|, i);
      NoticeWithin(rules, gs, k, i);
    }
    forall i: nat, j: nat | i < j < |spans| ensures Intervals.Apart(spans[i], spans[j]) {
      PartsGrow(ts, i + 1, j);
    }
  }

  lemma NoticeWithin(rules: Rules, gs: seq<Given>, k: nat, i: nat)
    requires k < |gs| && i < |Ordered(gs[k])|
    ensures var ts, base := Ordered(gs[k]), |Document(gs, k)| + |Heading(gs[k].material)|;
            var n := NoticeAt(rules, base, ts, i);
            base + |Parts(ts, i)| <= n.offset && n.offset + n.length <= base + |Parts(ts, i + 1)| <= |Document(gs, k + 1)|
  {
    hide Document, Ordered, Parts, Taken, Part;
    var ts := Ordered(gs[k]);
    PartsNext(ts, i);
    PartLength(ts[i]);
    PartsGrow(ts, i + 1, |ts|);
    DocumentStep(gs, k);
  }

  lemma PartLength(t: Supplied)
    ensures |Part(t)| == |Announce(t.name)| + |Taken(t)| + 2
  {
    hide Taken;
  }

  lemma {:induction false} SuffixSpans(rules: Rules, gs: seq<Given>, k: nat)
    requires k <= |gs|
    ensures var spans := AllSpans(Components(rules, gs, |gs|)[k..]);
            && Intervals.AllApart(spans)
            && forall i :: 0 <= i < |spans| ==> |Document(gs, k)| <= spans[i].start
    decreases |gs| - k
  {
    hide Document, ComponentAt, SpansOf, Components, Parts, Heading, Ordered, Intervals.AllApart;
    var cs := Components(rules, gs, |gs|);
    if k == |gs| {
      NoSpansApart();
      assert cs[k..] == [];
    } else {
      SuffixSpans(rules, gs, k + 1);
      SectionSpans(rules, gs, k);
      ComponentsAt(rules, gs, |gs|, k);
      assert cs[k..][1..] == cs[k + 1..] && cs[k..][0] == cs[k];
      DocumentStep(gs, k);
      JoinedApart(SpansOf(cs[k].notices), AllSpans(cs[k + 1..]), |Document(gs, k + 1)|);
    }
  }

  lemma NoSpansApart()
    ensures Intervals.AllApart([])
  {
  }

  lemma JoinedApart(a: seq<Intervals.Span>, b: seq<Intervals.Span>, cut: int)
    requires Intervals.AllApart(a) && Intervals.AllApart(b)
    requires forall i :: 0 <= i < |a| ==> a[i].end <= cut
    requires forall i :: 0 <= i < |b| ==> cut <= b[i].start
    ensures Intervals.AllApart(a + b)
  {
  }

  /** The spans that the builder records never overlap. */
  lemma SpansNeverOverlap(rules: Rules, gs: seq<Given>)
    ensures Intervals.AllApart(AllSpans(Components(rules, gs, |gs|)))
  {
    hide *;
    SuffixSpans(rules, gs, 0);
    assert Components(rules, gs, |gs|)[0..] == Components(rules, gs, |gs|);
  }

  // Sorting the components afterwards changes nothing of this.

  predicate IdentityLeq(a: Component, b: Component) { TextOrder.TextLeq(IdentityOf(a), IdentityOf(b)) }

  lemma {:induction false} InsertSpans(c: Component, cs: seq<Component>)
    ensures multiset(AllSpans(Sorting.Insert(c, cs, IdentityLeq))) == multiset(SpansOf(c.notices)) + multiset(AllSpans(cs))
  {
    hide SpansOf, IdentityLeq;
    if cs != [] && !IdentityLeq(c, cs[0]) {
      InsertSpans(c, cs[1..]);
    }
  }

  lemma {:induction false} SortSpans(cs: seq<Component>)
    ensures multiset(AllSpans(Sorting.Sort(cs, IdentityLeq))) == multiset(AllSpans(cs))
  {
    hide SpansOf;
    if cs != [] {
      SortSpans(cs[1..]);
      InsertSpans(cs[0], Sorting.Sort(cs[1..], IdentityLeq));
    }
  }

  lemma SortedIdentities(cs: seq<Component>)
    ensures Sorting.Sorted(Apply(IdentityOf, Sorting.Sort(cs, IdentityLeq)), TextOrder.TextLeq)
  {
    hide IdentityOf;
    forall a: Component, b: Component ensures IdentityLeq(a, b) || IdentityLeq(b, a) {
      TextOrder.TextTotal(IdentityOf(a), IdentityOf(b));
    }
    forall a: Component, b: Component, c: Component | IdentityLeq(a, b) && IdentityLeq(b, c) ensures IdentityLeq(a, c) {
      TextOrder.TextTransitive(IdentityOf(a), IdentityOf(b), IdentityOf(c));
    }
    Sorting.SortSorted(cs, IdentityLeq);
    var sorted := Sorting.Sort(cs, IdentityLeq);
    forall i, j | 0 <= i < j < |sorted| ensures TextOrder.TextLeq(IdentityOf(sorted[i]), IdentityOf(sorted[j])) {
      assert IdentityLeq(sorted[i], sorted[j]);
    }
  }

  /** Among sorted texts, comparing neighbours finds any repetition. */
  lemma AscendWhenDistinct(names: seq<Text>)
    requires Sorting.Sorted(names, TextOrder.TextLeq)
    ensures Ascend(names) <==> Sorting.Distinct(names)
  {
    hide TextOrder.TextLeq;
    if Ascend(names) {
      forall i, j | 0 <= i < j < |names| ensures names[i] != names[j] {
        assert Below(names[j - 1], names[j]);
        assert i < j - 1 ==> TextOrder.TextLeq(names[i], names[j - 1]);
        TextOrder.TextTotal(names[j - 1], names[j]);
        OnlyOneWay(names[j - 1], names[j]);
      }
    }
  }

  lemma OnlyOneWay(a: Text, b: Text)
    ensures TextOrder.TextLeq(a, b) && TextOrder.TextLeq(b, a) ==> a == b
  {
    TextOrder.TextTotal(a, b);
  }

  lemma SameDistinct<T(!new)>(a: seq<T>, b: seq<T>)
    requires multiset(a) == multiset(b)
    ensures Sorting.Distinct(a) <==> Sorting.Distinct(b)
  {
    if Sorting.Distinct(a) {
      Sorting.DistinctPermutation(a, b);
    }
    if Sorting.Distinct(b) {
      Sorting.DistinctPermutation(b, a);
    }
  }

  // When the verifier accepts what the builder made.

  ghost function NameOf(t: Supplied): Text { t.name }

  /** What is asked of the texts of one component, their encoding left aside. */
  ghost predicate Listable(rules: Rules, g: Given) {
    && |g.texts| <= NOTICES_PER_COMPONENT && Sorting.Distinct(Apply(NameOf, g.texts))
    && (forall t :: t in g.texts ==> Taken(t) != [] && PathForm(t.name))
    && rules.admits(g.material)
    && (g.material.kind.Npm? && g.texts == [] ==> MISSING in g.material.unresolved)
    && (g.material.kind.Runtime? ==> exists t :: t in g.texts && rules.hash(Taken(t)) == rules.runtimeNotice)
  }

  ghost predicate WellEncoded(g: Given) {
    forall t :: t in g.texts ==> ValidUtf8(Taken(t))
  }

  ghost function GivenIdentity(g: Given): Text { Identity(g.material) }

  ghost function GivenRuntime(g: Given): bool { g.material.kind.Runtime? }

  /** What a caller can check before building anything. */
  ghost predicate Publishable(rules: Rules, gs: seq<Given>, license: Bytes) {
    && 1 <= |gs| <= COMPONENT_LIMIT
    && (forall g :: g in gs ==> Listable(rules, g) && WellEncoded(g))
    && Sorting.Distinct(Apply(GivenIdentity, gs)) && Count(GivenRuntime, gs) == 1
    && (exists g :: g in gs && g.material.unresolved != [])
    && |license| <= LICENSE_LIMIT && ValidUtf8(license)
  }

  /** What is published of the calls of addTexts. */
  ghost function Made(rules: Rules, gs: seq<Given>, license: Bytes): Distribution {
    Distribution(rules.hash(license), rules.hash(Document(gs, |gs|)), true,
                 Sorting.Sort(Components(rules, gs, |gs|), IdentityLeq))
  }

  ghost predicate SourcesFit(gs: seq<Given>) {
    forall k, t :: 0 <= k < |gs| && t in gs[k].texts ==> |t.source| <= NOTICES_LIMIT
  }

  // One component.

  lemma OrderedNames(g: Given)
    ensures Sorting.Sorted(Apply(NameOf, Ordered(g)), TextOrder.TextLeq)
    ensures Sorting.Distinct(Apply(NameOf, Ordered(g))) <==> Sorting.Distinct(Apply(NameOf, g.texts))
  {
    NameOrder();
    Sorting.SortSorted(g.texts, NameLeq);
    var ts := Ordered(g);
    forall i, j | 0 <= i < j < |ts| ensures TextOrder.TextLeq(ts[i].name, ts[j].name) {
      assert NameLeq(ts[i], ts[j]);
    }
    ApplyPermutation(NameOf, g.texts, ts);
    SameDistinct(Apply(NameOf, ts), Apply(NameOf, g.texts));
  }

  lemma NameOrder()
    ensures Sorting.IsOrder(NameLeq)
  {
    forall a: Supplied, b: Supplied ensures NameLeq(a, b) || NameLeq(b, a) {
      TextOrder.TextTotal(a.name, b.name);
    }
    forall a: Supplied, b: Supplied, c: Supplied | NameLeq(a, b) && NameLeq(b, c) ensures NameLeq(a, c) {
      TextOrder.TextTransitive(a.name, b.name, c.name);
    }
  }

  lemma TakenFits(t: Supplied)
    ensures Taken(t) != [] ==> t.start + |Taken(t)| <= |t.source|
  {
  }

  lemma RecordFits(rules: Rules, gs: seq<Given>, k: nat, i: nat)
    requires |Document(gs, |gs|)| <= NOTICES_LIMIT && SourcesFit(gs)
    requires k < |gs| && i < |gs[k].texts| && i < |Components(rules, gs, |gs|)[k].notices|
    ensures var n, t := Components(rules, gs, |gs|)[k].notices[i], Ordered(gs[k])[i];
      && (NoticeFits(n) <==> Taken(t) != [] && PathForm(t.name))
      && ReadsBack(rules, Document(gs, |gs|), n) && n.path == t.name && n.digest == rules.hash(Taken(t))
  {
    hide *;
    RecordsReadBack(rules, gs, k, i);
    RecordIs(rules, gs, k, i);
    var n, t := Components(rules, gs, |gs|)[k].notices[i], Ordered(gs[k])[i];
    FoundFits(rules, Document(gs, |gs|), n, Taken(t));
    TakenFits(t);
    SourceFits(gs, k, t) by {
      Sorting.SameElements(Ordered(gs[k]), gs[k].texts);
      assert t in Ordered(gs[k]);
    }
    NoticeFitsWhen(n);
  }

  lemma NoticeFitsWhen(n: Notice)
    ensures NoticeFits(n)
       <==> PathForm(n.path) && n.length != 0 && n.offset + n.length <= NOTICES_LIMIT && n.sourceOffset + n.length <= NOTICES_LIMIT
  {
  }

  lemma SourceFits(gs: seq<Given>, k: nat, t: Supplied)
    requires SourcesFit(gs) && k < |gs| && t in gs[k].texts
    ensures |t.source| <= NOTICES_LIMIT
  {
  }

  lemma FoundFits(rules: Rules, document: Bytes, n: Notice, text: Bytes)
    requires n.length == |text| && n.digest == rules.hash(text) && Contains(document, n.offset, text)
    ensures n.offset + n.length <= |document| && ReadsBack(rules, document, n)
  {
  }

  lemma ComponentFitsWhen(rules: Rules, gs: seq<Given>, k: nat)
    requires |Document(gs, |gs|)| <= NOTICES_LIMIT && SourcesFit(gs) && k < |gs|
    ensures ComponentFits(rules, Components(rules, gs, |gs|)[k]) <==> Listable(rules, gs[k])
    ensures ComponentReads(rules, Document(gs, |gs|), Components(rules, gs, |gs|)[k])
  {
    hide Document, Ordered, Taken, NoticeFits, ReadsBack, Components, SourcesFit, PathForm, ComponentFits, Listable;
    var c, ts := Components(rules, gs, |gs|)[k], Ordered(gs[k]);
    ComponentSize(rules, gs, k);
    forall i: nat | i < |ts|
      ensures (NoticeFits(c.notices[i]) <==> Taken(ts[i]) != [] && PathForm(ts[i].name))
        && ReadsBack(rules, Document(gs, |gs|), c.notices[i]) && c.notices[i].path == ts[i].name
        && c.notices[i].digest == rules.hash(Taken(ts[i]))
    {
      RecordFits(rules, gs, k, i);
    }
    FitsLikeTexts(rules, c, gs[k], ts);
  }

  lemma FitsLikeTexts(rules: Rules, c: Component, g: Given, ts: seq<Supplied>)
    requires ts == Ordered(g) && |c.notices| == |ts| && c.material == g.material
    requires forall i: nat :: i < |ts| ==>
      && (NoticeFits(c.notices[i]) <==> Taken(ts[i]) != [] && PathForm(ts[i].name))
      && c.notices[i].path == ts[i].name && c.notices[i].digest == rules.hash(Taken(ts[i]))
    ensures ComponentFits(rules, c) <==> Listable(rules, g)
  {
    hide Ordered, Taken, NoticeFits, PathForm, Ascend, Apply;
    OrderedNames(g);
    assert Apply(PathOf, c.notices) == Apply(NameOf, ts);
    AscendWhenDistinct(Apply(NameOf, ts));
    Sorting.SameElements(ts, g.texts);
    assert forall i :: 0 <= i < |ts| ==> ts[i] in g.texts;
    assert forall t :: t in g.texts ==> exists i :: 0 <= i < |ts| && ts[i] == t;
    DigestsThere(rules, c, ts);
  }

  lemma DigestsThere(rules: Rules, c: Component, ts: seq<Supplied>)
    requires |c.notices| == |ts| && forall i: nat :: i < |ts| ==> c.notices[i].digest == rules.hash(Taken(ts[i]))
    ensures rules.runtimeNotice in Apply(DigestOf, c.notices) <==> exists t :: t in ts && rules.hash(Taken(t)) == rules.runtimeNotice
  {
    hide Taken, Apply;
    var ds := Apply(DigestOf, c.notices);
    if rules.runtimeNotice in ds {
      var i: nat :| i < |ds| && ds[i] == rules.runtimeNotice;
      assert ts[i] in ts && rules.hash(Taken(ts[i])) == rules.runtimeNotice;
    }
    forall t | t in ts && rules.hash(Taken(t)) == rules.runtimeNotice ensures rules.runtimeNotice in ds {
      var i: nat :| i < |ts| && ts[i] == t;
      assert ds[i] == rules.runtimeNotice;
    }
  }

  lemma ComponentSize(rules: Rules, gs: seq<Given>, k: nat)
    requires k < |gs|
    ensures |Components(rules, gs, |gs|)[k].notices| == |Ordered(gs[k])| == |gs[k].texts|
    ensures Components(rules, gs, |gs|)[k].material == gs[k].material
  {
    hide Document, Ordered, Notices, Components;
    ComponentsAt(rules, gs, |gs|, k);
    ComponentIs(rules, gs, k);
  }

  // The document is well encoded exactly when the texts are.

  ghost predicate EndsLine(b: Bytes) {
    b != [] && b[|b| - 1] == 10
  }

  lemma {:induction false} AsciiIsUtf8(b: Bytes)
    requires forall k :: 0 <= k < |b| ==> b[k] < 0x80
    ensures ValidUtf8(b)
  {
    if b != [] {
      AsciiIsUtf8(b[1..]);
    }
  }

  lemma EndedEncoding(t: Text)
    ensures EndsLine(Encode(t + [LINE_FEED])) && ValidUtf8(Encode(t + [LINE_FEED]))
  {
    hide ValidUtf8, EncodeAll, Scalars;
    EncodeAppend(t, LINE_FEED);
    EncodedIsUtf8(Scalars(t + [LINE_FEED]));
  }

  lemma HeadingEnds(m: Material)
    ensures EndsLine(Heading(m)) && ValidUtf8(Heading(m))
  {
    hide Encode, EndsLine, ValidUtf8, Plain;
    var unresolved := Joined(m.unresolved);
    EndedEncoding(Plain("Component: ") + m.name + Plain(" (") + Or(m.version, Plain("unknown")) + Plain(")\nDeclared license: ")
           + Or(m.declared, Plain("unknown")) + Plain("\nUnresolved: ")
           + (if unresolved == [] then Plain("none recorded") else unresolved) + [LINE_FEED]);
  }

  lemma PartEncoding(t: Supplied)
    ensures EndsLine(Part(t)) && (ValidUtf8(Part(t)) <==> ValidUtf8(Taken(t)))
  {
    hide ValidUtf8, Taken, Encode;
    EndedEncoding(Plain("Source: ") + t.name);
    LinesPart(Announce(t.name), Taken(t) + BLANK);
    assert Part(t) == Announce(t.name) + (Taken(t) + BLANK);
    LineFeedParts(Taken(t), [10]);
    assert Taken(t) + BLANK == Taken(t) + [10] + [10];
    AsciiIsUtf8([10]);
  }

  lemma {:induction false} PartsEncoding(ts: seq<Supplied>, n: nat)
    requires n <= |ts|
    ensures Parts(ts, n) == [] || EndsLine(Parts(ts, n))
    ensures ValidUtf8(Parts(ts, n)) <==> forall i :: 0 <= i < n ==> ValidUtf8(Taken(ts[i]))
  {
    hide ValidUtf8, Taken, Part;
    if n > 0 {
      PartsEncoding(ts, n - 1);
      PartEncoding(ts[n - 1]);
      Continued(Parts(ts, n - 1), Part(ts[n - 1]));
    } else {
      AsciiIsUtf8([]);
    }
  }

  lemma Continued(a: Bytes, b: Bytes)
    requires a == [] || EndsLine(a)
    ensures ValidUtf8(a + b) <==> ValidUtf8(a) && ValidUtf8(b)
    ensures EndsLine(b) ==> EndsLine(a + b)
  {
    hide ValidUtf8;
    if a == [] {
      AsciiIsUtf8([]);
      assert a + b == b;
    } else {
      LinesPart(a, b);
    }
  }

  lemma SectionEncoding(g: Given)
    ensures EndsLine(Section(g)) && (ValidUtf8(Section(g)) <==> WellEncoded(g))
  {
    hide ValidUtf8, Taken, Parts, Ordered, Heading;
    var ts := Ordered(g);
    HeadingEnds(g.material);
    PartsEncoding(ts, |ts|);
    Continued(Heading(g.material), Parts(ts, |ts|));
    if Parts(ts, |ts|) == [] {
      assert Section(g) == Heading(g.material);
    }
    Sorting.SameElements(ts, g.texts);
    assert forall i :: 0 <= i < |ts| ==> ts[i] in g.texts;
  }

  lemma {:induction false} DocumentEncoding(gs: seq<Given>, n: nat)
    requires n <= |gs|
    ensures EndsLine(Document(gs, n))
    ensures ValidUtf8(Document(gs, n)) <==> forall k :: 0 <= k < n ==> WellEncoded(gs[k])
  {
    hide ValidUtf8, WellEncoded, Section;
    if n > 0 {
      DocumentEncoding(gs, n - 1);
      SectionEncoding(gs[n - 1]);
      Continued(Document(gs, n - 1), Section(gs[n - 1]));
    } else {
      AsciiIsUtf8(PREAMBLE);
    }
  }

  // The whole.

  lemma SameMaterials(rules: Rules, gs: seq<Given>)
    ensures var cs := Components(rules, gs, |gs|);
      && Apply(IdentityOf, cs) == Apply(GivenIdentity, gs) && Count(IsRuntime, cs) == Count(GivenRuntime, gs)
      && ((exists c :: c in cs && Unresolved(c)) <==> exists g :: g in gs && g.material.unresolved != [])
  {
    hide Components, Document, Notices, Ordered, Identity, Apply;
    var cs := Components(rules, gs, |gs|);
    forall k: nat | k < |gs| ensures cs[k].material == gs[k].material {
      ComponentSize(rules, gs, k);
    }
    SameApply(IdentityOf, cs, GivenIdentity, gs);
    SameApply(IsRuntime, cs, GivenRuntime, gs);
    SameUnresolved(cs, gs);
  }

  lemma SameUnresolved(cs: seq<Component>, gs: seq<Given>)
    requires |cs| == |gs| && forall k :: 0 <= k < |gs| ==> cs[k].material == gs[k].material
    ensures (exists c :: c in cs && Unresolved(c)) <==> exists g :: g in gs && g.material.unresolved != []
  {
    forall g | g in gs && g.material.unresolved != [] ensures exists c :: c in cs && Unresolved(c) {
      var k: nat :| k < |gs| && gs[k] == g;
      assert cs[k] in cs && Unresolved(cs[k]);
    }
    forall c | c in cs && Unresolved(c) ensures exists g :: g in gs && g.material.unresolved != [] {
      var k: nat :| k < |cs| && cs[k] == c;
      assert gs[k] in gs;
    }
  }

  /**
   The verifier accepts what the builder made exactly when there are 1 to 256 components with distinct identities, one of them
   the runtime and some of them unresolved; every component has few enough texts, of distinct path names, none empty and all
   well encoded; and the licence is short enough and well encoded.
   */
  lemma BuilderSatisfiesVerifier(rules: Rules, gs: seq<Given>, license: Bytes)
    requires |Document(gs, |gs|)| <= NOTICES_LIMIT && SourcesFit(gs)
    ensures Verified(rules, Made(rules, gs, license), license, Document(gs, |gs|)) <==> Publishable(rules, gs, license)
  {
    hide Components, Document, ComponentFits, Listable, ComponentReads, WellEncoded, SourcesFit, Count, Apply, AllSpans, Sorting.Sort,
      ValidUtf8, WellFormed, Intervals.AllApart, Sorting.Distinct, Unresolved, IdentityOf, IsRuntime, GivenIdentity, GivenRuntime;
    var cs, document := Components(rules, gs, |gs|), Document(gs, |gs|);
    forall k: nat | k < |gs| ensures (ComponentFits(rules, cs[k]) <==> Listable(rules, gs[k])) && ComponentReads(rules, document, cs[k]) {
      ComponentFitsWhen(rules, gs, k);
    }
    assert (forall g :: g in gs ==> Listable(rules, g)) <==> (forall k :: 0 <= k < |gs| ==> ComponentFits(rules, cs[k]));
    assert (forall g :: g in gs ==> WellEncoded(g)) <==> (forall k :: 0 <= k < |gs| ==> WellEncoded(gs[k]));
    DocumentEncoding(gs, |gs|);
    SpansNeverOverlap(rules, gs);
    SameMaterials(rules, gs);
    SortSpans(cs);
    SortedWellFormed(rules, Made(rules, gs, license), cs);
    Sorting.SortElements(cs, IdentityLeq);
  }

  lemma SortedWellFormed(rules: Rules, d: Distribution, cs: seq<Component>)
    requires d.components == Sorting.Sort(cs, IdentityLeq) && d.unresolved
    requires Intervals.AllApart(AllSpans(cs))
    ensures WellFormed(rules, d) <==>
      && 1 <= |cs| <= COMPONENT_LIMIT && (forall k :: 0 <= k < |cs| ==> ComponentFits(rules, cs[k]))
      && Sorting.Distinct(Apply(IdentityOf, cs)) && Count(IsRuntime, cs) == 1
      && (exists c :: c in cs && Unresolved(c))
  {
    hide ComponentFits, AllSpans, Intervals.AllApart, Sorting.Sort, Apply, Ascend, IdentityOf, IsRuntime, Unresolved, Count, Sorting.Distinct,
      Sorting.Sorted, IdentityLeq;
    SortSpans(cs);
    SortedIdentities(cs);
    SortedCounts(cs, d.components);
    SortedFits(rules, cs, d.components);
    Sorting.SortElements(cs, IdentityLeq);
    assert (exists c :: c in d.components && Unresolved(c)) <==> (exists c :: c in cs && Unresolved(c));
  }

  lemma SortedCounts(cs: seq<Component>, ds: seq<Component>)
    requires multiset(cs) == multiset(ds) && Sorting.Sorted(Apply(IdentityOf, ds), TextOrder.TextLeq)
    ensures Ascend(Apply(IdentityOf, ds)) <==> Sorting.Distinct(Apply(IdentityOf, cs))
    ensures Count(IsRuntime, ds) == Count(IsRuntime, cs)
  {
    hide Apply, IdentityOf, IsRuntime, Ascend, Sorting.Distinct, Sorting.Sorted;
    AscendWhenDistinct(Apply(IdentityOf, ds));
    ApplyPermutation(IdentityOf, cs, ds);
    SameDistinct(Apply(IdentityOf, cs), Apply(IdentityOf, ds));
    ApplyPermutation(IsRuntime, cs, ds);
  }

  lemma SortedFits(rules: Rules, cs: seq<Component>, ds: seq<Component>)
    requires multiset(cs) == multiset(ds) && multiset(AllSpans(cs)) == multiset(AllSpans(ds)) && Intervals.AllApart(AllSpans(cs))
    ensures (forall c :: c in ds ==> ComponentFits(rules, c)) <==> (forall k :: 0 <= k < |cs| ==> ComponentFits(rules, cs[k]))
    ensures (forall c :: c in ds ==> ComponentFits(rules, c)) ==> Intervals.AllApart(AllSpans(ds))
  {
    hide ComponentFits, AllSpans, Intervals.AllApart;
    Sorting.SameElements(cs, ds);
    assert forall k :: 0 <= k < |cs| ==> cs[k] in ds;
    if forall c :: c in ds ==> ComponentFits(rules, c) {
      AllProper(rules, ds);
      SortedSpansApart(AllSpans(cs), AllSpans(ds));
    }
  }

  lemma {:induction false} AllProper(rules: Rules, cs: seq<Component>)
    requires forall c :: c in cs ==> ComponentFits(rules, c)
    ensures Intervals.Proper(AllSpans(cs))
  {
    hide ComponentFits;
    if cs != [] {
      assert cs[0] in cs;
      FitsProper(rules, cs[0]);
      AllProper(rules, cs[1..]);
    }
  }

  lemma SortedSpansApart(a: seq<Intervals.Span>, b: seq<Intervals.Span>)
    requires multiset(a) == multiset(b) && Intervals.AllApart(a) && Intervals.Proper(b)
    ensures Intervals.AllApart(b)
  {
    Sorting.SameElements(a, b);
    forall k | 0 <= k < |a| ensures a[k].start < a[k].end {
      assert a[k] in a && a[k] in b;
    }
    Intervals.ApartPermutation(a, b);
  }

  // Texts that are laid out and then refused: an empty one, and one in Latin-1.

  const BUN := Material(Runtime, Plain("Bun"), None, None, [Plain("relink_material_unassessed")], [])
  const RECIPE := Material(Vendored, Plain("Kizuki retrieval recipe"), None, None, [], [])

  ghost function Sample(text: Bytes): seq<Given> { [RuntimeGiven(), RecipeGiven(text)] }

  ghost function RuntimeGiven(): Given { Given(BUN, [Supplied(Plain("LICENSE.md"), [0x62], 0, None)]) }

  ghost function RecipeGiven(text: Bytes): Given { Given(RECIPE, [Supplied(Plain("LICENSE"), text, 0, None)]) }

  lemma LengthBound(t: Text)
    ensures |Encode(t)| <= 3 * |t|
  {
    EncodedLength(t);
    Utf8LengthBound(t);
  }

  lemma SampleSection(g: Given)
    requires |g.texts| == 1 && |Taken(g.texts[0])| <= 1 && |g.texts[0].name| <= 10
    requires |g.material.name| <= 30 && g.material.version.None? && g.material.declared.None?
    requires |Joined(g.material.unresolved)| <= 30
    ensures |Section(g)| <= 1000
  {
    hide Encode, Taken, Joined;
    var t := g.texts[0];
    assert Ordered(g) == [t];
    assert Parts([t], 1) == [] + Part(t);
    LengthBound(Plain("Source: ") + t.name + [LINE_FEED]);
    var m := g.material;
    var unresolved := Joined(m.unresolved);
    LengthBound(Plain("Component: ") + m.name + Plain(" (") + Plain("unknown") + Plain(")\nDeclared license: ")
           + Plain("unknown") + Plain("\nUnresolved: ")
           + (if unresolved == [] then Plain("none recorded") else unresolved) + [LINE_FEED] + [LINE_FEED]);
  }

  lemma SampleTexts(text: Bytes)
    ensures |RuntimeGiven().texts| == |RecipeGiven(text).texts| == 1
    ensures Taken(RuntimeGiven().texts[0]) == [0x62] && Taken(RecipeGiven(text).texts[0]) == text
    ensures |RuntimeGiven().texts[0].source| == 1 && |RecipeGiven(text).texts[0].source| == |text|
  {
  }

  lemma SampleSections(text: Bytes)
    requires |text| <= 1
    ensures |PREAMBLE| <= 1000 && |Section(RuntimeGiven())| <= 1000 && |Section(RecipeGiven(text))| <= 1000
  {
    hide Section, Taken;
    SampleTexts(text);
    SampleSection(RuntimeGiven());
    SampleSection(RecipeGiven(text));
  }

  lemma SampleFits(text: Bytes)
    requires |text| <= 1
    ensures |Document(Sample(text), 2)| <= NOTICES_LIMIT && SourcesFit(Sample(text))
  {
    hide Section, PREAMBLE, RuntimeGiven, RecipeGiven, Taken;
    var gs := Sample(text);
    SampleSections(text);
    SampleTexts(text);
    assert Document(gs, 1) == Document(gs, 0) + Section(gs[0]) && Document(gs, 2) == Document(gs, 1) + Section(gs[1]);
  }

  lemma RuntimeSuitable(rules: Rules)
    requires rules.admits(BUN) && rules.runtimeNotice == rules.hash([0x62])
    ensures Listable(rules, RuntimeGiven()) && WellEncoded(RuntimeGiven())
  {
    hide Taken, PathForm, ValidUtf8;
    var t := RuntimeGiven().texts[0];
    SampleTexts([]);
    AsciiIsUtf8([0x62]);
    SamplePaths();
    assert t in RuntimeGiven().texts && rules.hash(Taken(t)) == rules.runtimeNotice;
  }

  lemma RecipeSuitable(rules: Rules, text: Bytes)
    requires rules.admits(RECIPE)
    ensures Listable(rules, RecipeGiven(text)) && WellEncoded(RecipeGiven(text)) <==> text != [] && ValidUtf8(text)
  {
    hide Taken, PathForm, ValidUtf8;
    SampleTexts(text);
    SamplePaths();
    assert RecipeGiven(text).texts[0] in RecipeGiven(text).texts;
  }

  lemma SampleMaterials(text: Bytes)
    ensures Sorting.Distinct(Apply(GivenIdentity, Sample(text))) && Count(GivenRuntime, Sample(text)) == 1
    ensures RuntimeGiven().material.unresolved != []
  {
    hide Taken;
    var gs := Sample(text);
    assert GivenIdentity(gs[0])[0] == 0x72 && GivenIdentity(gs[1])[0] == 0x76;
    assert Apply(GivenRuntime, gs) == [true, false];
  }

  lemma SamplePublishable(rules: Rules, text: Bytes)
    requires rules.admits(BUN) && rules.admits(RECIPE) && rules.runtimeNotice == rules.hash([0x62])
    ensures Publishable(rules, Sample(text), []) <==> text != [] && ValidUtf8(text)
  {
    hide Listable, WellEncoded, RuntimeGiven, RecipeGiven, ValidUtf8, Sorting.Distinct, Count;
    RuntimeSuitable(rules);
    RecipeSuitable(rules, text);
    SampleMaterials(text);
    AsciiIsUtf8([]);
    assert RuntimeGiven() in Sample(text) && RecipeGiven(text) in Sample(text);
  }

  lemma RefusedTexts(rules: Rules)
    requires rules.admits(BUN) && rules.admits(RECIPE) && rules.runtimeNotice == rules.hash([0x62])
    ensures forall text :: text == [0x61] || text == [] || text == [0xE9] ==>
      && |Document(Sample(text), 2)| <= NOTICES_LIMIT
      && (Verified(rules, Made(rules, Sample(text), []), [], Document(Sample(text), 2)) <==> text == [0x61])
  {
    hide Document, Publishable, Verified;
    AsciiIsUtf8([0x61]);
    assert !ValidUtf8([0xE9]);
    forall text: Bytes | text == [0x61] || text == [] || text == [0xE9]
      ensures |Document(Sample(text), 2)| <= NOTICES_LIMIT
      ensures Verified(rules, Made(rules, Sample(text), []), [], Document(Sample(text), 2)) <==> text == [0x61]
    {
      SampleFits(text);
      SamplePublishable(rules, text);
      BuilderSatisfiesVerifier(rules, Sample(text), []);
    }
  }

  lemma SamplePaths()
    ensures PathForm(Plain("LICENSE.md")) && PathForm(Plain("LICENSE"))
  {
    hide PlainSegments;
    var long, short := Plain("LICENSE.md"), Plain("LICENSE");
    assert long == [0x4C, 0x49, 0x43, 0x45, 0x4E, 0x53, 0x45, 0x2E, 0x6D, 0x64];
    assert short == [0x4C, 0x49, 0x43, 0x45, 0x4E, 0x53, 0x45];
    PlainName([], long);
    PlainName([], short);
  }

  lemma {:induction false} PlainName(segment: Text, rest: Text)
    requires |segment| + |rest| > 2 && SLASH !in rest
    ensures PlainSegments(segment, rest)
    decreases |rest|
  {
    if rest != [] {
      PlainName(segment + [rest[0]], rest[1..]);
    }
  }
}
