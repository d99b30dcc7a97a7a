/**
 The journal's lines as JSON: what JSON.stringify prints of an entry and what is read back through JSON.parse and the check of
 its keys. With a hash that loses nothing, this codec meets everything that the journal asks of one.
 */
module JournalCodec {
  import opened Wrappers
  import opened UnicodeText
  import opened JsonGrammar
  import opened JsonParser
  import opened CanonicalJson
  import opened Lines
  import opened QualificationJournal

  // Whole numbers in decimal.

  function Digits(n: nat): (r: Text)
    ensures r != [] && AllDigits(r)
    ensures n == 0 ==> |r| == 1
    ensures n > 0 ==> r[0] != DIGIT_ZERO
  {
    if n < 10 then [DIGIT_ZERO + n] else Digits(n / 10) + [DIGIT_ZERO + n % 10]
  }

  function Undigits(t: Text): nat
    requires AllDigits(t)
  {
    if t == [] then 0 else 10 * Undigits(t[..|t| - 1]) + (t[|t| - 1] - DIGIT_ZERO)
  }

  lemma {:induction false} DigitsReadBack(n: nat)
    ensures Undigits(Digits(n)) == n
  {
    if n >= 10 {
      DigitsReadBack(n / 10);
      assert Digits(n)[..|Digits(n)| - 1] == Digits(n / 10);
    } else {
      assert Digits(n)[..0] == [];
    }
  }

  function IntValue(i: int): Value {
    Num(Number(i < 0, Digits(if i < 0 then -i else i), [], NoExponent))
  }

  function IntOf(v: Value): Option<int> {
    if v.Num? && v.number.fraction == [] && v.number.exponent.NoExponent? && AllDigits(v.number.whole) then
      Some(if v.number.minus then -(Undigits(v.number.whole) as int) else Undigits(v.number.whole))
    else None
  }

  lemma IntReadsBack(i: int)
    ensures IntOf(IntValue(i)) == Some(i) && WellFormed(IntValue(i))
  {
    DigitsReadBack(if i < 0 then -i else i);
  }

  // Members by name; of two with one name the later counts.

  function Field(members: seq<Property>, name: Text): Option<Value> {
    if members == [] then None
    else
      var later := Field(members[1..], name);
      if later.Some? then later else if members[0].name == name then Some(members[0].value) else None
  }

  lemma {:induction false} FieldAt(members: seq<Property>, k: nat)
    requires UniqueNames(members) && k < |members|
    ensures Field(members, members[k].name) == Some(members[k].value)
  {
    if k > 0 {
      FieldAt(members[1..], k - 1);
    } else {
      FieldNone(members[1..], members[0].name);
    }
  }

  lemma {:induction false} FieldNone(members: seq<Property>, name: Text)
    requires forall k :: 0 <= k < |members| ==> members[k].name != name
    ensures Field(members, name) == None
  {
    if members != [] {
      FieldNone(members[1..], name);
    }
  }

  function Names(members: seq<Property>): set<Text> {
    set k | 0 <= k < |members| :: members[k].name
  }

  function MemberOf(v: Value, name: Text): Option<Value> {
    if v.Obj? then Field(v.members, name) else None
  }

  function TextAt(v: Value, name: Text): Option<Text> {
    var m := MemberOf(v, name);
    if m.Some? && m.value.Str? then Some(m.value.text) else None
  }

  function IntAt(v: Value, name: Text): Option<int> {
    var m := MemberOf(v, name);
    if m.Some? then IntOf(m.value) else None
  }

  // Receipts, samples and entries.

  const SEQ := UnicodeText.Plain("seq")
  const PREVIOUS := UnicodeText.Plain("previous")
  const SAMPLE := UnicodeText.Plain("sample")
  const SHA256 := UnicodeText.Plain("sha256")
  const RECEIPTS := UnicodeText.Plain("receipts")
  const REST := UnicodeText.Plain("rest")
  const RUN_ID := UnicodeText.Plain("run_id")
  const FINISHED_AT := UnicodeText.Plain("finished_at")

  lemma NamesDiffer()
    ensures |SEQ| == 3 && |PREVIOUS| == 8 && |SAMPLE| == 6 && |SHA256| == 6 && SAMPLE != SHA256
    ensures |RECEIPTS| == 8 && |REST| == 4 && |RUN_ID| == 6 && |FINISHED_AT| == 11 && RUN_ID != SHA256
  {
    assert SAMPLE[1] != SHA256[1] && RUN_ID[0] != SHA256[0];
  }

  function ReceiptValue(r: Receipt): Value {
    Obj([Property(RUN_ID, Str(r.runId)), Property(SHA256, Str(r.sha256)), Property(FINISHED_AT, IntValue(r.finishedAt))])
  }

  function ReceiptValues(rs: seq<Receipt>): seq<Value> {
    if rs == [] then [] else [ReceiptValue(rs[0])] + ReceiptValues(rs[1..])
  }

  function SampleValue(x: Sample): Value {
    Obj([Property(RECEIPTS, Arr(ReceiptValues(x.receipts))), Property(REST, Str(x.rest))])
  }

  function PayloadValue(n: nat, previous: Digest, x: Sample): Value {
    Obj([Property(SEQ, IntValue(n)), Property(PREVIOUS, Str(previous)), Property(SAMPLE, SampleValue(x))])
  }

  function EntryValue(e: Entry): Value {
    Obj([Property(SEQ, IntValue(e.seqNo)), Property(PREVIOUS, Str(e.previous)), Property(SAMPLE, SampleValue(e.sample)),
         Property(SHA256, Str(e.sha256))])
  }

  function ReceiptOf(v: Value): Option<Receipt> {
    var runId, sha256, finishedAt := TextAt(v, RUN_ID), TextAt(v, SHA256), IntAt(v, FINISHED_AT);
    if runId.Some? && sha256.Some? && finishedAt.Some? then Some(Receipt(runId.value, sha256.value, finishedAt.value)) else None
  }

  function ReceiptsOf(vs: seq<Value>): Option<seq<Receipt>> {
    if vs == [] then Some([])
    else
      var first, others := ReceiptOf(vs[0]), ReceiptsOf(vs[1..]);
      if first.Some? && others.Some? then Some([first.value] + others.value) else None
  }

  function SampleOf(v: Value): Option<Sample> {
    var receipts, rest := MemberOf(v, RECEIPTS), TextAt(v, REST);
    if receipts.Some? && receipts.value.Arr? && ReceiptsOf(receipts.value.elements).Some? && rest.Some? then
      Some(Sample(ReceiptsOf(receipts.value.elements).value, rest.value))
    else None
  }

  function PayloadOf(v: Value): Option<(nat, Digest, Sample)> {
    var n, previous, sample := IntAt(v, SEQ), TextAt(v, PREVIOUS), MemberOf(v, SAMPLE);
    if n.Some? && n.value >= 0 && previous.Some? && sample.Some? && SampleOf(sample.value).Some? then
      Some((n.value, previous.value, SampleOf(sample.value).value))
    else None
  }

  /** The object has exactly the four members, in any order. */
  function EntryOf(v: Value): Option<Entry> {
    if v.Obj? && Names(v.members) == {SEQ, PREVIOUS, SAMPLE, SHA256} && PayloadOf(v).Some? && TextAt(v, SHA256).Some? then
      var (n, previous, sample) := PayloadOf(v).value;
      Some(Entry(n, previous, sample, TextAt(v, SHA256).value))
    else None
  }

  lemma ReceiptReadsBack(r: Receipt)
    ensures ReceiptOf(ReceiptValue(r)) == Some(r) && WellFormed(ReceiptValue(r))
  {
    hide IntValue, IntOf, Field, RUN_ID, SHA256, FINISHED_AT, UniqueNames;
    NamesDiffer();
    IntReadsBack(r.finishedAt);
    var members := ReceiptValue(r).members;
    ThreeUnique(members);
    FieldAt(members, 0);
    FieldAt(members, 1);
    FieldAt(members, 2);
    AllWellFormed(members);
  }

  lemma ThreeUnique(members: seq<Property>)
    requires |members| == 3
    requires members[0].name != members[1].name && members[0].name != members[2].name && members[1].name != members[2].name
    ensures UniqueNames(members)
  {
  }

  lemma {:induction false} AllWellFormed(members: seq<Property>)
    requires forall k :: 0 <= k < |members| ==> WellFormed(members[k].value)
    ensures WellFormedMembers(members)
  {
    hide WellFormed;
    if members != [] {
      AllWellFormed(members[1..]);
    }
  }

  lemma {:induction false} ReceiptsReadBack(rs: seq<Receipt>)
    ensures ReceiptsOf(ReceiptValues(rs)) == Some(rs) && WellFormedElements(ReceiptValues(rs))
  {
    hide ReceiptValue, ReceiptOf, WellFormed;
    if rs != [] {
      ReceiptReadsBack(rs[0]);
      ReceiptsReadBack(rs[1..]);
      assert ReceiptValues(rs)[1..] == ReceiptValues(rs[1..]);
      assert rs == [rs[0]] + rs[1..];
    }
  }

  lemma SampleReadsBack(x: Sample)
    ensures SampleOf(SampleValue(x)) == Some(x) && WellFormed(SampleValue(x))
  {
    hide Field, RECEIPTS, REST, ReceiptsOf, ReceiptValues, WellFormedElements;
    NamesDiffer();
    ReceiptsReadBack(x.receipts);
    var members := SampleValue(x).members;
    FieldAt(members, 0);
    FieldAt(members, 1);
    assert WellFormed(members[0].value) && WellFormed(members[1].value);
    AllWellFormed(members);
    hide WellFormedMembers;
    assert UniqueNames(members);
  }

  lemma PayloadReadsBack(n: nat, previous: Digest, x: Sample)
    ensures PayloadOf(PayloadValue(n, previous, x)) == Some((n, previous, x)) && WellFormed(PayloadValue(n, previous, x))
  {
    hide IntValue, IntOf, Field, SEQ, PREVIOUS, SAMPLE, SampleOf, SampleValue, UniqueNames;
    NamesDiffer();
    IntReadsBack(n);
    SampleReadsBack(x);
    var members := PayloadValue(n, previous, x).members;
    ThreeUnique(members);
    FieldAt(members, 0);
    FieldAt(members, 1);
    FieldAt(members, 2);
    AllWellFormed(members);
  }

  lemma FourUnique(members: seq<Property>)
    requires |members| == 4
    requires members[0].name != members[1].name && members[0].name != members[2].name && members[0].name != members[3].name
    requires members[1].name != members[2].name && members[1].name != members[3].name && members[2].name != members[3].name
    ensures UniqueNames(members)
  {
  }

  lemma FourNames(members: seq<Property>)
    requires |members| == 4
    ensures Names(members) == {members[0].name, members[1].name, members[2].name, members[3].name}
  {
    assert forall k :: 0 <= k < 4 ==> members[k].name in Names(members);
  }

  lemma EntryReadsBack(e: Entry)
    ensures EntryOf(EntryValue(e)) == Some(e) && WellFormed(EntryValue(e))
  {
    hide IntValue, IntOf, Field, SEQ, PREVIOUS, SAMPLE, SHA256, SampleOf, SampleValue, UniqueNames, Names, WellFormedMembers;
    NamesDiffer();
    IntReadsBack(e.seqNo);
    SampleReadsBack(e.sample);
    var members := EntryValue(e).members;
    FourNames(members);
    FourUnique(members);
    AllWellFormed(members);
    FieldAt(members, 0);
    FieldAt(members, 1);
    FieldAt(members, 2);
    FieldAt(members, 3);
  }

  // Lines.

  /** JSON.stringify */
  function Stringify(v: Value): Text { NodeText(NodeOf(v), []) }

  /** JSON.parse and the check of the keys. */
  function ParseLine(t: Text): Option<Entry> {
    match ParseDocument(t)
    case None => None
    case Some(d) => EntryOf(NodeValue(d.root))
  }

  lemma StringifyReadsBack(v: Value)
    requires WellFormed(v)
    ensures ParseDocument(Stringify(v)).Some? && NodeValue(ParseDocument(Stringify(v)).value.root) == v
  {
    hide WellFormed, NodeOf, NodeText, ParseDocument, ValidNode, NodeValue;
    NodeOfValue(v);
    var d := Document([], NodeOf(v), []);
    assert DocumentText(d) == Stringify(v);
    DocumentComplete(d);
  }

  lemma SkipsOneSpace(t: Text)
    ensures ParseLine([SPACE] + t) == ParseLine(t)
  {
    hide ParseNode, EntryOf, NodeValue;
    assert ([SPACE] + t)[1..] == t;
    assert SplitWs([SPACE] + t) == ([SPACE] + SplitWs(t).0, SplitWs(t).1);
  }

  // No line feed is ever printed.

  lemma {:induction false} InkedItems(items: seq<StringItem>, tail: Text)
    requires ValidItems(items) && OneLine(tail)
    ensures OneLine(ItemsText(items, tail))
  {
    if items != [] {
      InkedItems(items[1..], tail);
      assert ValidItem(items[0]);
    }
  }

  lemma InkedString(s: Text, tail: Text)
    requires OneLine(tail)
    ensures OneLine(StringText(Quote(s), tail))
  {
    hide Quote, ItemsText, ValidItems;
    InkedItems(Quote(s), [QUOTE] + tail);
  }

  lemma InkedNumber(n: Number, tail: Text)
    requires ValidNumber(n) && OneLine(tail)
    ensures OneLine(NumberText(n, tail))
  {
    assert OneLine(n.whole) && OneLine(n.fraction);
    assert n.exponent.Exponent? ==> OneLine(n.exponent.digits) && OneLine(n.exponent.sign);
    assert OneLine(ExponentText(n.exponent, tail));
    assert OneLine(FractionText(n.fraction, ExponentText(n.exponent, tail)));
  }

  lemma {:induction false} InkedNode(v: Value, tail: Text)
    requires WellFormed(v) && OneLine(tail)
    ensures OneLine(NodeText(NodeOf(v), tail))
  {
    hide NumberText, StringText, Quote, ElementsText, MembersText;
    match v
    case Num(n) => InkedNumber(n, tail);
    case Str(s) => InkedString(s, tail);
    case Arr(elements) => InkedElements(elements, [CLOSE_ARRAY] + tail);
    case Obj(members) => InkedMembers(members, [CLOSE_OBJECT] + tail);
    case _ =>
  }

  lemma {:induction false} InkedElements(elements: seq<Value>, tail: Text)
    requires WellFormedElements(elements) && OneLine(tail)
    ensures OneLine(ElementsText(ElementsOf(elements), tail))
  {
    hide NodeText, NodeOf, WellFormed;
    if elements != [] {
      InkedElements(elements[1..], tail);
      InkedNode(elements[0], if elements[1..] == [] then tail else [COMMA] + ElementsText(ElementsOf(elements[1..]), tail));
      EmptyFront(if elements[1..] == [] then tail else [COMMA] + ElementsText(ElementsOf(elements[1..]), tail));
    }
  }

  lemma EmptyFront(t: Text)
    ensures [] + t == t
  {
  }

  lemma {:induction false} InkedMembers(members: seq<Property>, tail: Text)
    requires WellFormedMembers(members) && OneLine(tail)
    ensures OneLine(MembersText(MembersOf(members), tail))
  {
    hide NodeText, NodeOf, WellFormed, StringText, Quote;
    if members != [] {
      var after := if members[1..] == [] then tail else [COMMA] + MembersText(MembersOf(members[1..]), tail);
      InkedMembers(members[1..], tail);
      InkedNode(members[0].value, after);
      EmptyFront(after);
      var value := NodeText(NodeOf(members[0].value), after);
      EmptyFront(value);
      InkedString(members[0].name, [COLON] + value);
      EmptyFront([COLON] + value);
    }
  }

  // The codec.

  /** The hash that loses nothing is the text itself. */
  function JsonCodec(): Codec {
    Codec((t: Text) => t, (n, p, x) => Stringify(PayloadValue(n, p, x)), e => Stringify(EntryValue(e)), t => ParseLine(t))
  }

  /** The facts assumed of the journal's hash and printed forms can all hold at once, whatever line the genesis record is. */
  lemma CodecContractCanBeMet()
    ensures Faithful(JsonCodec()) && SkipsSpaces(JsonCodec())
    ensures forall genesis :: LINE_FEED in genesis ==> GenesisApart(JsonCodec(), genesis)
  {
    hide Stringify, PayloadValue, EntryValue, ParseLine;
    var c := JsonCodec();
    forall n, p, x, n', p', x' | c.payload(n, p, x) == c.payload(n', p', x') ensures n == n' && p == p' && x == x' {
      PayloadPrintReadsBack(n, p, x);
      PayloadPrintReadsBack(n', p', x');
    }
    forall e ensures c.parse(c.line(e)) == Some(e) && OneLine(c.line(e)) {
      LineReadsBack(e);
    }
    forall t ensures c.parse([SPACE] + t) == c.parse(t) {
      SkipsOneSpace(t);
    }
    forall genesis, n, p, x | LINE_FEED in genesis ensures c.payload(n, p, x) != genesis {
      PayloadPrintReadsBack(n, p, x);
    }
  }

  lemma PayloadPrintReadsBack(n: nat, p: Digest, x: Sample)
    ensures OneLine(Stringify(PayloadValue(n, p, x)))
    ensures ParseDocument(Stringify(PayloadValue(n, p, x))).Some?
    ensures PayloadOf(NodeValue(ParseDocument(Stringify(PayloadValue(n, p, x))).value.root)) == Some((n, p, x))
  {
    hide PayloadValue, PayloadOf, WellFormed, NodeText, NodeOf, ParseDocument, NodeValue;
    PayloadReadsBack(n, p, x);
    StringifyReadsBack(PayloadValue(n, p, x));
    InkedNode(PayloadValue(n, p, x), []);
  }

  lemma LineReadsBack(e: Entry)
    ensures ParseLine(Stringify(EntryValue(e))) == Some(e) && OneLine(Stringify(EntryValue(e)))
  {
    hide EntryValue, EntryOf, WellFormed, NodeText, NodeOf, ParseDocument, NodeValue;
    EntryReadsBack(e);
    StringifyReadsBack(EntryValue(e));
    InkedNode(EntryValue(e), []);
  }

  // Two spellings of one journal.

  lemma {:induction false} ItemsLength(s: Text, tail: Text)
    ensures |ItemsText(Quote(s), tail)| <= 6 * |s| + |tail|
  {
    if s != [] {
      if IsHigh(s[0]) && |s| > 1 && IsLow(s[1]) {
        ItemsLength(s[2..], tail);
        TwoItems(s, tail);
      } else {
        ItemsLength(s[1..], tail);
        assert Quote(s)[1..] == Quote(s[1..]);
      }
    }
  }

  lemma TwoItems(s: Text, tail: Text)
    requires |s| > 1 && IsHigh(s[0]) && IsLow(s[1])
    ensures ItemsText(Quote(s), tail) == [s[0]] + ([s[1]] + ItemsText(Quote(s[2..]), tail))
  {
    var items := Quote(s);
    assert items == [JsonGrammar.Plain(s[0])] + ([JsonGrammar.Plain(s[1])] + Quote(s[2..]));
    assert items[1..] == [JsonGrammar.Plain(s[1])] + Quote(s[2..]) && items[1..][1..] == Quote(s[2..]);
  }

  lemma StringLength(s: Text)
    ensures forall tail :: |StringText(Quote(s), tail)| <= 6 * |s| + 2 + |tail|
  {
    forall tail: Text ensures |StringText(Quote(s), tail)| <= 6 * |s| + 2 + |tail| {
      ItemsLength(s, [QUOTE] + tail);
    }
  }

  lemma MembersLength(members: seq<Property>, tail: Text)
    requires members != []
    ensures |MembersText(MembersOf(members), tail)| <=
            6 * |members[0].name| + 4 + |Stringify(members[0].value)| + |MembersText(MembersOf(members[1..]), tail)|
  {
    hide NodeText, NodeOf, StringText, Quote;
    var rest := MembersText(MembersOf(members[1..]), tail);
    var after := if members[1..] == [] then tail else [COMMA] + rest;
    NodeTail(members[0].value, after);
    EmptyFront(after);
    var value := NodeText(NodeOf(members[0].value), after);
    EmptyFront(value);
    EmptyFront([COLON] + value);
    StringLength(members[0].name);
    EmptyFront(StringText(Quote(members[0].name), [COLON] + value));
  }

  lemma PairLength(a: Property, b: Property)
    ensures |Stringify(Obj([a, b]))| <= 10 + 6 * |a.name| + 6 * |b.name| + |Stringify(a.value)| + |Stringify(b.value)|
  {
    MembersLength([a, b], [CLOSE_OBJECT]);
    MembersLength([b], [CLOSE_OBJECT]);
    ObjectLength([a, b]);
    assert [a, b][1..] == [b] && [b][1..] == [];
  }

  lemma ObjectLength(members: seq<Property>)
    ensures |Stringify(Obj(members))| == 1 + |MembersText(MembersOf(members), [CLOSE_OBJECT])|
  {
    hide MembersText;
    EmptyFront(MembersText(MembersOf(members), [CLOSE_OBJECT]));
    assert [CLOSE_OBJECT] + [] == [CLOSE_OBJECT];
  }

  lemma TripleLength(a: Property, b: Property, c: Property)
    ensures |Stringify(Obj([a, b, c]))| <=
            14 + 6 * |a.name| + 6 * |b.name| + 6 * |c.name| + |Stringify(a.value)| + |Stringify(b.value)| + |Stringify(c.value)|
  {
    hide Stringify, MembersText;
    MembersLength([a, b, c], [CLOSE_OBJECT]);
    MembersLength([b, c], [CLOSE_OBJECT]);
    MembersLength([c], [CLOSE_OBJECT]);
    NoMembersText();
    ObjectLength([a, b, c]);
    assert [a, b, c][1..] == [b, c] && [b, c][1..] == [c] && [c][1..] == [];
  }

  lemma NoMembersText()
    ensures |MembersText(MembersOf([]), [CLOSE_OBJECT])| == 1
  {
  }

  lemma QuadrupleLength(a: Property, b: Property, c: Property, d: Property)
    ensures |Stringify(Obj([a, b, c, d]))| <= 18 + 6 * |a.name| + 6 * |b.name| + 6 * |c.name| + 6 * |d.name|
            + |Stringify(a.value)| + |Stringify(b.value)| + |Stringify(c.value)| + |Stringify(d.value)|
  {
    hide Stringify, MembersText;
    MembersLength([a, b, c, d], [CLOSE_OBJECT]);
    MembersLength([b, c, d], [CLOSE_OBJECT]);
    MembersLength([c, d], [CLOSE_OBJECT]);
    MembersLength([d], [CLOSE_OBJECT]);
    NoMembersText();
    ObjectLength([a, b, c, d]);
    assert [a, b, c, d][1..] == [b, c, d] && [b, c, d][1..] == [c, d] && [c, d][1..] == [d] && [d][1..] == [];
  }

  const EMPTY_SAMPLE := Sample([], [])

  function FirstEntry(genesis: Text): Entry {
    Entry(0, genesis, EMPTY_SAMPLE, Stringify(PayloadValue(0, genesis, EMPTY_SAMPLE)))
  }

  lemma SimpleLengths(s: Text)
    ensures |Stringify(IntValue(0))| == 1 && |Stringify(Arr([]))| == 2 && |Stringify(Str(s))| <= 6 * |s| + 2
  {
    hide Quote, StringText;
    StringLength(s);
  }

  lemma SampleLength()
    ensures |Stringify(SampleValue(EMPTY_SAMPLE))| <= 100
  {
    hide Stringify;
    NamesDiffer();
    SimpleLengths([]);
    assert ReceiptValues([]) == [];
    PairLength(Property(RECEIPTS, Arr([])), Property(REST, Str([])));
  }

  lemma FirstLineLength(genesis: Text)
    requires |genesis| <= 4096
    ensures |Stringify(EntryValue(FirstEntry(genesis)))| <= 200_000
  {
    hide Stringify, SampleValue, IntValue, SEQ, PREVIOUS, SAMPLE, SHA256;
    NamesDiffer();
    SampleLength();
    SimpleLengths(genesis);
    var e := FirstEntry(genesis);
    var seqNo, previous := Property(SEQ, IntValue(0)), Property(PREVIOUS, Str(genesis));
    var sample, sha256 := Property(SAMPLE, SampleValue(EMPTY_SAMPLE)), Property(SHA256, Str(e.sha256));
    TripleLength(seqNo, previous, sample);
    SimpleLengths(e.sha256);
    QuadrupleLength(seqNo, previous, sample, sha256);
  }

  lemma LoadsFirst(genesis: Text)
    requires |genesis| <= 4096
    ensures var raw := LineText(JsonCodec(), FirstEntry(genesis));
      Load(JsonCodec(), genesis, raw) == Ok([FirstEntry(genesis)]) && Utf8Length(raw) < MAX_BYTES
  {
    hide Stringify, EntryValue, PayloadValue, ParseLine, CompleteLines, Partial;
    var e := FirstEntry(genesis);
    var line := Stringify(EntryValue(e));
    FirstLineLength(genesis);
    Utf8LengthBound(line + [LINE_FEED]);
    LineReadsBack(e);
    FirstLinks(genesis);
    AppendLine([], line);
    OnlyLine();
    assert [] + line + [LINE_FEED] == line + [LINE_FEED] && [] + line == line && [] + [line] == [line];
    ChainPush(JsonCodec(), genesis, [], line, e);
    assert [] + [e] == [e];
  }

  lemma FirstLinks(genesis: Text)
    ensures Links(JsonCodec(), genesis, [], FirstEntry(genesis))
  {
    hide Stringify;
  }

  lemma OnlyLine()
    ensures CompleteLines([]) == [] && Partial([]) == []
  {
  }

  /** With any genesis line within its limit: two texts that are accepted as the same entries with the same last hash. */
  lemma TwoSpellings(genesis: Text)
    requires |genesis| <= 4096
    ensures exists raw, raw' :: SameReading(genesis, raw, raw')
  {
    hide Stringify, EntryValue, ParseLine, Load, FirstEntry, LineText, JsonCodec;
    var raw := LineText(JsonCodec(), FirstEntry(genesis));
    LoadsFirst(genesis);
    LineThere(JsonCodec(), FirstEntry(genesis));
    CodecContractCanBeMet();
    SpacedTwin(JsonCodec(), genesis, raw);
    assert SameReading(genesis, raw, [SPACE] + raw);
  }

  lemma LineThere(c: Codec, e: Entry)
    ensures LineText(c, e) != []
  {
  }

  ghost predicate SameReading(genesis: Text, raw: Text, raw': Text) {
    raw != raw' && Load(JsonCodec(), genesis, raw).Ok? && Load(JsonCodec(), genesis, raw) == Load(JsonCodec(), genesis, raw')
  }
}
