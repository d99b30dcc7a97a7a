/**
 The canonical JSON printer (scripts/evaluate-extraction.ts). It is injective up to the order of object
 members: the text it prints is that of one syntax tree, and a text has only one tree.
 */
module CanonicalJson {
  import opened Wrappers
  import opened UnicodeText
  import opened TextOrder
  import opened Sequences
  import opened Sorting
  import opened JsonGrammar
  import opened JsonParser

  // JSON.stringify on a string.

  function HexDigitOf(n: nat): (c: CodeUnit)
    requires n < 16
    ensures IsHexDigit(c) && HexValue(c) == n
  {
    if n < 10 then DIGIT_ZERO + n else 0x61 + (n - 10)
  }

  function HexEscape(c: CodeUnit): (item: StringItem)
    ensures ValidItem(item) && ItemValue(item) == c
  {
    var high, low := c / 0x100, c % 0x100;
    Hex(HexDigitOf(high / 0x10), HexDigitOf(high % 0x10), HexDigitOf(low / 0x10), HexDigitOf(low % 0x10))
  }

  predicate IsSurrogate(c: CodeUnit) { IsHigh(c) || IsLow(c) }

  function QuoteUnit(c: CodeUnit): (item: StringItem)
    ensures ValidItem(item) && ItemValue(item) == c
  {
    if c == 0x08 then Escape(0x62)
    else if c == 0x09 then Escape(0x74)
    else if c == 0x0A then Escape(0x6E)
    else if c == 0x0C then Escape(0x66)
    else if c == 0x0D then Escape(0x72)
    else if c == QUOTE || c == BACKSLASH then Escape(c)
    else if c < 0x20 || IsSurrogate(c) then HexEscape(c)
    else Plain(c)
  }

  /** A surrogate pair is printed as it stands; an unpaired surrogate is escaped. */
  function Quote(s: Text): (items: seq<StringItem>)
    ensures ValidItems(items)
    ensures ItemsValue(items) == s
  {
    if s == [] then []
    else if IsHigh(s[0]) && |s| > 1 && IsLow(s[1]) then
      assert s == [s[0]] + ([s[1]] + s[2..]);
      var rest := Quote(s[2..]);
      assert ([Plain(s[1])] + rest)[1..] == rest;
      assert ([Plain(s[0])] + ([Plain(s[1])] + rest))[1..] == [Plain(s[1])] + rest;
      [Plain(s[0])] + ([Plain(s[1])] + rest)
    else
      assert s == [s[0]] + s[1..];
      var rest := Quote(s[1..]);
      assert ([QuoteUnit(s[0])] + rest)[1..] == rest;
      [QuoteUnit(s[0])] + rest
  }

  // The printer. Members are printed first and then sorted by name, which is the order that
  // Object.keys(value).sort() visits them in.

  datatype Printed = Printed(name: Text, text: Text)

  predicate PrintedLeq(a: Printed, b: Printed) { TextLeq(a.name, b.name) }

  function CanonicalJson(v: Value): Text {
    match v
    case Null => NULL_TEXT
    case Bool(b) => if b then TRUE_TEXT else FALSE_TEXT
    case Num(n) => NumberText(n, [])
    case Str(s) => StringText(Quote(s), [])
    case Arr(elements) => [OPEN_ARRAY] + Join(PrintElements(elements)) + [CLOSE_ARRAY]
    case Obj(members) => [OPEN_OBJECT] + Join(PrintPairs(Sort(PrintMembers(members), PrintedLeq))) + [CLOSE_OBJECT]
  }

  function PrintElements(elements: seq<Value>): seq<Text> {
    if elements == [] then [] else [CanonicalJson(elements[0])] + PrintElements(elements[1..])
  }

  function PrintMembers(members: seq<Property>): seq<Printed> {
    if members == [] then [] else [Printed(members[0].name, CanonicalJson(members[0].value))] + PrintMembers(members[1..])
  }

  function PrintPairs(pairs: seq<Printed>): seq<Text> {
    if pairs == [] then []
    else [StringText(Quote(pairs[0].name), []) + [COLON] + pairs[0].text] + PrintPairs(pairs[1..])
  }

  /** join(",") */
  function Join(parts: seq<Text>): Text {
    if parts == [] then []
    else if |parts| == 1 then parts[0]
    else parts[0] + [COMMA] + Join(parts[1..])
  }

  // JSON values: numbers are their printed text, and an object has each name once.

  predicate UniqueNames(members: seq<Property>) {
    forall i, j :: 0 <= i < j < |members| ==> members[i].name != members[j].name
  }

  predicate WellFormed(v: Value) {
    match v
    case Num(n) => ValidNumber(n)
    case Arr(elements) => WellFormedElements(elements)
    case Obj(members) => UniqueNames(members) && WellFormedMembers(members)
    case _ => true
  }

  predicate WellFormedElements(elements: seq<Value>) {
    elements == [] || (WellFormed(elements[0]) && WellFormedElements(elements[1..]))
  }

  predicate WellFormedMembers(members: seq<Property>) {
    members == [] || (WellFormed(members[0].value) && WellFormedMembers(members[1..]))
  }

  /** The same JSON value, whatever the order of the members of any object in it. */
  predicate Same(a: Value, b: Value)
    decreases a
  {
    match (a, b)
    case (Arr(x), Arr(y)) => SameElements(x, y)
    case (Obj(x), Obj(y)) => |x| == |y| && SameMembers(x, y)
    case (_, _) => a == b
  }

  predicate SameElements(x: seq<Value>, y: seq<Value>)
    decreases x
  {
    |x| == |y| && (x == [] || (Same(x[0], y[0]) && SameElements(x[1..], y[1..])))
  }

  /** Every member of `x` has a partner in `y`. */
  predicate SameMembers(x: seq<Property>, y: seq<Property>)
    decreases x
  {
    x == [] || ((exists k :: 0 <= k < |y| && y[k].name == x[0].name && Same(x[0].value, y[k].value)) && SameMembers(x[1..], y))
  }

  // The value with the members of every object in order, and the tree of a value as it stands.

  predicate PropertyLeq(a: Property, b: Property) { TextLeq(a.name, b.name) }

  function Normal(v: Value): Value {
    match v
    case Arr(elements) => Arr(NormalElements(elements))
    case Obj(members) => Obj(Sort(NormalMembers(members), PropertyLeq))
    case _ => v
  }

  function NormalElements(elements: seq<Value>): (r: seq<Value>)
    ensures |r| == |elements|
  {
    if elements == [] then [] else [Normal(elements[0])] + NormalElements(elements[1..])
  }

  function NormalMembers(members: seq<Property>): (r: seq<Property>)
    ensures |r| == |members|
    ensures forall k :: 0 <= k < |r| ==> r[k].name == members[k].name
  {
    if members == [] then [] else [Property(members[0].name, Normal(members[0].value))] + NormalMembers(members[1..])
  }

  function NodeOf(v: Value): Node {
    match v
    case Null => NullNode
    case Bool(b) => if b then TrueNode else FalseNode
    case Num(n) => NumberNode(n)
    case Str(s) => StringNode(Quote(s))
    case Arr(elements) => ArrayNode([], ElementsOf(elements))
    case Obj(members) => ObjectNode([], MembersOf(members))
  }

  function ElementsOf(elements: seq<Value>): (e: Elements)
    ensures e.NoElements? <==> elements == []
  {
    if elements == [] then NoElements else Element([], NodeOf(elements[0]), [], ElementsOf(elements[1..]))
  }

  function MembersOf(members: seq<Property>): (m: Members)
    ensures m.NoMembers? <==> members == []
  {
    if members == [] then NoMembers
    else Member([], Quote(members[0].name), [], [], NodeOf(members[0].value), [], MembersOf(members[1..]))
  }

  lemma {:induction false} NodeOfValue(v: Value)
    requires WellFormed(v)
    ensures ValidNode(NodeOf(v)) && NodeValue(NodeOf(v)) == v
  {
    match v
    case Arr(elements) => ElementsOfValues(elements);
    case Obj(members) => MembersOfValues(members);
    case _ =>
  }

  lemma {:induction false} ElementsOfValues(elements: seq<Value>)
    requires WellFormedElements(elements)
    ensures ValidElements(ElementsOf(elements)) && ElementValues(ElementsOf(elements)) == elements
  {
    if elements != [] {
      NodeOfValue(elements[0]);
      ElementsOfValues(elements[1..]);
    }
  }

  lemma {:induction false} MembersOfValues(members: seq<Property>)
    requires WellFormedMembers(members)
    ensures ValidMembers(MembersOf(members)) && MemberValues(MembersOf(members)) == members
  {
    if members != [] {
      NodeOfValue(members[0].value);
      MembersOfValues(members[1..]);
    }
  }

  // Sorting keeps names unique and values well formed.

  lemma PropertyOrder()
    ensures IsOrder(PropertyLeq)
  {
    forall a: Property, b: Property ensures PropertyLeq(a, b) || PropertyLeq(b, a) {
      TextTotal(a.name, b.name);
    }
    forall a: Property, b: Property, c: Property | PropertyLeq(a, b) && PropertyLeq(b, c) ensures PropertyLeq(a, c) {
      TextTransitive(a.name, b.name, c.name);
    }
  }

  predicate Fresh(name: Text, members: seq<Property>) {
    forall k :: 0 <= k < |members| ==> members[k].name != name
  }

  lemma {:induction false} InsertFresh(x: Property, s: seq<Property>, name: Text)
    ensures Fresh(name, Insert(x, s, PropertyLeq)) <==> name != x.name && Fresh(name, s)
  {
    var r := Insert(x, s, PropertyLeq);
    assert multiset(r) == multiset([x] + s);
    Sorting.SameElements(r, [x] + s);
    if Fresh(name, r) {
      assert x in [x] + s;
      forall k | 0 <= k < |s| ensures s[k].name != name {
        assert s[k] in [x] + s;
      }
    } else {
      var k :| 0 <= k < |r| && r[k].name == name;
      assert r[k] in [x] + s;
    }
  }

  lemma PrependKeeps(x: Property, s: seq<Property>)
    requires UniqueNames(s) && Fresh(x.name, s)
    requires WellFormedMembers(s) && WellFormed(x.value)
    ensures UniqueNames([x] + s) && WellFormedMembers([x] + s)
  {
    assert ([x] + s)[1..] == s;
  }

  lemma {:induction false} InsertKeeps(x: Property, s: seq<Property>)
    requires UniqueNames(s) && Fresh(x.name, s)
    requires WellFormedMembers(s) && WellFormed(x.value)
    ensures var r := Insert(x, s, PropertyLeq); UniqueNames(r) && WellFormedMembers(r)
  {
    if s == [] {
      PrependKeeps(x, []);
      assert [x] + s == [x];
    } else if PropertyLeq(x, s[0]) {
      PrependKeeps(x, s);
    } else {
      InsertKeeps(x, s[1..]);
      assert Fresh(s[0].name, s[1..]);
      InsertFresh(x, s[1..], s[0].name);
      PrependKeeps(s[0], Insert(x, s[1..], PropertyLeq));
    }
  }

  lemma {:induction false} SortKeeps(s: seq<Property>)
    requires UniqueNames(s) && WellFormedMembers(s)
    ensures var r := Sort(s, PropertyLeq); UniqueNames(r) && WellFormedMembers(r)
    ensures forall name :: Fresh(name, s) ==> Fresh(name, Sort(s, PropertyLeq))
  {
    if s != [] {
      SortKeeps(s[1..]);
      assert Fresh(s[0].name, s[1..]);
      InsertKeeps(s[0], Sort(s[1..], PropertyLeq));
      forall name | Fresh(name, s) ensures Fresh(name, Sort(s, PropertyLeq)) {
        assert s[0].name != name;
        assert Fresh(name, s[1..]);
        InsertFresh(s[0], Sort(s[1..], PropertyLeq), name);
      }
    }
  }

  lemma {:induction false} NormalWellFormed(v: Value)
    requires WellFormed(v)
    ensures WellFormed(Normal(v))
  {
    match v
    case Arr(elements) => NormalElementsWellFormed(elements);
    case Obj(members) =>
      NormalMembersWellFormed(members);
      SortKeeps(NormalMembers(members));
    case _ =>
  }

  lemma {:induction false} NormalElementsWellFormed(elements: seq<Value>)
    requires WellFormedElements(elements)
    ensures WellFormedElements(NormalElements(elements))
  {
    if elements != [] {
      NormalWellFormed(elements[0]);
      NormalElementsWellFormed(elements[1..]);
    }
  }

  lemma {:induction false} NormalMembersWellFormed(members: seq<Property>)
    requires WellFormedMembers(members)
    ensures WellFormedMembers(NormalMembers(members))
  {
    if members != [] {
      NormalWellFormed(members[0].value);
      NormalMembersWellFormed(members[1..]);
    }
  }

  // Two values are the same exactly when their normal forms are equal.

  lemma SortedHeads(s: seq<Property>, t: seq<Property>)
    requires Sorted(s, PropertyLeq) && Sorted(t, PropertyLeq) && UniqueNames(t)
    requires s != [] && t != [] && s[0] in t && t[0] in s
    ensures s[0] == t[0]
  {
    TextTotal(s[0].name, s[0].name);
    TextTotal(t[0].name, t[0].name);
    TextTotal(s[0].name, t[0].name);
    assert PropertyLeq(s[0], t[0]);
  }

  lemma TailKeeps(s: seq<Property>)
    requires s != [] && Sorted(s, PropertyLeq) && UniqueNames(s)
    ensures Sorted(s[1..], PropertyLeq) && UniqueNames(s[1..])
    ensures multiset(s[1..]) == multiset(s) - multiset([s[0]])
  {
    assert s == [s[0]] + s[1..];
  }

  lemma {:induction false} SortedEqual(s: seq<Property>, t: seq<Property>)
    requires Sorted(s, PropertyLeq) && Sorted(t, PropertyLeq) && UniqueNames(s) && UniqueNames(t)
    requires multiset(s) == multiset(t)
    ensures s == t
  {
    hide UniqueNames, Sorted, PropertyLeq;
    assert |s| == |multiset(s)| == |t|;
    if s != [] {
      Sorting.SameElements(s, t);
      assert s[0] in s && t[0] in t;
      SortedHeads(s, t);
      TailKeeps(s);
      TailKeeps(t);
      SortedEqual(s[1..], t[1..]);
      FrontAndTail(s);
      FrontAndTail(t);
    }
  }

  lemma FrontAndTail<T>(s: seq<T>)
    requires s != []
    ensures s == [s[0]] + s[1..]
  {
  }

  lemma {:induction false} SortEqual(s: seq<Property>, t: seq<Property>)
    requires multiset(s) == multiset(t)
    requires UniqueNames(s) && UniqueNames(t) && WellFormedMembers(s) && WellFormedMembers(t)
    ensures Sort(s, PropertyLeq) == Sort(t, PropertyLeq)
  {
    PropertyOrder();
    SortSorted(s, PropertyLeq);
    SortSorted(t, PropertyLeq);
    SortKeeps(s);
    SortKeeps(t);
    SortedEqual(Sort(s, PropertyLeq), Sort(t, PropertyLeq));
  }

  /** Distinct names and equal counts turn inclusion into permutation. */
  lemma {:induction false} IncludedIsPermuted(s: seq<Property>, t: seq<Property>)
    requires UniqueNames(s) && |s| == |t| && forall k :: 0 <= k < |s| ==> s[k] in t
    ensures multiset(s) == multiset(t)
  {
    if s != [] {
      var i :| 0 <= i < |t| && t[i] == s[0];
      forall k | 0 <= k < |s[1..]| ensures s[1..][k] in Without(t, i) {
        assert s[1..][k] == s[k + 1] && s[k + 1].name != s[0].name;
        StillThere(t, i, s[k + 1]);
      }
      IncludedIsPermuted(s[1..], Without(t, i));
      hide UniqueNames, Without;
      WithoutElement(t, i);
      assert s == [s[0]] + s[1..];
    }
  }

  lemma StillThere(t: seq<Property>, i: nat, x: Property)
    requires i < |t| && x in t && x != t[i]
    ensures x in Without(t, i)
  {
    var j :| 0 <= j < |t| && t[j] == x;
    assert Without(t, i)[if j < i then j else j - 1] == x;
  }

  lemma {:induction false} SameNormal(a: Value, b: Value)
    requires WellFormed(a) && WellFormed(b)
    ensures Same(a, b) <==> Normal(a) == Normal(b)
    decreases a, 0
  {
    hide SameMembers, SameElements, NormalMembers, NormalElements, Sort, UniqueNames, WellFormedMembers, WellFormedElements;
    match (a, b)
    case (Arr(x), Arr(y)) => SameNormalElements(x, y);
    case (Obj(x), Obj(y)) => SameNormalMembers(x, y);
    case (_, _) =>
  }

  lemma {:induction false} SameNormalMembers(x: seq<Property>, y: seq<Property>)
    requires UniqueNames(x) && UniqueNames(y) && WellFormedMembers(x) && WellFormedMembers(y)
    ensures |x| == |y| && SameMembers(x, y) <==> Sort(NormalMembers(x), PropertyLeq) == Sort(NormalMembers(y), PropertyLeq)
    decreases x, 1
  {
    hide SameMembers, NormalMembers, Sort, UniqueNames, WellFormedMembers;
    var s, t := NormalMembers(x), NormalMembers(y);
    NormalUnique(x);
    NormalUnique(y);
    NormalMembersWellFormed(x);
    NormalMembersWellFormed(y);
    if |x| == |y| && SameMembers(x, y) {
      SameIncluded(x, y);
      IncludedIsPermuted(s, t);
      SortEqual(s, t);
    }
    if Sort(s, PropertyLeq) == Sort(t, PropertyLeq) {
      assert multiset(s) == multiset(t) && |s| == |Sort(s, PropertyLeq)| && |t| == |Sort(t, PropertyLeq)|;
      Sorting.SameElements(s, t);
      IncludedSame(x, y);
    }
  }

  lemma NormalUnique(x: seq<Property>)
    requires UniqueNames(x)
    ensures UniqueNames(NormalMembers(x))
  {
  }

  lemma {:induction false} SameNormalElements(x: seq<Value>, y: seq<Value>)
    requires WellFormedElements(x) && WellFormedElements(y)
    ensures SameElements(x, y) <==> NormalElements(x) == NormalElements(y)
    decreases x
  {
    if x != [] && |x| == |y| {
      SameNormal(x[0], y[0]);
      SameNormalElements(x[1..], y[1..]);
      assert NormalElements(x)[0] == Normal(x[0]) && NormalElements(x)[1..] == NormalElements(x[1..]);
      assert NormalElements(y)[0] == Normal(y[0]) && NormalElements(y)[1..] == NormalElements(y[1..]);
    }
  }

  lemma {:induction false} NormalMembersAt(x: seq<Property>, k: nat)
    requires k < |x|
    ensures NormalMembers(x)[k].value == Normal(x[k].value)
    ensures WellFormedMembers(x) ==> WellFormed(x[k].value)
  {
    if k > 0 {
      NormalMembersAt(x[1..], k - 1);
    }
  }

  lemma {:induction false} SameIncluded(x: seq<Property>, y: seq<Property>)
    requires WellFormedMembers(x) && WellFormedMembers(y) && SameMembers(x, y)
    ensures forall k :: 0 <= k < |x| ==> NormalMembers(x)[k] in NormalMembers(y)
    decreases x, 0
  {
    if x != [] {
      var k :| 0 <= k < |y| && y[k].name == x[0].name && Same(x[0].value, y[k].value);
      NormalMembersAt(y, k);
      SameNormal(x[0].value, y[k].value);
      assert NormalMembers(x)[0] == NormalMembers(y)[k];
      SameIncluded(x[1..], y);
    }
  }

  lemma {:induction false} IncludedSame(x: seq<Property>, y: seq<Property>)
    requires WellFormedMembers(x) && WellFormedMembers(y)
    requires forall p :: p in NormalMembers(x) ==> p in NormalMembers(y)
    ensures SameMembers(x, y)
    decreases x, 0
  {
    if x != [] {
      var p := NormalMembers(x)[0];
      assert p in NormalMembers(y);
      var k :| 0 <= k < |y| && NormalMembers(y)[k] == p;
      NormalMembersAt(y, k);
      SameNormal(x[0].value, y[k].value);
      forall q | q in NormalMembers(x[1..]) ensures q in NormalMembers(y) {
        assert q in NormalMembers(x);
      }
      IncludedSame(x[1..], y);
    }
  }

  // The printed text is the text of the normal form's tree.

  lemma {:induction false} ItemsTail(items: seq<StringItem>, tail: Text, more: Text)
    ensures ItemsText(items, tail) + more == ItemsText(items, tail + more)
  {
    if items != [] {
      ItemsTail(items[1..], tail, more);
      var t := ItemsText(items[1..], tail);
      assert ItemText(items[0], t) + more == ItemText(items[0], t + more);
    }
  }

  lemma StringTail(items: seq<StringItem>, tail: Text)
    ensures StringText(items, []) + tail == StringText(items, tail)
  {
    hide ItemsText;
    ItemsTail(items, [QUOTE] + [], tail);
    var t := ItemsText(items, [QUOTE] + []);
    assert ([QUOTE] + []) + tail == [QUOTE] + tail;
    assert ([QUOTE] + t) + tail == [QUOTE] + (t + tail);
  }

  lemma ExponentTail(e: Exponent, tail: Text)
    ensures ExponentText(e, []) + tail == ExponentText(e, tail)
  {
    if e.Exponent? {
      assert [e.mark] + (e.sign + (e.digits + [])) + tail == [e.mark] + (e.sign + (e.digits + tail));
    }
  }

  lemma FractionTail(fraction: Text, t: Text, tail: Text)
    ensures FractionText(fraction, t) + tail == FractionText(fraction, t + tail)
  {
    if fraction != [] {
      assert [DOT] + (fraction + t) + tail == [DOT] + (fraction + (t + tail));
    }
  }

  lemma NumberTail(n: Number, tail: Text)
    ensures NumberText(n, []) + tail == NumberText(n, tail)
  {
    hide ExponentText, FractionText;
    var e := ExponentText(n.exponent, []);
    ExponentTail(n.exponent, tail);
    FractionTail(n.fraction, e, tail);
    var f := FractionText(n.fraction, e);
    var sign := if n.minus then [MINUS] else [];
    assert sign + (n.whole + f) + tail == sign + (n.whole + (f + tail));
  }

  /** Texts of trees one after another, as the printer makes them. */
  function Texts(elements: seq<Value>): seq<Text> {
    if elements == [] then [] else [NodeText(NodeOf(elements[0]), [])] + Texts(elements[1..])
  }

  function PrintOf(members: seq<Property>): seq<Printed> {
    if members == [] then []
    else [Printed(members[0].name, NodeText(NodeOf(members[0].value), []))] + PrintOf(members[1..])
  }

  lemma {:induction false} NodeTail(v: Value, tail: Text)
    ensures NodeText(NodeOf(v), []) + tail == NodeText(NodeOf(v), tail)
    decreases v, 1
  {
    match v
    case Num(n) => NumberTail(n, tail);
    case Str(s) => StringTail(Quote(s), tail);
    case Arr(elements) => ArrayTail(elements, tail);
    case Obj(members) => ObjectTail(members, tail);
    case _ =>
  }

  lemma {:induction false} ArrayTail(elements: seq<Value>, tail: Text)
    ensures NodeText(NodeOf(Arr(elements)), []) + tail == NodeText(NodeOf(Arr(elements)), tail)
    decreases elements, 2
  {
    hide *;
    ArrayJoined(elements, []);
    ArrayJoined(elements, tail);
    EmptyMiddle([OPEN_ARRAY] + Join(Texts(elements)) + [CLOSE_ARRAY], tail);
  }

  lemma {:induction false} ObjectTail(members: seq<Property>, tail: Text)
    ensures NodeText(NodeOf(Obj(members)), []) + tail == NodeText(NodeOf(Obj(members)), tail)
    decreases members, 2
  {
    hide *;
    ObjectJoined(members, []);
    ObjectJoined(members, tail);
    EmptyMiddle([OPEN_OBJECT] + Join(PrintPairs(PrintOf(members))) + [CLOSE_OBJECT], tail);
  }

  lemma EmptyMiddle(a: Text, b: Text)
    ensures a + [] + b == a + b
  {
  }

  lemma {:induction false} ArrayJoined(elements: seq<Value>, tail: Text)
    ensures NodeText(NodeOf(Arr(elements)), tail) ==
            [OPEN_ARRAY] + Join(Texts(elements)) + [CLOSE_ARRAY] + tail
    decreases elements, 1
  {
    hide ElementsText, Join, ElementsOf, Texts;
    ElementsJoined(elements, [CLOSE_ARRAY] + tail);
    var t := Join(Texts(elements));
    assert [] + (t + ([CLOSE_ARRAY] + tail)) == t + ([CLOSE_ARRAY] + tail);
    assert [OPEN_ARRAY] + t + [CLOSE_ARRAY] + tail == [OPEN_ARRAY] + (t + ([CLOSE_ARRAY] + tail));
  }

  lemma JoinPrepend(first: Text, rest: seq<Text>, tail: Text)
    ensures Join([first] + rest) + tail == if rest == [] then first + tail else first + ([COMMA] + (Join(rest) + tail))
  {
    assert ([first] + rest)[1..] == rest;
    assert first + [COMMA] + Join(rest) + tail == first + ([COMMA] + (Join(rest) + tail));
  }

  lemma ElementUnfolds(elements: seq<Value>, tail: Text)
    requires elements != []
    ensures ElementsText(ElementsOf(elements), tail) ==
      NodeText(NodeOf(elements[0]), if |elements| == 1 then tail else [COMMA] + ElementsText(ElementsOf(elements[1..]), tail))
  {
    var more := if |elements| == 1 then tail else [COMMA] + ElementsText(ElementsOf(elements[1..]), tail);
    assert [] + more == more;
    assert [] + NodeText(NodeOf(elements[0]), more) == NodeText(NodeOf(elements[0]), more);
  }

  lemma {:induction false} ElementsJoined(elements: seq<Value>, tail: Text)
    ensures ElementsText(ElementsOf(elements), tail) == Join(Texts(elements)) + tail
    decreases elements, 0
  {
    if elements == [] {
      assert [] + tail == tail;
    } else {
      ElementUnfolds(elements, tail);
      JoinPrepend(NodeText(NodeOf(elements[0]), []), Texts(elements[1..]), tail);
      ElementsJoined(elements[1..], tail);
      hide ElementsText, NodeText, NodeOf, Join;
      var more := if |elements| == 1 then tail else [COMMA] + ElementsText(ElementsOf(elements[1..]), tail);
      NodeTail(elements[0], more);
    }
  }

  lemma {:induction false} ObjectJoined(members: seq<Property>, tail: Text)
    ensures NodeText(NodeOf(Obj(members)), tail) ==
            [OPEN_OBJECT] + Join(PrintPairs(PrintOf(members))) + [CLOSE_OBJECT] + tail
    decreases members, 1
  {
    hide MembersText, Join, MembersOf, PrintPairs, PrintOf;
    MembersJoined(members, [CLOSE_OBJECT] + tail);
    var t := Join(PrintPairs(PrintOf(members)));
    assert [] + (t + ([CLOSE_OBJECT] + tail)) == t + ([CLOSE_OBJECT] + tail);
    assert [OPEN_OBJECT] + t + [CLOSE_OBJECT] + tail == [OPEN_OBJECT] + (t + ([CLOSE_OBJECT] + tail));
  }

  lemma {:induction false} MemberUnfolds(members: seq<Property>, tail: Text)
    requires members != []
    ensures MembersText(MembersOf(members), tail) ==
      [] + StringText(Quote(members[0].name), [] + ([COLON] + ([] + NodeText(NodeOf(members[0].value),
      if |members| == 1 then tail else [COMMA] + MembersText(MembersOf(members[1..]), tail)))))
  {
    var more := if |members| == 1 then tail else [COMMA] + MembersText(MembersOf(members[1..]), tail);
    assert [] + more == more;
  }

  lemma {:induction false} MembersJoined(members: seq<Property>, tail: Text)
    ensures MembersText(MembersOf(members), tail) == Join(PrintPairs(PrintOf(members))) + tail
    decreases members, 0
  {
    if members == [] {
      assert [] + tail == tail;
    } else {
      var first := StringText(Quote(members[0].name), []) + [COLON] + NodeText(NodeOf(members[0].value), []);
      MemberUnfolds(members, tail);
      assert PrintPairs(PrintOf(members)) == [first] + PrintPairs(PrintOf(members[1..]));
      JoinPrepend(first, PrintPairs(PrintOf(members[1..])), tail);
      MembersJoined(members[1..], tail);
      hide MembersText, NodeText, NodeOf, Join, StringText, Quote;
      var more := if |members| == 1 then tail else [COMMA] + MembersText(MembersOf(members[1..]), tail);
      MemberJoined(members[0], more);
    }
  }

  lemma {:induction false} MemberJoined(p: Property, tail: Text)
    ensures [] + StringText(Quote(p.name), [] + ([COLON] + ([] + NodeText(NodeOf(p.value), tail)))) ==
            StringText(Quote(p.name), []) + [COLON] + NodeText(NodeOf(p.value), []) + tail
    decreases p.value, 2
  {
    hide StringText, NodeText, NodeOf, Quote;
    var t := NodeText(NodeOf(p.value), []);
    NodeTail(p.value, tail);
    assert [] + ([COLON] + ([] + (t + tail))) == [COLON] + (t + tail);
    StringTail(Quote(p.name), [COLON] + (t + tail));
    var q := StringText(Quote(p.name), []);
    assert q + ([COLON] + (t + tail)) == q + [COLON] + t + tail;
  }

  lemma {:induction false} InsertPrinted(x: Property, s: seq<Property>)
    ensures Insert(Printed(x.name, NodeText(NodeOf(x.value), [])), PrintOf(s), PrintedLeq) == PrintOf(Insert(x, s, PropertyLeq))
  {
    if s == [] {
    } else if PropertyLeq(x, s[0]) {
      assert ([x] + s)[1..] == s;
    } else {
      InsertPrinted(x, s[1..]);
      var rest := Insert(x, s[1..], PropertyLeq);
      assert ([s[0]] + rest)[1..] == rest;
    }
  }

  lemma {:induction false} SortPrinted(s: seq<Property>)
    ensures Sort(PrintOf(s), PrintedLeq) == PrintOf(Sort(s, PropertyLeq))
  {
    if s != [] {
      SortPrinted(s[1..]);
      InsertPrinted(s[0], Sort(s[1..], PropertyLeq));
    }
  }

  lemma {:induction false} CanonicalText(v: Value)
    ensures CanonicalJson(v) == NodeText(NodeOf(Normal(v)), [])
  {
    match v
    case Arr(elements) =>
      CanonicalTexts(elements);
      ArrayJoined(NormalElements(elements), []);
    case Obj(members) =>
      CanonicalPrinted(members);
      SortPrinted(NormalMembers(members));
      ObjectJoined(Sort(NormalMembers(members), PropertyLeq), []);
    case Null => assert NULL_TEXT + [] == NULL_TEXT;
    case Bool(b) => assert TRUE_TEXT + [] == TRUE_TEXT && FALSE_TEXT + [] == FALSE_TEXT;
    case _ =>
  }

  lemma {:induction false} CanonicalTexts(elements: seq<Value>)
    ensures PrintElements(elements) == Texts(NormalElements(elements))
  {
    if elements != [] {
      CanonicalText(elements[0]);
      CanonicalTexts(elements[1..]);
    }
  }

  lemma {:induction false} CanonicalPrinted(members: seq<Property>)
    ensures PrintMembers(members) == PrintOf(NormalMembers(members))
  {
    if members != [] {
      CanonicalText(members[0].value);
      CanonicalPrinted(members[1..]);
    }
  }

  // The main results.

  /** The printed text parses back to the value, up to the order of members. */
  lemma {:induction false} CanonicalRoundTrip(v: Value)
    requires WellFormed(v)
    ensures ParseDocument(CanonicalJson(v)).Some?
    ensures NodeValue(ParseDocument(CanonicalJson(v)).value.root) == Normal(v)
    ensures Same(v, Normal(v))
  {
    NormalWellFormed(v);
    NodeOfValue(Normal(v));
    CanonicalText(v);
    var d := Document([], NodeOf(Normal(v)), []);
    assert DocumentText(d) == CanonicalJson(v);
    DocumentComplete(d);
    NormalIdempotent(v);
    SameNormal(v, Normal(v));
  }

  lemma {:induction false} NormalIdempotent(v: Value)
    ensures Normal(Normal(v)) == Normal(v)
  {
    match v
    case Arr(elements) => NormalElementsIdempotent(elements);
    case Obj(members) =>
      var s := NormalMembers(members);
      var sorted := Sort(s, PropertyLeq);
      NormalMembersNormal(members);
      SortElements(s, PropertyLeq);
      AllNormal(sorted);
      PropertyOrder();
      SortSorted(s, PropertyLeq);
      SortOfSorted(sorted, PropertyLeq);
    case _ =>
  }

  lemma {:induction false} NormalElementsIdempotent(elements: seq<Value>)
    ensures NormalElements(NormalElements(elements)) == NormalElements(elements)
  {
    if elements != [] {
      NormalIdempotent(elements[0]);
      NormalElementsIdempotent(elements[1..]);
    }
  }

  lemma {:induction false} NormalMembersNormal(members: seq<Property>)
    ensures forall p :: p in NormalMembers(members) ==> Normal(p.value) == p.value
  {
    if members != [] {
      NormalIdempotent(members[0].value);
      NormalMembersNormal(members[1..]);
    }
  }

  lemma {:induction false} AllNormal(s: seq<Property>)
    requires forall p :: p in s ==> Normal(p.value) == p.value
    ensures NormalMembers(s) == s
  {
    if s != [] {
      AllNormal(s[1..]);
    }
  }

  /** Two values print alike exactly when they are the same up to the order of members. */
  lemma {:induction false} CanonicalInjective(a: Value, b: Value)
    requires WellFormed(a) && WellFormed(b)
    ensures CanonicalJson(a) == CanonicalJson(b) <==> Same(a, b)
  {
    CanonicalRoundTrip(a);
    CanonicalRoundTrip(b);
    CanonicalText(a);
    CanonicalText(b);
    SameNormal(a, b);
  }

  ghost predicate Injective<D(!new)>(hash: Text -> D) {
    forall s, t :: hash(s) == hash(t) ==> s == t
  }

  /** corpusDigest: under a collision-free hash, equal digests mean the same corpus. */
  lemma DigestIdentifies<D(!new)>(hash: Text -> D, a: Value, b: Value)
    requires Injective(hash) && WellFormed(a) && WellFormed(b)
    ensures hash(CanonicalJson(a)) == hash(CanonicalJson(b)) <==> Same(a, b)
  {
    CanonicalInjective(a, b);
  }
}
