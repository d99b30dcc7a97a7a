/**
 The bounded duplicate-key JSON reader (scripts/proof-json.ts): one flat scan over string and bracket tokens
 with a stack of key sets, then JSON.parse. The scan is proved to agree, on every text of the grammar, with a
 check that recurses over the syntax tree.
 */
module ProofJson {
  import opened Wrappers
  import opened UnicodeText
  import opened JsonGrammar
  import opened JsonParser

  const MAX_BYTES := 1_048_576
  const MAX_DEPTH := 32

  datatype Reason = JsonByteLimit | JsonDepthLimit | DuplicateJsonKey | InvalidJson

  // What the reader is meant to accept, said on the tree.

  ghost function Max(a: nat, b: nat): nat { if a < b then b else a }

  ghost function Depth(n: Node): nat {
    match n
    case ArrayNode(_, elements) => 1 + ElementsDepth(elements)
    case ObjectNode(_, members) => 1 + MembersDepth(members)
    case _ => 0
  }

  ghost function ElementsDepth(e: Elements): nat {
    match e
    case NoElements => 0
    case Element(_, value, _, rest) => Max(Depth(value), ElementsDepth(rest))
  }

  ghost function MembersDepth(m: Members): nat {
    match m
    case NoMembers => 0
    case Member(_, _, _, _, value, _, rest) => Max(Depth(value), MembersDepth(rest))
  }

  ghost function Names(m: Members): set<Text>
    requires ValidMembers(m)
  {
    match m
    case NoMembers => {}
    case Member(_, name, _, _, _, _, rest) => {ItemsValue(name)} + Names(rest)
  }

  /** No object at any depth has two members whose names are equal once unescaped. */
  ghost predicate DuplicateFree(n: Node)
    requires ValidNode(n)
  {
    match n
    case ArrayNode(_, elements) => ElementsDuplicateFree(elements)
    case ObjectNode(_, members) => MembersDuplicateFree(members)
    case _ => true
  }

  ghost predicate ElementsDuplicateFree(e: Elements)
    requires ValidElements(e)
  {
    match e
    case NoElements => true
    case Element(_, value, _, rest) => DuplicateFree(value) && ElementsDuplicateFree(rest)
  }

  ghost predicate MembersDuplicateFree(m: Members)
    requires ValidMembers(m)
  {
    match m
    case NoMembers => true
    case Member(_, name, _, _, value, _, rest) =>
      ItemsValue(name) !in Names(rest) && DuplicateFree(value) && MembersDuplicateFree(rest)
  }

  ghost predicate Admitted(d: Document) {
    ValidDocument(d) && Depth(d.root) <= MAX_DEPTH && DuplicateFree(d.root)
  }

  // The flat scan.

  /** The units that a dot does not match. */
  ghost predicate IsLineTerminator(c: CodeUnit) {
    c == LINE_FEED || c == CARRIAGE_RETURN || c == 0x2028 || c == 0x2029
  }

  /** How much of `t` completes a string token whose opening quote stands before `t`. */
  ghost function TokenLength(t: Text): (n: Option<nat>)
    ensures n.Some? ==> 0 < n.value <= |t|
  {
    if t == [] then None
    else if t[0] == QUOTE then Some(1)
    else if t[0] == BACKSLASH then
      if |t| >= 2 && !IsLineTerminator(t[1]) then
        (match TokenLength(t[2..])
         case None => None
         case Some(n) => Some(n + 2))
      else None
    else
      match TokenLength(t[1..])
      case None => None
      case Some(n) => Some(n + 1)
  }

  ghost predicate ColonNext(t: Text) {
    var u := SkipSpace(t);
    u != [] && u[0] == COLON
  }

  /** JSON.parse of a string token. */
  ghost function KeyOf(token: Text): Option<Text> {
    match ParseDocument(token)
    case Some(Document(_, StringNode(items), _)) => Some(ItemsValue(items))
    case _ => None
  }

  /** The key sets of the open objects, innermost last; an open array has none. */
  type Stack = seq<Option<set<Text>>>

  ghost function AddKey(stack: Stack, key: Text): Result<Stack, Reason> {
    if stack == [] || stack[|stack| - 1].None? then Ok(stack)
    else
      var keys := stack[|stack| - 1].value;
      if key in keys then Err(DuplicateJsonKey) else Ok(stack[..|stack| - 1] + [Some(keys + {key})])
  }

  ghost function OnString(token: Text, rest: Text, stack: Stack): Result<Stack, Reason> {
    if !ColonNext(rest) then Ok(stack)
    else
      match KeyOf(token)
      case None => Err(InvalidJson)
      case Some(key) => AddKey(stack, key)
  }

  ghost function Open(stack: Stack, keys: Option<set<Text>>): Result<Stack, Reason> {
    if |stack| + 1 > MAX_DEPTH then Err(JsonDepthLimit) else Ok(stack + [keys])
  }

  ghost function Pop(stack: Stack): Stack {
    if stack == [] then [] else stack[..|stack| - 1]
  }

  ghost predicate IsOpen(c: CodeUnit) { c == OPEN_ARRAY || c == OPEN_OBJECT }

  ghost predicate IsClose(c: CodeUnit) { c == CLOSE_ARRAY || c == CLOSE_OBJECT }

  ghost function OpenKeys(c: CodeUnit): Option<set<Text>> {
    if c == OPEN_OBJECT then Some({}) else None
  }

  /** The token at the front of a text, if one starts there: what it does to the stack, and its length. */
  ghost function Step(t: Text, stack: Stack): (r: (Result<Stack, Reason>, nat))
    requires t != []
    ensures 0 < r.1 <= |t|
  {
    if t[0] == QUOTE then
      match TokenLength(t[1..])
      case Some(n) => (OnString(t[..n + 1], t[n + 1..], stack), n + 1)
      case None => (Ok(stack), 1)
    else if IsOpen(t[0]) then (Open(stack, OpenKeys(t[0])), 1)
    else if IsClose(t[0]) then (Ok(Pop(stack)), 1)
    else (Ok(stack), 1)
  }

  ghost function Scan(t: Text, stack: Stack): Result<Stack, Reason>
    decreases |t|
  {
    if t == [] then Ok(stack)
    else
      var (r, n) := Step(t, stack);
      match r
      case Err(reason) => Err(reason)
      case Ok(next) => Scan(t[n..], next)
  }

  // The recursive check that the scan agrees with.

  ghost function CheckNode(n: Node, depth: nat): Option<Reason>
    requires ValidNode(n)
    decreases n, 0
  {
    match n
    case ArrayNode(_, elements) =>
      if depth + 1 > MAX_DEPTH then Some(JsonDepthLimit) else CheckElements(elements, depth + 1)
    case ObjectNode(_, members) =>
      if depth + 1 > MAX_DEPTH then Some(JsonDepthLimit) else CheckMembers(members, depth + 1, {})
    case _ => None
  }

  ghost function CheckElements(e: Elements, depth: nat): Option<Reason>
    requires ValidElements(e)
  {
    match e
    case NoElements => None
    case Element(_, value, _, rest) =>
      var r := CheckNode(value, depth);
      if r.Some? then r else CheckElements(rest, depth)
  }

  ghost function CheckMembers(m: Members, depth: nat, seen: set<Text>): Option<Reason>
    requires ValidMembers(m)
  {
    match m
    case NoMembers => None
    case Member(_, name, _, _, value, _, rest) =>
      if ItemsValue(name) in seen then Some(DuplicateJsonKey)
      else
        var r := CheckNode(value, depth);
        if r.Some? then r else CheckMembers(rest, depth, seen + {ItemsValue(name)})
  }

  // The check refuses a tree exactly when it is too deep or repeats a name.

  lemma {:induction false} CheckNodeMeaning(n: Node, depth: nat)
    requires ValidNode(n) && depth <= MAX_DEPTH
    ensures CheckNode(n, depth).None? <==> depth + Depth(n) <= MAX_DEPTH && DuplicateFree(n)
    ensures CheckNode(n, depth) == Some(JsonDepthLimit) ==> depth + Depth(n) > MAX_DEPTH
    ensures CheckNode(n, depth) == Some(DuplicateJsonKey) ==> !DuplicateFree(n)
    ensures CheckNode(n, depth).Some? ==> CheckNode(n, depth).value in {JsonDepthLimit, DuplicateJsonKey}
    decreases n, 0
  {
    match n
    case ArrayNode(_, elements) => if depth < MAX_DEPTH { CheckElementsMeaning(elements, depth + 1); }
    case ObjectNode(_, members) => if depth < MAX_DEPTH { CheckMembersMeaning(members, depth + 1, {}); }
    case _ =>
  }

  lemma {:induction false} CheckElementsMeaning(e: Elements, depth: nat)
    requires ValidElements(e) && depth <= MAX_DEPTH
    ensures CheckElements(e, depth).None? <==> depth + ElementsDepth(e) <= MAX_DEPTH && ElementsDuplicateFree(e)
    ensures CheckElements(e, depth) == Some(JsonDepthLimit) ==> depth + ElementsDepth(e) > MAX_DEPTH
    ensures CheckElements(e, depth) == Some(DuplicateJsonKey) ==> !ElementsDuplicateFree(e)
    ensures CheckElements(e, depth).Some? ==> CheckElements(e, depth).value in {JsonDepthLimit, DuplicateJsonKey}
    decreases e, 0
  {
    if e.Element? {
      CheckNodeMeaning(e.value, depth);
      CheckElementsMeaning(e.rest, depth);
    }
  }

  lemma {:induction false} CheckMembersMeaning(m: Members, depth: nat, seen: set<Text>)
    requires ValidMembers(m) && depth <= MAX_DEPTH
    ensures CheckMembers(m, depth, seen).None? <==>
            depth + MembersDepth(m) <= MAX_DEPTH && MembersDuplicateFree(m) && seen !! Names(m)
    ensures CheckMembers(m, depth, seen) == Some(JsonDepthLimit) ==> depth + MembersDepth(m) > MAX_DEPTH
    ensures CheckMembers(m, depth, seen) == Some(DuplicateJsonKey) ==> !MembersDuplicateFree(m) || !(seen !! Names(m))
    ensures CheckMembers(m, depth, seen).Some? ==>
            CheckMembers(m, depth, seen).value in {JsonDepthLimit, DuplicateJsonKey}
    decreases m, 0
  {
    if m.Member? {
      CheckNodeMeaning(m.value, depth);
      CheckMembersMeaning(m.rest, depth, seen + {ItemsValue(m.name)});
    }
  }

  // The scan passes over the text of a tree as the check does over the tree.

  /** What remains of a scan after a node that the check judged `found`. */
  ghost function Continue(found: Option<Reason>, tail: Text, stack: Stack): Result<Stack, Reason> {
    if found.Some? then Err(found.value) else Scan(tail, stack)
  }

  ghost predicate IsInert(c: CodeUnit) { c != QUOTE && !IsOpen(c) && !IsClose(c) }

  ghost predicate AllInert(t: Text) {
    forall k :: 0 <= k < |t| ==> IsInert(t[k])
  }

  lemma {:induction false} ScanInert(t: Text, tail: Text, stack: Stack)
    requires AllInert(t)
    ensures Scan(t + tail, stack) == Scan(tail, stack)
  {
    if t == [] {
      assert t + tail == tail;
    } else {
      assert (t + tail)[1..] == t[1..] + tail;
      ScanInert(t[1..], tail, stack);
    }
  }

  lemma {:induction false} SkipWs(ws: Text, tail: Text)
    requires AllWs(ws)
    ensures SkipSpace(ws + tail) == SkipSpace(tail)
  {
    if ws == [] {
      assert ws + tail == tail;
    } else {
      assert (ws + tail)[1..] == ws[1..] + tail;
      SkipWs(ws[1..], tail);
    }
  }

  lemma {:induction false} ItemsTextSplit(items: seq<StringItem>, tail: Text)
    ensures ItemsText(items, tail) == ItemsText(items, []) + tail
  {
    if items == [] {
      assert [] + tail == tail;
    } else {
      ItemsTextSplit(items[1..], tail);
      assert ItemText(items[0], ItemsText(items[1..], []) + tail) == ItemText(items[0], ItemsText(items[1..], [])) + tail;
    }
  }

  lemma {:induction false} TokenOf(items: seq<StringItem>, tail: Text)
    requires ValidItems(items)
    ensures TokenLength(ItemsText(items, [QUOTE] + tail)) == Some(|ItemsText(items, [])| + 1)
  {
    if items != [] {
      var more := ItemsText(items[1..], [QUOTE] + tail);
      TokenOf(items[1..], tail);
      TokenOverItem(items[0], more);
      ItemLength(items[0], ItemsText(items[1..], []));
    }
  }

  lemma ItemLength(item: StringItem, tail: Text)
    ensures |ItemText(item, tail)| == |ItemText(item, [])| + |tail|
  {
  }

  lemma {:induction false} TokenOverRun(run: Text, more: Text)
    requires forall k :: 0 <= k < |run| ==> run[k] != QUOTE && run[k] != BACKSLASH
    requires TokenLength(more).Some?
    ensures TokenLength(run + more) == Some(|run| + TokenLength(more).value)
  {
    if run == [] {
      assert run + more == more;
    } else {
      TokenOverRun(run[1..], more);
      assert (run + more)[1..] == run[1..] + more;
    }
  }

  lemma TokenOverEscape(letter: CodeUnit, more: Text)
    requires !IsLineTerminator(letter) && TokenLength(more).Some?
    ensures TokenLength([BACKSLASH, letter] + more) == Some(2 + TokenLength(more).value)
  {
    assert ([BACKSLASH, letter] + more)[2..] == more;
  }

  lemma TokenOverItem(item: StringItem, more: Text)
    requires ValidItem(item) && TokenLength(more).Some?
    ensures TokenLength(ItemText(item, more)) == Some(|ItemText(item, [])| + TokenLength(more).value)
  {
    hide TokenLength;
    match item
    case Plain(c) => TokenOverRun([c], more);
    case Escape(letter) => TokenOverEscape(letter, more);
    case Hex(h0, h1, h2, h3) =>
      TokenOverRun([h0, h1, h2, h3], more);
      TokenOverEscape(LOWER_U, [h0, h1, h2, h3] + more);
      assert [BACKSLASH, LOWER_U] + ([h0, h1, h2, h3] + more) == [BACKSLASH, LOWER_U, h0, h1, h2, h3] + more;
  }

  lemma {:induction false} KeyOfString(items: seq<StringItem>)
    requires ValidItems(items)
    ensures KeyOf(StringText(items, [])) == Some(ItemsValue(items))
  {
    var d := Document([], StringNode(items), []);
    DocumentComplete(d);
    assert DocumentText(d) == StringText(items, []);
  }

  lemma {:induction false} TokenSplit(items: seq<StringItem>, tail: Text)
    requires ValidItems(items)
    ensures StringText(items, tail) == StringText(items, []) + tail
    ensures TokenLength(StringText(items, tail)[1..]) == Some(|StringText(items, [])| - 1)
  {
    hide ItemsText, TokenLength;
    var body := ItemsText(items, []);
    ItemsTextSplit(items, [QUOTE] + tail);
    ItemsTextSplit(items, [QUOTE] + []);
    TokenOf(items, tail);
    assert ([QUOTE] + (body + ([QUOTE] + tail)))[1..] == body + ([QUOTE] + tail);
    assert [QUOTE] + (body + ([QUOTE] + tail)) == [QUOTE] + (body + ([QUOTE] + [])) + tail;
  }

  /** A string token, whatever follows it. */
  lemma {:induction false} StepString(items: seq<StringItem>, tail: Text, stack: Stack)
    requires ValidItems(items)
    ensures var t := StringText(items, tail);
      t != [] && Step(t, stack) == (OnString(StringText(items, []), tail, stack), |StringText(items, [])|) &&
      t[|StringText(items, [])|..] == tail
  {
    hide ItemsText, TokenLength, OnString;
    var t := StringText(items, tail);
    var token := StringText(items, []);
    TokenSplit(items, tail);
    assert t[..|token|] == token && t[|token|..] == tail;
  }

  lemma ScanToken(items: seq<StringItem>, tail: Text, stack: Stack)
    requires ValidItems(items)
    ensures Scan(StringText(items, tail), stack) ==
      match OnString(StringText(items, []), tail, stack) { case Err(reason) => Err(reason) case Ok(next) => Scan(tail, next) }
  {
    StepString(items, tail, stack);
  }

  lemma ScanString(items: seq<StringItem>, tail: Text, stack: Stack)
    requires ValidItems(items) && !ColonNext(tail)
    ensures Scan(StringText(items, tail), stack) == Scan(tail, stack)
  {
    ScanToken(items, tail, stack);
  }

  /** The whitespace and colon after a name. */
  lemma ScanColon(n: Name, tail: Text, stack: Stack)
    requires ValidName(n)
    ensures var rest := n.beforeColon + ([COLON] + (n.afterColon + tail));
      ColonNext(rest) && Scan(rest, stack) == Scan(tail, stack)
  {
    hide Scan;
    var colon := [COLON] + (n.afterColon + tail);
    SkipWs(n.beforeColon, colon);
    ScanInert(n.beforeColon, colon, stack);
    ScanInert([COLON], n.afterColon + tail, stack);
    ScanInert(n.afterColon, tail, stack);
  }

  /** A member's name, up to its value. */
  lemma {:induction false} ScanName(n: Name, tail: Text, stack: Stack, keys: set<Text>)
    requires ValidName(n)
    ensures Scan(NameText(n, tail), stack + [Some(keys)]) ==
      if ItemsValue(n.items) in keys then Err(DuplicateJsonKey)
      else Scan(tail, stack + [Some(keys + {ItemsValue(n.items)})])
  {
    hide Scan, KeyOf, StringText;
    var rest := n.beforeColon + ([COLON] + (n.afterColon + tail));
    ScanInert(n.before, StringText(n.items, rest), stack + [Some(keys)]);
    ScanColon(n, tail, stack + [Some(keys + {ItemsValue(n.items)})]);
    ScanToken(n.items, rest, stack + [Some(keys)]);
    KeyOfString(n.items);
    assert (stack + [Some(keys)])[..|stack|] == stack;
  }

  lemma ExponentInert(e: Exponent, tail: Text, stack: Stack)
    requires ValidExponent(e)
    ensures Scan(ExponentText(e, tail), stack) == Scan(tail, stack)
  {
    hide Scan;
    if e.Exponent? {
      ScanInert([e.mark], e.sign + (e.digits + tail), stack);
      ScanInert(e.sign, e.digits + tail, stack);
      ScanInert(e.digits, tail, stack);
    }
  }

  lemma FractionInert(fraction: Text, tail: Text, stack: Stack)
    requires AllDigits(fraction)
    ensures Scan(FractionText(fraction, tail), stack) == Scan(tail, stack)
  {
    hide Scan;
    if fraction != [] {
      ScanInert([DOT], fraction + tail, stack);
      ScanInert(fraction, tail, stack);
    }
  }

  lemma NumberInert(n: Number, tail: Text, stack: Stack)
    requires ValidNumber(n)
    ensures Scan(NumberText(n, tail), stack) == Scan(tail, stack)
  {
    hide Scan;
    var e := ExponentText(n.exponent, tail);
    var f := FractionText(n.fraction, e);
    ScanInert(if n.minus then [MINUS] else [], n.whole + f, stack);
    ScanInert(n.whole, f, stack);
    FractionInert(n.fraction, e, stack);
    ExponentInert(n.exponent, tail, stack);
  }

  lemma {:induction false} ScanNode(n: Node, tail: Text, stack: Stack)
    requires ValidNode(n) && !ColonNext(tail)
    ensures Scan(NodeText(n, tail), stack) == Continue(CheckNode(n, |stack|), tail, stack)
    decreases n, 1
  {
    match n
    case NullNode => ScanInert(NULL_TEXT, tail, stack);
    case TrueNode => ScanInert(TRUE_TEXT, tail, stack);
    case FalseNode => ScanInert(FALSE_TEXT, tail, stack);
    case NumberNode(number) => NumberInert(number, tail, stack);
    case StringNode(items) => ScanString(items, tail, stack);
    case ArrayNode(_, _) => ScanArray(n, tail, stack);
    case ObjectNode(_, _) => ScanObject(n, tail, stack);
  }

  lemma ScanOpen(c: CodeUnit, rest: Text, stack: Stack)
    requires IsOpen(c)
    ensures Scan([c] + rest, stack) ==
      if |stack| + 1 > MAX_DEPTH then Err(JsonDepthLimit) else Scan(rest, stack + [OpenKeys(c)])
  {
    assert ([c] + rest)[1..] == rest;
  }

  lemma ScanClose(c: CodeUnit, tail: Text, stack: Stack, keys: Option<set<Text>>)
    requires IsClose(c)
    ensures Scan([c] + tail, stack + [keys]) == Scan(tail, stack)
  {
    assert ([c] + tail)[1..] == tail;
    assert Pop(stack + [keys]) == stack;
  }

  lemma ArrayUnfolds(n: Node, tail: Text, depth: nat)
    requires n.ArrayNode? && ValidNode(n)
    ensures AllInert(n.gap) && ValidElements(n.elements)
    ensures NodeText(n, tail) == [OPEN_ARRAY] + (n.gap + ElementsText(n.elements, [CLOSE_ARRAY] + tail))
    ensures CheckNode(n, depth) ==
      if depth + 1 > MAX_DEPTH then Some(JsonDepthLimit) else CheckElements(n.elements, depth + 1)
    ensures !ColonNext([CLOSE_ARRAY] + tail)
  {
  }

  lemma {:induction false} ScanArray(n: Node, tail: Text, stack: Stack)
    requires n.ArrayNode? && ValidNode(n)
    ensures Scan(NodeText(n, tail), stack) == Continue(CheckNode(n, |stack|), tail, stack)
    decreases n, 0
  {
    hide Scan;
    var close := [CLOSE_ARRAY] + tail;
    var inner := ElementsText(n.elements, close);
    ArrayUnfolds(n, tail, |stack|);
    ScanOpen(OPEN_ARRAY, n.gap + inner, stack);
    if |stack| < MAX_DEPTH {
      var next := stack + [None];
      ScanInert(n.gap, inner, next);
      ScanElements(n.elements, close, next);
      ScanClose(CLOSE_ARRAY, tail, stack, None);
    }
  }

  lemma {:induction false} ScanElements(e: Elements, tail: Text, stack: Stack)
    requires ValidElements(e) && !ColonNext(tail)
    ensures Scan(ElementsText(e, tail), stack) == Continue(CheckElements(e, |stack|), tail, stack)
    decreases e, 2
  {
    hide Scan;
    if e.Element? {
      var more := if e.rest.NoElements? then tail else [COMMA] + ElementsText(e.rest, tail);
      SkipWs(e.after, more);
      ScanInert(e.before, NodeText(e.value, e.after + more), stack);
      ScanNode(e.value, e.after + more, stack);
      ScanInert(e.after, more, stack);
      if e.rest.Element? {
        ScanInert([COMMA], ElementsText(e.rest, tail), stack);
      }
      ScanElements(e.rest, tail, stack);
    }
  }

  lemma {:induction false} ScanObject(n: Node, tail: Text, stack: Stack)
    requires n.ObjectNode? && ValidNode(n)
    ensures Scan(NodeText(n, tail), stack) == Continue(CheckNode(n, |stack|), tail, stack)
    decreases n, 0
  {
    hide Scan;
    var close := [CLOSE_OBJECT] + tail;
    var inner := MembersText(n.members, close);
    ScanOpen(OPEN_OBJECT, n.gap + inner, stack);
    if |stack| < MAX_DEPTH {
      ScanInert(n.gap, inner, stack + [Some({})]);
      ScanMembers(n.members, tail, stack, {});
    }
  }

  lemma {:induction false} ScanMembers(m: Members, tail: Text, stack: Stack, seen: set<Text>)
    requires ValidMembers(m)
    ensures Scan(MembersText(m, [CLOSE_OBJECT] + tail), stack + [Some(seen)]) ==
            Continue(CheckMembers(m, |stack| + 1, seen), tail, stack)
    decreases m, 2
  {
    hide Scan;
    var close := [CLOSE_OBJECT] + tail;
    if m.NoMembers? {
      ScanClose(CLOSE_OBJECT, tail, stack, Some(seen));
    } else {
      var more := if m.rest.NoMembers? then close else [COMMA] + MembersText(m.rest, close);
      SkipWs(m.after, more);
      ScanName(MemberName(m), NodeText(m.value, m.after + more), stack, seen);
      if ItemsValue(m.name) !in seen {
        var next := seen + {ItemsValue(m.name)};
        ScanNode(m.value, m.after + more, stack + [Some(next)]);
        ScanInert(m.after, more, stack + [Some(next)]);
        if m.rest.Member? {
          ScanInert([COMMA], MembersText(m.rest, close), stack + [Some(next)]);
        }
        ScanMembers(m.rest, tail, stack, next);
      }
    }
  }

  /** On the text of any tree the flat scan finds what the recursive check finds, and closes all it opened. */
  lemma {:induction false} ScanDocument(d: Document)
    requires ValidDocument(d)
    ensures Scan(DocumentText(d), []) ==
      match CheckNode(d.root, 0) { case None => Ok([]) case Some(reason) => Err(reason) }
  {
    assert Scan([], []) == Ok([]);
    hide Scan;
    ScanInert(d.before, NodeText(d.root, d.after), []);
    SkipWs(d.after, []);
    assert d.after + [] == d.after;
    ScanNode(d.root, d.after, []);
    ScanInert(d.after, [], []);
  }

  // The verdict depends on the value alone: neither whitespace nor the choice of escapes matters.

  lemma {:induction false} CheckSameValue(n: Node, n': Node, depth: nat)
    requires ValidNode(n) && ValidNode(n') && NodeValue(n) == NodeValue(n')
    ensures CheckNode(n, depth) == CheckNode(n', depth)
  {
    if n.ArrayNode? {
      CheckSameElements(n.elements, n'.elements, depth + 1);
    } else if n.ObjectNode? {
      CheckSameMembers(n.members, n'.members, depth + 1, {});
    }
  }

  lemma {:induction false} CheckSameElements(e: Elements, e': Elements, depth: nat)
    requires ValidElements(e) && ValidElements(e') && ElementValues(e) == ElementValues(e')
    ensures CheckElements(e, depth) == CheckElements(e', depth)
  {
    if e.Element? {
      assert ElementValues(e)[0] == ElementValues(e')[0] && ElementValues(e)[1..] == ElementValues(e')[1..];
      CheckSameValue(e.value, e'.value, depth);
      CheckSameElements(e.rest, e'.rest, depth);
    }
  }

  lemma {:induction false} CheckSameMembers(m: Members, m': Members, depth: nat, seen: set<Text>)
    requires ValidMembers(m) && ValidMembers(m') && MemberValues(m) == MemberValues(m')
    ensures CheckMembers(m, depth, seen) == CheckMembers(m', depth, seen)
  {
    if m.Member? {
      assert MemberValues(m)[0] == MemberValues(m')[0] && MemberValues(m)[1..] == MemberValues(m')[1..];
      CheckSameValue(m.value, m'.value, depth);
      CheckSameMembers(m.rest, m'.rest, depth, seen + {ItemsValue(m.name)});
    }
  }

  // The reader itself.

  /** A string, or bytes with what a fatal UTF-8 decoder that keeps a byte order mark makes of them. */
  datatype Input = FromString(text: Text) | FromBytes(byteLength: nat, decoded: Option<Text>)

  ghost function ByteLength(input: Input): nat {
    match input
    case FromString(text) => Utf8Length(text)
    case FromBytes(byteLength, _) => byteLength
  }

  ghost function Raw(input: Input): Option<Text> {
    match input
    case FromString(text) => Some(text)
    case FromBytes(_, decoded) => decoded
  }

  /**
   Success is exactly a bounded text of the grammar, at most MAX_DEPTH deep and free of repeated names. Any other text is refused for
   the first fault of the scan, as invalid where the scan finds none.
   */
  method ParseProofJson(input: Input) returns (r: Result<Value, Reason>)
    ensures r.Ok? <==>
            ByteLength(input) <= MAX_BYTES && exists d :: Admitted(d) && Raw(input) == Some(DocumentText(d))
    ensures forall d :: ValidDocument(d) && Raw(input) == Some(DocumentText(d)) && ByteLength(input) <= MAX_BYTES ==>
              r == match CheckNode(d.root, 0) { case None => Ok(NodeValue(d.root)) case Some(reason) => Err(reason) }
    ensures r == Err(JsonByteLimit) <==> ByteLength(input) > MAX_BYTES
    ensures ByteLength(input) <= MAX_BYTES && Raw(input).None? ==> r == Err(InvalidJson)
    ensures ByteLength(input) <= MAX_BYTES && Raw(input).Some? && !(exists d :: ValidDocument(d) && Raw(input) == Some(DocumentText(d))) ==>
              r == match Scan(Raw(input).value, []) { case Err(reason) => Err(reason) case Ok(_) => Err(InvalidJson) }
  {
    hide Scan, Utf8Length;
    var raw: Text;
    match input {
      case FromString(text) =>
        if Utf8Length(text) > MAX_BYTES {
          return Err(JsonByteLimit);
        }
        raw := text;
      case FromBytes(byteLength, decoded) =>
        if byteLength > MAX_BYTES {
          return Err(JsonByteLimit);
        }
        if decoded.None? {
          return Err(InvalidJson);
        }
        raw := decoded.value;
    }
    var scanned := ScanTokens(raw);
    forall d | ValidDocument(d) && raw == DocumentText(d)
      ensures scanned == CheckNode(d.root, 0) && ParseDocument(raw) == Some(d)
      ensures scanned.None? <==> Admitted(d)
    {
      ScanDocument(d);
      DocumentComplete(d);
      CheckNodeMeaning(d.root, 0);
    }
    if scanned.Some? {
      return Err(scanned.value);
    }
    match ParseDocument(raw) {
      case None => r := Err(InvalidJson);
      case Some(d) => r := Ok(NodeValue(d.root));
    }
  }

  /** A string token at raw[index..end]: look past whitespace for a colon, and record the key if there is one. */
  method ReadString(raw: Text, index: nat, end: nat, stack: Stack) returns (r: Result<Stack, Reason>)
    requires index <= end <= |raw|
    ensures r == OnString(raw[index..end], raw[end..], stack)
    ensures r.Err? ==> r.error != JsonByteLimit
  {
    var after := end;
    while after < |raw| && IsSpace(raw[after])
      invariant end <= after <= |raw|
      invariant SkipSpace(raw[after..]) == SkipSpace(raw[end..])
    {
      assert raw[after..][1..] == raw[after + 1..];
      after := after + 1;
    }
    if after == |raw| || raw[after] != COLON {
      return Ok(stack);
    }
    match ParseDocument(raw[index..end]) {
      case Some(Document(_, StringNode(items), _)) =>
        var key := ItemsValue(items);
        if stack == [] || stack[|stack| - 1].None? {
          return Ok(stack);
        }
        var keys := stack[|stack| - 1].value;
        if key in keys {
          return Err(DuplicateJsonKey);
        }
        return Ok(stack[..|stack| - 1] + [Some(keys + {key})]);
      case _ =>
        return Err(InvalidJson);
    }
  }

  /** The string alternative of the token pattern, after its opening quote. */
  method MatchString(raw: Text, from: nat) returns (end: Option<nat>)
    requires from <= |raw|
    ensures end == match TokenLength(raw[from..]) { case None => None case Some(n) => Some(from + n) }
  {
    hide TokenLength;
    var at := from;
    while at < |raw| && raw[at] != QUOTE
      invariant from <= at <= |raw|
      invariant TokenLength(raw[from..]) == match TokenLength(raw[at..]) { case None => None case Some(n) => Some(at - from + n) }
    {
      TokenUnfolds(raw, at);
      if raw[at] == BACKSLASH {
        if at + 1 == |raw| || raw[at + 1] == LINE_FEED || raw[at + 1] == CARRIAGE_RETURN || raw[at + 1] == 0x2028 || raw[at + 1] == 0x2029 {
          return None;
        }
        at := at + 2;
      } else {
        at := at + 1;
      }
    }
    TokenUnfolds(raw, at);
    return if at == |raw| then None else Some(at + 1);
  }

  lemma TokenUnfolds(raw: Text, at: nat)
    requires at <= |raw|
    ensures TokenLength(raw[at..])
      == if at == |raw| then None
         else if raw[at] == QUOTE then Some(1)
         else
           var skip := if raw[at] == BACKSLASH then 2 else 1;
           if at + skip > |raw| || (raw[at] == BACKSLASH && IsLineTerminator(raw[at + 1])) then None
           else match TokenLength(raw[at + skip..]) { case None => None case Some(n) => Some(n + skip) }
  {
    if at < |raw| {
      assert raw[at..][1..] == raw[at + 1..];
      if at + 1 < |raw| {
        assert raw[at..][2..] == raw[at + 2..];
      }
    }
  }

  lemma ScanUnfolds(t: Text, stack: Stack)
    ensures Scan(t, stack) ==
      if t == [] then Ok(stack)
      else match Step(t, stack).0 { case Err(reason) => Err(reason) case Ok(next) => Scan(t[Step(t, stack).1..], next) }
  {
  }

  /** The token loop: None when no token is refused. */
  method ScanTokens(raw: Text) returns (refused: Option<Reason>)
    ensures refused == match Scan(raw, []) { case Ok(_) => None case Err(reason) => Some(reason) }
    ensures refused != Some(JsonByteLimit)
  {
    hide Scan, OnString, TokenLength;
    var stack: Stack := [];
    var index := 0;
    assert raw[0..] == raw;
    while index < |raw|
      invariant index <= |raw|
      invariant Scan(raw[index..], stack) == Scan(raw, [])
    {
      var unit := raw[index];
      ScanUnfolds(raw[index..], stack);
      assert raw[index..][1..] == raw[index + 1..];
      var end := index + 1;
      if unit == OPEN_ARRAY || unit == OPEN_OBJECT {
        stack := stack + [if unit == OPEN_OBJECT then Some({}) else None];
        if |stack| > MAX_DEPTH {
          return Some(JsonDepthLimit);
        }
      } else if unit == CLOSE_ARRAY || unit == CLOSE_OBJECT {
        if stack != [] {
          stack := stack[..|stack| - 1];
        }
      } else if unit == QUOTE {
        var token := MatchString(raw, index + 1);
        if token.Some? {
          end := token.value;
          assert raw[index..][..end - index] == raw[index..end] && raw[index..][end - index..] == raw[end..];
          var read := ReadString(raw, index, end, stack);
          if read.Err? {
            return Some(read.error);
          }
          stack := read.value;
        }
      }
      index := end;
    }
    ScanUnfolds(raw[index..], stack);
    return None;
  }
}
