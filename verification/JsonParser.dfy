/**
 A recursive-descent JSON parser standing in for JSON.parse. Its contracts say that what it accepts is a
 valid tree whose text is what it consumed; the lemmas say that it accepts the text of every valid tree and
 gives that tree back, so the grammar is unambiguous.
 */
module JsonParser {
  import opened Wrappers
  import opened UnicodeText
  import opened JsonGrammar

  function SplitWs(t: Text): (r: (Text, Text))
    ensures t == r.0 + r.1 && AllWs(r.0)
    ensures r.1 != [] ==> !IsWs(r.1[0])
  {
    if t == [] || (t[0] != SPACE && t[0] != TAB && t[0] != LINE_FEED && t[0] != CARRIAGE_RETURN) then ([], t)
    else
      var (ws, rest) := SplitWs(t[1..]);
      ([t[0]] + ws, rest)
  }

  function SplitDigits(t: Text): (r: (Text, Text))
    ensures t == r.0 + r.1 && AllDigits(r.0)
    ensures r.1 != [] ==> !IsDigit(r.1[0])
  {
    if t == [] || t[0] < DIGIT_ZERO || DIGIT_NINE < t[0] then ([], t)
    else
      var (digits, rest) := SplitDigits(t[1..]);
      OneMoreDigit(t, digits, rest);
      ([t[0]] + digits, rest)
  }

  lemma OneMoreDigit(t: Text, digits: Text, rest: Text)
    requires t != [] && IsDigit(t[0]) && AllDigits(digits) && t[1..] == digits + rest
    ensures AllDigits([t[0]] + digits) && t == [t[0]] + digits + rest
  {
    hide IsDigit;
    assert t == [t[0]] + t[1..];
  }

  predicate HexUnit(c: CodeUnit)
    ensures HexUnit(c) <==> IsHexDigit(c)
  {
    0x30 <= c <= 0x39 || 0x41 <= c <= 0x46 || 0x61 <= c <= 0x66
  }

  function ParseItem(t: Text): (r: Option<(StringItem, Text)>)
    ensures r.Some? ==> ValidItem(r.value.0) && t == ItemText(r.value.0, r.value.1)
  {
    if t == [] then None
    else if t[0] >= SPACE && t[0] != QUOTE && t[0] != BACKSLASH then Some((Plain(t[0]), t[1..]))
    else if t[0] != BACKSLASH || |t| < 2 then None
    else if t[1] in [QUOTE, BACKSLASH, 0x2F, 0x62, 0x66, 0x6E, 0x72, 0x74] then Some((Escape(t[1]), t[2..]))
    else if t[1] == LOWER_U && |t| >= 6 && HexUnit(t[2]) && HexUnit(t[3]) && HexUnit(t[4]) && HexUnit(t[5]) then
      Some((Hex(t[2], t[3], t[4], t[5]), t[6..]))
    else None
  }

  /** The rest of a string after its opening quote. */
  function ParseItems(t: Text): (r: Option<(seq<StringItem>, Text)>)
    ensures r.Some? ==> ValidItems(r.value.0) && t == ItemsText(r.value.0, [QUOTE] + r.value.1)
    ensures r.Some? ==> |r.value.1| < |t|
    decreases |t|
  {
    if t == [] then None
    else if t[0] == QUOTE then Some(([], t[1..]))
    else
      match ParseItem(t)
      case None => None
      case Some((item, rest)) =>
        match ParseItems(rest)
        case None => None
        case Some((items, end)) =>
          assert ([item] + items)[1..] == items;
          Some(([item] + items, end))
  }

  function ParseExponent(t: Text): (r: Option<(Exponent, Text)>)
    ensures r.Some? ==> ValidExponent(r.value.0) && t == ExponentText(r.value.0, r.value.1) && |r.value.1| <= |t|
  {
    if t == [] || (t[0] != 0x65 && t[0] != 0x45) then Some((NoExponent, t))
    else
      var sign := if |t| > 1 && (t[1] == PLUS || t[1] == MINUS) then [t[1]] else [];
      assert t == [t[0]] + (sign + t[1 + |sign|..]);
      var (digits, rest) := SplitDigits(t[1 + |sign|..]);
      if digits == [] then None else Some((Exponent(t[0], sign, digits), rest))
  }

  function ParseFraction(t: Text): (r: Option<(Text, Text)>)
    ensures r.Some? ==> AllDigits(r.value.0) && t == FractionText(r.value.0, r.value.1) && |r.value.1| <= |t|
  {
    if t == [] || t[0] != DOT then Some(([], t))
    else
      var (digits, rest) := SplitDigits(t[1..]);
      if digits == [] then None else Some((digits, rest))
  }

  /** A number after its sign. */
  function ParseUnsigned(t: Text, minus: bool): (r: Option<(Number, Text)>)
    ensures r.Some? ==> ValidNumber(r.value.0) && r.value.0.minus == minus
    ensures r.Some? ==> (if minus then [MINUS] else []) + t == NumberText(r.value.0, r.value.1)
    ensures r.Some? ==> |r.value.1| < |t|
  {
    var (whole, t1) := SplitDigits(t);
    if whole == [] || (whole[0] == DIGIT_ZERO && |whole| > 1) then None
    else
      match ParseFraction(t1)
      case None => None
      case Some((fraction, t2)) =>
        match ParseExponent(t2)
        case None => None
        case Some((exponent, t3)) => Some((Number(minus, whole, fraction, exponent), t3))
  }

  function ParseNumber(t: Text): (r: Option<(Number, Text)>)
    ensures r.Some? ==> ValidNumber(r.value.0) && t == NumberText(r.value.0, r.value.1)
    ensures r.Some? ==> |r.value.1| < |t|
  {
    if t != [] && t[0] == MINUS then
      assert t == [MINUS] + t[1..];
      ParseUnsigned(t[1..], true)
    else
      assert t == [] + t;
      ParseUnsigned(t, false)
  }

  function AfterLiteral(t: Text, literal: Text): (r: Option<Text>)
    requires literal != []
    ensures r.Some? ==> t == literal + r.value && |r.value| < |t|
  {
    if literal <= t then Some(t[|literal|..]) else None
  }

  datatype Name = Name(before: Text, items: seq<StringItem>, beforeColon: Text, afterColon: Text)

  function NameText(n: Name, tail: Text): Text {
    n.before + StringText(n.items, n.beforeColon + ([COLON] + (n.afterColon + tail)))
  }

  predicate ValidName(n: Name) {
    AllWs(n.before) && ValidItems(n.items) && AllWs(n.beforeColon) && AllWs(n.afterColon)
  }

  function ParseColon(t: Text): (r: Option<(Text, Text, Text)>)
    ensures r.Some? ==> AllWs(r.value.0) && AllWs(r.value.1) && |r.value.2| < |t|
    ensures r.Some? ==> t == r.value.0 + ([COLON] + (r.value.1 + r.value.2))
  {
    var (beforeColon, t1) := SplitWs(t);
    if t1 == [] || t1[0] != COLON then None
    else
      var (afterColon, t2) := SplitWs(t1[1..]);
      assert t1 == [COLON] + (afterColon + t2);
      Some((beforeColon, afterColon, t2))
  }

  /** A member's name up to its value. */
  function ParseName(t: Text): (r: Option<(Name, Text)>)
    ensures r.Some? ==> ValidName(r.value.0) && |r.value.1| < |t|
  {
    var (before, t1) := SplitWs(t);
    if t1 == [] || t1[0] != QUOTE then None
    else
      match ParseItems(t1[1..])
      case None => None
      case Some((items, t2)) =>
        match ParseColon(t2)
        case None => None
        case Some((beforeColon, afterColon, t3)) => Some((Name(before, items, beforeColon, afterColon), t3))
  }

  function ParseNode(t: Text): (r: Option<(Node, Text)>)
    ensures r.Some? ==> |r.value.1| < |t|
    decreases |t|, 0
  {
    if t == [] then None
    else if t[0] == QUOTE then
      (match ParseItems(t[1..])
       case None => None
       case Some((items, rest)) => Some((StringNode(items), rest)))
    else if t[0] == OPEN_ARRAY then
      var (gap, t1) := SplitWs(t[1..]);
      if t1 != [] && t1[0] == CLOSE_ARRAY then
        Some((ArrayNode(gap, NoElements), t1[1..]))
      else
        (match ParseElements(t[1..])
         case None => None
         case Some((elements, rest)) => Some((ArrayNode([], elements), rest)))
    else if t[0] == OPEN_OBJECT then
      var (gap, t1) := SplitWs(t[1..]);
      if t1 != [] && t1[0] == CLOSE_OBJECT then
        Some((ObjectNode(gap, NoMembers), t1[1..]))
      else
        (match ParseMembers(t[1..])
         case None => None
         case Some((members, rest)) => Some((ObjectNode([], members), rest)))
    else if t[0] == NULL_TEXT[0] then
      (match AfterLiteral(t, NULL_TEXT)
       case None => None
       case Some(rest) => Some((NullNode, rest)))
    else if t[0] == TRUE_TEXT[0] then
      (match AfterLiteral(t, TRUE_TEXT)
       case None => None
       case Some(rest) => Some((TrueNode, rest)))
    else if t[0] == FALSE_TEXT[0] then
      (match AfterLiteral(t, FALSE_TEXT)
       case None => None
       case Some(rest) => Some((FalseNode, rest)))
    else
      match ParseNumber(t)
      case None => None
      case Some((number, rest)) => Some((NumberNode(number), rest))
  }

  /** One or more elements and the closing bracket. */
  function ParseElements(t: Text): (r: Option<(Elements, Text)>)
    ensures r.Some? ==> r.value.0.Element? && |r.value.1| < |t|
    decreases |t|, 1
  {
    var (before, t1) := SplitWs(t);
    match ParseNode(t1)
    case None => None
    case Some((value, t2)) =>
      var (after, t3) := SplitWs(t2);
      if t3 == [] then None
      else if t3[0] == CLOSE_ARRAY then Some((Element(before, value, after, NoElements), t3[1..]))
      else if t3[0] != COMMA then None
      else
        match ParseElements(t3[1..])
        case None => None
        case Some((rest, end)) => Some((Element(before, value, after, rest), end))
  }

  /** One or more members and the closing brace. */
  function ParseMembers(t: Text): (r: Option<(Members, Text)>)
    ensures r.Some? ==> r.value.0.Member? && |r.value.1| < |t|
    decreases |t|, 1
  {
    match ParseName(t)
    case None => None
    case Some((n, t1)) =>
      match ParseNode(t1)
      case None => None
      case Some((value, t2)) =>
        var (after, t3) := SplitWs(t2);
        if t3 == [] then None
        else if t3[0] == CLOSE_OBJECT then
          Some((Member(n.before, n.items, n.beforeColon, n.afterColon, value, after, NoMembers), t3[1..]))
        else if t3[0] != COMMA then None
        else
          match ParseMembers(t3[1..])
          case None => None
          case Some((rest, end)) =>
            Some((Member(n.before, n.items, n.beforeColon, n.afterColon, value, after, rest), end))
  }

  /** JSON.parse, up to the tree: None is its SyntaxError. */
  function ParseDocument(t: Text): (r: Option<Document>)
    ensures r.Some? ==> ValidDocument(r.value) && DocumentText(r.value) == t
  {
    var (before, t1) := SplitWs(t);
    match ParseNode(t1)
    case None => None
    case Some((root, t2)) =>
      NodeSound(t1);
      if AllWs(t2) then Some(Document(before, root, t2)) else None
  }

  // Soundness: what is accepted is a valid tree, and its text is what was consumed.

  lemma {:induction false} NodeSound(t: Text)
    requires ParseNode(t).Some?
    ensures var (n, rest) := ParseNode(t).value; ValidNode(n) && t == NodeText(n, rest)
    decreases |t|, 1
  {
    if t[0] == OPEN_ARRAY {
      ArraySound(t);
    } else if t[0] == OPEN_OBJECT {
      ObjectSound(t);
    }
  }

  lemma NameSound(t: Text)
    requires ParseName(t).Some?
    ensures t == NameText(ParseName(t).value.0, ParseName(t).value.1)
  {
    var t1 := SplitWs(t).1;
    var (items, t2) := ParseItems(t1[1..]).value;
    assert t1 == StringText(items, t2);
  }

  lemma EmptyArraySound(t: Text, gap: Text, t1: Text)
    requires t != [] && t[0] == OPEN_ARRAY && t[1..] == gap + t1 && t1 != [] && t1[0] == CLOSE_ARRAY
    ensures t == NodeText(ArrayNode(gap, NoElements), t1[1..])
  {
    assert t1 == [CLOSE_ARRAY] + t1[1..];
    assert t == [OPEN_ARRAY] + (gap + t1);
  }

  /** What the parser makes of a text that opens an array. */
  lemma ArrayParsed(t: Text)
    requires t != [] && t[0] == OPEN_ARRAY
    ensures var (gap, t1) := SplitWs(t[1..]);
      ParseNode(t) ==
        if t1 != [] && t1[0] == CLOSE_ARRAY then Some((ArrayNode(gap, NoElements), t1[1..]))
        else
          match ParseElements(t[1..])
          case None => None
          case Some((elements, rest)) => Some((ArrayNode([], elements), rest))
  {
    hide SplitWs, ParseMembers, ParseElements, ParseItems, ParseNumber, AfterLiteral;
  }

  lemma NothingValid()
    ensures ValidMembers(NoMembers) && ValidElements(NoElements)
  {
  }

  lemma {:induction false} ArraySound(t: Text)
    requires t != [] && t[0] == OPEN_ARRAY && ParseNode(t).Some?
    ensures var (n, rest) := ParseNode(t).value; ValidNode(n) && t == NodeText(n, rest)
    decreases |t|, 0
  {
    hide ParseNode, ParseElements, SplitWs, ElementsText, ValidElements;
    ArrayParsed(t);
    NothingValid();
    var (gap, t1) := SplitWs(t[1..]);
    if t1 != [] && t1[0] == CLOSE_ARRAY {
      EmptyArraySound(t, gap, t1);
    } else {
      ElementsSound(t[1..]);
      assert t == [OPEN_ARRAY] + ([] + t[1..]);
    }
  }

  lemma EmptyObjectSound(t: Text, gap: Text, t1: Text)
    requires t != [] && t[0] == OPEN_OBJECT && t[1..] == gap + t1 && t1 != [] && t1[0] == CLOSE_OBJECT
    ensures t == NodeText(ObjectNode(gap, NoMembers), t1[1..])
  {
    assert t1 == [CLOSE_OBJECT] + t1[1..];
    assert t == [OPEN_OBJECT] + (gap + t1);
  }

  /** What the parser makes of a text that opens an object. */
  lemma ObjectParsed(t: Text)
    requires t != [] && t[0] == OPEN_OBJECT
    ensures var (gap, t1) := SplitWs(t[1..]);
      ParseNode(t) ==
        if t1 != [] && t1[0] == CLOSE_OBJECT then Some((ObjectNode(gap, NoMembers), t1[1..]))
        else
          match ParseMembers(t[1..])
          case None => None
          case Some((members, rest)) => Some((ObjectNode([], members), rest))
  {
    hide SplitWs, ParseMembers, ParseElements, ParseItems, ParseNumber, AfterLiteral;
  }

  lemma {:induction false} ObjectSound(t: Text)
    requires t != [] && t[0] == OPEN_OBJECT && ParseNode(t).Some?
    ensures var (n, rest) := ParseNode(t).value; ValidNode(n) && t == NodeText(n, rest)
    decreases |t|, 0
  {
    hide ParseNode, ParseMembers, SplitWs, MembersText, ValidMembers;
    ObjectParsed(t);
    NothingValid();
    var (gap, t1) := SplitWs(t[1..]);
    if t1 != [] && t1[0] == CLOSE_OBJECT {
      EmptyObjectSound(t, gap, t1);
    } else {
      MembersSound(t[1..]);
      assert t == [OPEN_OBJECT] + ([] + t[1..]);
    }
  }

  lemma {:induction false} ElementsSound(t: Text)
    requires ParseElements(t).Some?
    ensures var (e, end) := ParseElements(t).value; ValidElements(e) && t == ElementsText(e, [CLOSE_ARRAY] + end)
    decreases |t|, 2
  {
    hide ParseNode, SplitWs, NodeText, ValidNode;
    var (before, t1) := SplitWs(t);
    var (value, t2) := ParseNode(t1).value;
    NodeSound(t1);
    var (after, t3) := SplitWs(t2);
    assert t3 == [t3[0]] + t3[1..];
    if t3[0] == COMMA {
      ElementsSound(t3[1..]);
    }
  }

  lemma {:induction false} MembersSound(t: Text)
    requires ParseMembers(t).Some?
    ensures var (m, end) := ParseMembers(t).value; ValidMembers(m) && t == MembersText(m, [CLOSE_OBJECT] + end)
    decreases |t|, 2
  {
    hide ParseNode, ParseName, SplitWs, NodeText, ValidNode, StringText, ValidItems;
    var (n, t1) := ParseName(t).value;
    var (value, t2) := ParseNode(t1).value;
    NameSound(t);
    NodeSound(t1);
    var (after, t3) := SplitWs(t2);
    assert t3 == [t3[0]] + t3[1..];
    if t3[0] == COMMA {
      MembersSound(t3[1..]);
    }
  }

  // Completeness: the text of every valid tree is accepted, and gives that tree back.

  /** What may stand after a value: the end, whitespace, or the closing of an element or member. */
  predicate Follows(tail: Text) {
    tail == [] || IsWs(tail[0]) || tail[0] == COMMA || tail[0] == CLOSE_ARRAY || tail[0] == CLOSE_OBJECT
  }

  lemma {:induction false} SplitWsOf(ws: Text, tail: Text)
    requires AllWs(ws) && (tail != [] ==> !IsWs(tail[0]))
    ensures SplitWs(ws + tail) == (ws, tail)
  {
    if ws == [] {
      assert ws + tail == tail;
    } else {
      SplitWsOf(ws[1..], tail);
      assert (ws + tail)[1..] == ws[1..] + tail && [ws[0]] + ws[1..] == ws;
    }
  }

  lemma {:induction false} SplitDigitsOf(digits: Text, tail: Text)
    requires AllDigits(digits) && (tail != [] ==> !IsDigit(tail[0]))
    ensures SplitDigits(digits + tail) == (digits, tail)
  {
    if digits == [] {
      assert digits + tail == tail;
    } else {
      SplitDigitsOf(digits[1..], tail);
      assert (digits + tail)[1..] == digits[1..] + tail && [digits[0]] + digits[1..] == digits;
    }
  }

  lemma ItemComplete(item: StringItem, more: Text)
    requires ValidItem(item)
    ensures ParseItem(ItemText(item, more)) == Some((item, more))
    ensures ItemText(item, more) != [] && ItemText(item, more)[0] != QUOTE
  {
  }

  lemma {:induction false} ItemsComplete(items: seq<StringItem>, tail: Text)
    requires ValidItems(items)
    ensures ParseItems(ItemsText(items, [QUOTE] + tail)) == Some((items, tail))
  {
    hide ItemText, ParseItem, ValidItem;
    if items != [] {
      var more := ItemsText(items[1..], [QUOTE] + tail);
      ItemsComplete(items[1..], tail);
      assert ValidItem(items[0]);
      ItemComplete(items[0], more);
      assert items == [items[0]] + items[1..];
    }
  }

  lemma {:induction false} ExponentComplete(e: Exponent, tail: Text)
    requires ValidExponent(e) && Follows(tail)
    ensures ParseExponent(ExponentText(e, tail)) == Some((e, tail))
  {
    hide SplitDigits, AllDigits;
    if e.Exponent? {
      SplitDigitsOf(e.digits, tail) by {
        FollowsNoDigit(tail);
      }
      DigitsStart(e.digits);
      SignDropped(e.mark, e.sign, e.digits + tail);
    }
  }

  lemma FollowsNoDigit(tail: Text)
    requires Follows(tail)
    ensures tail != [] ==> !IsDigit(tail[0])
  {
  }

  lemma DigitsStart(digits: Text)
    requires digits != [] && AllDigits(digits)
    ensures digits[0] != PLUS && digits[0] != MINUS
  {
  }

  lemma SignDropped(mark: CodeUnit, sign: Text, rest: Text)
    requires |sign| <= 1
    ensures var t := [mark] + (sign + rest);
      t[0] == mark && t[1 + |sign|..] == rest && (sign != [] ==> |t| > 1 && t[1] == sign[0]) && (sign == [] && rest != [] ==> t[1] == rest[0])
  {
  }

  lemma {:induction false} FractionComplete(fraction: Text, e: Exponent, tail: Text)
    requires AllDigits(fraction) && ValidExponent(e) && Follows(tail)
    ensures var t2 := ExponentText(e, tail); ParseFraction(FractionText(fraction, t2)) == Some((fraction, t2))
  {
    hide SplitDigits, AllDigits, IsDigit;
    var t2 := ExponentText(e, tail);
    ExponentStart(e, tail);
    SplitDigitsOf(fraction, t2);
    assert fraction != [] ==> ([DOT] + (fraction + t2))[1..] == fraction + t2;
    assert [] + t2 == t2;
    hide ExponentText;
  }

  lemma ExponentStart(e: Exponent, tail: Text)
    requires ValidExponent(e) && Follows(tail)
    ensures var t := ExponentText(e, tail); t != [] ==> !IsDigit(t[0]) && t[0] != DOT
  {
  }

  lemma FractionStart(fraction: Text, e: Exponent, tail: Text)
    requires ValidExponent(e) && Follows(tail)
    ensures var t1 := FractionText(fraction, ExponentText(e, tail)); t1 != [] ==> !IsDigit(t1[0])
  {
  }

  lemma {:induction false} NumberComplete(n: Number, tail: Text)
    requires ValidNumber(n) && Follows(tail)
    ensures ParseNumber(NumberText(n, tail)) == Some((n, tail))
    ensures var c := NumberText(n, tail)[0]; c == MINUS || IsDigit(c)
  {
    hide ExponentText, FractionText, ParseExponent, ParseFraction, SplitDigits;
    var t2 := ExponentText(n.exponent, tail);
    ExponentComplete(n.exponent, tail);
    FractionComplete(n.fraction, n.exponent, tail);
    var t1 := FractionText(n.fraction, t2);
    FractionStart(n.fraction, n.exponent, tail);
    SplitDigitsOf(n.whole, t1);
    assert ParseUnsigned(n.whole + t1, n.minus) == Some((n, tail));
    assert ([MINUS] + (n.whole + t1))[1..] == n.whole + t1 == [] + (n.whole + t1);
  }

  lemma LiteralComplete(n: Node, tail: Text)
    requires n.NullNode? || n.TrueNode? || n.FalseNode?
    ensures ParseNode(NodeText(n, tail)) == Some((n, tail))
  {
    var literal := if n.NullNode? then NULL_TEXT else if n.TrueNode? then TRUE_TEXT else FALSE_TEXT;
    assert (literal + tail)[|literal|..] == tail;
  }

  lemma NodeStart(n: Node, tail: Text)
    requires ValidNode(n)
    ensures var t := NodeText(n, tail);
      t != [] && !IsWs(t[0]) && t[0] != CLOSE_ARRAY
  {
  }

  lemma NumberNodeComplete(number: Number, tail: Text)
    requires ValidNumber(number) && Follows(tail)
    ensures ParseNode(NodeText(NumberNode(number), tail)) == Some((NumberNode(number), tail))
  {
    NumberComplete(number, tail);
    var t := NumberText(number, tail);
    assert t[0] != QUOTE && t[0] != OPEN_ARRAY && t[0] != OPEN_OBJECT && t[0] < 0x60;
  }

  lemma StringComplete(items: seq<StringItem>, tail: Text)
    requires ValidItems(items)
    ensures ParseNode(NodeText(StringNode(items), tail)) == Some((StringNode(items), tail))
  {
    ItemsComplete(items, tail);
    assert StringText(items, tail)[1..] == ItemsText(items, [QUOTE] + tail);
  }

  lemma {:induction false} NodeComplete(n: Node, tail: Text)
    requires ValidNode(n) && Follows(tail)
    ensures ParseNode(NodeText(n, tail)) == Some((n, tail))
    decreases n, 1
  {
    match n
    case NumberNode(number) =>
      NumberNodeComplete(number, tail);
    case StringNode(items) =>
      StringComplete(items, tail);
    case ArrayNode(gap, elements) =>
      ArrayComplete(n, tail);
    case ObjectNode(gap, members) =>
      ObjectComplete(n, tail);
    case _ =>
      LiteralComplete(n, tail);
  }

  lemma {:induction false} ArrayComplete(n: Node, tail: Text)
    requires n.ArrayNode? && ValidNode(n)
    ensures ParseNode(NodeText(n, tail)) == Some((n, tail))
    decreases n, 0
  {
    hide ParseNode, ParseElements, ValidElements;
    var t := NodeText(n, tail);
    var inner := ElementsText(n.elements, [CLOSE_ARRAY] + tail);
    ArrayParsed(t);
    assert t[1..] == n.gap + inner;
    if n.elements.NoElements? {
      SplitWsOf(n.gap, inner);
    } else {
      assert n.gap + inner == inner;
      ElementsComplete(n.elements, tail);
      ElementsStart(n.elements, [CLOSE_ARRAY] + tail);
    }
  }

  /** The first unit of an element list, past its whitespace, does not close the array. */
  lemma {:induction false} ElementsStart(e: Elements, tail: Text)
    requires e.Element? && ValidElements(e)
    ensures var t1 := SplitWs(ElementsText(e, tail)).1; t1 != [] && t1[0] != CLOSE_ARRAY
  {
    var after := e.after + (if e.rest.NoElements? then tail else [COMMA] + ElementsText(e.rest, tail));
    NodeStart(e.value, after);
    SplitWsOf(e.before, NodeText(e.value, after));
  }

  lemma {:induction false} ElementsComplete(e: Elements, tail: Text)
    requires e.Element? && ValidElements(e)
    ensures ParseElements(ElementsText(e, [CLOSE_ARRAY] + tail)) == Some((e, tail))
    decreases e, 1
  {
    var t3 := if e.rest.NoElements? then [CLOSE_ARRAY] + tail else [COMMA] + ElementsText(e.rest, [CLOSE_ARRAY] + tail);
    NodeStart(e.value, e.after + t3);
    SplitWsOf(e.before, NodeText(e.value, e.after + t3));
    NodeComplete(e.value, e.after + t3);
    SplitWsOf(e.after, t3);
    if e.rest.Element? {
      ElementsComplete(e.rest, tail);
      assert t3[1..] == ElementsText(e.rest, [CLOSE_ARRAY] + tail);
    }
  }

  lemma EmptyObjectComplete(gap: Text, tail: Text)
    requires AllWs(gap)
    ensures var n := ObjectNode(gap, NoMembers); ParseNode(NodeText(n, tail)) == Some((n, tail))
  {
    var inner := [CLOSE_OBJECT] + tail;
    assert ([OPEN_OBJECT] + (gap + inner))[1..] == gap + inner;
    SplitWsOf(gap, inner);
  }

  lemma {:induction false} ObjectComplete(n: Node, tail: Text)
    requires n.ObjectNode? && ValidNode(n)
    ensures ParseNode(NodeText(n, tail)) == Some((n, tail))
    decreases n, 0
  {
    hide MembersText, ParseMembers, ParseNode, SplitWs, ValidMembers;
    ObjectParsed(NodeText(n, tail));
    if n.members.NoMembers? {
      EmptyObjectComplete(n.gap, tail);
    } else {
      var inner := MembersText(n.members, [CLOSE_OBJECT] + tail);
      assert NodeText(n, tail)[1..] == [] + inner == inner;
      MembersComplete(n.members, tail);
      MembersStart(n.members, [CLOSE_OBJECT] + tail);
    }
  }

  lemma {:induction false} NameComplete(n: Name, tail: Text)
    requires ValidName(n) && (tail != [] ==> !IsWs(tail[0]))
    ensures ParseName(NameText(n, tail)) == Some((n, tail))
    ensures var t1 := SplitWs(NameText(n, tail)).1; t1 != [] && t1[0] == QUOTE
  {
    var t4 := n.afterColon + tail;
    var t2 := n.beforeColon + ([COLON] + t4);
    SplitWsOf(n.afterColon, tail);
    SplitWsOf(n.beforeColon, [COLON] + t4);
    ItemsComplete(n.items, t2);
    SplitWsOf(n.before, StringText(n.items, t2));
    assert StringText(n.items, t2)[1..] == ItemsText(n.items, [QUOTE] + t2);
  }

  function MemberName(m: Members): Name
    requires m.Member?
  {
    Name(m.before, m.name, m.beforeColon, m.afterColon)
  }

  lemma {:induction false} MembersStart(m: Members, tail: Text)
    requires m.Member? && ValidMembers(m)
    ensures var t1 := SplitWs(MembersText(m, tail)).1; t1 != [] && t1[0] == QUOTE
  {
    var after := m.after + (if m.rest.NoMembers? then tail else [COMMA] + MembersText(m.rest, tail));
    NodeStart(m.value, after);
    NameComplete(MemberName(m), NodeText(m.value, after));
  }

  lemma {:induction false} MembersComplete(m: Members, tail: Text)
    requires m.Member? && ValidMembers(m)
    ensures ParseMembers(MembersText(m, [CLOSE_OBJECT] + tail)) == Some((m, tail))
    decreases m, 1
  {
    hide ParseNode, ParseName, SplitWs, NodeText, ValidNode, ValidItems;
    var t3 := if m.rest.NoMembers? then [CLOSE_OBJECT] + tail else [COMMA] + MembersText(m.rest, [CLOSE_OBJECT] + tail);
    NodeStart(m.value, m.after + t3);
    NameComplete(MemberName(m), NodeText(m.value, m.after + t3));
    NodeComplete(m.value, m.after + t3);
    SplitWsOf(m.after, t3);
    if m.rest.Member? {
      MembersComplete(m.rest, tail);
      assert t3[1..] == MembersText(m.rest, [CLOSE_OBJECT] + tail);
    }
  }

  lemma {:induction false} DocumentComplete(d: Document)
    requires ValidDocument(d)
    ensures ParseDocument(DocumentText(d)) == Some(d)
  {
    NodeStart(d.root, d.after);
    SplitWsOf(d.before, NodeText(d.root, d.after));
    NodeComplete(d.root, d.after);
  }

  /** The parser accepts exactly the texts of the grammar. */
  lemma ParseExactlyJson(t: Text)
    ensures ParseDocument(t).Some? <==> IsJson(t)
  {
    if IsJson(t) {
      var d :| ValidDocument(d) && DocumentText(d) == t;
      DocumentComplete(d);
    }
  }

  /** The grammar is unambiguous: a text has at most one tree. */
  lemma Unambiguous(d: Document, e: Document)
    requires ValidDocument(d) && ValidDocument(e) && DocumentText(d) == DocumentText(e)
    ensures d == e
  {
    DocumentComplete(d);
    DocumentComplete(e);
  }
}
