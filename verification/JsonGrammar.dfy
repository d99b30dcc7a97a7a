/** The JSON grammar of RFC 8259 as syntax trees, and what a tree's text and value are. */
module JsonGrammar {
  import opened UnicodeText

  // Section 2: insignificant whitespace.
  predicate IsWs(c: CodeUnit) {
    c == SPACE || c == TAB || c == LINE_FEED || c == CARRIAGE_RETURN
  }

  predicate AllWs(t: Text) {
    forall k :: 0 <= k < |t| ==> IsWs(t[k])
  }

  predicate IsDigit(c: CodeUnit) { DIGIT_ZERO <= c <= DIGIT_NINE }

  predicate AllDigits(t: Text) {
    forall k :: 0 <= k < |t| ==> IsDigit(t[k])
  }

  // Section 7: strings.
  datatype StringItem =
    | Plain(unit: CodeUnit)
    | Escape(letter: CodeUnit)
    | Hex(h0: CodeUnit, h1: CodeUnit, h2: CodeUnit, h3: CodeUnit)

  predicate IsEscapeLetter(c: CodeUnit) {
    c == QUOTE || c == BACKSLASH || c == 0x2F || c == 0x62 || c == 0x66 || c == 0x6E || c == 0x72 || c == 0x74
  }

  function EscapedUnit(letter: CodeUnit): CodeUnit {
    if letter == 0x62 then 0x08
    else if letter == 0x66 then 0x0C
    else if letter == 0x6E then 0x0A
    else if letter == 0x72 then 0x0D
    else if letter == 0x74 then 0x09
    else letter
  }

  predicate IsHexDigit(c: CodeUnit) {
    IsDigit(c) || 0x41 <= c <= 0x46 || 0x61 <= c <= 0x66
  }

  function HexValue(c: CodeUnit): (v: nat)
    requires IsHexDigit(c)
    ensures v < 16
  {
    if IsDigit(c) then c - DIGIT_ZERO else if c <= 0x46 then c - 0x41 + 10 else c - 0x61 + 10
  }

  predicate IsPlain(c: CodeUnit) { c >= SPACE && c != QUOTE && c != BACKSLASH }

  predicate ValidItem(item: StringItem) {
    match item
    case Plain(c) => IsPlain(c)
    case Escape(letter) => IsEscapeLetter(letter)
    case Hex(h0, h1, h2, h3) => IsHexDigit(h0) && IsHexDigit(h1) && IsHexDigit(h2) && IsHexDigit(h3)
  }

  predicate ValidItems(items: seq<StringItem>) {
    forall k :: 0 <= k < |items| ==> ValidItem(items[k])
  }

  /** The text of an item, followed by `tail`. Every text function below takes a tail in this way. */
  function ItemText(item: StringItem, tail: Text): Text {
    match item
    case Plain(c) => [c] + tail
    case Escape(letter) => [BACKSLASH, letter] + tail
    case Hex(h0, h1, h2, h3) => [BACKSLASH, LOWER_U, h0, h1, h2, h3] + tail
  }

  function ItemValue(item: StringItem): CodeUnit
    requires ValidItem(item)
  {
    match item
    case Plain(c) => c
    case Escape(letter) => EscapedUnit(letter)
    case Hex(h0, h1, h2, h3) => HexValue(h0) * 0x1000 + HexValue(h1) * 0x100 + HexValue(h2) * 0x10 + HexValue(h3)
  }

  function ItemsText(items: seq<StringItem>, tail: Text): Text {
    if items == [] then tail else ItemText(items[0], ItemsText(items[1..], tail))
  }

  function ItemsValue(items: seq<StringItem>): Text
    requires ValidItems(items)
  {
    if items == [] then [] else [ItemValue(items[0])] + ItemsValue(items[1..])
  }

  function StringText(items: seq<StringItem>, tail: Text): Text {
    [QUOTE] + ItemsText(items, [QUOTE] + tail)
  }

  // Section 6: numbers. An empty fraction means that there is none.
  datatype Exponent = NoExponent | Exponent(mark: CodeUnit, sign: Text, digits: Text)
  datatype Number = Number(minus: bool, whole: Text, fraction: Text, exponent: Exponent)

  predicate ValidExponent(e: Exponent) {
    match e
    case NoExponent => true
    case Exponent(mark, sign, digits) =>
      && (mark == 0x65 || mark == 0x45)
      && (sign == [] || sign == [PLUS] || sign == [MINUS])
      && digits != [] && AllDigits(digits)
  }

  predicate ValidNumber(n: Number) {
    && n.whole != [] && AllDigits(n.whole)
    && (n.whole[0] == DIGIT_ZERO ==> |n.whole| == 1)
    && AllDigits(n.fraction)
    && ValidExponent(n.exponent)
  }

  function ExponentText(e: Exponent, tail: Text): Text {
    match e
    case NoExponent => tail
    case Exponent(mark, sign, digits) => [mark] + (sign + (digits + tail))
  }

  function FractionText(fraction: Text, tail: Text): Text {
    if fraction == [] then tail else [DOT] + (fraction + tail)
  }

  function NumberText(n: Number, tail: Text): Text {
    (if n.minus then [MINUS] else []) + (n.whole + FractionText(n.fraction, ExponentText(n.exponent, tail)))
  }

  // Sections 3 to 5: values, objects and arrays. Whitespace is kept, so that a tree has one text.
  datatype Node =
    | NullNode
    | TrueNode
    | FalseNode
    | NumberNode(number: Number)
    | StringNode(items: seq<StringItem>)
    | ArrayNode(gap: Text, elements: Elements)
    | ObjectNode(gap: Text, members: Members)

  datatype Elements = NoElements | Element(before: Text, value: Node, after: Text, rest: Elements)

  datatype Members =
    | NoMembers
    | Member(before: Text, name: seq<StringItem>, beforeColon: Text, afterColon: Text, value: Node, after: Text, rest: Members)

  datatype Document = Document(before: Text, root: Node, after: Text)

  const NULL_TEXT: Text := [0x6E, 0x75, 0x6C, 0x6C]
  const TRUE_TEXT: Text := [0x74, 0x72, 0x75, 0x65]
  const FALSE_TEXT: Text := [0x66, 0x61, 0x6C, 0x73, 0x65]

  predicate ValidNode(n: Node) {
    match n
    case NumberNode(number) => ValidNumber(number)
    case StringNode(items) => ValidItems(items)
    case ArrayNode(gap, elements) => AllWs(gap) && (elements.Element? ==> gap == []) && ValidElements(elements)
    case ObjectNode(gap, members) => AllWs(gap) && (members.Member? ==> gap == []) && ValidMembers(members)
    case _ => true
  }

  predicate ValidElements(e: Elements) {
    match e
    case NoElements => true
    case Element(before, value, after, rest) => AllWs(before) && ValidNode(value) && AllWs(after) && ValidElements(rest)
  }

  predicate ValidMembers(m: Members) {
    match m
    case NoMembers => true
    case Member(before, name, beforeColon, afterColon, value, after, rest) =>
      && AllWs(before) && ValidItems(name) && AllWs(beforeColon) && AllWs(afterColon)
      && ValidNode(value) && AllWs(after) && ValidMembers(rest)
  }

  predicate ValidDocument(d: Document) {
    AllWs(d.before) && ValidNode(d.root) && AllWs(d.after)
  }

  function NodeText(n: Node, tail: Text): Text {
    match n
    case NullNode => NULL_TEXT + tail
    case TrueNode => TRUE_TEXT + tail
    case FalseNode => FALSE_TEXT + tail
    case NumberNode(number) => NumberText(number, tail)
    case StringNode(items) => StringText(items, tail)
    case ArrayNode(gap, elements) => [OPEN_ARRAY] + (gap + ElementsText(elements, [CLOSE_ARRAY] + tail))
    case ObjectNode(gap, members) => [OPEN_OBJECT] + (gap + MembersText(members, [CLOSE_OBJECT] + tail))
  }

  function ElementsText(e: Elements, tail: Text): Text
  {
    match e
    case NoElements => tail
    case Element(before, value, after, rest) => before + NodeText(value, after + (if rest.NoElements? then tail else [COMMA] + ElementsText(rest, tail)))
  }

  function MembersText(m: Members, tail: Text): Text
  {
    match m
    case NoMembers => tail
    case Member(before, name, beforeColon, afterColon, value, after, rest) =>
      before + StringText(name, beforeColon + ([COLON] + (afterColon + NodeText(value, after + (if rest.NoMembers? then tail else [COMMA] + MembersText(rest, tail))))))
  }

  function DocumentText(d: Document): Text {
    d.before + NodeText(d.root, d.after)
  }

  ghost predicate IsJson(t: Text) {
    exists d :: ValidDocument(d) && DocumentText(d) == t
  }

  // The value a tree stands for. A number keeps its lexeme; members keep their order.
  datatype Value =
    | Null
    | Bool(b: bool)
    | Num(number: Number)
    | Str(text: Text)
    | Arr(elements: seq<Value>)
    | Obj(members: seq<Property>)

  datatype Property = Property(name: Text, value: Value)

  function NodeValue(n: Node): Value
    requires ValidNode(n)
  {
    match n
    case NullNode => Null
    case TrueNode => Bool(true)
    case FalseNode => Bool(false)
    case NumberNode(number) => Num(number)
    case StringNode(items) => Str(ItemsValue(items))
    case ArrayNode(_, elements) => Arr(ElementValues(elements))
    case ObjectNode(_, members) => Obj(MemberValues(members))
  }

  function ElementValues(e: Elements): seq<Value>
    requires ValidElements(e)
  {
    match e
    case NoElements => []
    case Element(_, value, _, rest) => [NodeValue(value)] + ElementValues(rest)
  }

  function MemberValues(m: Members): seq<Property>
    requires ValidMembers(m)
  {
    match m
    case NoMembers => []
    case Member(_, name, _, _, value, _, rest) => [Property(ItemsValue(name), NodeValue(value))] + MemberValues(rest)
  }
}
