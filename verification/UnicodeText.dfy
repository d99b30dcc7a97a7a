/** Text as JavaScript sees it: a sequence of UTF-16 code units, unpaired surrogates included. */
module UnicodeText {
  type CodeUnit = c: int | 0 <= c < 0x1_0000
  type Text = seq<CodeUnit>

  const TAB: CodeUnit := 0x09
  const LINE_FEED: CodeUnit := 0x0A
  const CARRIAGE_RETURN: CodeUnit := 0x0D
  const SPACE: CodeUnit := 0x20
  const QUOTE: CodeUnit := 0x22
  const PLUS: CodeUnit := 0x2B
  const COMMA: CodeUnit := 0x2C
  const MINUS: CodeUnit := 0x2D
  const DOT: CodeUnit := 0x2E
  const DIGIT_ZERO: CodeUnit := 0x30
  const DIGIT_NINE: CodeUnit := 0x39
  const COLON: CodeUnit := 0x3A
  const OPEN_ARRAY: CodeUnit := 0x5B
  const BACKSLASH: CodeUnit := 0x5C
  const CLOSE_ARRAY: CodeUnit := 0x5D
  const LOWER_U: CodeUnit := 0x75
  const OPEN_OBJECT: CodeUnit := 0x7B
  const CLOSE_OBJECT: CodeUnit := 0x7D

  predicate IsHigh(c: CodeUnit) { 0xD800 <= c < 0xDC00 }

  predicate IsLow(c: CodeUnit) { 0xDC00 <= c < 0xE000 }

  /** The UTF-8 length of a text; an unpaired surrogate is written as U+FFFD, three bytes. */
  function Utf8Length(t: Text): nat {
    if t == [] then 0
    else if t[0] < 0x80 then 1 + Utf8Length(t[1..])
    else if t[0] < 0x800 then 2 + Utf8Length(t[1..])
    else if IsHigh(t[0]) && |t| > 1 && IsLow(t[1]) then 4 + Utf8Length(t[2..])
    else 3 + Utf8Length(t[1..])
  }

  lemma {:induction false} Utf8LengthBound(t: Text)
    ensures Utf8Length(t) <= 3 * |t|
  {
    if t != [] {
      if IsHigh(t[0]) && |t| > 1 && IsLow(t[1]) {
        Utf8LengthBound(t[2..]);
      } else {
        Utf8LengthBound(t[1..]);
      }
    }
  }

  /** Joining can only pair two surrogates, and cutting can only part them. */
  lemma {:induction false} Utf8LengthJoined(a: Text, b: Text)
    ensures Utf8Length(a) <= Utf8Length(a + b) <= Utf8Length(a) + Utf8Length(b)
  {
    var all := a + b;
    if a == [] {
      assert all == b;
    } else {
      var w := if IsHigh(a[0]) && |a| > 1 && IsLow(a[1]) then 2 else 1;
      Utf8LengthJoined(a[w..], b);
      assert all[w..] == a[w..] + b;
      if |a| == 1 && b != [] && IsHigh(a[0]) && IsLow(b[0]) {
        assert all[2..] == b[1..];
      }
    }
  }

  /** A text of characters below U+0080. */
  function Plain(s: string): (t: Text)
    requires forall k :: 0 <= k < |s| ==> s[k] < '\U{80}'
    ensures |t| == |s| && forall k :: 0 <= k < |s| ==> t[k] == s[k] as int
  {
    seq(|s|, k requires 0 <= k < |s| => s[k] as int)
  }

  /** The class \s of a JavaScript regular expression, which is also what trim takes off. */
  predicate IsSpace(c: CodeUnit) {
    || 0x09 <= c <= 0x0D || c == 0x20 || c == 0xA0 || c == 0x1680 || 0x2000 <= c <= 0x200A
    || c == 0x2028 || c == 0x2029 || c == 0x202F || c == 0x205F || c == 0x3000 || c == 0xFEFF
  }

  predicate AllSpace(t: Text) {
    forall k :: 0 <= k < |t| ==> IsSpace(t[k])
  }

  function SkipSpace(t: Text): Text {
    if t != [] && IsSpace(t[0]) then SkipSpace(t[1..]) else t
  }

  function SkipSpaceBack(t: Text): Text {
    if t != [] && IsSpace(t[|t| - 1]) then SkipSpaceBack(t[..|t| - 1]) else t
  }

  /** t.trim() */
  function Trim(t: Text): Text { SkipSpaceBack(SkipSpace(t)) }

  /** No space at either end. */
  predicate Trimmed(t: Text) {
    t != [] ==> !IsSpace(t[0]) && !IsSpace(t[|t| - 1])
  }

  lemma {:induction false} SkipSpaceIs(front: Text, t: Text)
    requires AllSpace(front) && Trimmed(t) && t != []
    ensures forall back :: SkipSpace(front + t + back) == t + back
  {
    hide IsSpace;
    forall back: Text ensures SkipSpace(front + t + back) == t + back {
      if front == [] {
        assert front + t + back == t + back;
      } else {
        SkipSpaceIs(front[1..], t);
        assert (front + t + back)[1..] == front[1..] + t + back;
      }
    }
  }

  lemma {:induction false} SkipSpaceBackIs(t: Text, back: Text)
    requires AllSpace(back) && Trimmed(t)
    ensures SkipSpaceBack(t + back) == t
  {
    hide IsSpace;
    if back == [] {
      assert t + back == t;
    } else {
      SkipSpaceBackIs(t, back[..|back| - 1]);
      assert (t + back)[..|t + back| - 1] == t + back[..|back| - 1];
    }
  }

  lemma {:induction false} SkipSpaceAll(t: Text)
    requires AllSpace(t)
    ensures SkipSpace(t) == []
  {
    hide IsSpace;
    if t != [] {
      SkipSpaceAll(t[1..]);
    }
  }

  /** Trimming takes off all the space around a text, and nothing else. */
  lemma TrimIs(front: Text, t: Text, back: Text)
    requires AllSpace(front) && Trimmed(t) && AllSpace(back)
    ensures Trim(front + t + back) == t
  {
    if t == [] {
      SkipSpaceAll(front + t + back);
    } else {
      SkipSpaceIs(front, t);
      SkipSpaceBackIs(t, back);
    }
  }

  lemma {:induction false} SkipSpaceLeaves(t: Text) returns (front: Text)
    ensures AllSpace(front) && t == front + SkipSpace(t)
    ensures SkipSpace(t) != [] ==> !IsSpace(SkipSpace(t)[0])
  {
    hide IsSpace;
    front := [];
    if t != [] && IsSpace(t[0]) {
      var rest := SkipSpaceLeaves(t[1..]);
      front := [t[0]] + rest;
    }
  }

  lemma {:induction false} SkipSpaceBackLeaves(t: Text) returns (back: Text)
    ensures AllSpace(back) && t == SkipSpaceBack(t) + back
    ensures SkipSpaceBack(t) != [] ==> !IsSpace(SkipSpaceBack(t)[|SkipSpaceBack(t)| - 1])
  {
    hide IsSpace;
    back := [];
    if t != [] && IsSpace(t[|t| - 1]) {
      var rest := SkipSpaceBackLeaves(t[..|t| - 1]);
      back := rest + [t[|t| - 1]];
    }
  }

  /** What trimming leaves has no space at its ends, and only space was around it. */
  lemma TrimLeaves(t: Text) returns (front: Text, back: Text)
    ensures AllSpace(front) && Trimmed(Trim(t)) && AllSpace(back) && t == front + Trim(t) + back
  {
    hide IsSpace;
    front := SkipSpaceLeaves(t);
    back := SkipSpaceBackLeaves(SkipSpace(t));
  }
}
