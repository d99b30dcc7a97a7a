/** Splitting a text at its line feeds. */
module Lines {
  import opened UnicodeText

  /** text.split("\n") */
  function Split(t: Text): (pieces: seq<Text>)
    ensures pieces != []
  {
    if t == [] then [[]]
    else if t[0] == LINE_FEED then [[]] + Split(t[1..])
    else
      var rest := Split(t[1..]);
      [[t[0]] + rest[0]] + rest[1..]
  }

  /** The lines that a line feed has ended. */
  function CompleteLines(t: Text): seq<Text> {
    Split(t)[..|Split(t)| - 1]
  }

  /** What stands after the last line feed. */
  function Partial(t: Text): Text {
    Split(t)[|Split(t)| - 1]
  }

  predicate OneLine(t: Text) { LINE_FEED !in t }

  lemma {:induction false} SplitPlain(t: Text)
    requires OneLine(t)
    ensures Split(t) == [t]
  {
    if t != [] {
      SplitPlain(t[1..]);
      assert t == [t[0]] + t[1..];
    }
  }

  /** Two lists of pieces of texts that stand next to each other. */
  function Join(x: seq<Text>, y: seq<Text>): seq<Text>
    requires x != [] && y != []
  {
    x[..|x| - 1] + [x[|x| - 1] + y[0]] + y[1..]
  }

  lemma JoinFront(c: CodeUnit, x: seq<Text>, y: seq<Text>)
    requires x != [] && y != []
    ensures Join([[]] + x, y) == [[]] + Join(x, y)
    ensures Join([[c] + x[0]] + x[1..], y) == [[c] + Join(x, y)[0]] + Join(x, y)[1..]
  {
    if |x| == 1 {
      assert [c] + (x[0] + y[0]) == [c] + x[0] + y[0];
      assert Join(x, y) == [x[0] + y[0]] + y[1..];
      assert Join([[c] + x[0]] + x[1..], y) == [[c] + x[0] + y[0]] + y[1..];
    }
  }

  /** Splitting what is read in two parts: the piece that the cut runs through is joined again. */
  lemma {:induction false} SplitAppend(a: Text, b: Text)
    ensures Split(a + b) == Join(Split(a), Split(b))
  {
    if a == [] {
      assert a + b == b;
      var pieces := Split(b);
      assert [] + pieces[0] == pieces[0];
      assert Join([[]], pieces) == [pieces[0]] + pieces[1..] == pieces;
    } else {
      assert (a + b)[1..] == a[1..] + b;
      SplitAppend(a[1..], b);
      JoinFront(a[0], Split(a[1..]), Split(b));
      hide Join;
    }
  }

  lemma AppendPlain(a: Text, b: Text)
    requires OneLine(b)
    ensures CompleteLines(a + b) == CompleteLines(a) && Partial(a + b) == Partial(a) + b
  {
    SplitPlain(b);
    SplitAppend(a, b);
    assert [b][1..] == [];
  }

  lemma AppendLine(a: Text, b: Text)
    requires OneLine(b)
    ensures CompleteLines(a + b + [LINE_FEED]) == CompleteLines(a) + [Partial(a) + b] && Partial(a + b + [LINE_FEED]) == []
  {
    AppendPlain(a, b);
    SplitAppend(a + b, [LINE_FEED]);
    assert Split([LINE_FEED]) == [[], []];
    assert Partial(a + b) + [] == Partial(a + b);
  }

  /** A text with nothing after its last line feed is empty or ends with one, and its lines are those before that. */
  lemma {:induction false} NothingPartial(t: Text)
    ensures Partial(t) == [] <==> t == [] || t[|t| - 1] == LINE_FEED
    ensures t != [] && t[|t| - 1] == LINE_FEED ==> Split(t[..|t| - 1]) == CompleteLines(t)
  {
    if t != [] {
      var last := t[|t| - 1];
      assert t == t[..|t| - 1] + [last];
      if last == LINE_FEED {
        AppendLine(t[..|t| - 1], []);
        assert t[..|t| - 1] + [] + [LINE_FEED] == t;
        assert Partial(t[..|t| - 1]) + [] == Partial(t[..|t| - 1]);
      } else {
        AppendPlain(t[..|t| - 1], [last]);
      }
    }
  }

  /** Reading only the front of a text gives the front of its lines. */
  lemma PrefixLines(t: Text, k: nat)
    requires k <= |t|
    ensures CompleteLines(t[..k]) <= CompleteLines(t)
  {
    SplitAppend(t[..k], t[k..]);
    assert t[..k] + t[k..] == t;
  }

  /** The pieces of a text determine it. */
  lemma {:induction false} SplitInjective(a: Text, b: Text)
    requires Split(a) == Split(b)
    ensures a == b
  {
    NoPieces(a);
    NoPieces(b);
    if a != [] && b != [] {
      FirstPiece(a);
      FirstPiece(b);
      assert a[0] == b[0];
      SplitInjective(a[1..], b[1..]);
      assert a == [a[0]] + a[1..] && b == [b[0]] + b[1..];
    }
  }

  lemma NoPieces(t: Text)
    ensures Split(t) == [[]] <==> t == []
  {
    if t != [] {
      FirstPiece(t);
    }
  }

  /** The first piece tells the first unit, and with it the pieces of the rest. */
  lemma FirstPiece(t: Text)
    requires t != []
    ensures t[0] == LINE_FEED <==> Split(t)[0] == []
    ensures t[0] == LINE_FEED ==> Split(t[1..]) == Split(t)[1..]
    ensures t[0] != LINE_FEED ==> t[0] == Split(t)[0][0] && Split(t[1..]) == [Split(t)[0][1..]] + Split(t)[1..]
  {
  }

  /** Texts with the same lines and nothing after them are the same. */
  lemma SameLines(a: Text, b: Text)
    requires CompleteLines(a) == CompleteLines(b) && Partial(a) == Partial(b)
    ensures a == b
  {
    assert Split(a) == CompleteLines(a) + [Partial(a)] && Split(b) == CompleteLines(b) + [Partial(b)];
    SplitInjective(a, b);
  }
}
