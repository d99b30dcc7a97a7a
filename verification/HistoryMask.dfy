/**
 Masking pinned spans of published commit messages (scripts/verify-history.ts). Commit records arrive as NUL-separated
 frames; a pinned message must still hash as pinned before its listed spans are replaced, and everything else passes
 through unchanged.
 */
module HistoryMask {
  import opened Wrappers
  import opened Bytes
  import opened Sequences
  import Sorting
  import Intervals

  const RECORD_LIMIT := 64 * 1024 * 1024
  const NUL: Byte := 0
  const NEWLINE: Byte := 10
  const MASK: Bytes := Ascii("[historical-policy-exception]")

  datatype Code = Empty | Limit | Framing | Digest | Offset | Missing | Duplicate | NonAncestor | ReplacedObject

  ghost predicate Hex(b: Bytes, length: nat) {
    |b| == length && forall k :: 0 <= k < length ==> 0x30 <= b[k] <= 0x39 || 0x61 <= b[k] <= 0x66
  }

  method IsHex(b: Bytes, length: nat) returns (ok: bool)
    ensures ok <==> Hex(b, length)
  {
    if |b| != length {
      return false;
    }
    for k := 0 to length
      invariant forall j :: 0 <= j < k ==> 0x30 <= b[j] <= 0x39 || 0x61 <= b[j] <= 0x66
    {
      if b[k] < 0x30 || (0x39 < b[k] && b[k] < 0x61) || 0x66 < b[k] {
        return false;
      }
    }
    return true;
  }

  ghost predicate NulFree(b: Bytes) {
    forall k :: 0 <= k < |b| ==> b[k] != NUL
  }

  // Frames.

  datatype Record = Record(sha: Bytes, message: Bytes)

  ghost function Frame(r: Record): Bytes {
    r.sha + [NUL] + r.message + [NUL]
  }

  ghost function Frames(rs: seq<Record>): Bytes {
    if rs == [] then [] else Frame(rs[0]) + Frames(rs[1..])
  }

  ghost predicate RecordFits(r: Record) {
    Hex(r.sha, 40) && NulFree(r.message)
  }

  ghost predicate WellFormed(rs: seq<Record>) {
    && (forall k :: 0 <= k < |rs| ==> RecordFits(rs[k]))
    && (forall i, j :: 0 <= i < j < |rs| ==> rs[i].sha != rs[j].sha)
  }

  /** `rs` written out is `buf`. */
  ghost predicate Framed(buf: Bytes, rs: seq<Record>) {
    rs != [] && WellFormed(rs) && Frames(rs) == buf
  }

  function IndexOf(b: Bytes, x: Byte, from: nat): (k: int)
    requires from <= |b|
    ensures k == -1 ==> forall i :: from <= i < |b| ==> b[i] != x
    ensures k != -1 ==> from <= k < |b| && b[k] == x && forall i :: from <= i < k ==> b[i] != x
    decreases |b| - from
  {
    if from == |b| then -1 else if b[from] == x then from else IndexOf(b, x, from + 1)
  }

  lemma {:induction false} FramesAppend(rs: seq<Record>, r: Record)
    ensures Frames(rs + [r]) == Frames(rs) + Frame(r)
  {
    if rs == [] {
      assert [r][1..] == [];
    } else {
      assert (rs + [r])[1..] == rs[1..] + [r];
      FramesAppend(rs[1..], r);
    }
  }

  /** A frame can be cut out of a text in one way only. */
  lemma FrameCut(text: Bytes, r: Record, tail: Bytes)
    requires RecordFits(r) && text == Frame(r) + tail
    ensures IndexOf(text, NUL, 0) == 40 && text[..40] == r.sha
    ensures IndexOf(text, NUL, 41) == 41 + |r.message| && text[41..41 + |r.message|] == r.message
    ensures text[42 + |r.message|..] == tail
  {
    assert text[..40] == r.sha;
    assert text[40] == NUL;
    forall i | 0 <= i < 40 ensures text[i] != NUL {
      assert text[i] == r.sha[i];
    }
    assert text[41..41 + |r.message|] == r.message;
    forall i | 41 <= i < 41 + |r.message| ensures text[i] != NUL {
      assert text[i] == r.message[i - 41];
    }
    assert text[41 + |r.message|] == NUL;
  }

  /** `parsed` starts `rs`, and what is left of `buf` is the rest of it. */
  ghost predicate Ahead(buf: Bytes, offset: nat, parsed: seq<Record>, rs: seq<Record>) {
    && |parsed| <= |rs| && rs[..|parsed|] == parsed
    && offset <= |buf| && buf[offset..] == Frames(rs[|parsed|..])
  }

  /** Whatever `rs` is, if `buf` is its writing then the next frame in `buf` is the next record. */
  ghost predicate Progress(buf: Bytes, offset: nat, parsed: seq<Record>, rs: seq<Record>) {
    && offset <= |buf| && |parsed| < |rs|
    && var r := rs[|parsed|];
       var rest := buf[offset..];
       && RecordFits(r) && 42 + |r.message| <= |rest|
       && IndexOf(rest, NUL, 0) == 40 && rest[..40] == r.sha
       && IndexOf(rest, NUL, 41) == 41 + |r.message| && rest[41..41 + |r.message|] == r.message
       && Ahead(buf, offset + 42 + |r.message|, parsed + [r], rs)
  }

  lemma StepAhead(buf: Bytes, offset: nat, parsed: seq<Record>, rs: seq<Record>)
    requires WellFormed(rs) && Ahead(buf, offset, parsed, rs) && offset < |buf|
    ensures Progress(buf, offset, parsed, rs)
  {
    var rest := rs[|parsed|..];
    assert rest != [];
    var r := rest[0];
    FrameCut(buf[offset..], r, Frames(rest[1..]));
    assert rs[..|parsed| + 1] == parsed + [r];
    assert rs[|parsed| + 1..] == rest[1..];
    assert buf[offset..][42 + |r.message|..] == buf[offset + 42 + |r.message|..];
  }

  lemma NoRepeat(buf: Bytes, offset: nat, parsed: seq<Record>, rs: seq<Record>)
    requires WellFormed(rs) && Ahead(buf, offset, parsed, rs) && Progress(buf, offset, parsed, rs)
    ensures 40 <= |buf[offset..]| && forall k :: 0 <= k < |parsed| ==> parsed[k].sha != buf[offset..][..40]
  {
    hide Frames, IndexOf, RecordFits;
    forall k | 0 <= k < |parsed| ensures parsed[k].sha != rs[|parsed|].sha {
      assert parsed[k] == rs[k];
    }
  }

  lemma WellFormedAppend(rs: seq<Record>, r: Record)
    requires WellFormed(rs) && RecordFits(r) && forall k :: 0 <= k < |rs| ==> rs[k].sha != r.sha
    ensures WellFormed(rs + [r])
  {
    hide RecordFits;
    var all := rs + [r];
    forall k | 0 <= k < |all| ensures RecordFits(all[k]) {
      assert k < |rs| ==> RecordFits(rs[k]);
    }
    forall i, j | 0 <= i < j < |all| ensures all[i].sha != all[j].sha {
      assert all[i] == rs[i];
      assert j < |rs| ==> all[j] == rs[j];
    }
  }

  lemma FrameRead(rest: Bytes, idEnd: int, messageEnd: int)
    requires IndexOf(rest, NUL, 0) == idEnd && 0 <= idEnd
    requires IndexOf(rest, NUL, idEnd + 1) == messageEnd && 0 <= messageEnd
    requires Hex(rest[..idEnd], 40)
    ensures var r := Record(rest[..idEnd], rest[idEnd + 1..messageEnd]); RecordFits(r) && rest[..messageEnd + 1] == Frame(r)
  {
  }

  lemma PrefixExtended(buf: Bytes, a: nat, b: nat)
    requires a + b <= |buf|
    ensures buf[..a + b] == buf[..a] + buf[a..][..b]
  {
  }

  /** Reading one more frame keeps what was read equal to what it was read from. */
  lemma Extended(buf: Bytes, offset: nat, parsed: seq<Record>, idEnd: int, messageEnd: int)
    requires offset <= |buf| && buf[..offset] == Frames(parsed) && WellFormed(parsed)
    requires IndexOf(buf[offset..], NUL, 0) == idEnd && 0 <= idEnd
    requires IndexOf(buf[offset..], NUL, idEnd + 1) == messageEnd && 0 <= messageEnd
    requires Hex(buf[offset..][..idEnd], 40)
    requires forall k :: 0 <= k < |parsed| ==> parsed[k].sha != buf[offset..][..idEnd]
    ensures var r := Record(buf[offset..][..idEnd], buf[offset..][idEnd + 1..messageEnd]);
            buf[..offset + messageEnd + 1] == Frames(parsed + [r]) && WellFormed(parsed + [r])
  {
    hide Frames, Frame, Hex, RecordFits, WellFormed, NulFree;
    var rest := buf[offset..];
    var r := Record(rest[..idEnd], rest[idEnd + 1..messageEnd]);
    FramesAppend(parsed, r);
    FrameRead(rest, idEnd, messageEnd);
    WellFormedAppend(parsed, r);
    PrefixExtended(buf, offset, messageEnd + 1);
  }

  lemma AllRead(buf: Bytes, parsed: seq<Record>, rs: seq<Record>)
    requires Ahead(buf, |buf|, parsed, rs)
    ensures rs == parsed
  {
    assert Frames(rs[|parsed|..]) == [];
  }

  ghost predicate StartsFrame(text: Bytes) {
    exists r, tail :: RecordFits(r) && text == Frame(r) + tail
  }

  ghost predicate StartsRepeat(rs: seq<Record>, text: Bytes) {
    exists r, tail :: RecordFits(r) && text == Frame(r) + tail && r.sha in Shas(rs)
  }

  /** The first thing wrong with the frames: after those that are well formed comes something that is no frame, or that repeats an id. */
  ghost predicate FrameFault(buf: Bytes, rs: seq<Record>, tail: Bytes, code: Code) {
    && buf == Frames(rs) + tail && tail != [] && WellFormed(rs)
    && ((code == Framing && !StartsFrame(tail)) || (code == Duplicate && StartsRepeat(rs, tail)))
  }

  ghost predicate ParseFault(buf: Bytes, code: Code) {
    if buf == [] then code == Empty
    else if |buf| > RECORD_LIMIT then code == Limit
    else exists rs, tail :: FrameFault(buf, rs, tail, code)
  }

  lemma NoFrameHere(text: Bytes, idEnd: int)
    requires idEnd == IndexOf(text, NUL, 0)
    requires idEnd < 0 || IndexOf(text, NUL, idEnd + 1) < 0 || !Hex(text[..idEnd], 40)
    ensures !StartsFrame(text)
  {
    hide IndexOf, Frame;
    forall r, tail | RecordFits(r) && text == Frame(r) + tail ensures false {
      FrameCut(text, r, tail);
    }
  }

  lemma RepeatHere(text: Bytes, rs: seq<Record>, idEnd: int, messageEnd: int)
    requires IndexOf(text, NUL, 0) == idEnd && 0 <= idEnd
    requires IndexOf(text, NUL, idEnd + 1) == messageEnd && 0 <= messageEnd
    requires Hex(text[..idEnd], 40) && text[..idEnd] in Shas(rs)
    ensures StartsRepeat(rs, text)
  {
    var r := Record(text[..idEnd], text[idEnd + 1..messageEnd]);
    FrameRead(text, idEnd, messageEnd);
    assert text == text[..messageEnd + 1] + text[messageEnd + 1..];
    hide IndexOf, Frame, Hex;
  }

  lemma FaultHere(buf: Bytes, offset: nat, rs: seq<Record>, code: Code)
    requires offset < |buf| <= RECORD_LIMIT && buf[..offset] == Frames(rs) && WellFormed(rs)
    requires (code == Framing && !StartsFrame(buf[offset..])) || (code == Duplicate && StartsRepeat(rs, buf[offset..]))
    ensures ParseFault(buf, code)
  {
    hide StartsFrame, StartsRepeat, Frames, WellFormed;
    assert buf == buf[..offset] + buf[offset..];
    assert FrameFault(buf, rs, buf[offset..], code);
  }

  lemma Start(buf: Bytes, rs: seq<Record>)
    requires Framed(buf, rs)
    ensures buf != [] && Ahead(buf, 0, [], rs)
  {
    assert rs[0..] == rs;
  }

  /** Reading frames is the exact inverse of writing them. */
  method ParseFramedCommitRecords(buf: Bytes) returns (r: Result<seq<Record>, Code>)
    ensures r.Ok? ==> Framed(buf, r.value) && |buf| <= RECORD_LIMIT
    ensures |buf| <= RECORD_LIMIT ==> forall rs :: Framed(buf, rs) ==> r == Ok(rs)
    ensures r.Err? ==> ParseFault(buf, r.error)
  {
    hide Frames, WellFormed, Ahead, IndexOf, StartsFrame, StartsRepeat, Hex;
    forall rs | Framed(buf, rs) ensures buf != [] && Ahead(buf, 0, [], rs) {
      Start(buf, rs);
    }
    if buf == [] {
      return Err(Empty);
    }
    if |buf| > RECORD_LIMIT {
      return Err(Limit);
    }
    var parsed: seq<Record> := [];
    var seen: set<Bytes> := {};
    var offset := 0;
    NothingRead(buf);
    while offset < |buf|
      invariant 0 <= offset <= |buf| && (offset > 0 ==> parsed != [])
      invariant buf[..offset] == Frames(parsed) && WellFormed(parsed)
      invariant seen == Shas(parsed)
      invariant forall rs :: Framed(buf, rs) ==> Ahead(buf, offset, parsed, rs)
      decreases |buf| - offset
    {
      forall rs | Framed(buf, rs) ensures Progress(buf, offset, parsed, rs) {
        StepAhead(buf, offset, parsed, rs);
      }
      var rest := buf[offset..];
      var idEnd := IndexOf(rest, NUL, 0);
      if idEnd < 0 {
        NoFrameHere(rest, idEnd);
        FaultHere(buf, offset, parsed, Framing);
        return Err(Framing);
      }
      var messageEnd := IndexOf(rest, NUL, idEnd + 1);
      if messageEnd < 0 {
        NoFrameHere(rest, idEnd);
        FaultHere(buf, offset, parsed, Framing);
        return Err(Framing);
      }
      var sha := rest[..idEnd];
      var hex := IsHex(sha, 40);
      if !hex {
        NoFrameHere(rest, idEnd);
        FaultHere(buf, offset, parsed, Framing);
        return Err(Framing);
      }
      if sha in seen {
        RepeatHere(rest, parsed, idEnd, messageEnd);
        FaultHere(buf, offset, parsed, Duplicate);
        forall rs | Framed(buf, rs) ensures false {
          NoRepeat(buf, offset, parsed, rs);
        }
        return Err(Duplicate);
      }
      Extended(buf, offset, parsed, idEnd, messageEnd);
      ShasAppend(parsed, Record(sha, rest[idEnd + 1..messageEnd]));
      seen := seen + {sha};
      parsed := parsed + [Record(sha, rest[idEnd + 1..messageEnd])];
      offset := offset + messageEnd + 1;
    }
    forall rs | Framed(buf, rs) ensures rs == parsed {
      AllRead(buf, parsed, rs);
    }
    assert buf[..|buf|] == buf;
    return Ok(parsed);
  }

  ghost function Shas(rs: seq<Record>): set<Bytes> {
    set k | 0 <= k < |rs| :: rs[k].sha
  }

  lemma ShasAppend(rs: seq<Record>, r: Record)
    ensures Shas(rs + [r]) == Shas(rs) + {r.sha}
  {
    forall id ensures id in Shas(rs + [r]) <==> id in Shas(rs) + {r.sha} {
      assert (rs + [r])[|rs|] == r;
      assert forall k :: 0 <= k < |rs| ==> (rs + [r])[k] == rs[k];
    }
  }

  lemma NothingRead(buf: Bytes)
    ensures buf[..0] == Frames([]) && WellFormed([])
  {
  }

  // Occurrences.

  datatype Occurrence = Occurrence(offset: int, length: int) {
    ghost function End(): int { offset + length }
  }

  predicate ByOffset(a: Occurrence, b: Occurrence) { a.offset <= b.offset }

  ghost predicate Fits(identifier: Bytes -> bool, message: Bytes, o: Occurrence) {
    0 <= o.offset && 0 < o.length && o.End() <= |message| && identifier(message[o.offset..o.End()])
  }

  ghost function SpanOf(o: Occurrence): Intervals.Span { Intervals.Span(o.offset, o.End()) }

  ghost predicate AllFit(identifier: Bytes -> bool, message: Bytes, occurrences: seq<Occurrence>) {
    forall o :: o in occurrences ==> Fits(identifier, message, o)
  }

  ghost predicate AllApart(occurrences: seq<Occurrence>) {
    Intervals.AllApart(Apply(SpanOf, occurrences))
  }

  /** Each occurrence covers a whole identifier inside the message, and no two overlap, in whatever order they are listed. */
  ghost predicate Valid(identifier: Bytes -> bool, message: Bytes, occurrences: seq<Occurrence>) {
    occurrences != [] && AllFit(identifier, message, occurrences) && AllApart(occurrences)
  }

  /** One after the other, left to right, from `cursor` on. */
  ghost predicate Chained(message: Bytes, ordered: seq<Occurrence>, cursor: nat)
    decreases |ordered|
  {
    if ordered == [] then cursor <= |message|
    else cursor <= ordered[0].offset && 0 < ordered[0].length && ordered[0].End() <= |message|
         && Chained(message, ordered[1..], ordered[0].End())
  }

  lemma ApartPermutation(identifier: Bytes -> bool, message: Bytes, a: seq<Occurrence>, b: seq<Occurrence>)
    requires multiset(a) == multiset(b)
    requires AllFit(identifier, message, a) && AllApart(a)
    ensures AllFit(identifier, message, b) && AllApart(b)
  {
    Sorting.SameElements(a, b);
    forall o | o in b ensures Fits(identifier, message, o) {
      assert o in a;
    }
    assert forall k :: 0 <= k < |a| ==> a[k] in a;
    ApplyPermutation(SpanOf, a, b);
    Intervals.ApartPermutation(Apply(SpanOf, a), Apply(SpanOf, b));
  }

  lemma PairsApart(occurrences: seq<Occurrence>)
    ensures AllApart(occurrences)
       <==> forall i, j :: 0 <= i < j < |occurrences| ==> Intervals.Apart(SpanOf(occurrences[i]), SpanOf(occurrences[j]))
  {
    var spans := Apply(SpanOf, occurrences);
    assert forall i :: 0 <= i < |spans| ==> spans[i] == SpanOf(occurrences[i]);
  }

  lemma {:induction false} ChainedSuffix(message: Bytes, ordered: seq<Occurrence>, identifier: Bytes -> bool, cursor: nat)
    requires AllFit(identifier, message, ordered) && AllApart(ordered) && Sorting.Sorted(ordered, ByOffset)
    requires cursor <= |message| && (ordered != [] ==> cursor <= ordered[0].offset)
    ensures Chained(message, ordered, cursor)
  {
    if ordered != [] {
      var o := ordered[0];
      PairsApart(ordered);
      PairsApart(ordered[1..]);
      assert o in ordered && Fits(identifier, message, o);
      if |ordered| > 1 {
        assert ordered[1] in ordered && Fits(identifier, message, ordered[1]);
        assert Intervals.Apart(SpanOf(o), SpanOf(ordered[1])) && ByOffset(o, ordered[1]);
      }
      forall p | p in ordered[1..] ensures Fits(identifier, message, p) {
        assert p in ordered;
      }
      ChainedSuffix(message, ordered[1..], identifier, o.End());
    }
  }

  /** Valid occurrences, once sorted, follow one another. */
  lemma ValidChained(identifier: Bytes -> bool, message: Bytes, occurrences: seq<Occurrence>)
    requires Valid(identifier, message, occurrences)
    ensures Chained(message, Sorting.Sort(occurrences, ByOffset), 0)
  {
    var ordered := Sorting.Sort(occurrences, ByOffset);
    Sorting.SortSorted(occurrences, ByOffset);
    ApartPermutation(identifier, message, occurrences, ordered);
    if ordered != [] {
      assert ordered[0] in ordered && Fits(identifier, message, ordered[0]);
    }
    ChainedSuffix(message, ordered, identifier, 0);
  }

  lemma ValidOrdered(identifier: Bytes -> bool, message: Bytes, occurrences: seq<Occurrence>)
    requires occurrences != []
    ensures var ordered := Sorting.Sort(occurrences, ByOffset);
            && Sorting.Sorted(ordered, ByOffset) && |ordered| == |occurrences|
            && (Valid(identifier, message, occurrences) <==> AllFit(identifier, message, ordered) && AllApart(ordered))
  {
    var ordered := Sorting.Sort(occurrences, ByOffset);
    Sorting.SortSorted(occurrences, ByOffset);
    if Valid(identifier, message, occurrences) {
      ApartPermutation(identifier, message, occurrences, ordered);
    }
    if AllFit(identifier, message, ordered) && AllApart(ordered) {
      ApartPermutation(identifier, message, ordered, occurrences);
    }
  }

  /** The first `n` fit and each ends before the next begins. */
  ghost predicate InLine(identifier: Bytes -> bool, message: Bytes, ordered: seq<Occurrence>, n: nat) {
    && n <= |ordered|
    && (forall k :: 0 <= k < n ==> Fits(identifier, message, ordered[k]))
    && (forall i, j :: 0 <= i < j < n ==> ordered[i].End() <= ordered[j].offset)
  }

  lemma InLineStep(identifier: Bytes -> bool, message: Bytes, ordered: seq<Occurrence>, n: nat)
    requires n < |ordered| && InLine(identifier, message, ordered, n) && Fits(identifier, message, ordered[n])
    requires n > 0 ==> ordered[n - 1].End() <= ordered[n].offset
    ensures InLine(identifier, message, ordered, n + 1)
  {
    forall i | 0 <= i < n ensures ordered[i].End() <= ordered[n].offset {
      assert Fits(identifier, message, ordered[n - 1]);
    }
  }

  lemma InLineValid(identifier: Bytes -> bool, message: Bytes, ordered: seq<Occurrence>)
    requires InLine(identifier, message, ordered, |ordered|)
    ensures AllFit(identifier, message, ordered) && AllApart(ordered)
  {
    PairsApart(ordered);
  }

  lemma OutOfLine(identifier: Bytes -> bool, message: Bytes, ordered: seq<Occurrence>, n: nat)
    requires n < |ordered| && Sorting.Sorted(ordered, ByOffset)
    requires !Fits(identifier, message, ordered[n]) || (n > 0 && ordered[n].offset < ordered[n - 1].End())
    ensures !AllFit(identifier, message, ordered) || !AllApart(ordered)
  {
    assert ordered[n] in ordered;
    assert n > 0 ==> ByOffset(ordered[n - 1], ordered[n]);
    assert n > 0 && Fits(identifier, message, ordered[n]) ==> !Intervals.Apart(SpanOf(ordered[n - 1]), SpanOf(ordered[n]));
    PairsApart(ordered);
  }

  lemma FitsWhen(identifier: Bytes -> bool, message: Bytes, o: Occurrence)
    ensures Fits(identifier, message, o) <==>
      0 <= o.offset && 0 < o.length && o.offset + o.length <= |message| && identifier(message[o.offset..o.offset + o.length])
    ensures o.End() == o.offset + o.length
  {
  }

  /** Comparing neighbours in sorted order decides whether the whole list is valid. */
  method ValidateOccurrences(identifier: Bytes -> bool, message: Bytes, occurrences: seq<Occurrence>) returns (r: Result<(), Code>)
    ensures r == if Valid(identifier, message, occurrences) then Ok(()) else Err(Offset)
  {
    if occurrences == [] {
      return Err(Offset);
    }
    var ordered := Sorting.Sort(occurrences, ByOffset);
    ValidOrdered(identifier, message, occurrences);
    hide Sorting.Sort, Valid, InLine, AllApart, AllFit, Sorting.Sorted, Fits;
    var previousEnd := 0;
    InLineNone(identifier, message, ordered);
    for position := 0 to |ordered|
      invariant position > 0 ==> previousEnd == ordered[position - 1].End()
      invariant InLine(identifier, message, ordered, position)
    {
      var item := ordered[position];
      FitsWhen(identifier, message, item);
      if item.offset < 0 || item.length <= 0 || item.offset + item.length > |message| || !identifier(message[item.offset..item.offset + item.length])
         || (position > 0 && item.offset < previousEnd)
      {
        OutOfLine(identifier, message, ordered, position);
        return Err(Offset);
      }
      InLineStep(identifier, message, ordered, position);
      previousEnd := item.offset + item.length;
    }
    InLineValid(identifier, message, ordered);
    return Ok(());
  }

  lemma InLineNone(identifier: Bytes -> bool, message: Bytes, ordered: seq<Occurrence>)
    ensures InLine(identifier, message, ordered, 0)
  {
  }

  // Masking.

  ghost predicate Begins(occurrences: seq<Occurrence>, i: nat) {
    exists o :: o in occurrences && o.offset == i
  }

  ghost predicate Covered(occurrences: seq<Occurrence>, i: nat) {
    exists o :: o in occurrences && o.offset <= i < o.End()
  }

  /**
   What masking means, read one byte at a time and with no regard to order: a mask where an occurrence begins, nothing for
   a covered byte, and every other byte itself.
   */
  ghost function Redacted(message: Bytes, occurrences: seq<Occurrence>, i: nat): Bytes
    requires i <= |message|
    decreases |message| - i
  {
    if i == |message| then []
    else
      (if Begins(occurrences, i) then MASK else [])
      + (if Covered(occurrences, i) then [] else [message[i]])
      + Redacted(message, occurrences, i + 1)
  }

  lemma SamePlace(a: seq<Occurrence>, b: seq<Occurrence>, i: nat)
    requires multiset(a) == multiset(b)
    ensures Begins(a, i) == Begins(b, i) && Covered(a, i) == Covered(b, i)
  {
    Sorting.SameElements(a, b);
  }

  lemma {:induction false} RedactedPermutation(message: Bytes, a: seq<Occurrence>, b: seq<Occurrence>, i: nat)
    requires multiset(a) == multiset(b) && i <= |message|
    ensures Redacted(message, a, i) == Redacted(message, b, i)
    decreases |message| - i
  {
    hide *;
    if i < |message| {
      SamePlace(a, b, i);
      RedactedPermutation(message, a, b, i + 1);
    }
    RedactedAlike(message, a, b, i);
  }

  lemma RedactedAlike(message: Bytes, a: seq<Occurrence>, b: seq<Occurrence>, i: nat)
    requires i <= |message|
    requires i < |message| ==> Redacted(message, a, i + 1) == Redacted(message, b, i + 1)
    requires i < |message| ==> Begins(a, i) == Begins(b, i) && Covered(a, i) == Covered(b, i)
    ensures Redacted(message, a, i) == Redacted(message, b, i)
  {
    RedactedAt(message, a, i);
    RedactedAt(message, b, i);
    hide *;
  }

  lemma RedactedAt(message: Bytes, occurrences: seq<Occurrence>, i: nat)
    requires i <= |message|
    ensures Redacted(message, occurrences, i)
         == if i == |message| then []
            else (if Begins(occurrences, i) then MASK else [])
                 + (if Covered(occurrences, i) then [] else [message[i]])
                 + Redacted(message, occurrences, i + 1)
  {
    hide MASK, Begins, Covered;
  }

  lemma KeptByte(message: Bytes, occurrences: seq<Occurrence>, i: nat)
    requires i < |message| && !Begins(occurrences, i) && !Covered(occurrences, i)
    ensures Redacted(message, occurrences, i) == [message[i]] + Redacted(message, occurrences, i + 1)
  {
    hide Begins, Covered, MASK;
  }

  lemma {:induction false} GapKept(message: Bytes, occurrences: seq<Occurrence>, from: nat, to: nat)
    requires from <= to <= |message|
    requires forall i: nat :: from <= i < to ==> !Begins(occurrences, i) && !Covered(occurrences, i)
    ensures Redacted(message, occurrences, from) == message[from..to] + Redacted(message, occurrences, to)
    decreases |message| - from
  {
    hide Begins, Covered, MASK;
    if from < to {
      KeptByte(message, occurrences, from);
      hide Redacted;
      GapKept(message, occurrences, from + 1, to);
      assert message[from..to] == [message[from]] + message[from + 1..to];
    }
  }

  lemma {:induction false} SpanDropped(message: Bytes, occurrences: seq<Occurrence>, from: nat, to: nat)
    requires from <= to <= |message|
    requires forall i: nat :: from <= i < to ==> !Begins(occurrences, i) && Covered(occurrences, i)
    ensures Redacted(message, occurrences, from) == Redacted(message, occurrences, to)
    decreases |message| - from
  {
    if from < to {
      SpanDropped(message, occurrences, from + 1, to);
    }
  }

  /** Copying gaps and putting a mask for each span, in sorted order. */
  ghost function Splice(message: Bytes, ordered: seq<Occurrence>, cursor: nat): Bytes
    requires Chained(message, ordered, cursor)
    decreases |ordered|
  {
    if ordered == [] then message[cursor..]
    else message[cursor..ordered[0].offset] + MASK + Splice(message, ordered[1..], ordered[0].End())
  }

  lemma {:induction false} ChainedBounds(message: Bytes, ordered: seq<Occurrence>, cursor: nat, k: nat)
    requires Chained(message, ordered, cursor) && k < |ordered|
    ensures cursor <= ordered[k].offset && 0 < ordered[k].length && ordered[k].End() <= |message|
    decreases |ordered|
  {
    if k > 0 {
      ChainedBounds(message, ordered[1..], ordered[0].End(), k - 1);
    }
  }

  /** The occurrences of `all` that reach past `cursor` are those of `ordered`. */
  ghost predicate Remaining(all: seq<Occurrence>, ordered: seq<Occurrence>, cursor: nat) {
    && (forall o :: o in ordered ==> o in all)
    && (forall o :: o in all ==> o in ordered || (0 < o.length && o.End() <= cursor))
  }

  lemma {:induction false} SpliceIsRedacted(message: Bytes, all: seq<Occurrence>, ordered: seq<Occurrence>, cursor: nat)
    requires Chained(message, ordered, cursor) && cursor <= |message| && Remaining(all, ordered, cursor)
    ensures Splice(message, ordered, cursor) == Redacted(message, all, cursor)
    decreases |ordered|
  {
    if ordered == [] {
      GapKept(message, all, cursor, |message|);
    } else {
      SpliceOne(message, all, ordered, cursor);
      SpliceIsRedacted(message, all, ordered[1..], ordered[0].End());
    }
  }

  lemma SpliceOne(message: Bytes, all: seq<Occurrence>, ordered: seq<Occurrence>, cursor: nat)
    requires Chained(message, ordered, cursor) && cursor <= |message| && Remaining(all, ordered, cursor) && ordered != []
    ensures Remaining(all, ordered[1..], ordered[0].End())
    ensures Redacted(message, all, cursor) == message[cursor..ordered[0].offset] + MASK + Redacted(message, all, ordered[0].End())
  {
    Neighbours(message, all, ordered, cursor);
    MaskOne(message, all, ordered[0], cursor);
  }

  lemma Neighbours(message: Bytes, all: seq<Occurrence>, ordered: seq<Occurrence>, cursor: nat)
    requires Chained(message, ordered, cursor) && Remaining(all, ordered, cursor) && ordered != []
    ensures Remaining(all, ordered[1..], ordered[0].End())
    ensures forall p :: p in all ==> p == ordered[0] || ordered[0].End() <= p.offset || (p.End() <= cursor && p.offset < cursor)
  {
    var o := ordered[0];
    forall p | p in all ensures p == o || p in ordered[1..] || (0 < p.length && p.End() <= cursor) {
      assert p in ordered ==> p == o || p in ordered[1..];
    }
    forall p | p in ordered[1..] ensures o.End() <= p.offset {
      var k :| 0 <= k < |ordered[1..]| && ordered[1..][k] == p;
      ChainedBounds(message, ordered[1..], o.End(), k);
    }
  }

  lemma MaskOne(message: Bytes, all: seq<Occurrence>, o: Occurrence, cursor: nat)
    requires o in all && cursor <= o.offset && 0 < o.length && o.End() <= |message|
    requires forall p :: p in all ==> p == o || o.End() <= p.offset || (p.End() <= cursor && p.offset < cursor)
    ensures Redacted(message, all, cursor) == message[cursor..o.offset] + MASK + Redacted(message, all, o.End())
  {
    hide Redacted;
    GapKept(message, all, cursor, o.offset);
    assert Begins(all, o.offset) && Covered(all, o.offset);
    forall i: nat | o.offset < i < o.End() ensures !Begins(all, i) && Covered(all, i) {
      assert o.offset <= i < o.End();
    }
    SpanDropped(message, all, o.offset + 1, o.End());
    MaskedByte(message, all, o.offset);
  }

  lemma MaskedByte(message: Bytes, occurrences: seq<Occurrence>, i: nat)
    requires i < |message| && Begins(occurrences, i) && Covered(occurrences, i)
    ensures Redacted(message, occurrences, i) == MASK + Redacted(message, occurrences, i + 1)
  {
    hide Begins, Covered, MASK;
  }

  ghost function TotalLength(occurrences: seq<Occurrence>): int {
    if occurrences == [] then 0 else occurrences[0].length + TotalLength(occurrences[1..])
  }

  lemma {:induction false} InsertTotal(o: Occurrence, s: seq<Occurrence>)
    ensures TotalLength(Sorting.Insert(o, s, ByOffset)) == o.length + TotalLength(s)
  {
    if s != [] && !ByOffset(o, s[0]) {
      InsertTotal(o, s[1..]);
    }
  }

  lemma {:induction false} SortTotal(s: seq<Occurrence>)
    ensures TotalLength(Sorting.Sort(s, ByOffset)) == TotalLength(s)
  {
    if s != [] {
      SortTotal(s[1..]);
      InsertTotal(s[0], Sorting.Sort(s[1..], ByOffset));
    }
  }

  lemma {:induction false} SpliceLength(message: Bytes, ordered: seq<Occurrence>, cursor: nat)
    requires Chained(message, ordered, cursor) && cursor <= |message|
    ensures |Splice(message, ordered, cursor)| == |message| - cursor - TotalLength(ordered) + |ordered| * |MASK|
    decreases |ordered|
  {
    if ordered != [] {
      SpliceLength(message, ordered[1..], ordered[0].End());
    }
  }

  /** What was under each mask, in sorted order. */
  ghost function Removed(message: Bytes, ordered: seq<Occurrence>, cursor: nat): seq<Bytes>
    requires Chained(message, ordered, cursor)
    decreases |ordered|
  {
    if ordered == [] then []
    else [message[ordered[0].offset..ordered[0].End()]] + Removed(message, ordered[1..], ordered[0].End())
  }

  /** Puts `removed` back in place of the masks. */
  ghost function Unmask(masked: Bytes, ordered: seq<Occurrence>, removed: seq<Bytes>, cursor: nat): Bytes
    decreases |ordered|
  {
    if ordered == [] || removed == [] || ordered[0].offset < cursor || |masked| < ordered[0].offset - cursor + |MASK| then masked
    else
      var gap := ordered[0].offset - cursor;
      masked[..gap] + removed[0]
      + Unmask(masked[gap + |MASK|..], ordered[1..], removed[1..], ordered[0].offset + |removed[0]|)
  }

  lemma UnmaskOne(gap: Bytes, tail: Bytes, ordered: seq<Occurrence>, span: Bytes, removed: seq<Bytes>, cursor: nat)
    requires ordered != [] && ordered[0].offset == cursor + |gap|
    ensures Unmask(gap + MASK + tail, ordered, [span] + removed, cursor)
         == gap + span + Unmask(tail, ordered[1..], removed, ordered[0].offset + |span|)
  {
    hide MASK;
    var masked := gap + MASK + tail;
    assert masked[..|gap|] == gap;
    assert masked[|gap| + |MASK|..] == tail;
    assert ([span] + removed)[1..] == removed;
  }

  lemma {:induction false} SpliceRestored(message: Bytes, ordered: seq<Occurrence>, cursor: nat)
    requires Chained(message, ordered, cursor) && cursor <= |message|
    ensures Unmask(Splice(message, ordered, cursor), ordered, Removed(message, ordered, cursor), cursor) == message[cursor..]
    decreases |ordered|
  {
    hide MASK, Splice, Removed, Chained, Unmask;
    if ordered == [] {
      NothingSpliced(message, cursor);
    } else {
      SpliceUnfolds(message, ordered, cursor);
      var o := ordered[0];
      var gap, tail, span := message[cursor..o.offset], Splice(message, ordered[1..], o.End()), message[o.offset..o.End()];
      var removed := Removed(message, ordered[1..], o.End());
      SpliceRestored(message, ordered[1..], o.End());
      UnmaskOne(gap, tail, ordered, span, removed, cursor);
      ThreeParts(message, cursor, o.offset, o.End());
    }
  }

  lemma ThreeParts(message: Bytes, i: nat, j: nat, k: nat)
    requires i <= j <= k <= |message|
    ensures message[i..] == message[i..j] + message[j..k] + message[k..]
  {
  }

  lemma NothingSpliced(message: Bytes, cursor: nat)
    requires cursor <= |message|
    ensures Chained(message, [], cursor) && Unmask(Splice(message, [], cursor), [], Removed(message, [], cursor), cursor) == message[cursor..]
  {
  }

  lemma SpliceUnfolds(message: Bytes, ordered: seq<Occurrence>, cursor: nat)
    requires ordered != [] && Chained(message, ordered, cursor) && cursor <= |message|
    ensures var o, end := ordered[0], ordered[0].offset + ordered[0].length;
      && o.End() == end && cursor <= o.offset && 0 < o.length && end <= |message| && Chained(message, ordered[1..], end)
      && Splice(message, ordered, cursor) == message[cursor..o.offset] + MASK + Splice(message, ordered[1..], end)
      && Removed(message, ordered, cursor) == [message[o.offset..end]] + Removed(message, ordered[1..], end)
  {
    hide MASK;
  }

  /**
   Masking is the same whatever the order of the list, has the length that it should, and can be undone by whoever holds the
   removed spans.
   */
  lemma MaskingIsExact(identifier: Bytes -> bool, message: Bytes, occurrences: seq<Occurrence>)
    requires Valid(identifier, message, occurrences)
    ensures Chained(message, Sorting.Sort(occurrences, ByOffset), 0)
    ensures |Redacted(message, occurrences, 0)| == |message| - TotalLength(occurrences) + |occurrences| * |MASK|
    ensures var ordered := Sorting.Sort(occurrences, ByOffset);
            Unmask(Redacted(message, occurrences, 0), ordered, Removed(message, ordered, 0), 0) == message
  {
    var ordered := Sorting.Sort(occurrences, ByOffset);
    SplicedWhole(identifier, message, occurrences);
    SortTotal(occurrences);
    SpliceLength(message, ordered, 0);
    SpliceRestored(message, ordered, 0);
    assert message[0..] == message;
  }

  lemma SplicedWhole(identifier: Bytes -> bool, message: Bytes, occurrences: seq<Occurrence>)
    requires Valid(identifier, message, occurrences)
    ensures Chained(message, Sorting.Sort(occurrences, ByOffset), 0)
    ensures Splice(message, Sorting.Sort(occurrences, ByOffset), 0) == Redacted(message, occurrences, 0)
  {
    ValidChained(identifier, message, occurrences);
    Sorting.SortElements(occurrences, ByOffset);
    SpliceIsRedacted(message, occurrences, Sorting.Sort(occurrences, ByOffset), 0);
  }

  method ReplaceOccurrences(message: Bytes, occurrences: seq<Occurrence>, ghost identifier: Bytes -> bool) returns (r: Bytes)
    requires Valid(identifier, message, occurrences)
    ensures r == Redacted(message, occurrences, 0)
  {
    hide *;
    var ordered := Sorting.Sort(occurrences, ByOffset);
    SplicedWhole(identifier, message, occurrences);
    ghost var whole := Splice(message, ordered, 0);
    r := [];
    var cursor, rest := 0, ordered;
    while rest != []
      invariant 0 <= cursor <= |message| && Chained(message, rest, cursor)
      invariant r + Splice(message, rest, cursor) == whole
      decreases |rest|
    {
      var item := rest[0];
      ReplaceOne(message, rest, cursor, r);
      r := r + message[cursor..item.offset] + MASK;
      cursor := item.offset + item.length;
      rest := rest[1..];
    }
    SpliceEnd(message, rest, cursor);
    r := r + message[cursor..];
  }

  lemma Regroup(a: Bytes, b: Bytes, c: Bytes, d: Bytes)
    ensures a + (b + c + d) == a + b + c + d
  {
  }

  lemma ReplaceOne(message: Bytes, ordered: seq<Occurrence>, cursor: nat, done: Bytes)
    requires ordered != [] && cursor <= |message| && Chained(message, ordered, cursor)
    ensures var item := ordered[0];
            && cursor <= item.offset && 0 < item.length && item.offset + item.length <= |message|
            && Chained(message, ordered[1..], item.offset + item.length)
            && (done + message[cursor..item.offset] + MASK) + Splice(message, ordered[1..], item.offset + item.length)
            == done + Splice(message, ordered, cursor)
  {
    hide *;
    SpliceUnfolds(message, ordered, cursor);
    var item := ordered[0];
    Regroup(done, message[cursor..item.offset], MASK, Splice(message, ordered[1..], item.offset + item.length));
  }

  lemma SpliceEnd(message: Bytes, ordered: seq<Occurrence>, cursor: nat)
    requires ordered == [] && cursor <= |message| && Chained(message, ordered, cursor)
    ensures Splice(message, ordered, cursor) == message[cursor..]
  {
  }

  // The whole run.

  datatype Pin = Pin(sha: Bytes, digest: Bytes, occurrences: seq<Occurrence>)

  /** What git answers: whether a commit is stored as framed, what main is, and whether a commit is an ancestor of it. */
  datatype Repository = Repository(unreplaced: Record -> bool, main: Option<Bytes>, ancestor: (Bytes, Bytes) -> bool)

  ghost predicate PinFits(p: Pin) {
    Hex(p.sha, 40) && Hex(p.digest, 64)
  }

  ghost predicate PinsFit(pins: seq<Pin>) {
    && pins != []
    && (forall k :: 0 <= k < |pins| ==> PinFits(pins[k]))
    && (forall i, j :: 0 <= i < j < |pins| ==> pins[i].sha != pins[j].sha)
  }

  ghost predicate Maps(mapped: map<Bytes, Pin>, pins: seq<Pin>) {
    && mapped.Keys == PinIds(pins)
    && (forall k :: 0 <= k < |pins| ==> pins[k].sha in mapped && mapped[pins[k].sha] == pins[k])
  }

  ghost function PinIds(pins: seq<Pin>): set<Bytes> {
    set k | 0 <= k < |pins| :: pins[k].sha
  }

  /** The first pin that is malformed or repeats an id, or that there is none. */
  ghost predicate PinFault(pins: seq<Pin>, code: Code) {
    || (code == Missing && pins == [])
    || (code == Digest && exists i :: GoodPins(pins, i) && i < |pins| && !PinFits(pins[i]))
    || (code == Duplicate && exists i, k :: 0 <= k < i < |pins| && GoodPins(pins, i) && PinFits(pins[i]) && pins[k].sha == pins[i].sha)
  }

  ghost predicate GoodPins(pins: seq<Pin>, i: int) {
    && 0 <= i <= |pins|
    && (forall k :: 0 <= k < i ==> PinFits(pins[k]))
    && (forall j, k :: 0 <= j < k < i ==> pins[j].sha != pins[k].sha)
  }

  lemma PinFitsWhen(p: Pin)
    ensures PinFits(p) <==> Hex(p.sha, 40) && Hex(p.digest, 64)
  {
  }

  method PinMap(pins: seq<Pin>) returns (r: Result<map<Bytes, Pin>, Code>)
    ensures r.Ok? <==> PinsFit(pins)
    ensures r.Ok? ==> Maps(r.value, pins)
    ensures r.Err? ==> PinFault(pins, r.error)
  {
    hide PinFits, Maps, PinIds, Hex;
    var mapped: map<Bytes, Pin> := map[];
    MapsNone(pins);
    for i := 0 to |pins|
      invariant forall k :: 0 <= k < i ==> PinFits(pins[k])
      invariant forall j, k :: 0 <= j < k < i ==> pins[j].sha != pins[k].sha
      invariant Maps(mapped, pins[..i])
    {
      var pin := pins[i];
      PinFitsWhen(pin);
      assert GoodPins(pins, i);
      var sha := IsHex(pin.sha, 40);
      var digest := IsHex(pin.digest, 64);
      if !sha || !digest {
        return Err(Digest);
      }
      if pin.sha in mapped {
        MapsRepeat(mapped, pins, i);
        return Err(Duplicate);
      }
      MapsNext(mapped, pins, i);
      mapped := mapped[pin.sha := pin];
    }
    assert pins[..|pins|] == pins;
    MapsSome(mapped, pins);
    if mapped == map[] {
      return Err(Missing);
    }
    return Ok(mapped);
  }

  lemma MapsNone(pins: seq<Pin>)
    ensures Maps(map[], pins[..0])
  {
  }

  lemma MapsSome(mapped: map<Bytes, Pin>, pins: seq<Pin>)
    requires Maps(mapped, pins)
    ensures mapped == map[] <==> pins == []
  {
    assert pins != [] ==> pins[0].sha in mapped;
    assert pins == [] ==> mapped.Keys == {};
  }

  lemma MapsRepeat(mapped: map<Bytes, Pin>, pins: seq<Pin>, i: nat)
    requires i < |pins| && Maps(mapped, pins[..i]) && pins[i].sha in mapped
    ensures exists k :: 0 <= k < i && pins[k].sha == pins[i].sha
  {
    var k :| 0 <= k < i && pins[..i][k].sha == pins[i].sha;
    assert pins[k].sha == pins[i].sha;
  }

  lemma MapsNext(mapped: map<Bytes, Pin>, pins: seq<Pin>, i: nat)
    requires i < |pins| && Maps(mapped, pins[..i]) && pins[i].sha !in mapped
    ensures Maps(mapped[pins[i].sha := pins[i]], pins[..i + 1])
    ensures forall k :: 0 <= k < i ==> pins[k].sha != pins[i].sha
  {
    var all := pins[..i + 1];
    forall k | 0 <= k < i ensures pins[k].sha in mapped && mapped[pins[k].sha] == pins[k] && all[k] == pins[k] {
      assert pins[..i][k] == pins[k];
    }
    assert all[i] == pins[i];
    forall id ensures id in PinIds(all) <==> id in PinIds(pins[..i]) || id == pins[i].sha {
      if id in PinIds(all) {
        var k :| 0 <= k < |all| && all[k].sha == id;
        assert k < i ==> pins[..i][k].sha == id;
      }
      if id in PinIds(pins[..i]) {
        var k :| 0 <= k < i && pins[..i][k].sha == id;
        assert all[k].sha == id;
      }
    }
  }

  datatype World = World(identifier: Bytes -> bool, hash: Bytes -> Bytes, repository: Repository)

  /** A pinned message is masked; any other is copied. */
  ghost function Line(mapped: map<Bytes, Pin>, r: Record): Bytes {
    (if r.sha in mapped then Redacted(r.message, mapped[r.sha].occurrences, 0) else r.message) + [NEWLINE]
  }

  ghost function Lines(mapped: map<Bytes, Pin>, rs: seq<Record>): Bytes {
    if rs == [] then [] else Lines(mapped, rs[..|rs| - 1]) + Line(mapped, rs[|rs| - 1])
  }

  ghost predicate Admitted(world: World, mapped: map<Bytes, Pin>, r: Record) {
    r.sha in mapped ==>
      && world.hash(r.message) == mapped[r.sha].digest
      && Valid(world.identifier, r.message, mapped[r.sha].occurrences)
      && world.repository.unreplaced(r)
      && world.repository.main.Some? && Hex(world.repository.main.value, 40)
      && world.repository.ancestor(r.sha, world.repository.main.value)
  }

  /** The first of these to be amiss with a pinned record. */
  ghost function RecordFault(world: World, mapped: map<Bytes, Pin>, r: Record): Option<Code> {
    if r.sha !in mapped then None
    else if world.hash(r.message) != mapped[r.sha].digest then Some(Digest)
    else if !Valid(world.identifier, r.message, mapped[r.sha].occurrences) then Some(Offset)
    else if !world.repository.unreplaced(r) then Some(ReplacedObject)
    else if Admitted(world, mapped, r) then None
    else Some(NonAncestor)
  }

  /** The fault of the first record that has one, or else a pin without a record. */
  ghost predicate MaskFault(world: World, mapped: map<Bytes, Pin>, rs: seq<Record>, code: Code) {
    || (code == Missing && forall k :: 0 <= k < |rs| ==> Admitted(world, mapped, rs[k]))
    || (exists i :: 0 <= i < |rs| && RecordFault(world, mapped, rs[i]) == Some(code)
                    && forall k :: 0 <= k < i ==> Admitted(world, mapped, rs[k]))
  }

  /** Every pin meets exactly one record, and every pinned record is exactly what was pinned. */
  ghost predicate Sound(world: World, mapped: map<Bytes, Pin>, rs: seq<Record>) {
    && (forall k :: 0 <= k < |rs| ==> Admitted(world, mapped, rs[k]))
    && mapped.Keys <= Shas(rs)
  }

  method MaskRecord(world: World, mapped: map<Bytes, Pin>, record: Record) returns (r: Result<Bytes, Code>)
    ensures r.Ok? <==> Admitted(world, mapped, record)
    ensures r.Ok? ==> r.value == Line(mapped, record)
    ensures r.Err? ==> RecordFault(world, mapped, record) == Some(r.error)
  {
    hide Valid, Hex, Redacted;
    if record.sha !in mapped {
      return Ok(record.message + [NEWLINE]);
    }
    var pin := mapped[record.sha];
    if world.hash(record.message) != pin.digest {
      return Err(Digest);
    }
    var valid := ValidateOccurrences(world.identifier, record.message, pin.occurrences);
    if valid.Err? {
      return Err(valid.error);
    }
    if !world.repository.unreplaced(record) {
      return Err(ReplacedObject);
    }
    var main := world.repository.main;
    if main.None? {
      return Err(NonAncestor);
    }
    var hex := IsHex(main.value, 40);
    if !hex || !world.repository.ancestor(record.sha, main.value) {
      return Err(NonAncestor);
    }
    var masked := ReplaceOccurrences(record.message, pin.occurrences, world.identifier);
    return Ok(masked + [NEWLINE]);
  }

  method MaskRecords(world: World, mapped: map<Bytes, Pin>, rs: seq<Record>) returns (r: Result<Bytes, Code>)
    ensures r.Ok? <==> Sound(world, mapped, rs)
    ensures r.Ok? ==> r.value == Lines(mapped, rs)
    ensures r.Err? ==> MaskFault(world, mapped, rs, r.error)
  {
    SoundWhen(world, mapped, rs);
    MaskFaultWhen(world, mapped, rs);
    hide *;
    var seen: set<Bytes> := {};
    var chunks: Bytes := [];
    NoLines(mapped);
    for i := 0 to |rs|
      invariant forall k :: 0 <= k < i ==> Admitted(world, mapped, rs[k])
      invariant chunks == Lines(mapped, rs[..i])
      invariant seen == Shas(rs[..i]) * mapped.Keys
    {
      NextLine(mapped, rs, i);
      var line := MaskRecord(world, mapped, rs[i]);
      if line.Err? {
        return Err(line.error);
      }
      SeenNext(Shas(rs[..i]), mapped.Keys, rs[i].sha);
      if rs[i].sha in mapped {
        seen := seen + {rs[i].sha};
      }
      chunks := chunks + line.value;
    }
    assert rs[..|rs|] == rs;
    AllSeen(Shas(rs), mapped.Keys);
    if |seen| != |mapped.Keys| {
      return Err(Missing);
    }
    return Ok(chunks);
  }

  lemma NoLines(mapped: map<Bytes, Pin>)
    ensures Lines(mapped, []) == [] && Shas([]) == {}
  {
  }

  lemma NextLine(mapped: map<Bytes, Pin>, rs: seq<Record>, i: nat)
    requires i < |rs|
    ensures Lines(mapped, rs[..i + 1]) == Lines(mapped, rs[..i]) + Line(mapped, rs[i])
    ensures Shas(rs[..i + 1]) == Shas(rs[..i]) + {rs[i].sha}
  {
    hide Redacted;
    assert rs[..i + 1] == rs[..i] + [rs[i]];
    ShasAppend(rs[..i], rs[i]);
    assert (rs[..i] + [rs[i]])[..i] == rs[..i];
  }

  lemma SeenNext(ids: set<Bytes>, wanted: set<Bytes>, id: Bytes)
    ensures (ids + {id}) * wanted == if id in wanted then ids * wanted + {id} else ids * wanted
  {
  }

  /** Counting what was seen is enough. */
  lemma AllSeen(ids: set<Bytes>, wanted: set<Bytes>)
    ensures |ids * wanted| == |wanted| <==> wanted <= ids
  {
    assert |wanted| == |ids * wanted| + |wanted - ids| by {
      assert ids * wanted + (wanted - ids) == wanted;
    }
    if wanted <= ids {
      assert ids * wanted == wanted;
    } else {
      var id :| id in wanted && id !in ids;
      assert id in wanted - ids;
    }
  }

  lemma SoundWhen(world: World, mapped: map<Bytes, Pin>, rs: seq<Record>)
    ensures Sound(world, mapped, rs) <==> (forall k :: 0 <= k < |rs| ==> Admitted(world, mapped, rs[k])) && mapped.Keys <= Shas(rs)
  {
  }

  lemma MaskFaultWhen(world: World, mapped: map<Bytes, Pin>, rs: seq<Record>)
    ensures (forall k :: 0 <= k < |rs| ==> Admitted(world, mapped, rs[k])) ==> MaskFault(world, mapped, rs, Missing)
    ensures forall i, code :: 0 <= i < |rs| && RecordFault(world, mapped, rs[i]) == Some(code) ==>
              (forall k :: 0 <= k < i ==> Admitted(world, mapped, rs[k])) ==> MaskFault(world, mapped, rs, code)
  {
    hide Admitted, RecordFault;
  }

  /** What a refusal carries: the fault of the frames, or that of the pins, or that of the first record at fault. */
  ghost predicate Refuses(world: World, pins: seq<Pin>, buf: Bytes, code: Code) {
    || ParseFault(buf, code)
    || (|buf| <= RECORD_LIMIT && exists rs :: Framed(buf, rs) && (PinFault(pins, code) || RefusesRecords(world, pins, rs, code)))
  }

  ghost predicate RefusesRecords(world: World, pins: seq<Pin>, rs: seq<Record>, code: Code) {
    PinsFit(pins) && exists mapped :: Maps(mapped, pins) && MaskFault(world, mapped, rs, code)
  }

  ghost predicate Sanitizes(world: World, pins: seq<Pin>, buf: Bytes, out: Bytes) {
    exists rs, mapped :: Framed(buf, rs) && Maps(mapped, pins) && Sound(world, mapped, rs) && out == Lines(mapped, rs)
  }

  method SanitizeHistoricalCommitRecords(world: World, pins: seq<Pin>, buf: Bytes) returns (r: Result<Bytes, Code>)
    ensures r.Ok? <==> |buf| <= RECORD_LIMIT && PinsFit(pins) && exists out :: Sanitizes(world, pins, buf, out)
    ensures forall out :: |buf| <= RECORD_LIMIT && PinsFit(pins) && Sanitizes(world, pins, buf, out) ==> r == Ok(out)
    ensures r.Err? ==> Refuses(world, pins, buf, r.error)
  {
    hide Framed, Sound, Maps, PinsFit, Lines, ParseFault, PinFault, MaskFault;
    var parsed := ParseFramedCommitRecords(buf);
    if parsed.Err? {
      return Err(parsed.error);
    }
    var mapped := PinMap(pins);
    if mapped.Err? {
      return Err(mapped.error);
    }
    forall m | Maps(m, pins) ensures m == mapped.value {
      SameMap(m, mapped.value, pins);
    }
    r := MaskRecords(world, mapped.value, parsed.value);
    assert r.Ok? ==> Sanitizes(world, pins, buf, r.value);
  }

  lemma SameMap(a: map<Bytes, Pin>, b: map<Bytes, Pin>, pins: seq<Pin>)
    requires Maps(a, pins) && Maps(b, pins)
    ensures a == b
  {
  }
}
