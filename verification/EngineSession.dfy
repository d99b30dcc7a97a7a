/**
 The streaming MCP session (scripts/artifact-engine.ts): output arrives in arbitrary chunks, lines drive a
 phase machine that answers on stdin, and a timer and a second pipe may fail it at any moment. It succeeds
 exactly when the batch parser accepts the whole output and nothing else went wrong.
 */
module EngineSession {
  import opened Wrappers
  import opened UnicodeText
  import opened Lines

  const STREAM_LIMIT := 16 * 1024

  datatype Failure = ResponseInvalid | OutputLimit | Timeout

  /** Whether a line is a valid initialize reply, or a valid system_health reply. */
  datatype Rules = Rules(initialize: Text -> bool, health: Text -> bool)

  datatype Message = Initialize | Initialized | ToolCall

  /** What may happen while the child runs. A chunk whose bytes do not decode has no text. */
  datatype Event =
    | Stdout(bytes: nat, text: Option<Text>)
    | Stderr(bytes: nat)
    | StderrFault
    | Deadline

  // The batch parser, mcpObservationFromOutput.

  ghost predicate BatchAccepts(rules: Rules, stdout: Text) {
    var lines := Split(stdout);
    |lines| == 3 && lines[2] == [] && rules.initialize(lines[0]) && rules.health(lines[1])
  }

  // What arrived, over a whole run of events.

  ghost function TextOf(events: seq<Event>): Text {
    if events == [] then []
    else
      var e := events[|events| - 1];
      TextOf(events[..|events| - 1]) + (if e.Stdout? && e.text.Some? then e.text.value else [])
  }

  ghost function StdoutBytes(events: seq<Event>): nat {
    if events == [] then 0
    else
      var e := events[|events| - 1];
      StdoutBytes(events[..|events| - 1]) + (if e.Stdout? then e.bytes else 0)
  }

  ghost function StderrBytes(events: seq<Event>): nat {
    if events == [] then 0
    else
      var e := events[|events| - 1];
      StderrBytes(events[..|events| - 1]) + (if e.Stderr? then e.bytes else 0)
  }

  /** Both pipes within bounds and readable, everything decodes, and the deadline was not met. */
  ghost predicate TransportOk(events: seq<Event>) {
    && StdoutBytes(events) <= STREAM_LIMIT && StderrBytes(events) <= STREAM_LIMIT
    && forall k :: 0 <= k < |events| ==> EventOk(events[k])
  }

  ghost predicate EventOk(e: Event) {
    !e.Deadline? && !e.StderrFault? && (e.Stdout? ==> e.text.Some?)
  }

  /** The ended lines of what arrived are the start of a valid session. */
  ghost predicate LinesOk(rules: Rules, received: Text) {
    Replies(rules, CompleteLines(received))
  }

  /** The start of a valid session, line by line. */
  ghost predicate Replies(rules: Rules, lines: seq<Text>) {
    && |lines| <= 2
    && (|lines| >= 1 ==> rules.initialize(lines[0]))
    && (|lines| >= 2 ==> rules.health(lines[1]))
  }

  lemma NextReply(rules: Rules, lines: seq<Text>, line: Text)
    requires Replies(rules, lines)
    ensures Replies(rules, lines + [line]) <==> (|lines| == 0 && rules.initialize(line)) || (|lines| == 1 && rules.health(line))
  {
  }

  lemma FirstReplies(rules: Rules, front: seq<Text>, lines: seq<Text>)
    requires front <= lines
    ensures Replies(rules, lines) ==> Replies(rules, front)
    ensures Replies(rules, front) && |front| >= 1 ==> rules.initialize(lines[0])
    ensures Replies(rules, front) && |front| >= 2 ==> rules.health(lines[1])
  {
    assert forall k :: 0 <= k < |front| ==> front[k] == lines[k];
  }

  lemma BatchIsComplete(rules: Rules, stdout: Text)
    ensures BatchAccepts(rules, stdout) <==>
            LinesOk(rules, stdout) && |CompleteLines(stdout)| == 2 && Partial(stdout) == []
  {
    var lines := Split(stdout);
    assert |lines| == 3 ==> CompleteLines(stdout)[0] == lines[0] && CompleteLines(stdout)[1] == lines[1];
  }

  lemma LinesMonotone(rules: Rules, a: Text, b: Text)
    requires LinesOk(rules, a + b)
    ensures LinesOk(rules, a)
  {
    PrefixLines(a + b, |a|);
    assert (a + b)[..|a|] == a;
  }

  ghost function SentAt(phase: nat): seq<Message> {
    if phase == 0 then [Initialize] else [Initialize, Initialized, ToolCall]
  }

  class Session {
    const rules: Rules
    var phase: nat
    var pending: Text
    var output: Text
    var size: nat
    var errorSize: nat
    var failure: Option<Failure>
    var reading: bool
    var readingErrors: bool
    var sent: seq<Message>
    var stdinOpen: bool

    /** While stdout is read, the state is a function of the output: the ended lines, one phase each, and the rest. */
    ghost predicate Valid()
      reads this
    {
      && sent == SentAt(phase)
      && stdinOpen == (phase < 2)
      && phase <= |CompleteLines(output)| && phase <= 2
      && (phase >= 1 ==> rules.initialize(CompleteLines(output)[0]))
      && (phase >= 2 ==> rules.health(CompleteLines(output)[1]))
      && (reading ==> phase == |CompleteLines(output)| && pending == Partial(output))
      && (!reading || !readingErrors ==> failure.Some?)
    }

    /** The tool call is never sent before a valid initialize reply. */
    ghost predicate CallsAfterReply()
      reads this
    {
      ToolCall in sent ==> CompleteLines(output) != [] && rules.initialize(CompleteLines(output)[0])
    }

    constructor (rules: Rules)
      ensures Valid() && this.rules == rules && reading && readingErrors && failure.None?
      ensures output == [] && size == 0 && errorSize == 0
    {
      this.rules := rules;
      phase, pending, output, size, errorSize := 0, [], [], 0, 0;
      failure, reading, readingErrors, sent, stdinOpen := None, true, true, [Initialize], true;
    }

    /** failure ??= error */
    method Fail(error: Failure)
      modifies this`failure
      ensures failure == if old(failure).Some? then old(failure) else Some(error)
    {
      if failure.None? {
        failure := Some(error);
      }
    }

    /** One line; false stands for a thrown error. */
    method OnLine(line: Text) returns (ok: bool)
      modifies this`phase, this`sent, this`stdinOpen
      ensures ok <==> (old(phase) == 0 && rules.initialize(line)) || (old(phase) == 1 && rules.health(line))
      ensures phase == old(phase) + (if ok then 1 else 0)
      ensures sent == old(sent) + (if ok && old(phase) == 0 then [Initialized, ToolCall] else [])
      ensures stdinOpen == (old(stdinOpen) && !(ok && old(phase) == 1))
    {
      if phase == 0 && rules.initialize(line) {
        phase := 1;
        sent := sent + [Initialized, ToolCall];
        return true;
      }
      if phase == 1 && rules.health(line) {
        phase := 2;
        stdinOpen := false;
        return true;
      }
      return false;
    }

    /** The line loop over what is pending; false stands for an error thrown by a line. */
    method TakeLines(text: Text) returns (ok: bool)
      requires Valid() && reading
      modifies this`phase, this`pending, this`output, this`sent, this`stdinOpen
      ensures output == old(output) + text
      ensures ok <==> LinesOk(rules, output)
      ensures sent == SentAt(phase) && stdinOpen == (phase < 2) && phase <= |CompleteLines(output)| && phase <= 2
      ensures phase >= 1 ==> rules.initialize(CompleteLines(output)[0])
      ensures phase >= 2 ==> rules.health(CompleteLines(output)[1])
      ensures ok ==> phase == |CompleteLines(output)| && pending == Partial(output)
    {
      hide CompleteLines, Partial, Replies, EndedPart;
      ghost var front := EndedPart(output);
      PhaseReplies();
      StartOfText(output, text);
      output := output + text;
      pending := pending + text;
      ghost var whole := output;
      while LINE_FEED in pending
        invariant output == whole && whole == front + pending && Partial(front) == []
        invariant phase == |CompleteLines(front)| <= 2 && CompleteLines(front) <= CompleteLines(output)
        invariant sent == SentAt(phase) && stdinOpen == (phase < 2)
        invariant Replies(rules, CompleteLines(front))
        decreases |pending|
      {
        var end := IndexOf(pending, LINE_FEED);
        var line := pending[..end];
        NextLine(front, pending, end);
        pending := pending[end + 1..];
        NextReply(rules, CompleteLines(front), line);
        FirstReplies(rules, CompleteLines(front), CompleteLines(output));
        FirstReplies(rules, CompleteLines(front) + [line], CompleteLines(output));
        var accepted := OnLine(line);
        if !accepted {
          return false;
        }
        front := front + line + [LINE_FEED];
      }
      AppendPlain(front, pending);
      assert [] + pending == pending;
      FirstReplies(rules, CompleteLines(front), CompleteLines(output));
      return true;
    }

    lemma PhaseReplies()
      requires Valid() && reading
      ensures Replies(rules, CompleteLines(output))
    {
    }

    method OnStdout(bytes: nat, text: Option<Text>)
      requires Valid()
      modifies this
      ensures Valid() && readingErrors == old(readingErrors) && errorSize == old(errorSize)
      ensures !old(reading) ==> !reading && failure == old(failure)
      ensures old(reading) && reading ==>
                text.Some? && output == old(output) + text.value && size == old(size) + bytes && failure == old(failure)
      ensures old(reading) ==>
                (reading <==> old(size) + bytes <= STREAM_LIMIT && text.Some? && LinesOk(rules, old(output) + text.value))
      ensures old(reading) && !reading ==>
                failure == if old(failure).Some? then old(failure) else Some(if old(size) + bytes > STREAM_LIMIT then OutputLimit else ResponseInvalid)
    {
      if !reading {
        return;
      }
      size := size + bytes;
      if size > STREAM_LIMIT {
        Fail(OutputLimit);
        reading := false;
        return;
      }
      if text.None? {
        Fail(ResponseInvalid);
        reading := false;
        return;
      }
      var ok := TakeLines(text.value);
      if !ok {
        Fail(ResponseInvalid);
        reading := false;
      }
    }

    /** stderr is counted, then discarded. */
    method OnStderr(bytes: nat, fault: bool)
      requires Valid()
      modifies this`errorSize, this`readingErrors, this`failure
      ensures Valid()
      ensures !old(readingErrors) ==> !readingErrors && failure == old(failure)
      ensures old(readingErrors) && readingErrors ==> errorSize == old(errorSize) + bytes && failure == old(failure)
      ensures old(readingErrors) ==> (readingErrors <==> !fault && old(errorSize) + bytes <= STREAM_LIMIT)
      ensures old(readingErrors) && !readingErrors ==>
                failure == if old(failure).Some? then old(failure) else Some(if fault then ResponseInvalid else OutputLimit)
    {
      if !readingErrors {
        return;
      }
      errorSize := errorSize + bytes;
      if fault || errorSize > STREAM_LIMIT {
        Fail(if fault then ResponseInvalid else OutputLimit);
        readingErrors := false;
      }
    }

    /** The state after these events. */
    ghost predicate Tracks(events: seq<Event>)
      reads this
    {
      && (reading ==> size == StdoutBytes(events) && output == TextOf(events))
      && (readingErrors ==> errorSize == StderrBytes(events))
      && (failure.None? <==> Healthy(rules, events))
      && (failure.Some? ==> exists k :: FirstBreak(rules, events, k) && failure == Some(Blame(events, k)))
    }

    method OnEvent(e: Event, ghost before: seq<Event>)
      requires Valid() && Tracks(before)
      modifies this
      ensures Valid() && Tracks(before + [e])
    {
      hide TextOf, StdoutBytes, StderrBytes, Healthy, LinesOk, CompleteLines, Partial, FirstBreak, Blame;
      if Healthy(rules, before) {
        HealthyPush(rules, before, e);
        BreaksNow(rules, before, e);
      } else {
        HealthyBreaks(rules, before, e);
        BrokenBefore(rules, before, e);
      }
      TotalsPush(before, e);
      match e {
        case Stdout(bytes, text) => OnStdout(bytes, text);
        case Stderr(bytes) => OnStderr(bytes, false);
        case StderrFault => OnStderr(0, true);
        case Deadline => Fail(Timeout);
      }
    }
  }

  /** Moving one line from what is pending to what has ended. */
  lemma NextLine(front: Text, pending: Text, end: nat)
    requires Partial(front) == [] && end < |pending| && pending[end] == LINE_FEED && OneLine(pending[..end])
    ensures var line, more := pending[..end], front + pending[..end] + [LINE_FEED];
      && front + pending == more + pending[end + 1..]
      && CompleteLines(more) == CompleteLines(front) + [line] && Partial(more) == []
      && CompleteLines(more) <= CompleteLines(front + pending)
    ensures CompleteLines(front) <= CompleteLines(front + pending)
  {
    hide CompleteLines, Partial;
    var line, more := pending[..end], front + pending[..end] + [LINE_FEED];
    AppendLine(front, line);
    assert [] + line == line;
    assert front + pending == more + pending[end + 1..];
    PrefixLines(front + pending, |more|);
    PrefixLines(front + pending, |front|);
    assert (front + pending)[..|more|] == more && (front + pending)[..|front|] == front;
  }

  /** Where the lines of what was there end, once more is there. */
  lemma StartOfText(t: Text, more: Text)
    ensures var f := EndedPart(t);
      && t + more == f + (Partial(t) + more) && Partial(f) == [] && CompleteLines(f) == CompleteLines(t)
      && CompleteLines(f) <= CompleteLines(t + more)
  {
    hide CompleteLines, Partial, EndedPart;
    FrontOf(t);
    PrefixLines(t + more, |EndedPart(t)|);
    assert t + more == EndedPart(t) + (Partial(t) + more);
    assert (t + more)[..|EndedPart(t)|] == EndedPart(t);
  }

  /** A text up to and including its last line feed. */
  ghost function EndedPart(t: Text): Text {
    if t == [] then []
    else if t[|t| - 1] == LINE_FEED then t
    else EndedPart(t[..|t| - 1])
  }

  lemma {:induction false} FrontOf(t: Text)
    ensures var f := EndedPart(t); t == f + Partial(t) && Partial(f) == [] && CompleteLines(f) == CompleteLines(t)
  {
    NothingPartial(t);
    if t != [] && t[|t| - 1] != LINE_FEED {
      FrontOf(t[..|t| - 1]);
      assert t == t[..|t| - 1] + [t[|t| - 1]];
      AppendPlain(t[..|t| - 1], [t[|t| - 1]]);
    }
  }

  function IndexOf(t: Text, c: CodeUnit): (k: nat)
    requires c in t
    ensures k < |t| && t[k] == c && c !in t[..k]
  {
    if t[0] == c then 0 else 1 + IndexOf(t[1..], c)
  }

  // The whole run.

  ghost predicate Healthy(rules: Rules, events: seq<Event>) {
    TransportOk(events) && LinesOk(rules, TextOf(events))
  }

  lemma HealthyFront(rules: Rules, events: seq<Event>, e: Event)
    requires Healthy(rules, events + [e])
    ensures Healthy(rules, events)
  {
    var all := events + [e];
    assert all[..|events|] == events;
    assert forall k :: 0 <= k < |events| ==> all[k] == events[k];
    LinesMonotone(rules, TextOf(events), if e.Stdout? && e.text.Some? then e.text.value else []);
  }

  lemma HealthyBreaks(rules: Rules, events: seq<Event>, e: Event)
    requires !Healthy(rules, events)
    ensures !Healthy(rules, events + [e])
  {
    if Healthy(rules, events + [e]) {
      HealthyFront(rules, events, e);
    }
  }

  /** The event after which not all was well any more. */
  ghost predicate FirstBreak(rules: Rules, events: seq<Event>, k: int) {
    0 <= k < |events| && Healthy(rules, events[..k]) && !Healthy(rules, events[..k + 1])
  }

  /** What an event that broke the run is reported as. */
  ghost function Blame(events: seq<Event>, k: int): Failure
    requires 0 <= k < |events|
  {
    match events[k]
    case Deadline => Timeout
    case StderrFault => ResponseInvalid
    case Stderr(_) => OutputLimit
    case Stdout(bytes, _) => if StdoutBytes(events[..k]) + bytes > STREAM_LIMIT then OutputLimit else ResponseInvalid
  }

  lemma BreaksNow(rules: Rules, before: seq<Event>, e: Event)
    requires Healthy(rules, before)
    ensures !Healthy(rules, before + [e]) ==>
              FirstBreak(rules, before + [e], |before|)
              && Blame(before + [e], |before|)
                 == match e
                    case Deadline => Timeout
                    case StderrFault => ResponseInvalid
                    case Stderr(_) => OutputLimit
                    case Stdout(bytes, _) => if StdoutBytes(before) + bytes > STREAM_LIMIT then OutputLimit else ResponseInvalid
  {
    hide Healthy, StdoutBytes;
    var all := before + [e];
    assert all[..|before|] == before && all[..|before| + 1] == all && all[|before|] == e;
  }

  lemma BrokenBefore(rules: Rules, before: seq<Event>, e: Event)
    ensures forall k :: FirstBreak(rules, before, k) ==> FirstBreak(rules, before + [e], k) && Blame(before + [e], k) == Blame(before, k)
  {
    hide Healthy, StdoutBytes;
    forall k | FirstBreak(rules, before, k)
      ensures FirstBreak(rules, before + [e], k) && Blame(before + [e], k) == Blame(before, k)
    {
      var all := before + [e];
      assert all[..k] == before[..k] && all[..k + 1] == before[..k + 1] && all[k] == before[k];
    }
  }

  ghost predicate StaysHealthy(rules: Rules, events: seq<Event>, e: Event) {
    match e
    case Stdout(bytes, text) =>
      StdoutBytes(events) + bytes <= STREAM_LIMIT && text.Some? && LinesOk(rules, TextOf(events) + text.value)
    case Stderr(bytes) => StderrBytes(events) + bytes <= STREAM_LIMIT
    case StderrFault => false
    case Deadline => false
  }

  lemma HealthyPush(rules: Rules, events: seq<Event>, e: Event)
    requires Healthy(rules, events)
    ensures Healthy(rules, events + [e]) <==> StaysHealthy(rules, events, e)
    ensures StdoutBytes(events + [e]) == StdoutBytes(events) + (if e.Stdout? then e.bytes else 0)
    ensures StderrBytes(events + [e]) == StderrBytes(events) + (if e.Stderr? then e.bytes else 0)
    ensures TextOf(events + [e]) == TextOf(events) + (if e.Stdout? && e.text.Some? then e.text.value else [])
  {
    TotalsPush(events, e);
    EventsPush(events, e);
    hide TextOf, StdoutBytes, StderrBytes, LinesOk;
    assert TextOf(events) + [] == TextOf(events);
  }

  lemma EventsPush(events: seq<Event>, e: Event)
    ensures (forall k :: 0 <= k < |events + [e]| ==> EventOk((events + [e])[k]))
       <==> (forall k :: 0 <= k < |events| ==> EventOk(events[k])) && EventOk(e)
  {
    hide EventOk;
    var all := events + [e];
    assert all[|events|] == e && forall k :: 0 <= k < |events| ==> all[k] == events[k];
  }

  /** `flushed` says that the decoder ended cleanly; `exitCode` is the child's. */
  method CollectEngineProcess(rules: Rules, events: seq<Event>, flushed: bool, exitCode: int)
    returns (r: Result<Text, Failure>, session: Session)
    ensures fresh(session) && session.rules == rules
    ensures r.Ok? <==> TransportOk(events) && flushed && exitCode == 0 && BatchAccepts(rules, TextOf(events))
    ensures r.Ok? ==> r.value == TextOf(events)
    ensures !Healthy(rules, events) ==> exists k :: FirstBreak(rules, events, k) && r == Err(Blame(events, k))
    ensures Healthy(rules, events) && r.Err? ==> r.error == ResponseInvalid
    ensures session.Valid() && session.CallsAfterReply()
  {
    session := new Session(rules);
    for i := 0 to |events|
      invariant fresh(session) && session.rules == rules && session.Valid() && session.Tracks(events[..i])
    {
      assert events[..i + 1] == events[..i] + [events[i]];
      session.OnEvent(events[i], events[..i]);
    }
    assert events[..|events|] == events;
    if !flushed {
      session.Fail(ResponseInvalid);
    }
    BatchIsComplete(rules, TextOf(events));
    if session.failure.Some? {
      return Err(session.failure.value), session;
    }
    if session.phase != 2 || session.pending != [] || exitCode != 0 {
      return Err(ResponseInvalid), session;
    }
    return Ok(session.output), session;
  }

  lemma TotalsPush(events: seq<Event>, e: Event)
    ensures StdoutBytes(events + [e]) == StdoutBytes(events) + (if e.Stdout? then e.bytes else 0)
    ensures StderrBytes(events + [e]) == StderrBytes(events) + (if e.Stderr? then e.bytes else 0)
    ensures TextOf(events + [e]) == TextOf(events) + (if e.Stdout? && e.text.Some? then e.text.value else [])
  {
    assert (events + [e])[..|events|] == events;
    assert TextOf(events) + [] == TextOf(events);
  }
}
