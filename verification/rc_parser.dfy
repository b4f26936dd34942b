/** The section state machine of init's rc parser, Parser::ParseData. */
module RcParser {
  import opened Wrappers

  datatype Token = Text(text: string) | Newline

  /** Section names in the order of the map, and the prefixes of the single-line parsers. */
  datatype Config = Config(sections: seq<string>, prefixes: seq<string>)

  datatype Line = Line(args: seq<string>, number: nat)

  datatype Call =
    | ParseSection(section: string, line: Line)
    | ParseLine(section: string, line: Line)
    | EndSection(section: string)
    | LineCallback(parser: nat, line: Line)
    | EndFile(section: string)

  /** A call of a section parser or callback, and whether it succeeded. */
  datatype Event = Event(call: Call, ok: bool)

  /** Whether call number k succeeds; every pattern of failures is one such function. */
  type Oracle = nat -> bool

  // ---------------------------------------------------------------------
  // Lines
  // ---------------------------------------------------------------------

  function Newlines(ts: seq<Token>): nat {
    if ts == [] then 0 else Newlines(ts[..|ts| - 1]) + if ts[|ts| - 1].Newline? then 1 else 0
  }

  /** The words of the line that is not ended yet. */
  function Words(ts: seq<Token>): seq<string> {
    if ts == [] || ts[|ts| - 1].Newline? then [] else Words(ts[..|ts| - 1]) + [ts[|ts| - 1].text]
  }

  /** The ended lines that have words, with their numbers. */
  function Lines(ts: seq<Token>): seq<Line> {
    if ts == [] then []
    else
      var init := ts[..|ts| - 1];
      Lines(init) + if ts[|ts| - 1].Newline? && Words(init) != [] then [Line(Words(init), Newlines(init) + 1)] else []
  }

  lemma {:induction false} NoTokens()
    ensures Words([]) == [] && Newlines([]) == 0 && Lines([]) == []
  {
  }

  lemma {:induction false} OneMoreText(ts: seq<Token>, i: nat)
    requires i < |ts| && ts[i].Text?
    ensures Words(ts[..i + 1]) == Words(ts[..i]) + [ts[i].text] && Newlines(ts[..i + 1]) == Newlines(ts[..i])
    ensures Lines(ts[..i + 1]) == Lines(ts[..i])
  {
    assert ts[..i + 1][..i] == ts[..i];
    assert Lines(ts[..i]) + [] == Lines(ts[..i]);
  }

  lemma {:induction false} OneMoreNewline(ts: seq<Token>, i: nat)
    requires i < |ts| && ts[i].Newline?
    ensures Words(ts[..i + 1]) == [] && Newlines(ts[..i + 1]) == Newlines(ts[..i]) + 1
    ensures Lines(ts[..i + 1]) == if Words(ts[..i]) == [] then Lines(ts[..i])
                                  else Lines(ts[..i]) + [Line(Words(ts[..i]), Newlines(ts[..i]) + 1)]
  {
    assert ts[..i + 1][..i] == ts[..i];
    assert Lines(ts[..i]) + [] == Lines(ts[..i]);
  }

  // ---------------------------------------------------------------------
  // What kind of line it is
  // ---------------------------------------------------------------------

  datatype Kind = Callback | Opener | Plain

  /** The single-line parser of a word: the first whose prefix it begins with. */
  function FirstPrefix(word: string, prefixes: seq<string>): (r: Option<nat>)
    ensures r.Some? ==> r.value < |prefixes| && prefixes[r.value] <= word
    ensures forall i | 0 <= i < |prefixes| && (r.Some? ==> i < r.value) :: !(prefixes[i] <= word)
  {
    if prefixes == [] then None
    else if prefixes[0] <= word then Some(0)
    else match FirstPrefix(word, prefixes[1..]) case None => None case Some(i) => Some(i + 1)
  }

  function CallbackOf(cfg: Config, line: Line): Option<nat> {
    if line.args == [] then None else FirstPrefix(line.args[0], cfg.prefixes)
  }

  function CallbackCall(cfg: Config, line: Line): Call
    requires CallbackOf(cfg, line).Some?
  {
    LineCallback(CallbackOf(cfg, line).value, line)
  }

  function KindOf(cfg: Config, line: Line): (k: Kind)
    ensures k == Callback ==> CallbackOf(cfg, line).Some?
  {
    if line.args == [] then Plain
    else if CallbackOf(cfg, line).Some? then Callback
    else if line.args[0] in cfg.sections then Opener
    else Plain
  }

  // ---------------------------------------------------------------------
  // The machine
  // ---------------------------------------------------------------------

  /** section_parser, bad_section_found, the errors counted and the calls made. */
  datatype State = State(current: Option<string>, bad: bool, errors: nat, log: seq<Event>)

  const START: State := State(None, false, 0, [])

  function Add(st: State, call: Call, oks: Oracle): State {
    var ok := oks(|st.log|);
    st.(log := st.log + [Event(call, ok)], errors := st.errors + if ok then 0 else 1)
  }

  /** The lambda end_section. */
  function Close(st: State, oks: Oracle): State {
    if st.current.None? then st.(bad := false)
    else Add(st, EndSection(st.current.value), oks).(current := None, bad := false)
  }

  function DoLine(cfg: Config, oks: Oracle, st: State, line: Line): State {
    match KindOf(cfg, line)
    case Callback => Add(Close(st, oks), CallbackCall(cfg, line), oks)
    case Opener =>
      var closed := Close(st, oks);
      var called := Add(closed, ParseSection(line.args[0], line), oks);
      if oks(|closed.log|) then called.(current := Some(line.args[0])) else called.(bad := true)
    case Plain =>
      if st.current.Some? then Add(st, ParseLine(st.current.value, line), oks)
      else if st.bad then st
      else st.(errors := st.errors + 1)
  }

  function Run(cfg: Config, oks: Oracle, st: State, lines: seq<Line>): State
    decreases |lines|
  {
    if lines == [] then st else Run(cfg, oks, DoLine(cfg, oks, st, lines[0]), lines[1..])
  }

  function EndFiles(names: seq<string>): seq<Event> {
    if names == [] then [] else EndFiles(names[..|names| - 1]) + [Event(EndFile(names[|names| - 1]), true)]
  }

  /** End of file: the open section is closed and every section parser is told. */
  function Finish(cfg: Config, oks: Oracle, st: State): State {
    var closed := Close(st, oks);
    closed.(log := closed.log + EndFiles(cfg.sections))
  }

  lemma {:induction false} RunSnoc(cfg: Config, oks: Oracle, st: State, lines: seq<Line>, line: Line)
    ensures Run(cfg, oks, st, lines + [line]) == DoLine(cfg, oks, Run(cfg, oks, st, lines), line)
    decreases |lines|
  {
    hide DoLine;
    if lines == [] {
      assert lines + [line] == [line] && [line][1..] == [];
    } else {
      assert (lines + [line])[1..] == lines[1..] + [line];
      RunSnoc(cfg, oks, DoLine(cfg, oks, st, lines[0]), lines[1..], line);
    }
  }

  lemma TextStep(cfg: Config, oks: Oracle, tokens: seq<Token>, i: nat)
    requires i < |tokens| && tokens[i].Text?
    ensures Run(cfg, oks, START, Lines(tokens[..i + 1])) == Run(cfg, oks, START, Lines(tokens[..i]))
    ensures Words(tokens[..i + 1]) == Words(tokens[..i]) + [tokens[i].text]
    ensures Newlines(tokens[..i + 1]) == Newlines(tokens[..i])
  {
    hide *;
    OneMoreText(tokens, i);
  }

  lemma NewlineStep(cfg: Config, oks: Oracle, tokens: seq<Token>, i: nat)
    requires i < |tokens| && tokens[i].Newline?
    ensures Words(tokens[..i + 1]) == [] && Newlines(tokens[..i + 1]) == Newlines(tokens[..i]) + 1
    ensures (var st, words := Run(cfg, oks, START, Lines(tokens[..i])), Words(tokens[..i]);
             Run(cfg, oks, START, Lines(tokens[..i + 1]))
             == if words == [] then st else DoLine(cfg, oks, st, Line(words, Newlines(tokens[..i]) + 1)))
  {
    hide *;
    OneMoreNewline(tokens, i);
    if Words(tokens[..i]) != [] {
      RunSnoc(cfg, oks, START, Lines(tokens[..i]), Line(Words(tokens[..i]), Newlines(tokens[..i]) + 1));
    }
  }

  class Parser {
    const cfg: Config
    var errors: nat
    var log: seq<Event>

    constructor (cfg: Config)
      ensures this.cfg == cfg && errors == 0 && log == []
    {
      this.cfg := cfg;
      errors := 0;
      log := [];
    }

    /** Parses one file; the error count goes on from file to file, the log is of this file. */
    method ParseData(tokens: seq<Token>, oks: Oracle)
      modifies this
      ensures log == Finish(cfg, oks, Run(cfg, oks, START, Lines(tokens))).log
      ensures errors == old(errors) + Finish(cfg, oks, Run(cfg, oks, START, Lines(tokens))).errors
    {
      log := [];
      var section: Option<string>, bad, args: seq<string>, number := None, false, [], 0;
      ghost var st := START;
      ghost var before := errors;
      NoTokens();
      assert tokens[..0] == [] && Run(cfg, oks, START, []) == START;
      hide *;
      for i := 0 to |tokens|
        invariant errors >= before && st == State(section, bad, errors - before, log)
        invariant st == Run(cfg, oks, START, Lines(tokens[..i]))
        invariant args == Words(tokens[..i]) && number == Newlines(tokens[..i])
      {
        match tokens[i] {
          case Text(text) =>
            TextStep(cfg, oks, tokens, i);
            args := args + [text];
          case Newline =>
            NewlineStep(cfg, oks, tokens, i);
            number := number + 1;
            if args != [] {
              var line := Line(args, number);
              st := DoLine(cfg, oks, st, line);
              section, bad := OneLine(oks, section, bad, line, before);
            }
            args := [];
        }
      }
      assert tokens[..|tokens|] == tokens;
      AtEndOfFile(oks, section, bad, before);
    }

    /** The end-of-file case. */
    method AtEndOfFile(oks: Oracle, section: Option<string>, bad: bool, ghost before: nat)
      requires errors >= before
      modifies this
      ensures errors >= before
      ensures (var st := Finish(cfg, oks, State(section, bad, old(errors) - before, old(log)));
               log == st.log && errors - before == st.errors)
    {
      if section.Some? {
        Record(EndSection(section.value), oks);
      }
      ghost var closed, counted := log, errors;
      for i := 0 to |cfg.sections|
        invariant errors == counted && log == closed + EndFiles(cfg.sections[..i])
      {
        assert cfg.sections[..i + 1][..i] == cfg.sections[..i];
        log := log + [Event(EndFile(cfg.sections[i]), true)];
      }
      assert cfg.sections[..|cfg.sections|] == cfg.sections;
    }

    /** The body of the newline case. */
    method OneLine(oks: Oracle, section: Option<string>, bad: bool, line: Line, ghost before: nat)
      returns (section': Option<string>, bad': bool)
      requires errors >= before && line.args != []
      modifies this
      ensures errors >= before
      ensures (State(section', bad', errors - before, log)
            == DoLine(cfg, oks, State(section, bad, old(errors) - before, old(log)), line))
    {
      section', bad' := section, bad;
      var kind := KindOf(cfg, line);
      if kind != Plain {
        bad' := false;
        if section.Some? {
          Record(EndSection(section.value), oks);
          section' := None;
        }
      }
      match kind {
        case Callback =>
          Record(CallbackCall(cfg, line), oks);
        case Opener =>
          var ok := oks(|log|);
          Record(ParseSection(line.args[0], line), oks);
          if ok {
            section' := Some(line.args[0]);
          } else {
            bad' := true;
          }
        case Plain =>
          if section.Some? {
            Record(ParseLine(section.value, line), oks);
          } else if !bad {
            errors := errors + 1;
          }
      }
    }

    /** One call; a failed one is counted. */
    method Record(call: Call, oks: Oracle)
      modifies this
      ensures log == old(log) + [Event(call, oks(|old(log)|))]
      ensures errors == old(errors) + if oks(|old(log)|) then 0 else 1
    {
      var ok := oks(|log|);
      log := log + [Event(call, ok)];
      if !ok {
        errors := errors + 1;
      }
    }
  }

  // ---------------------------------------------------------------------
  // What the calls should be: section by section
  // ---------------------------------------------------------------------

  /** How many plain lines there are at the front. */
  function BodyLength(cfg: Config, lines: seq<Line>): (n: nat)
    ensures n <= |lines| && (n < |lines| ==> KindOf(cfg, lines[n]) != Plain)
    ensures forall i | 0 <= i < n :: KindOf(cfg, lines[i]) == Plain
  {
    if lines == [] || KindOf(cfg, lines[0]) != Plain then 0 else 1 + BodyLength(cfg, lines[1..])
  }

  /** The calls for the lines of an open section, from call number k. */
  function BodyCalls(section: string, body: seq<Line>, k: nat, oks: Oracle): (r: seq<Event>)
    ensures |r| == |body|
    decreases |body|
  {
    if body == [] then []
    else [Event(ParseLine(section, body[0]), oks(k))] + BodyCalls(section, body[1..], k + 1, oks)
  }

  /** A section with its opener and its body. */
  function SectionCalls(opener: Line, body: seq<Line>, k: nat, oks: Oracle): seq<Event>
    requires opener.args != []
  {
    var name := opener.args[0];
    if !oks(k) then [Event(ParseSection(name, opener), false)]
    else
      [Event(ParseSection(name, opener), true)] + BodyCalls(name, body, k + 1, oks)
      + [Event(EndSection(name), oks(k + 1 + |body|))]
  }

  /** The calls for all lines: single lines by themselves, sections as a whole. */
  function Calls(cfg: Config, oks: Oracle, lines: seq<Line>, k: nat): seq<Event>
    decreases |lines|
  {
    if lines == [] then []
    else
      match KindOf(cfg, lines[0])
      case Plain => Calls(cfg, oks, lines[1..], k)
      case Callback => [Event(CallbackCall(cfg, lines[0]), oks(k))] + Calls(cfg, oks, lines[1..], k + 1)
      case Opener =>
        var n := BodyLength(cfg, lines[1..]);
        var first := SectionCalls(lines[0], lines[1..n + 1], k, oks);
        first + Calls(cfg, oks, lines[n + 1..], k + |first|)
  }

  /** Plain lines that no opener precedes without a single line in between. */
  function Orphans(cfg: Config, lines: seq<Line>): nat
    decreases |lines|
  {
    if lines == [] then 0
    else
      match KindOf(cfg, lines[0])
      case Plain => 1 + Orphans(cfg, lines[1..])
      case Callback => Orphans(cfg, lines[1..])
      case Opener => Orphans(cfg, lines[BodyLength(cfg, lines[1..]) + 1..])
  }

  function Failures(log: seq<Event>): nat {
    if log == [] then 0 else Failures(log[..|log| - 1]) + if log[|log| - 1].ok then 0 else 1
  }

  lemma {:induction false} FailuresOfConcat(a: seq<Event>, b: seq<Event>)
    ensures Failures(a + b) == Failures(a) + Failures(b)
    decreases |b|
  {
    if b == [] {
      assert a + b == a;
    } else {
      assert (a + b)[..|a + b| - 1] == a + b[..|b| - 1];
      FailuresOfConcat(a, b[..|b| - 1]);
    }
  }

  // ---------------------------------------------------------------------
  // The machine does that
  // ---------------------------------------------------------------------

  /** No section is open and none has failed. */
  predicate Idle(st: State) {
    st.current.None? && !st.bad
  }

  /** The state with more calls made, their failures counted, and idle. */
  function After(st: State, events: seq<Event>, orphans: nat): State {
    State(None, false, st.errors + Failures(events) + orphans, st.log + events)
  }

  lemma {:induction false} CloseTwice(st: State, oks: Oracle)
    ensures Close(Close(st, oks), oks) == Close(st, oks)
  {
  }

  /** A line that is not plain closes first, so closing before it makes no difference. */
  lemma {:induction false} ClosedBefore(cfg: Config, oks: Oracle, st: State, lines: seq<Line>)
    requires lines == [] || KindOf(cfg, lines[0]) != Plain
    ensures Finish(cfg, oks, Run(cfg, oks, st, lines)) == Finish(cfg, oks, Run(cfg, oks, Close(st, oks), lines))
  {
    CloseTwice(st, oks);
    hide Close, KindOf, Add;
  }

  /** The state with the calls for a body made. */
  function WithCalls(st: State, calls: seq<Event>): State {
    st.(errors := st.errors + Failures(calls), log := st.log + calls)
  }

  lemma {:induction false} CallsBehind(st: State, event: Event, others: seq<Event>)
    ensures WithCalls(WithCalls(st, [event]), others) == WithCalls(st, [event] + others)
  {
    FailuresOfConcat([event], others);
    assert (st.log + [event]) + others == st.log + ([event] + others);
  }

  lemma {:induction false} AddIsCall(st: State, call: Call, oks: Oracle)
    ensures Add(st, call, oks) == WithCalls(st, [Event(call, oks(|st.log|))])
  {
    FailureOfOne(Event(call, oks(|st.log|)));
    hide Failures;
  }

  lemma {:induction false} BodyRun(cfg: Config, oks: Oracle, st: State, body: seq<Line>, rest: seq<Line>)
    requires st.current.Some? && forall i | 0 <= i < |body| :: KindOf(cfg, body[i]) == Plain
    ensures (Run(cfg, oks, st, body + rest)
          == Run(cfg, oks, WithCalls(st, BodyCalls(st.current.value, body, |st.log|, oks)), rest))
    decreases |body|
  {
    if body == [] {
      assert body + rest == rest && st.log + [] == st.log;
    } else {
      hide KindOf, WithCalls, Failures, Add;
      var name := st.current.value;
      var event := Event(ParseLine(name, body[0]), oks(|st.log|));
      var others := BodyCalls(name, body[1..], |st.log| + 1, oks);
      var next := WithCalls(st, [event]);
      AddIsCall(st, event.call, oks);
      assert DoLine(cfg, oks, st, body[0]) == next;
      assert (body + rest)[1..] == body[1..] + rest;
      CalledOnce(st, event);
      BodyRun(cfg, oks, next, body[1..], rest);
      CallsBehind(st, event, others);
    }
  }

  lemma {:induction false} CalledOnce(st: State, event: Event)
    ensures var next := WithCalls(st, [event]);
            next.current == st.current && next.bad == st.bad && |next.log| == |st.log| + 1
  {
  }

  lemma {:induction false} FailureOfOne(e: Event)
    ensures Failures([e]) == if e.ok then 0 else 1
  {
    assert Failures([e][..0]) == 0;
  }

  lemma {:induction false} DroppedRun(cfg: Config, oks: Oracle, st: State, body: seq<Line>, rest: seq<Line>)
    requires st.current.None? && st.bad && forall i | 0 <= i < |body| :: KindOf(cfg, body[i]) == Plain
    ensures Run(cfg, oks, st, body + rest) == Run(cfg, oks, st, rest)
    decreases |body|
  {
    if body == [] {
      assert body + rest == rest;
    } else {
      assert (body + rest)[1..] == body[1..] + rest;
      DroppedRun(cfg, oks, st, body[1..], rest);
    }
  }

  lemma {:induction false} SectionOpened(
    cfg: Config, oks: Oracle, st: State, opener: Line, body: seq<Line>, rest: seq<Line>)
    requires Idle(st) && KindOf(cfg, opener) == Opener && oks(|st.log|)
    requires forall i | 0 <= i < |body| :: KindOf(cfg, body[i]) == Plain
    requires rest == [] || KindOf(cfg, rest[0]) != Plain
    ensures (Finish(cfg, oks, Run(cfg, oks, st, [opener] + (body + rest)))
          == Finish(cfg, oks, Run(cfg, oks, WithCalls(st, SectionCalls(opener, body, |st.log|, oks)), rest)))
  {
    var name, k := opener.args[0], |st.log|;
    var open := Event(ParseSection(name, opener), true);
    var st1 := WithCalls(st, [open]).(current := Some(name));
    AddIsCall(st, open.call, oks);
    assert DoLine(cfg, oks, st, opener) == st1;
    assert ([opener] + (body + rest))[1..] == body + rest;
    hide KindOf, DoLine, WithCalls, SectionCalls, BodyCalls, Close;
    BodyRun(cfg, oks, st1, body, rest);
    ClosedBefore(cfg, oks, WithCalls(st1, BodyCalls(name, body, k + 1, oks)), rest);
    ClosedSection(oks, st, opener, body);
  }

  lemma {:induction false} ClosedSection(oks: Oracle, st: State, opener: Line, body: seq<Line>)
    requires Idle(st) && opener.args != [] && oks(|st.log|)
    ensures (var name, k := opener.args[0], |st.log|;
             var st1 := WithCalls(st, [Event(ParseSection(name, opener), true)]).(current := Some(name));
             && |st1.log| == k + 1
             && Close(WithCalls(st1, BodyCalls(name, body, k + 1, oks)), oks)
             == WithCalls(st, SectionCalls(opener, body, k, oks)))
  {
    var name, k := opener.args[0], |st.log|;
    var open, lines := Event(ParseSection(name, opener), true), BodyCalls(name, body, k + 1, oks);
    var end := Event(EndSection(name), oks(k + 1 + |body|));
    FailuresOfConcat([open], lines);
    FailuresOfConcat([open] + lines, [end]);
    FailureOfOne(end);
    hide Failures, BodyCalls;
    assert ((st.log + [open]) + lines) + [end] == st.log + ([open] + lines + [end]);
  }

  lemma {:induction false} SectionFailed(
    cfg: Config, oks: Oracle, st: State, opener: Line, body: seq<Line>, rest: seq<Line>)
    requires Idle(st) && KindOf(cfg, opener) == Opener && !oks(|st.log|)
    requires forall i | 0 <= i < |body| :: KindOf(cfg, body[i]) == Plain
    requires rest == [] || KindOf(cfg, rest[0]) != Plain
    ensures (Finish(cfg, oks, Run(cfg, oks, st, [opener] + (body + rest)))
          == Finish(cfg, oks, Run(cfg, oks, WithCalls(st, SectionCalls(opener, body, |st.log|, oks)), rest)))
  {
    var open := Event(ParseSection(opener.args[0], opener), false);
    var st1 := WithCalls(st, [open]).(bad := true);
    assert DoLine(cfg, oks, st, opener) == st1 by {
      AddIsCall(st, open.call, oks);
    }
    assert ([opener] + (body + rest))[1..] == body + rest;
    DroppedRun(cfg, oks, st1, body, rest);
    ClosedBefore(cfg, oks, st1, rest);
  }

  lemma {:induction false} AfterCalls(st: State, first: seq<Event>, others: seq<Event>, orphans: nat)
    requires Idle(st)
    ensures Idle(WithCalls(st, first)) && |WithCalls(st, first).log| == |st.log| + |first|
    ensures After(WithCalls(st, first), others, orphans) == After(st, first + others, orphans)
  {
    FailuresOfConcat(first, others);
    assert (st.log + first) + others == st.log + (first + others);
  }

  /** From an idle state, the machine makes exactly the calls of the sections. */
  lemma {:induction false} SectionBySection(cfg: Config, oks: Oracle, st: State, lines: seq<Line>)
    requires Idle(st)
    ensures (Finish(cfg, oks, Run(cfg, oks, st, lines))
          == Finish(cfg, oks, After(st, Calls(cfg, oks, lines, |st.log|), Orphans(cfg, lines))))
    decreases |lines|
  {
    if lines == [] {
      assert st.log + [] == st.log;
    } else {
      match KindOf(cfg, lines[0]) {
        case Plain => OrphanFirst(cfg, oks, st, lines);
        case Callback => CallbackFirst(cfg, oks, st, lines);
        case Opener => OpenerFirst(cfg, oks, st, lines);
      }
    }
  }

  lemma {:induction false} OrphanFirst(cfg: Config, oks: Oracle, st: State, lines: seq<Line>)
    requires Idle(st) && lines != [] && KindOf(cfg, lines[0]) == Plain
    ensures (Finish(cfg, oks, Run(cfg, oks, st, lines))
          == Finish(cfg, oks, After(st, Calls(cfg, oks, lines, |st.log|), Orphans(cfg, lines))))
    decreases |lines|, 0
  {
    assert DoLine(cfg, oks, st, lines[0]) == st.(errors := st.errors + 1);
    hide Failures, KindOf, DoLine, Finish;
    SectionBySection(cfg, oks, st.(errors := st.errors + 1), lines[1..]);
  }

  lemma {:induction false} CallbackFirst(cfg: Config, oks: Oracle, st: State, lines: seq<Line>)
    requires Idle(st) && lines != [] && KindOf(cfg, lines[0]) == Callback
    ensures (Finish(cfg, oks, Run(cfg, oks, st, lines))
          == Finish(cfg, oks, After(st, Calls(cfg, oks, lines, |st.log|), Orphans(cfg, lines))))
    decreases |lines|, 0
  {
    var event := Event(CallbackCall(cfg, lines[0]), oks(|st.log|));
    AddIsCall(st, event.call, oks);
    assert DoLine(cfg, oks, st, lines[0]) == WithCalls(st, [event]);
    hide Failures, WithCalls, KindOf, DoLine, Finish, After;
    AfterCalls(st, [event], Calls(cfg, oks, lines[1..], |st.log| + 1), Orphans(cfg, lines[1..]));
    SectionBySection(cfg, oks, WithCalls(st, [event]), lines[1..]);
  }

  lemma {:induction false} OpenerFirst(cfg: Config, oks: Oracle, st: State, lines: seq<Line>)
    requires Idle(st) && lines != [] && KindOf(cfg, lines[0]) == Opener
    ensures (Finish(cfg, oks, Run(cfg, oks, st, lines))
          == Finish(cfg, oks, After(st, Calls(cfg, oks, lines, |st.log|), Orphans(cfg, lines))))
    decreases |lines|, 0
  {
    hide *;
    var body, rest := OpenerSplits(cfg, lines);
    var first := SectionCalls(lines[0], body, |st.log|, oks);
    CallsOfOpener(cfg, oks, lines, body, rest, |st.log|);
    if oks(|st.log|) {
      SectionOpened(cfg, oks, st, lines[0], body, rest);
    } else {
      SectionFailed(cfg, oks, st, lines[0], body, rest);
    }
    AfterCalls(st, first, Calls(cfg, oks, rest, |st.log| + |first|), Orphans(cfg, rest));
    SectionBySection(cfg, oks, WithCalls(st, first), rest);
  }

  lemma {:induction false} OpenerSplits(cfg: Config, lines: seq<Line>) returns (body: seq<Line>, rest: seq<Line>)
    requires lines != [] && KindOf(cfg, lines[0]) == Opener
    ensures |body| == BodyLength(cfg, lines[1..]) && lines == [lines[0]] + (body + rest) && lines[0].args != []
    ensures rest == [] || KindOf(cfg, rest[0]) != Plain
    ensures forall i | 0 <= i < |body| :: KindOf(cfg, body[i]) == Plain
  {
    var tail := lines[1..];
    var n := BodyLength(cfg, tail);
    hide BodyLength;
    body, rest := tail[..n], tail[n..];
    assert tail == body + rest;
  }

  lemma {:induction false} CallsOfOpener(
    cfg: Config, oks: Oracle, lines: seq<Line>, body: seq<Line>, rest: seq<Line>, k: nat)
    requires lines != [] && KindOf(cfg, lines[0]) == Opener
    requires |body| == BodyLength(cfg, lines[1..]) && lines == [lines[0]] + (body + rest)
    ensures lines[0].args != []
    ensures (Calls(cfg, oks, lines, k)
          == SectionCalls(lines[0], body, k, oks)
             + Calls(cfg, oks, rest, k + |SectionCalls(lines[0], body, k, oks)|))
    ensures Orphans(cfg, lines) == Orphans(cfg, rest)
  {
    hide *;
    OpenerHasWords(cfg, lines[0]);
    SlicesOf(lines, lines[0], body, rest);
    CallsStep(cfg, oks, lines, k);
  }

  lemma {:induction false} OpenerHasWords(cfg: Config, line: Line)
    requires KindOf(cfg, line) == Opener
    ensures line.args != []
  {
  }

  lemma {:induction false} SlicesOf(lines: seq<Line>, first: Line, body: seq<Line>, rest: seq<Line>)
    requires lines == [first] + (body + rest)
    ensures lines[1..|body| + 1] == body && lines[|body| + 1..] == rest
  {
  }

  lemma {:induction false} CallsStep(cfg: Config, oks: Oracle, lines: seq<Line>, k: nat)
    requires lines != [] && KindOf(cfg, lines[0]) == Opener && lines[0].args != []
    ensures (var n := BodyLength(cfg, lines[1..]);
             var first := SectionCalls(lines[0], lines[1..n + 1], k, oks);
             && Calls(cfg, oks, lines, k) == first + Calls(cfg, oks, lines[n + 1..], k + |first|)
             && Orphans(cfg, lines) == Orphans(cfg, lines[n + 1..]))
  {
    hide BodyLength, SectionCalls, KindOf;
  }

  // ---------------------------------------------------------------------
  // The calls are well bracketed and the errors add up
  // ---------------------------------------------------------------------

  /**
   Reads a log with `current` the open section: a section opens only when none is
   open, its lines and its end come while it is open, all else while none is.
   */
  predicate Bracketed(log: seq<Event>, current: Option<string>)
    decreases |log|
  {
    if log == [] then current.None?
    else
      var rest := log[1..];
      match log[0].call
      case ParseSection(s, _) => current.None? && Bracketed(rest, if log[0].ok then Some(s) else None)
      case ParseLine(s, _) => current == Some(s) && Bracketed(rest, current)
      case EndSection(s) => current == Some(s) && Bracketed(rest, None)
      case LineCallback(_, _) => current.None? && Bracketed(rest, None)
      case EndFile(_) => current.None? && Bracketed(rest, None)
  }

  lemma {:induction false} BracketedConcat(a: seq<Event>, b: seq<Event>, current: Option<string>)
    requires Bracketed(a, current) && Bracketed(b, None)
    ensures Bracketed(a + b, current)
    decreases |a|
  {
    if a == [] {
      assert a + b == b;
    } else {
      assert (a + b)[1..] == a[1..] + b;
      var next := match a[0].call {
        case ParseSection(s, _) => if a[0].ok then Some(s) else None
        case ParseLine(s, _) => current
        case _ => None
      };
      BracketedConcat(a[1..], b, next);
    }
  }

  lemma {:induction false} BodyIsBracketed(section: string, body: seq<Line>, k: nat, oks: Oracle, end: Event)
    requires end.call == EndSection(section)
    ensures Bracketed(BodyCalls(section, body, k, oks) + [end], Some(section))
    decreases |body|
  {
    var calls := BodyCalls(section, body, k, oks);
    if body == [] {
      assert calls + [end] == [end] && [end][1..] == [];
    } else {
      assert (calls + [end])[1..] == BodyCalls(section, body[1..], k + 1, oks) + [end];
      BodyIsBracketed(section, body[1..], k + 1, oks, end);
    }
  }

  lemma {:induction false} SectionIsBracketed(opener: Line, body: seq<Line>, k: nat, oks: Oracle)
    requires opener.args != []
    ensures Bracketed(SectionCalls(opener, body, k, oks), None)
  {
    var name, calls := opener.args[0], SectionCalls(opener, body, k, oks);
    if oks(k) {
      var end := Event(EndSection(name), oks(k + 1 + |body|));
      BodyIsBracketed(name, body, k + 1, oks, end);
      assert calls[1..] == BodyCalls(name, body, k + 1, oks) + [end];
    } else {
      assert calls[1..] == [];
    }
  }

  lemma {:induction false} CallsAreBracketed(cfg: Config, oks: Oracle, lines: seq<Line>, k: nat)
    ensures Bracketed(Calls(cfg, oks, lines, k), None)
    decreases |lines|
  {
    hide SectionCalls;
    if lines != [] {
      match KindOf(cfg, lines[0]) {
        case Plain => CallsAreBracketed(cfg, oks, lines[1..], k);
        case Callback =>
          CallsAreBracketed(cfg, oks, lines[1..], k + 1);
          assert Calls(cfg, oks, lines, k)[1..] == Calls(cfg, oks, lines[1..], k + 1);
        case Opener =>
          var n := BodyLength(cfg, lines[1..]);
          var first := SectionCalls(lines[0], lines[1..n + 1], k, oks);
          SectionIsBracketed(lines[0], lines[1..n + 1], k, oks);
          CallsAreBracketed(cfg, oks, lines[n + 1..], k + |first|);
          BracketedConcat(first, Calls(cfg, oks, lines[n + 1..], k + |first|), None);
      }
    }
  }

  lemma {:induction false} EndFilesAreBracketed(names: seq<string>)
    ensures Bracketed(EndFiles(names), None) && Failures(EndFiles(names)) == 0
    decreases |names|
  {
    if names != [] {
      var last := Event(EndFile(names[|names| - 1]), true);
      EndFilesAreBracketed(names[..|names| - 1]);
      assert [last][1..] == [];
      BracketedConcat(EndFiles(names[..|names| - 1]), [last], None);
    }
  }

  /** What one ParseData does, for every token stream and every pattern of failures. */
  lemma {:induction false} ParseMeaning(cfg: Config, oks: Oracle, tokens: seq<Token>)
    ensures (var lines, end := Lines(tokens), Finish(cfg, oks, Run(cfg, oks, START, Lines(tokens)));
             && end.log == Calls(cfg, oks, lines, 0) + EndFiles(cfg.sections)
             && Bracketed(end.log, None)
             && end.errors == Failures(end.log) + Orphans(cfg, lines))
  {
    var lines := Lines(tokens);
    var calls := Calls(cfg, oks, lines, 0);
    hide Lines, Run, Calls, Orphans, EndFiles, Bracketed, Failures;
    SectionBySection(cfg, oks, START, lines);
    assert [] + calls == calls;
    CallsAreBracketed(cfg, oks, lines, 0);
    EndFilesAreBracketed(cfg.sections);
    BracketedConcat(calls, EndFiles(cfg.sections), None);
    FailuresOfConcat(calls, EndFiles(cfg.sections));
  }
}
