/**
 An rc file as it is written, line by line, and what the parser of init calls for it:
 which line goes to which parser, and that no line is lost or called twice.
 */
module RcFiles {
  import opened RcParser
  import opened Wrappers

  // ---------------------------------------------------------------------
  // Lines of a file
  // ---------------------------------------------------------------------

  function Texts(words: seq<string>): seq<Token> {
    seq(|words|, i requires 0 <= i < |words| => Text(words[i]))
  }

  /** The tokens of a file of lines, each a list of words, and of words after the last newline. */
  function Tokens(file: seq<seq<string>>, pending: seq<string>): seq<Token> {
    if file == [] then Texts(pending) else Texts(file[0]) + [Newline] + Tokens(file[1..], pending)
  }

  /** The lines that have words, numbered from n + 1. */
  function Numbered(file: seq<seq<string>>, n: nat): seq<Line>
    decreases |file|
  {
    if file == [] then []
    else (if file[0] == [] then [] else [Line(file[0], n + 1)]) + Numbered(file[1..], n + 1)
  }

  lemma LastText(ts: seq<Token>, words: seq<string>)
    requires words != []
    ensures (var all, k := ts + Texts(words), |words| - 1;
             all != [] && all[|all| - 1] == Text(words[k]) && all[..|all| - 1] == ts + Texts(words[..k]))
  {
  }

  lemma {:induction false} MoreTexts(ts: seq<Token>, words: seq<string>)
    ensures Words(ts + Texts(words)) == Words(ts) + words
    ensures Newlines(ts + Texts(words)) == Newlines(ts) && Lines(ts + Texts(words)) == Lines(ts)
    decreases |words|
  {
    if words == [] {
      assert ts + Texts(words) == ts;
    } else {
      hide *;
      var k, all := |words| - 1, ts + Texts(words);
      MoreTexts(ts, words[..k]);
      LastText(ts, words);
      OneMoreText(all, |all| - 1);
      assert all[..|all|] == all;
      assert Words(all) == (Words(ts) + words[..k]) + [words[k]];
      assert words[..k] + [words[k]] == words;
    }
  }

  lemma MoreLine(ts: seq<Token>, words: seq<string>)
    requires Words(ts) == []
    ensures (var all := ts + (Texts(words) + [Newline]);
             && Words(all) == [] && Newlines(all) == Newlines(ts) + 1
             && Lines(all) == Lines(ts) + if words == [] then [] else [Line(words, Newlines(ts) + 1)])
  {
    var before := ts + Texts(words);
    var all := ts + (Texts(words) + [Newline]);
    MoreTexts(ts, words);
    assert all[..|before|] == before && all[..|all|] == all;
    hide Words, Newlines, Lines;
    OneMoreNewline(all, |before|);
    assert Lines(ts) + [] == Lines(ts) && [] + words == words;
  }

  lemma FirstLine(file: seq<seq<string>>, pending: seq<string>, n: nat)
    requires file != []
    ensures Tokens(file, pending) == Texts(file[0]) + [Newline] + Tokens(file[1..], pending)
    ensures Numbered(file, n) == (if file[0] == [] then [] else [Line(file[0], n + 1)]) + Numbered(file[1..], n + 1)
  {
    hide Texts;
  }

  lemma NoLines(pending: seq<string>, n: nat)
    ensures Tokens([], pending) == Texts(pending) && Numbered([], n) == []
  {
  }

  lemma {:induction false} LinesFrom(ts: seq<Token>, file: seq<seq<string>>, pending: seq<string>)
    requires Words(ts) == []
    ensures Lines(ts + Tokens(file, pending)) == Lines(ts) + Numbered(file, Newlines(ts))
    decreases |file|
  {
    hide *;
    if file == [] {
      NoLines(pending, Newlines(ts));
      MoreTexts(ts, pending);
      assert Lines(ts) + [] == Lines(ts);
    } else {
      var first, rest := Texts(file[0]) + [Newline], Tokens(file[1..], pending);
      FirstLine(file, pending, Newlines(ts));
      MoreLine(ts, file[0]);
      LinesFrom(ts + first, file[1..], pending);
      assert (ts + first) + rest == ts + (first + rest);
    }
  }

  /** The parser sees the lines of the file that have words, with their line numbers. */
  lemma LinesOfFile(file: seq<seq<string>>, pending: seq<string>)
    ensures Lines(Tokens(file, pending)) == Numbered(file, 0)
  {
    NoTokens();
    LinesFrom([], file, pending);
    assert [] + Tokens(file, pending) == Tokens(file, pending);
    assert [] + Numbered(file, 0) == Numbered(file, 0);
  }

  // ---------------------------------------------------------------------
  // Which parser gets a line
  // ---------------------------------------------------------------------

  ghost predicate HasPrefix(cfg: Config, line: Line) {
    line.args != [] && exists p :: p in cfg.prefixes && p <= line.args[0]
  }

  ghost predicate NamesSection(cfg: Config, line: Line) {
    line.args != [] && line.args[0] in cfg.sections
  }

  /** The parser's prefix is the first the line begins with. */
  predicate TakenBy(cfg: Config, line: Line, parser: nat) {
    && line.args != [] && parser < |cfg.prefixes| && cfg.prefixes[parser] <= line.args[0]
    && forall i | 0 <= i < parser :: !(cfg.prefixes[i] <= line.args[0])
  }

  lemma PrefixMeans(cfg: Config, line: Line)
    ensures CallbackOf(cfg, line).Some? <==> HasPrefix(cfg, line)
    ensures CallbackOf(cfg, line).Some? ==> TakenBy(cfg, line, CallbackOf(cfg, line).value)
  {
    if HasPrefix(cfg, line) {
      var p :| p in cfg.prefixes && p <= line.args[0];
      var i :| 0 <= i < |cfg.prefixes| && cfg.prefixes[i] == p;
    }
    if CallbackOf(cfg, line).Some? {
      assert cfg.prefixes[CallbackOf(cfg, line).value] in cfg.prefixes;
    }
  }

  lemma KindMeans(cfg: Config, line: Line)
    ensures KindOf(cfg, line) == Callback <==> HasPrefix(cfg, line)
    ensures KindOf(cfg, line) == Opener <==> !HasPrefix(cfg, line) && NamesSection(cfg, line)
  {
    PrefixMeans(cfg, line);
    hide CallbackOf, HasPrefix;
  }

  /** The call is one that its line asks for. */
  ghost predicate Asked(cfg: Config, call: Call) {
    match call
    case LineCallback(parser, line) => TakenBy(cfg, line, parser)
    case ParseSection(s, line) => !HasPrefix(cfg, line) && NamesSection(cfg, line) && s == line.args[0]
    case ParseLine(s, line) => !HasPrefix(cfg, line) && !NamesSection(cfg, line) && s in cfg.sections
    case EndSection(s) => s in cfg.sections
    case EndFile(s) => s in cfg.sections
  }

  ghost predicate AllAsked(cfg: Config, log: seq<Event>) {
    forall e :: e in log ==> Asked(cfg, e.call)
  }

  function LineOf(call: Call): seq<Line> {
    match call
    case LineCallback(_, line) => [line]
    case ParseSection(_, line) => [line]
    case ParseLine(_, line) => [line]
    case _ => []
  }

  /** The lines that calls of the log were made for, in order. */
  function LinesIn(log: seq<Event>): seq<Line> {
    if log == [] then [] else LineOf(log[0].call) + LinesIn(log[1..])
  }

  lemma {:induction false} LinesInConcat(a: seq<Event>, b: seq<Event>)
    ensures LinesIn(a + b) == LinesIn(a) + LinesIn(b)
    decreases |a|
  {
    hide LineOf;
    if a == [] {
      assert a + b == b;
    } else {
      assert (a + b)[1..] == a[1..] + b;
      LinesInConcat(a[1..], b);
    }
  }

  lemma {:induction false} BodyAsked(cfg: Config, section: string, body: seq<Line>, k: nat, oks: Oracle)
    requires section in cfg.sections && forall i | 0 <= i < |body| :: KindOf(cfg, body[i]) == Plain
    ensures AllAsked(cfg, BodyCalls(section, body, k, oks)) && LinesIn(BodyCalls(section, body, k, oks)) == body
    decreases |body|
  {
    hide KindOf;
    if body != [] {
      KindMeans(cfg, body[0]);
      BodyAsked(cfg, section, body[1..], k + 1, oks);
      hide HasPrefix, NamesSection;
      var rest := BodyCalls(section, body[1..], k + 1, oks);
      assert BodyCalls(section, body, k, oks)[1..] == rest;
    }
  }

  lemma SectionAsked(cfg: Config, opener: Line, body: seq<Line>, k: nat, oks: Oracle)
    requires KindOf(cfg, opener) == Opener && opener.args != []
    requires forall i | 0 <= i < |body| :: KindOf(cfg, body[i]) == Plain
    ensures AllAsked(cfg, SectionCalls(opener, body, k, oks))
    ensures LinesIn(SectionCalls(opener, body, k, oks)) == [opener] + if oks(k) then body else []
  {
    KindMeans(cfg, opener);
    var name := opener.args[0];
    var open, end := Event(ParseSection(name, opener), oks(k)), Event(EndSection(name), oks(k + 1 + |body|));
    var calls := BodyCalls(name, body, k + 1, oks);
    BodyAsked(cfg, name, body, k + 1, oks);
    hide KindOf, BodyCalls, HasPrefix;
    assert [open][1..] == [] && [end][1..] == [];
    assert LinesIn([open]) == [opener] && LinesIn([end]) == [];
    if oks(k) {
      LinesInConcat([open], calls);
      LinesInConcat([open] + calls, [end]);
    }
  }

  lemma AskedConcat(cfg: Config, a: seq<Event>, b: seq<Event>)
    requires AllAsked(cfg, a) && AllAsked(cfg, b)
    ensures AllAsked(cfg, a + b)
  {
    hide Asked;
  }

  lemma CallbackAsked(cfg: Config, line: Line, ok: bool)
    requires KindOf(cfg, line) == Callback
    ensures (var e := Event(CallbackCall(cfg, line), ok); AllAsked(cfg, [e]) && LinesIn([e]) == [line])
  {
    var e := Event(CallbackCall(cfg, line), ok);
    PrefixMeans(cfg, line);
    hide KindOf, HasPrefix, TakenBy;
    assert [e][1..] == [];
  }

  lemma NothingAsked(cfg: Config, oks: Oracle, k: nat)
    ensures Calls(cfg, oks, [], k) == [] && AllAsked(cfg, []) && LinesIn([]) == []
  {
  }

  lemma CallsOfFirst(cfg: Config, oks: Oracle, lines: seq<Line>, k: nat)
    requires lines != []
    ensures KindOf(cfg, lines[0]) == Plain ==> Calls(cfg, oks, lines, k) == Calls(cfg, oks, lines[1..], k)
    ensures KindOf(cfg, lines[0]) == Plain ==> Orphans(cfg, lines) == 1 + Orphans(cfg, lines[1..])
    ensures (KindOf(cfg, lines[0]) == Callback ==>
             && Calls(cfg, oks, lines, k)
                == [Event(CallbackCall(cfg, lines[0]), oks(k))] + Calls(cfg, oks, lines[1..], k + 1)
             && Orphans(cfg, lines) == Orphans(cfg, lines[1..]))
  {
    hide KindOf;
  }

  /**
   Every call of the log is one its line asks for: a line whose first word begins with the
   prefix of a single-line parser goes there, one that names a section opens it, and any
   other goes to the section that is open.
   */
  lemma {:induction false} CallsAreAsked(cfg: Config, oks: Oracle, lines: seq<Line>, k: nat)
    ensures AllAsked(cfg, Calls(cfg, oks, lines, k))
    decreases |lines|
  {
    hide *;
    NothingAsked(cfg, oks, k);
    if lines != [] {
      CallsOfFirst(cfg, oks, lines, k);
      match KindOf(cfg, lines[0]) {
        case Plain => CallsAreAsked(cfg, oks, lines[1..], k);
        case Callback =>
          CallsAreAsked(cfg, oks, lines[1..], k + 1);
          CallbackAsked(cfg, lines[0], oks(k));
          AskedConcat(cfg, [Event(CallbackCall(cfg, lines[0]), oks(k))], Calls(cfg, oks, lines[1..], k + 1));
        case Opener =>
          var body, rest := OpenerSplits(cfg, lines);
          CallsOfOpener(cfg, oks, lines, body, rest, k);
          var first := SectionCalls(lines[0], body, k, oks);
          SectionAsked(cfg, lines[0], body, k, oks);
          CallsAreAsked(cfg, oks, rest, k + |first|);
          AskedConcat(cfg, first, Calls(cfg, oks, rest, k + |first|));
      }
    }
  }

  /** When every section opens, every line that is not an orphan is called for, once and in its place. */
  lemma {:induction false} EveryLineOnce(cfg: Config, oks: Oracle, lines: seq<Line>, k: nat)
    requires Orphans(cfg, lines) == 0 && forall i: nat :: oks(i)
    ensures LinesIn(Calls(cfg, oks, lines, k)) == lines
    decreases |lines|
  {
    hide *;
    NothingAsked(cfg, oks, k);
    if lines != [] {
      CallsOfFirst(cfg, oks, lines, k);
      match KindOf(cfg, lines[0]) {
        case Plain =>
        case Callback =>
          EveryLineOnce(cfg, oks, lines[1..], k + 1);
          CallbackAsked(cfg, lines[0], oks(k));
          LinesInConcat([Event(CallbackCall(cfg, lines[0]), oks(k))], Calls(cfg, oks, lines[1..], k + 1));
        case Opener =>
          var body, rest := OpenerSplits(cfg, lines);
          CallsOfOpener(cfg, oks, lines, body, rest, k);
          var first := SectionCalls(lines[0], body, k, oks);
          SectionAsked(cfg, lines[0], body, k, oks);
          EveryLineOnce(cfg, oks, rest, k + |first|);
          LinesInConcat(first, Calls(cfg, oks, rest, k + |first|));
      }
    }
  }

  lemma {:induction false} EndFilesInOrder(names: seq<string>)
    ensures |EndFiles(names)| == |names|
    ensures forall i | 0 <= i < |names| :: EndFiles(names)[i] == Event(EndFile(names[i]), true)
    decreases |names|
  {
    if names != [] {
      EndFilesInOrder(names[..|names| - 1]);
    }
  }

  lemma EndFilesAsked(cfg: Config)
    ensures AllAsked(cfg, EndFiles(cfg.sections))
  {
    var ends := EndFiles(cfg.sections);
    EndFilesInOrder(cfg.sections);
    hide EndFiles;
    forall e | e in ends
      ensures Asked(cfg, e.call)
    {
      var i :| 0 <= i < |ends| && ends[i] == e;
      assert cfg.sections[i] in cfg.sections;
    }
  }

  /**
   A whole file, for every pattern of failures: each call is asked for by its line, and the
   section parsers are told of the end in their order.
   */
  lemma FileIsCalled(cfg: Config, oks: Oracle, file: seq<seq<string>>, pending: seq<string>)
    ensures (var end := Finish(cfg, oks, Run(cfg, oks, START, Lines(Tokens(file, pending))));
             && end.log == Calls(cfg, oks, Numbered(file, 0), 0) + EndFiles(cfg.sections)
             && AllAsked(cfg, end.log)
             && |EndFiles(cfg.sections)| == |cfg.sections|
             && (forall i | 0 <= i < |cfg.sections| ::
                   EndFiles(cfg.sections)[i] == Event(EndFile(cfg.sections[i]), true))
             && end.errors == Failures(end.log) + Orphans(cfg, Numbered(file, 0)))
  {
    hide *;
    LinesOfFile(file, pending);
    ParseMeaning(cfg, oks, Tokens(file, pending));
    CallsAreAsked(cfg, oks, Numbered(file, 0), 0);
    EndFilesInOrder(cfg.sections);
    EndFilesAsked(cfg);
    AskedConcat(cfg, Calls(cfg, oks, Numbered(file, 0), 0), EndFiles(cfg.sections));
  }
}
