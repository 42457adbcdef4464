/** The console's pump as a function on the console's observable state.

    A `View` is everything one pump can read or change: the state, the line
    typed so far, the escape buffer, the argument table, the bytes still to
    be read (the snoop byte, when there is one, in front of the pending
    input), the terminal output, the callbacks dispatched so far, and the
    registry and settings. `PumpSpec` is one call of the pump; the engine's
    `Pump` method is proved to do exactly this, and the lemmas here are
    about what pumping does over time. */
module Machine {
  import opened Bytes
  import opened Terminal
  import opened States
  import opened Tokens
  import opened Registry
  import opened LineEditor
  import opened EscapeDecoder

  /** One call of a command's callback, with the arguments it received
      (`args[0]` is the command's name). */
  datatype Dispatch<H> = Dispatch(command: H, args: seq<seq<Ascii>>)

  datatype View<H> = View(
    state: State,
    line: seq<Ascii>,
    escape: seq<Ascii>,
    argv: seq<Option<nat>>,
    stream: seq<Ascii>,
    out: seq<Ascii>,
    events: seq<Dispatch<H>>,
    entries: seq<Entry<H>>,
    cap: nat,
    echo: bool,
    prompt: Option<seq<Ascii>>)

  /** An argument table with every slot cleared. */
  function Cleared(n: nat): (t: seq<Option<nat>>)
    ensures |t| == n && forall i :: 0 <= i < n ==> t[i].None?
  {
    seq(n, i => None)
  }

  /** An argument table of `n` slots holding `starts`, the rest cleared. */
  function Filled(starts: seq<nat>, n: nat): (t: seq<Option<nat>>)
    ensures |t| == n
    ensures forall i :: 0 <= i < n ==> t[i] == if i < |starts| then Some(starts[i]) else None
  {
    seq(n, i requires 0 <= i < n => if i < |starts| then Some(starts[i]) else None)
  }

  /** What the console writes for a line whose first word names no command:
      a quote, the word, and "' not found" with a newline, each through the
      translating path. */
  function NotFound(name: seq<Ascii>): seq<Ascii> {
    TranslateString(QUOTE) + TranslateString(name) + TranslateString(NOT_FOUND)
  }

  const QUOTE: seq<Ascii> := "'"
  const NOT_FOUND: seq<Ascii> := "' not found\n"

  /** What dispatching a command writes: the built-in list command lists the
      registry; a user callback's own effects are not part of the model. */
  function CommandOutput<H>(entries: seq<Entry<H>>, e: Entry<H>): seq<Ascii> {
    if e.callback == ListCommand then Listing(entries) else []
  }

  /** The ParseInput state: split the line in place into at most one
      argument per table slot, look the first argument up and call its
      command's callback, or say it was not found; then start a new
      command. */
  function ParseSpec<H>(v: View<H>): View<H> {
    var c := CutFrom(v.line, 0, |v.argv|);
    var args := Capture(v.line, |v.argv|);
    var v' := v.(line := c.buf, argv := Filled(c.starts, |v.argv|), state := StartNewCommand);
    if args == [] then v'
    else match Find(v.entries, args[0])
      case Some(i) =>
        v'.(events := v.events + [Dispatch(v.entries[i].handle, args)],
            out := v.out + CommandOutput(v.entries, v.entries[i]))
      case None => v'.(out := v.out + NotFound(args[0]))
  }

  /** The WaitForClient state: the first byte is read and put back to be
      read again, and the console starts a command. */
  function WaitSpec<H>(v: View<H>): View<H> {
    if v.stream == [] then v else v.(state := StartNewCommand)
  }

  /** The StartNewCommand state: the line and the argument table are
      emptied, the prompt is written, and input is read next. */
  function PromptSpec<H>(v: View<H>): View<H> {
    v.(line := [], argv := Cleared(|v.argv|),
       out := v.out + TranslateString(PromptText(v.prompt)), state := ReadInput)
  }

  /** The ReadInput state: one quantum of the line editor; the escape
      buffer is emptied when an escape sequence starts. */
  function ReadSpec<H>(v: View<H>): View<H> {
    var e := ReadQuantum(v.line, v.out, v.stream, 0, v.cap, v.echo, READ_QUANTUM);
    v.(line := e.line, out := e.out, stream := v.stream[e.pos..], state := e.next,
       escape := if e.next == ReadEscapeSequence then [] else v.escape)
  }

  /** The ReadEscapeSequence state: one quantum of the escape decoder. */
  function EscapeSpec<H>(v: View<H>): View<H> {
    var s := EscapeScan(v.escape, v.out, v.stream, 0, READ_QUANTUM);
    v.(escape := s.buf, out := s.out, stream := v.stream[s.pos..], state := s.next)
  }

  /** One pump: the state function of the current state. */
  function PumpSpec<H>(v: View<H>): View<H> {
    match v.state
      case WaitForClient => WaitSpec(v)
      case StartNewCommand => PromptSpec(v)
      case ReadInput => ReadSpec(v)
      case ReadEscapeSequence => EscapeSpec(v)
      case ParseEscapeSequence => v.(state := ReadInput)
      case ParseInput => ParseSpec(v)
  }

  /** `n` applications of `step`. */
  function Iterate<T>(step: T -> T, v: T, n: nat): T
    decreases n
  {
    if n == 0 then v else Iterate(step, step(v), n - 1)
  }

  /** `n` pumps. */
  function Run<H>(v: View<H>, n: nat): View<H> {
    Iterate(PumpSpec, v, n)
  }

  /** What holds of every console between pumps: the line fits its
      capacity, which is at least the minimum, and holds only printable
      bytes except right after it was split; the escape buffer fits; the
      argument table has at least one slot; command names are unique C
      strings, and so is a custom prompt. */
  predicate Inv<H>(v: View<H>) {
    && MIN_LINE_LENGTH <= v.cap
    && |v.line| <= v.cap
    && (v.state != StartNewCommand ==> PrintableText(v.line))
    && |v.escape| <= CS_BUFFER_SIZE
    && MIN_ARG_COUNT <= |v.argv|
    && UniqueNames(v.entries)
    && (forall i :: 0 <= i < |v.entries| ==> IsCString(v.entries[i].name))
    && (v.prompt.Some? ==> IsCString(v.prompt.value))
  }

  /** Printable text is a C string. */
  lemma PrintableIsCString(s: seq<Ascii>)
    requires PrintableText(s)
    ensures IsCString(s)
  {
    forall i | 0 <= i < |s| ensures s[i] != NUL {
      assert IsPrintable(s[i]);
    }
  }

  /** Every pump keeps the invariant. */
  lemma PumpKeepsInv<H>(v: View<H>)
    requires Inv(v)
    ensures Inv(PumpSpec(v))
  {
    match v.state
      case ReadInput =>
        QuantumLine(v.line, v.out, v.stream, 0, v.cap, v.echo, READ_QUANTUM);
      case ReadEscapeSequence =>
        ScanBounds(v.escape, v.out, v.stream, 0, READ_QUANTUM);
      case ParseInput =>
        ParseKeepsInv(v);
      case _ =>
  }

  /** Parsing a line keeps the invariant: the split line keeps its length. */
  lemma ParseKeepsInv<H>(v: View<H>)
    requires Inv(v) && v.state == ParseInput
    ensures Inv(ParseSpec(v))
  {
    PrintableIsCString(v.line);
    assert v.line[0..] == v.line;
    CutFromWords(v.line, 0, |v.argv|);
  }

  /** How the state after a pump relates to the state before: at most a
      quantum of bytes read from the front of the stream, output and
      dispatched callbacks only appended to, registry and settings left
      alone, and callbacks dispatched only by parsing a line. */
  ghost predicate Advances<H>(v: View<H>, w: View<H>) {
    && |w.stream| <= |v.stream| <= |w.stream| + READ_QUANTUM
    && w.stream == v.stream[|v.stream| - |w.stream|..]
    && v.out <= w.out
    && v.events <= w.events
    && (v.state != ParseInput ==> w.events == v.events)
    && w.entries == v.entries && w.cap == v.cap && w.echo == v.echo && w.prompt == v.prompt
    && |w.argv| == |v.argv|
  }

  /** Every pump advances the console. */
  lemma PumpBounds<H>(v: View<H>)
    requires Inv(v)
    ensures Advances(v, PumpSpec(v))
  {
    match v.state
      case ReadInput =>
        ReadInputAdvances(v);
      case ReadEscapeSequence =>
        EscapeAdvances(v);
      case ParseInput =>
        assert v.stream[0..] == v.stream;
        assert PumpSpec(v) == ParseSpec(v);
      case _ =>
        assert v.stream[0..] == v.stream;
  }

  /** A ReadInput pump advances the console. */
  lemma ReadInputAdvances<H>(v: View<H>)
    requires v.state == ReadInput
    ensures Advances(v, PumpSpec(v))
  {
    QuantumBounds(v.line, v.out, v.stream, 0, v.cap, v.echo, READ_QUANTUM);
    var e := ReadQuantum(v.line, v.out, v.stream, 0, v.cap, v.echo, READ_QUANTUM);
    assert |v.stream[e.pos..]| == |v.stream| - e.pos;
  }

  /** A ReadEscapeSequence pump advances the console. */
  lemma EscapeAdvances<H>(v: View<H>)
    requires v.state == ReadEscapeSequence && |v.escape| <= CS_BUFFER_SIZE
    ensures Advances(v, PumpSpec(v))
  {
    ScanBounds(v.escape, v.out, v.stream, 0, READ_QUANTUM);
    ScanConserves(v.escape, v.out, v.stream, 0, READ_QUANTUM);
    var s := EscapeScan(v.escape, v.out, v.stream, 0, READ_QUANTUM);
    assert |v.stream[s.pos..]| == |v.stream| - s.pos;
  }

  /** Before the first input byte arrives the console stays silent: any
      number of pumps changes nothing, and in particular writes no prompt. */
  lemma {:induction false} QuietUntilInput<H>(v: View<H>, n: nat)
    requires v.state == WaitForClient && v.stream == []
    ensures Run(v, n) == v
    decreases n
  {
    if n > 0 {
      assert PumpSpec(v) == v;
      QuietUntilInput(v, n - 1);
    }
  }

  /** The first input byte wakes the console: the next pump keeps the byte
      to be read again and the one after writes the prompt (the default
      " # " unless a custom one is set), clears the line and the argument
      table, and starts reading input. */
  lemma FirstByteThenPrompt<H>(v: View<H>)
    requires v.state == WaitForClient && v.stream != []
    ensures Run(v, 1).stream == v.stream && Run(v, 1).out == v.out
    ensures Run(v, 2) == v.(state := ReadInput, line := [], argv := Cleared(|v.argv|),
                            out := v.out + TranslateString(PromptText(v.prompt)))
    ensures v.prompt.None? ==> Run(v, 2).out == v.out + " # "
  {
    assert Run(v, 1) == PumpSpec(v);
    assert Run(v, 2) == PumpSpec(PumpSpec(v));
    if v.prompt.None? {
      var d: seq<Ascii> := " # ";
      assert forall i :: 0 <= i < |d| ==> d[i] != LF && d[i] != BS;
      TranslatePlain(d);
    }
  }

  /** The argument table after a parse reads back the captured words: one
      slot per word, in order, each pointing into the split line at a C
      string equal to the word; the other slots are cleared. When the
      table has room for every word, the captured words are all the words
      of the line. */
  lemma ParseDelivers<H>(v: View<H>)
    requires Inv(v) && v.state == ParseInput
    ensures var w := ParseSpec(v); var args := Capture(v.line, |v.argv|);
            && |w.line| == |v.line| && |w.argv| == |v.argv| && w.state == StartNewCommand
            && (forall j :: 0 <= j < |w.argv| ==> (w.argv[j].Some? <==> j < |args|))
            && (forall j :: 0 <= j < |args| ==>
                  w.argv[j].value < |w.line| && CStringAt(w.line + [NUL], w.argv[j].value) == args[j])
            && (|Words(v.line)| <= |v.argv| ==> args == Words(v.line))
  {
    PrintableIsCString(v.line);
    assert v.line[0..] == v.line;
    CutFromWords(v.line, 0, |v.argv|);
  }

  /** A line whose first word is the name of a registered command calls
      that command's callback, once, with the captured words; the built-in
      list command also writes the listing. */
  lemma ParseDispatches<H>(v: View<H>, i: nat)
    requires Inv(v) && v.state == ParseInput
    requires i < |v.entries| && Words(v.line) != [] && Words(v.line)[0] == v.entries[i].name
    ensures var w := ParseSpec(v);
            && w.events == v.events + [Dispatch(v.entries[i].handle, Capture(v.line, |v.argv|))]
            && Capture(v.line, |v.argv|)[0] == v.entries[i].name
            && w.out == v.out + CommandOutput(v.entries, v.entries[i])
            && w.state == StartNewCommand
  {
    var args := Capture(v.line, |v.argv|);
    assert args[0] == Words(v.line)[0];
    FindOwnName(v.entries, i);
  }

  /** A line whose first word names no registered command writes
      "'<word>' not found" and a newline, and calls nothing. */
  lemma ParseNotFound<H>(v: View<H>)
    requires Inv(v) && v.state == ParseInput && Words(v.line) != []
    requires forall i :: 0 <= i < |v.entries| ==> v.entries[i].name != Words(v.line)[0]
    ensures var w := ParseSpec(v);
            && w.out == v.out + "'" + Words(v.line)[0] + "' not found" + [CR, LF]
            && w.events == v.events
            && w.state == StartNewCommand
  {
    var name := Words(v.line)[0];
    assert Capture(v.line, |v.argv|)[0] == name;
    WordsShape(v.line);
    NotFoundText(name);
  }

  /** The not-found message for a printable word, as the terminal receives
      it. */
  lemma NotFoundText(name: seq<Ascii>)
    requires PrintableText(name)
    ensures NotFound(name) == "'" + name + "' not found" + [CR, LF]
  {
    forall i | 0 <= i < |name| ensures name[i] != LF && name[i] != BS {
      assert IsPrintable(name[i]);
    }
    TranslatePlain(name);
    QuoteText();
    SuffixText();
  }

  /** The opening quote is written as it is. */
  lemma QuoteText()
    ensures TranslateString(QUOTE) == QUOTE
  {
    var q: seq<Ascii> := "'";
    assert q[..0] == [];
  }

  /** The rest of the message ends in CR LF. */
  lemma SuffixText()
    ensures TranslateString(NOT_FOUND) == "' not found" + [CR, LF]
  {
    var m: seq<Ascii> := "' not found";
    assert m[0] == '\'' && m[1] == ' ' && m[2] == 'n' && m[3] == 'o' && m[4] == 't' && m[5] == ' ';
    assert m[6] == 'f' && m[7] == 'o' && m[8] == 'u' && m[9] == 'n' && m[10] == 'd' && |m| == 11;
    TranslatePlain(m);
    assert NOT_FOUND == m + [LF];
    TranslateAppend(m, [LF]);
    assert TranslateString([LF]) == [CR, LF] by {
      assert [LF][..0] == [];
    }
  }

  /** A blank line calls nothing and writes nothing. */
  lemma ParseBlank<H>(v: View<H>)
    requires v.state == ParseInput && Words(v.line) == []
    ensures ParseSpec(v).out == v.out && ParseSpec(v).events == v.events
    ensures ParseSpec(v).state == StartNewCommand
  {
  }

  /** Pumping `a + b` times is pumping `a` times, then `b` times. */
  lemma RunSplit<H>(v: View<H>, a: nat, b: nat)
    ensures Run(v, a + b) == Run(Run(v, a), b)
  {
    IterateSplit(PumpSpec, v, a, b);
  }

  /** Iterating `a + b` times is iterating `a` times, then `b` times. */
  lemma {:induction false} IterateSplit<T>(step: T -> T, v: T, a: nat, b: nat)
    ensures Iterate(step, v, a + b) == Iterate(step, Iterate(step, v, a), b)
    decreases a
  {
    if a > 0 {
      IterateSplit(step, step(v), a - 1, b);
    }
  }

  /** Reading with nothing to read changes nothing, however often. */
  lemma {:induction false} DryReadStays<H>(v: View<H>, n: nat)
    requires v.state == ReadInput && v.stream == []
    ensures Run(v, n) == v
    decreases n
  {
    if n > 0 {
      assert v.stream[0..] == [];
      assert PumpSpec(v) == v;
      DryReadStays(v, n - 1);
    }
  }

  /** A printable text that fits the line, then CR, is read a quantum per
      pump: when the text holds `k` whole quanta and less than one more,
      after `k + 1` pumps the text is on the line, echoed when echo is on,
      CR LF is written, and the console parses the line next. */
  lemma {:induction false} ReadLine<H>(v: View<H>, t: seq<Ascii>, rest: seq<Ascii>, k: nat)
    requires v.state == ReadInput && PrintableText(t) && |v.line| + |t| <= v.cap
    requires v.stream == t + [CR] + rest
    requires k * READ_QUANTUM <= |t| < (k + 1) * READ_QUANTUM
    ensures Run(v, k + 1) ==
            v.(state := ParseInput, line := v.line + t, out := v.out + Echo(t, v.echo) + [CR, LF], stream := rest)
    decreases k, 1
  {
    if k == 0 {
      ReadLastQuantum(v, t, rest);
      assert Run(v, 1) == PumpSpec(v);
    } else {
      ReadLineOn(v, t, rest, k);
    }
  }

  /** ReadLine with at least a whole quantum of text left. */
  lemma {:induction false} ReadLineOn<H>(v: View<H>, t: seq<Ascii>, rest: seq<Ascii>, k: nat)
    requires v.state == ReadInput && PrintableText(t) && |v.line| + |t| <= v.cap
    requires v.stream == t + [CR] + rest
    requires 0 < k && k * READ_QUANTUM <= |t| < (k + 1) * READ_QUANTUM
    ensures Run(v, k + 1) ==
            v.(state := ParseInput, line := v.line + t, out := v.out + Echo(t, v.echo) + [CR, LF], stream := rest)
    decreases k, 0
  {
    var n := READ_QUANTUM;
    var w := v.(line := v.line + t[..n], out := v.out + Echo(t[..n], v.echo), stream := t[n..] + [CR] + rest);
    ReadFullRun(v, t, rest, k);
    ReadLine(w, t[n..], rest, k - 1);
    ReadLineGlue(v, w, t, rest);
  }

  /** A run that starts with a whole quantum of ReadLine's text goes on
      from the console that has read it. */
  lemma ReadFullRun<H>(v: View<H>, t: seq<Ascii>, rest: seq<Ascii>, k: nat)
    requires v.state == ReadInput && PrintableText(t) && |v.line| + |t| <= v.cap
    requires v.stream == t + [CR] + rest && READ_QUANTUM <= |t|
    ensures Run(v, k + 1) ==
            Run(v.(line := v.line + t[..READ_QUANTUM], out := v.out + Echo(t[..READ_QUANTUM], v.echo),
                   stream := t[READ_QUANTUM..] + [CR] + rest), k)
    ensures PrintableText(t[READ_QUANTUM..])
  {
    ReadFullQuantum(v, t, rest);
    RunFirst(v, PumpSpec(v), k);
  }

  /** A run whose first pump leads to `w` goes on from `w`. */
  lemma RunFirst<H>(v: View<H>, w: View<H>, k: nat)
    requires PumpSpec(v) == w
    ensures Run(v, k + 1) == Run(w, k)
  {
  }

  /** The line and the output after a whole quantum and the rest of the
      text are the line and the output after the whole text. */
  lemma ReadLineGlue<H>(v: View<H>, w: View<H>, t: seq<Ascii>, rest: seq<Ascii>)
    requires READ_QUANTUM <= |t|
    requires w == v.(line := v.line + t[..READ_QUANTUM], out := v.out + Echo(t[..READ_QUANTUM], v.echo),
                     stream := t[READ_QUANTUM..] + [CR] + rest)
    ensures w.(state := ParseInput, line := w.line + t[READ_QUANTUM..], stream := rest,
               out := w.out + Echo(t[READ_QUANTUM..], w.echo) + [CR, LF]) ==
            v.(state := ParseInput, line := v.line + t, out := v.out + Echo(t, v.echo) + [CR, LF], stream := rest)
  {
    var head, tail := t[..READ_QUANTUM], t[READ_QUANTUM..];
    assert head + tail == t;
    Assoc(v.line, head, tail);
    assert Echo(head, v.echo) + Echo(tail, v.echo) == Echo(t, v.echo);
    Assoc(v.out, Echo(head, v.echo), Echo(tail, v.echo));
  }

  /** The last pump of ReadLine: the rest of the text and the CR. */
  lemma ReadLastQuantum<H>(v: View<H>, t: seq<Ascii>, rest: seq<Ascii>)
    requires v.state == ReadInput && PrintableText(t) && |v.line| + |t| <= v.cap
    requires v.stream == t + [CR] + rest && |t| < READ_QUANTUM
    ensures PumpSpec(v) ==
            v.(state := ParseInput, line := v.line + t, out := v.out + Echo(t, v.echo) + [CR, LF], stream := rest)
  {
    var s := v.stream;
    assert forall i :: 0 <= i < |t| ==> s[i] == t[i];
    TypeRun(v.line, v.out, s, 0, |t|, v.cap, v.echo, READ_QUANTUM);
    assert s[0..|t|] == t && s[|t|] == CR && s[|t| + 1..] == rest;
  }

  /** A pump of ReadLine before the last: a whole quantum of the text. */
  lemma ReadFullQuantum<H>(v: View<H>, t: seq<Ascii>, rest: seq<Ascii>)
    requires v.state == ReadInput && PrintableText(t) && |v.line| + |t| <= v.cap
    requires v.stream == t + [CR] + rest && READ_QUANTUM <= |t|
    ensures PumpSpec(v) ==
            v.(line := v.line + t[..READ_QUANTUM], out := v.out + Echo(t[..READ_QUANTUM], v.echo),
               stream := t[READ_QUANTUM..] + [CR] + rest)
    ensures PrintableText(t[READ_QUANTUM..])
  {
    var n, s := READ_QUANTUM, v.stream;
    assert forall i :: 0 <= i < n ==> s[i] == t[i];
    TypeRun(v.line, v.out, s, 0, n, v.cap, v.echo, n);
    assert s[0..n] == t[..n];
    assert s[n..] == t[n..] + [CR] + rest;
    forall i | 0 <= i < |t| - n ensures IsPrintable(t[n..][i]) {
      assert t[n..][i] == t[i + n];
    }
  }

  /** The parsing test of the engine, run on the model: a console that
      knows the command `cmd_1` and receives "cmd_1 arg_1 arg_2     arg_3",
      CR and the NUL that ends the test's buffer calls `cmd_1` once with
      its four words after seven pumps, and after thirty has read all its
      input and called nothing else. */
  lemma ParseExample<H>(v: View<H>, e: Entry<H>)
    requires Inv(v) && v.state == WaitForClient
    requires v.stream == EXAMPLE_LINE + [CR, NUL]
    requires v.entries == [e] && e.name == EXAMPLE_WORDS[0]
    requires 27 <= v.cap && 4 <= |v.argv|
    ensures Run(v, 7).events == v.events + [Dispatch(e.handle, EXAMPLE_WORDS)]
    ensures Run(v, 7).state == StartNewCommand
    ensures Run(v, 30).events == Run(v, 7).events
    ensures Run(v, 30).stream == []
  {
    var t := ExampleText(v.stream);
    ExampleReadsLine(v, t);
    var v6 := Run(v, 6);
    var v7 := ExampleDispatch(v6, e, t);
    RunSplit(v, 6, 1);
    ExampleTail(v7);
    RunSplit(v, 7, 23);
  }

  /** The test's input is its line, CR and NUL; the line is printable and
      its words are the four the test expects. */
  lemma ExampleText(stream: seq<Ascii>) returns (t: seq<Ascii>)
    requires stream == EXAMPLE_LINE + [CR, NUL]
    ensures stream == t + [CR, NUL] && |t| == 27 && PrintableText(t)
    ensures Words(t) == EXAMPLE_WORDS
  {
    t := EXAMPLE_LINE;
    forall i | 0 <= i < |t| ensures IsPrintable(t[i]) {
    }
    WordsExample(t);
  }

  /** The first six pumps of the test: the wake-up, the prompt, and four
      pumps that read the line and its CR. */
  lemma ExampleReadsLine<H>(v: View<H>, t: seq<Ascii>)
    requires v.state == WaitForClient && v.stream == t + [CR, NUL]
    requires |t| == 27 && PrintableText(t) && |t| <= v.cap
    ensures Run(v, 6) ==
            v.(state := ParseInput, line := t, argv := Cleared(|v.argv|), stream := [NUL],
               out := v.out + TranslateString(PromptText(v.prompt)) + Echo(t, v.echo) + [CR, LF])
  {
    FirstByteThenPrompt(v);
    var v2 := Run(v, 2);
    assert v2.stream == t + [CR] + [NUL];
    ReadLine(v2, t, [NUL], 3);
    RunSplit(v, 2, 4);
  }

  /** The seventh pump of the test dispatches the four words to `cmd_1`. */
  lemma ExampleDispatch<H>(v6: View<H>, e: Entry<H>, t: seq<Ascii>) returns (v7: View<H>)
    requires MIN_LINE_LENGTH <= v6.cap && |t| <= v6.cap && PrintableText(t)
    requires |v6.escape| <= CS_BUFFER_SIZE && 4 <= |v6.argv|
    requires v6.entries == [e] && e.name == EXAMPLE_WORDS[0] && IsCString(e.name)
    requires v6.prompt.Some? ==> IsCString(v6.prompt.value)
    requires v6.state == ParseInput && v6.line == t && Words(t) == EXAMPLE_WORDS
    ensures v7 == Run(v6, 1) && v7.state == StartNewCommand && v7.stream == v6.stream
    ensures v7.events == v6.events + [Dispatch(e.handle, EXAMPLE_WORDS)]
  {
    assert Inv(v6);
    ParseDispatches(v6, 0);
    v7 := ParseSpec(v6);
    assert Run(v6, 1) == PumpSpec(v6) == v7;
  }

  /** The rest of the test's thirty pumps: the prompt, the NUL read and
      dropped, then nothing left to read. */
  lemma ExampleTail<H>(v7: View<H>)
    requires v7.state == StartNewCommand && v7.stream == [NUL]
    ensures Run(v7, 23).events == v7.events && Run(v7, 23).stream == []
  {
    var v8 := PromptSpec(v7);
    assert Run(v7, 1) == v8;
    var v9 := ReadSpec(v8);
    assert v8.stream[0] == NUL && v8.stream[1..] == [];
    assert Run(v8, 1) == v9;
    assert v9.state == ReadInput && v9.stream == [] && v9.events == v7.events;
    DryReadStays(v9, 21);
    RunSplit(v7, 1, 1);
    RunSplit(v7, 2, 21);
  }
}
