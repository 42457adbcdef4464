/** The console engine: the console and command objects, the terminal
    helpers, the state functions and the public interface.

    A console owns a fixed line buffer with room for the line and its
    terminator, a fixed argument table, and a 16-byte escape buffer, and
    keeps its registered commands in a linked list starting at its root;
    every command points back at the console that holds it. Here the list
    is the console's `registry`, the sequence of its nodes in link order,
    and a pointer to a node is the node itself or its position in that
    sequence.

    The transport is two logs: `input` holds the bytes the client has sent
    and the transport's getc has not yet returned (getc returns EOF when it
    is empty), and `output` holds every byte handed to the transport's
    putc, in order. A call of a command's user callback is recorded in
    `dispatched` with the arguments it receives. */
module Engine {
  import opened Bytes
  import opened Terminal
  import opened States
  import opened Tokens
  import opened Registry
  import opened LineEditor
  import opened EscapeDecoder
  import opened Machine

  /** A registered or detached command. */
  class Command {
    /** The console whose list holds the command, or null once it is
        detached. */
    var console: Console?
    const name: seq<Ascii>
    const callback: Callback

    constructor (name: seq<Ascii>, callback: Callback)
      ensures this.console == null && this.name == name && this.callback == callback
    {
      this.console := null;
      this.name := name;
      this.callback := callback;
    }
  }

  /** The nodes of a list. */
  function Nodes(rs: seq<Command>): set<Command> {
    set c | c in rs
  }

  /** The registry entries of a list of command nodes. */
  function EntriesOf(rs: seq<Command>): (es: seq<Entry<Command>>)
    ensures |es| == |rs|
    ensures forall i :: 0 <= i < |rs| ==> es[i] == Entry(rs[i], rs[i].name, rs[i].callback)
  {
    seq(|rs|, i requires 0 <= i < |rs| => Entry(rs[i], rs[i].name, rs[i].callback))
  }

  /** Writing one more character of a string after `before` writes its
      translation. */
  lemma WriteStep(before: seq<Ascii>, s: seq<Ascii>, i: nat)
    requires i < |s|
    ensures before + TranslateString(s[..i + 1]) == (before + TranslateString(s[..i])) + Translate(s[i])
  {
    assert s[..i + 1][..i] == s[..i];
  }

  /** Scans a NUL-terminated stretch of `a` from `p` for the first byte
      that is not whitespace; None when the terminating NUL at `end` comes
      first. */
  method FindFirstNonWhitespace(a: array<Ascii>, p: nat, ghost end: nat) returns (r: Option<nat>)
    requires p <= end < a.Length && a[end] == NUL && IsCString(a[p..end])
    ensures r == if SkipBlank(a[..end], p) == end then None else Some(SkipBlank(a[..end], p))
  {
    assert forall j :: p <= j < end ==> a[j] != NUL by {
      forall j | p <= j < end ensures a[j] != NUL {
        assert a[p..end][j - p] == a[j];
      }
    }
    var i := p;
    while a[i] != NUL
      invariant p <= i <= end
      invariant SkipBlank(a[..end], i) == SkipBlank(a[..end], p)
      decreases end - i
    {
      assert a[..end][i] == a[i];
      if IsWhitespace(a[i]) {
        i := i + 1;
      } else {
        return Some(i);
      }
    }
    return None;
  }

  /** Scans a NUL-terminated stretch of `a` from `p` for the first
      whitespace byte; None when the terminating NUL at `end` comes first. */
  method FindFirstWhitespace(a: array<Ascii>, p: nat, ghost end: nat) returns (r: Option<nat>)
    requires p <= end < a.Length && a[end] == NUL && IsCString(a[p..end])
    ensures r == if SkipSolid(a[..end], p) == end then None else Some(SkipSolid(a[..end], p))
  {
    assert forall j :: p <= j < end ==> a[j] != NUL by {
      forall j | p <= j < end ensures a[j] != NUL {
        assert a[p..end][j - p] == a[j];
      }
    }
    var i := p;
    while a[i] != NUL
      invariant p <= i <= end
      invariant SkipSolid(a[..end], i) == SkipSolid(a[..end], p)
      decreases end - i
    {
      assert a[..end][i] == a[i];
      if IsWhitespace(a[i]) {
        return Some(i);
      } else {
        i := i + 1;
      }
    }
    return None;
  }

  /** The quote and the message around an unknown command's name are C
      strings. */
  lemma NotFoundPiecesAreCStrings()
    ensures IsCString(QUOTE) && IsCString(NOT_FOUND)
  {
    var m := NOT_FOUND;
    assert m[0] == '\'' && m[1] == ' ' && m[2] == 'n' && m[3] == 'o' && m[4] == 't' && m[5] == ' ';
    assert m[6] == 'f' && m[7] == 'o' && m[8] == 'u' && m[9] == 'n' && m[10] == 'd' && m[11] == LF;
  }

  /** Resuming the in-place split of `s` at `p`, after the rounds that
      recorded `starts` and with `n` rounds in all, ends in `final`. */
  predicate Resumes(final: Cut, starts: seq<nat>, s: seq<Ascii>, p: nat, n: nat) {
    && p <= |s| && |starts| <= n
    && var c := CutFrom(s, p, n - |starts|);
       final == Cut(c.buf, starts + c.starts)
  }

  /** A round that finds only whitespace before the end of the line ends
      the split with the starts recorded so far; one whose argument runs to
      the end of the line ends it with that argument's start added. */
  lemma SplitFinish(final: Cut, starts: seq<nat>, s: seq<Ascii>, p: nat, n: nat)
    requires Resumes(final, starts, s, p, n) && |starts| < n
    ensures SkipBlank(s, p) == |s| ==> final == Cut(s, starts)
    ensures SkipBlank(s, p) < |s| && SkipSolid(s, SkipBlank(s, p)) == |s| ==>
              final == Cut(s, starts + [SkipBlank(s, p)])
  {
    assert starts + [] == starts;
  }

  /** After a round that cut `s[q..e]` off, the split still ends in
      `final`: the start `q` joins the recorded ones and the rest of the line
      after the new NUL is split in the remaining rounds. */
  lemma SplitAdvance(final: Cut, starts: seq<nat>, s: seq<Ascii>, p: nat, n: nat, q: nat, e: nat)
    requires Resumes(final, starts, s, p, n) && |starts| < n && IsCString(s[p..])
    requires q == SkipBlank(s, p) < |s| && e == SkipSolid(s, q) < |s|
    ensures IsCString(s[e := NUL][e + 1..])
    ensures Resumes(final, starts + [q], s[e := NUL], e + 1, n)
  {
    var c := CutFrom(s[e := NUL], e + 1, n - |starts| - 1);
    CutFromRound(s, p, n - |starts|, q, e);
    assert starts + ([q] + c.starts) == (starts + [q]) + c.starts;
    CStringSuffix(s, p, e + 1);
    assert s[e := NUL][e + 1..] == s[e + 1..];
  }

  /** The arguments a callback receives from the split line are the
      captured words, and the first one is a C string. */
  lemma ReceivedArguments(line: seq<Ascii>, c: Cut, buf: seq<Ascii>, table: seq<Option<nat>>,
                          received: seq<seq<Ascii>>)
    requires c == CutFrom(line, 0, |table|) && buf == c.buf + [NUL]
    requires CutMatches(c, line, 0, Capture(line, |table|))
    requires table == Filled(c.starts, |table|)
    requires |received| == |c.starts|
    requires forall j :: 0 <= j < |received| ==> received[j] == CStringAt(buf, table[j].value)
    ensures received == Capture(line, |table|)
    ensures received != [] ==> IsCString(received[0])
  {
    if received != [] {
      CStringAtShape(buf, c.starts[0]);
    }
  }

  class Console {
    var registry: seq<Command>

    const argLine: array<Ascii>
    const argLineSize: nat
    var argLineWriteIndex: nat

    const argv: array<Option<nat>>

    var input: seq<Ascii>
    var output: seq<Ascii>
    var snoop: Option<Ascii>

    var state: State

    const csBuffer: array<Ascii>
    var csWriteIndex: nat

    var localEcho: bool
    var mode: Mode

    var prompt: Option<seq<Ascii>>

    var dispatched: seq<Dispatch<Command>>

    /** The bytes still to be read: the snoop byte, when one was put back,
        in front of what the transport holds. */
    function Stream(): seq<Ascii>
      reads this
    {
      (if snoop.Some? then [snoop.value] else []) + input
    }

    /** The buffers have their sizes and the indexes stay inside them. */
    ghost predicate Shaped()
      reads this`argLineWriteIndex, this`csWriteIndex
    {
      && argLine != csBuffer
      && argLine.Length == argLineSize + 1
      && MIN_LINE_LENGTH <= argLineSize
      && argLineWriteIndex <= argLineSize
      && MIN_ARG_COUNT <= argv.Length
      && csBuffer.Length == CS_BUFFER_SIZE
      && csWriteIndex <= CS_BUFFER_SIZE
    }

    /** The line holds only printable bytes, except right after it was
        split. */
    ghost predicate LineOk()
      reads this`state, this`argLineWriteIndex, argLine
    {
      !state.StartNewCommand? ==>
        argLineWriteIndex <= argLine.Length && PrintableText(argLine[..argLineWriteIndex])
    }

    /** The list holds each node once, every node points back here, and
        names are unique C strings. */
    ghost predicate ListOk()
      reads this`registry, registry
    {
      GoodList(this, registry)
    }

    /** Every registered name is a C string. */
    ghost predicate NamesOk()
      reads this`registry
    {
      NamedNodes(registry)
    }

    /** A custom prompt is a C string. */
    ghost predicate PromptOk()
      reads this`prompt
    {
      prompt.Some? ==> IsCString(prompt.value)
    }

    /** The console's invariant. */
    ghost predicate Valid()
      reads this, argLine, registry
    {
      Shaped() && LineOk() && ListOk() && PromptOk()
    }

    /** The line typed so far. */
    ghost function Line(): seq<Ascii>
      requires argLineWriteIndex <= argLine.Length
      reads this`argLineWriteIndex, argLine
    {
      argLine[..argLineWriteIndex]
    }

    /** What a pump can read or change, as the value `PumpSpec` works on. */
    ghost function View(): View<Command>
      requires argLineWriteIndex <= argLine.Length && csWriteIndex <= csBuffer.Length
      reads this, argLine, argv, csBuffer
    {
      Machine.View(state, Line(), csBuffer[..csWriteIndex], argv[..], Stream(), output,
                   dispatched, EntriesOf(registry), argLineSize, localEcho, prompt)
    }

    /** A valid console is a console the pump specification's invariant
        holds of. */
    lemma ViewInv()
      requires Valid()
      ensures Inv(View())
    {
    }

    // ------------------------------------------------------ terminal

    /** Writes one byte as it is. */
    method TermPutcRaw(c: Ascii)
      modifies this`output
      ensures output == old(output) + [c]
    {
      output := output + [c];
    }

    /** Writes a newline the ANSI way: CR LF. */
    method TermPutNewline()
      modifies this`output
      ensures output == old(output) + [CR, LF]
    {
      match mode
        case Ansi =>
          TermPutcRaw(CR);
          TermPutcRaw(LF);
    }

    /** Erases one column the ANSI way: BS SP BS. */
    method TermBackspace()
      modifies this`output
      ensures output == old(output) + [BS, SP, BS]
    {
      match mode
        case Ansi =>
          TermPutcRaw(BS);
          TermPutcRaw(SP);
          TermPutcRaw(BS);
    }

    /** Writes one character through the translating path. */
    method TermPutc(c: Ascii)
      modifies this`output
      ensures output == old(output) + Translate(c)
    {
      if c == LF {
        TermPutNewline();
      } else if c == BS {
        TermBackspace();
      } else {
        TermPutcRaw(c);
      }
    }

    /** Writes the C string `str` points at through the translating path;
        a null pointer writes nothing. */
    method TermPuts(str: Option<seq<Ascii>>)
      modifies this`output
      ensures str.None? ==> output == old(output)
      ensures str.Some? ==> output == old(output) + TranslateString(CString(str.value))
    {
      if str.Some? {
        var s := str.value;
        var i := 0;
        ghost var before := output;
        while i < |s| && s[i] != NUL
          invariant i <= |s| && forall j :: 0 <= j < i ==> s[j] != NUL
          invariant output == before + TranslateString(s[..i])
        {
          WriteStep(before, s, i);
          TermPutc(s[i]);
          i := i + 1;
        }
        assert s[0..i] == s[..i];
        assert IsCString(s[..i]);
        CStringUpTo(s, 0, i);
      }
    }

    /** Writes the C string `str` points at as it is; a null pointer writes
        nothing. */
    method TermPutsRaw(str: Option<seq<Ascii>>)
      modifies this`output
      ensures str.None? ==> output == old(output)
      ensures str.Some? ==> output == old(output) + CString(str.value)
    {
      if str.Some? {
        var s := str.value;
        var i := 0;
        while i < |s| && s[i] != NUL
          invariant i <= |s| && forall j :: 0 <= j < i ==> s[j] != NUL
          invariant output == old(output) + s[..i]
        {
          assert s[..i + 1] == s[..i] + [s[i]];
          TermPutcRaw(s[i]);
          i := i + 1;
        }
        assert s[0..i] == s[..i];
        assert IsCString(s[..i]);
        CStringUpTo(s, 0, i);
      }
    }

    // --------------------------------------------------------- input

    /** Reads the next byte: the snoop byte if one was put back, otherwise
        whatever the transport's getc returns (nothing, for EOF). */
    method GetcRaw() returns (c: Option<Ascii>)
      modifies this`snoop, this`input
      ensures snoop.None?
      ensures c.None? <==> old(Stream()) == []
      ensures old(Stream()) == (if c.Some? then [c.value] else []) + Stream()
    {
      c := snoop;
      snoop := None;
      if c.None? {
        if input != [] {
          c := Some(input[0]);
          input := input[1..];
        }
      }
    }

    /** Puts a byte back, to be read again first. */
    method SetSnoop(c: Ascii)
      modifies this`snoop
      ensures snoop == Some(c)
    {
      snoop := Some(c);
    }

    // ----------------------------------------------------- the states

    /** WaitForClient: the first byte the client sends is put back to be
        read as input, and the console starts a command. */
    method WaitForClient()
      requires Shaped() && LineOk() && state.WaitForClient?
      modifies this`snoop, this`input, this`state
      ensures Shaped() && LineOk() && View() == WaitSpec(old(View()))
    {
      var c := GetcRaw();
      if c.Some? {
        SetSnoop(c.value);
        state := State.StartNewCommand;
      }
    }

    /** Clears every slot of the argument table. */
    method ClearArgv()
      modifies argv
      ensures argv[..] == Cleared(argv.Length)
    {
      for i := 0 to argv.Length
        invariant forall j :: 0 <= j < i ==> argv[j].None?
      {
        argv[i] := None;
      }
    }

    /** StartNewCommand: empties the line and the argument table, writes
        the prompt, and goes on to read input. */
    method StartNewCommand()
      requires Shaped() && PromptOk() && state.StartNewCommand?
      modifies this`argLineWriteIndex, this`output, this`state, argv
      ensures Shaped() && LineOk() && View() == PromptSpec(old(View()))
    {
      ghost var v := View();
      assert argv as object != csBuffer && argv as object != argLine;
      argLineWriteIndex := 0;
      ClearArgv();
      if prompt.None? {
        TermPuts(Some(DEFAULT_PROMPT));
      } else {
        TermPuts(prompt);
      }
      DefaultPromptIsCString();
      CStringWhole(PromptText(prompt));
      state := State.ReadInput;
      assert csBuffer[..csWriteIndex] == v.escape;
      assert View() == PromptSpec(v);
    }

    /** ParseEscapeSequence: a complete sequence is dropped (no sequence
        has a meaning yet) and the console reads input again. */
    method ParseEscapeSequence()
      requires Shaped() && LineOk() && state.ParseEscapeSequence?
      modifies this`state
      ensures Shaped() && LineOk() && View() == old(View()).(state := State.ReadInput)
    {
      match mode
        case Ansi =>
          state := State.ReadInput;
    }

    /** The ReadInput branches for a byte that neither ends the line nor
        starts an escape sequence: one editing key, echoed when it is
        stored and local echo is on. */
    method EditLine(c: Ascii)
      requires argLine.Length == argLineSize + 1 && argLineWriteIndex <= argLineSize
      requires c != CR && c != ESC
      modifies this`argLineWriteIndex, this`output, argLine
      ensures argLineWriteIndex <= argLineSize
      ensures var k := Key(old(argLine[..argLineWriteIndex]), old(output), c, argLineSize, localEcho);
              argLine[..argLineWriteIndex] == k.line && output == k.out
    {
      ghost var line := argLine[..argLineWriteIndex];
      var echo := false;
      if c == NUL {
      } else if c == BS || c == DEL {
        if argLineWriteIndex > 0 {
          TermBackspace();
          argLineWriteIndex := argLineWriteIndex - 1;
          assert argLine[..argLineWriteIndex] == line[..|line| - 1];
        }
      } else if c > '\U{1F}' {
        if argLineWriteIndex < argLineSize {
          argLine[argLineWriteIndex] := c;
          argLineWriteIndex := argLineWriteIndex + 1;
          assert argLine[..argLineWriteIndex] == line + [c];
          echo := localEcho;
        }
      }
      if echo {
        TermPutcRaw(c);
      }
    }

    /** Where a ReadInput pump stands after reading up to position `pos`
        of the bytes `s0` it started with, with `budget` reads left, when
        it is to end in `e`: still reading with `e` ahead, or in front of
        an escape character with `e` reached. */
    ghost predicate Reading(s0: seq<Ascii>, e: Edit, pos: nat, budget: nat)
      reads this, argLine
    {
      && argLine.Length == argLineSize + 1 && argLineWriteIndex <= argLineSize
      && csWriteIndex <= CS_BUFFER_SIZE
      && pos <= |s0| && Stream() == s0[pos..]
      && PrintableText(Line())
      && (state.ReadInput? || state.ReadEscapeSequence?)
      && (state.ReadInput? ==> ReadQuantum(Line(), output, s0, pos, argLineSize, localEcho, budget) == e)
      && (state.ReadEscapeSequence? ==>
            && e == Edit(Line(), output, pos, State.ReadEscapeSequence)
            && csWriteIndex == 0 && pos < |s0| && s0[pos] == ESC)
    }

    /** A ReadInput pump over the bytes `s0` has ended in `e`. */
    ghost predicate Reached(s0: seq<Ascii>, e: Edit)
      reads this, argLine
    {
      && argLine.Length == argLineSize + 1 && argLineWriteIndex <= argLineSize
      && csWriteIndex <= CS_BUFFER_SIZE
      && e.pos <= |s0| && Stream() == s0[e.pos..]
      && PrintableText(Line())
      && Line() == e.line && output == e.out && state == e.next
      && (e.next.ReadEscapeSequence? ==> csWriteIndex == 0)
    }

    /** One pass of the ReadInput loop: reads a byte; stops at EOF or after
        a carriage return, which echoes a newline and hands the line to
        ParseInput; puts an escape character back for the escape decoder;
        edits the line with any other byte. */
    method ReadInputStep(ghost s0: seq<Ascii>, ghost e: Edit, ghost pos: nat, ghost budget: nat)
      returns (stop: bool, ghost pos': nat, ghost budget': nat)
      requires Reading(s0, e, pos, budget) && budget > 0
      modifies this`argLineWriteIndex, this`output, this`snoop, this`input, this`state, this`csWriteIndex, argLine
      ensures stop ==> Reached(s0, e)
      ensures budget' == budget - 1
      ensures !stop ==> Reading(s0, e, pos', budget')
      ensures state.ReadEscapeSequence? || csWriteIndex == old(csWriteIndex)
      ensures old(state).ReadEscapeSequence? ==> state.ReadEscapeSequence?
    {
      ghost var line, out := Line(), output;
      var c := GetcRaw();
      if c.None? {
        assert ReadQuantum(line, out, s0, pos, argLineSize, localEcho, budget) == Edit(line, out, pos, State.ReadInput);
        return true, pos, budget - 1;
      }
      var b := c.value;
      assert b == s0[pos] && Stream() == s0[pos + 1..];
      if b == CR {
        TermPutNewline();
        state := State.ParseInput;
        return true, pos + 1, budget - 1;
      } else if b == ESC {
        SetSnoop(b);
        csWriteIndex := 0;
        state := State.ReadEscapeSequence;
        return false, pos, budget - 1;
      } else {
        QuantumStep(line, out, s0, pos, argLineSize, localEcho, budget);
        KeyKeepsLine(line, out, b, argLineSize, localEcho);
        EditLine(b);
        return false, pos + 1, budget - 1;
      }
    }

    /** The ReadInput loop: at most a quantum of passes, each reading one
        byte. The loop does not stop at an escape character: it reads the
        same byte back until the quantum is spent, which ends the same way
        as stopping. */
    method ReadQuantumLoop(ghost s0: seq<Ascii>, ghost e: Edit)
      requires Reading(s0, e, 0, READ_QUANTUM)
      modifies this`argLineWriteIndex, this`output, this`snoop, this`input, this`state, this`csWriteIndex, argLine
      ensures Reached(s0, e)
      ensures state.ReadEscapeSequence? || csWriteIndex == old(csWriteIndex)
    {
      ghost var pos: nat := 0;
      ghost var budget: nat := READ_QUANTUM;
      var loopLimit := 0;
      while loopLimit < 8
        invariant loopLimit <= 8 && budget == 8 - loopLimit && Reading(s0, e, pos, budget)
        invariant state.ReadEscapeSequence? || csWriteIndex == old(csWriteIndex)
      {
        var stop;
        stop, pos, budget := ReadInputStep(s0, e, pos, budget);
        if stop {
          return;
        }
        loopLimit := loopLimit + 1;
      }
      assert budget == 0;
    }

    /** ReadInput: up to a quantum of bytes edit the line; a carriage
        return echoes a newline and hands the line to ParseInput; an escape
        character is put back for the escape decoder. */
    method ReadInput()
      requires Shaped() && LineOk() && state.ReadInput?
      modifies this`argLineWriteIndex, this`output, this`snoop, this`input, this`state, this`csWriteIndex, argLine
      ensures Shaped() && LineOk() && View() == ReadSpec(old(View()))
    {
      ghost var v := View();
      assert argv as object != argLine;
      ghost var e := ReadQuantum(Line(), output, Stream(), 0, argLineSize, localEcho, READ_QUANTUM);
      ReadQuantumLoop(Stream(), e);
      assert View() == v.(line := e.line, out := e.out, stream := v.stream[e.pos..], state := e.next,
                          escape := if e.next.ReadEscapeSequence? then [] else v.escape);
    }

    /** Where a ReadEscapeSequence pump stands after reading up to position
        `pos` of the bytes `s0` it started with, with `budget` reads left,
        when it is to end in `t`: the sequence is still open and nothing was
        written. */
    ghost predicate Scanning(s0: seq<Ascii>, t: Scan, pos: nat, budget: nat)
      reads this, csBuffer
    {
      && csBuffer.Length == CS_BUFFER_SIZE && csWriteIndex <= CS_BUFFER_SIZE
      && pos <= |s0| && Stream() == s0[pos..]
      && EscapeScan(csBuffer[..csWriteIndex], output, s0, pos, budget) == t
    }

    /** A ReadEscapeSequence loop over the bytes `s0` has ended as `t`
        says, with the sequence left open, cancelled (`abort`, to be
        flushed), or complete (`parse`). */
    ghost predicate ScanEnded(s0: seq<Ascii>, t: Scan, abort: bool, parse: bool)
      reads this, csBuffer
    {
      && csBuffer.Length == CS_BUFFER_SIZE && csWriteIndex <= CS_BUFFER_SIZE
      && t.pos <= |s0| && Stream() == s0[t.pos..]
      && !(abort && parse)
      && (abort ==> t.next.ReadInput? && t.buf == [] && t.out == output + csBuffer[..csWriteIndex])
      && (parse ==> t.next.ParseEscapeSequence? && t.buf == csBuffer[..csWriteIndex] && t.out == output)
      && (!abort && !parse ==> t.next.ReadEscapeSequence? && t.buf == csBuffer[..csWriteIndex] && t.out == output)
    }

    /** One pass of the ReadEscapeSequence loop: reads a byte; stops at
        EOF; cancels the sequence at CAN or SUB; stores the byte while the
        buffer has room and stops when it ends the sequence; otherwise puts
        the byte back and cancels the sequence. */
    method ReadEscapeStep(ghost s0: seq<Ascii>, ghost t: Scan, ghost pos: nat, ghost budget: nat)
      returns (stop: bool, abort: bool, parse: bool, ghost pos': nat, ghost budget': nat)
      requires Scanning(s0, t, pos, budget) && budget > 0
      modifies this`snoop, this`input, this`csWriteIndex, csBuffer
      ensures budget' == budget - 1
      ensures !stop ==> !abort && !parse && Scanning(s0, t, pos', budget')
      ensures stop ==> ScanEnded(s0, t, abort, parse)
    {
      ghost var buf := csBuffer[..csWriteIndex];
      var c := GetcRaw();
      if c.None? {
        return true, false, false, pos, budget - 1;
      }
      var b := c.value;
      assert b == s0[pos] && Stream() == s0[pos + 1..];
      if b == CAN || b == SUB {
        return true, true, false, pos + 1, budget - 1;
      } else if csWriteIndex < CS_BUFFER_SIZE {
        csBuffer[csWriteIndex] := b;
        var index := csWriteIndex;
        csWriteIndex := csWriteIndex + 1;
        assert csBuffer[..csWriteIndex] == buf + [b];
        if index == 1 {
          if b == '[' {
            // a control sequence introducer: at least one more byte
          } else if '\U{40}' <= b <= '\U{5F}' {
            return true, false, true, pos + 1, budget - 1;
          }
        } else if 1 < index {
          if '\U{40}' <= b <= '\U{7E}' {
            return true, false, true, pos + 1, budget - 1;
          }
        }
        ScanStep(buf, output, s0, pos, budget);
        return false, false, false, pos + 1, budget - 1;
      } else {
        SetSnoop(b);
        return true, true, false, pos, budget - 1;
      }
    }

    /** The ReadEscapeSequence loop: at most a quantum of passes. */
    method ReadEscapeLoop(ghost s0: seq<Ascii>, ghost t: Scan) returns (abort: bool, parse: bool)
      requires Scanning(s0, t, 0, READ_QUANTUM)
      modifies this`snoop, this`input, this`csWriteIndex, csBuffer
      ensures ScanEnded(s0, t, abort, parse)
    {
      abort, parse := false, false;
      ghost var pos: nat := 0;
      ghost var budget: nat := READ_QUANTUM;
      var loopLimit := 0;
      while loopLimit < 8
        invariant loopLimit <= 8 && budget == 8 - loopLimit && Scanning(s0, t, pos, budget)
        invariant !abort && !parse
      {
        var stop;
        stop, abort, parse, pos, budget := ReadEscapeStep(s0, t, pos, budget);
        if stop {
          return;
        }
        loopLimit := loopLimit + 1;
      }
      assert budget == 0;
    }

    /** Writes a cancelled escape sequence out raw, empties the buffer and
        goes back to reading input. */
    method FlushEscape()
      requires csWriteIndex <= csBuffer.Length
      modifies this`output, this`csWriteIndex, this`state
      ensures output == old(output) + csBuffer[..old(csWriteIndex)]
      ensures csWriteIndex == 0 && state.ReadInput?
    {
      for i := 0 to csWriteIndex
        invariant output == old(output) + csBuffer[..i]
      {
        assert csBuffer[..i + 1] == csBuffer[..i] + [csBuffer[i]];
        TermPutcRaw(csBuffer[i]);
      }
      csWriteIndex := 0;
      state := State.ReadInput;
    }

    /** ReadEscapeSequence: collects the sequence; a cancelled one is
        written out raw and the console reads input again; a complete one
        is handed to ParseEscapeSequence. */
    method ReadEscapeSequence()
      requires Shaped() && LineOk() && state.ReadEscapeSequence?
      modifies this`snoop, this`input, this`csWriteIndex, this`output, this`state, csBuffer
      ensures Shaped() && LineOk() && View() == EscapeSpec(old(View()))
    {
      ghost var v := View();
      assert argv as object != csBuffer;
      ghost var t := EscapeScan(csBuffer[..csWriteIndex], output, Stream(), 0, READ_QUANTUM);
      var abort, parse := ReadEscapeLoop(Stream(), t);
      if abort {
        FlushEscape();
      } else if parse {
        match mode
          case Ansi =>
            state := State.ParseEscapeSequence;
      }
      assert Line() == v.line && argv[..] == v.argv;
      assert csBuffer[..csWriteIndex] == t.buf && output == t.out && state == t.next;
      assert View() == v.(escape := t.buf, out := t.out, stream := v.stream[t.pos..], state := t.next);
    }

    /** Where the in-place split stands before round `|starts|`, resuming
        at `p`, when it is to end in `final`: the line is still terminated
        and NUL-free from `p` on, and the table holds the starts so far. */
    ghost predicate Splitting(final: Cut, starts: seq<nat>, p: nat)
      reads this, argLine, argv
    {
      && argLine.Length == argLineSize + 1 && argLineWriteIndex <= argLineSize
      && argLine[argLineWriteIndex] == NUL
      && p <= argLineWriteIndex
      && IsCString(argLine[p..argLineWriteIndex])
      && Resumes(final, starts, argLine[..argLineWriteIndex], p, argv.Length)
      && argv[..] == Filled(starts, argv.Length)
    }

    /** One round of the split: finds the next argument, records its start
        and cuts it off with a NUL; stops when the line ends first. */
    method SplitRound(ghost final: Cut, ghost starts: seq<nat>, p: nat, i: nat)
      returns (done: bool, p': nat, argc: nat, ghost starts': seq<nat>)
      requires Splitting(final, starts, p) && i == |starts| < argv.Length
      modifies argLine, argv
      ensures argLine[argLineWriteIndex..] == old(argLine[argLineWriteIndex..])
      ensures argc == |starts'|
      ensures done ==> final == Cut(argLine[..argLineWriteIndex], starts') && argv[..] == Filled(starts', argv.Length)
      ensures !done ==> |starts'| == i + 1 && Splitting(final, starts', p')
    {
      assert argv as object != argLine;
      var w := argLineWriteIndex;
      ghost var cur := argLine[..w];
      assert argLine[p..w] == cur[p..];
      SplitFinish(final, starts, cur, p, argv.Length);
      var start := FindFirstNonWhitespace(argLine, p, w);
      if start.None? {
        return true, p, i, starts;
      }
      var q := start.value;
      argv[i] := Some(q);
      assert argv[..] == Filled(starts + [q], argv.Length);
      CStringSuffix(cur, p, q);
      assert argLine[q..w] == cur[q..];
      assert argLine[..w] == cur;
      var stop := FindFirstWhitespace(argLine, q, w);
      if stop.None? {
        return true, p, i + 1, starts + [q];
      }
      var e := stop.value;
      argLine[e] := NUL;
      assert argLine[..w] == cur[e := NUL];
      assert argLine[e + 1..w] == cur[e := NUL][e + 1..];
      SplitAdvance(final, starts, cur, p, argv.Length, q, e);
      starts' := starts + [q];
      return false, e + 1, i + 1, starts';
    }

    /** Splits the terminated line in place: at most one argument per table
        slot, each recorded by its start and cut off by a NUL written over
        the whitespace that ends it. */
    method SplitArguments() returns (argc: nat)
      requires argLine.Length == argLineSize + 1 && argLineWriteIndex <= argLineSize
      requires argLine[argLineWriteIndex] == NUL && IsCString(argLine[..argLineWriteIndex])
      requires argv[..] == Cleared(argv.Length)
      modifies argLine, argv
      ensures var c := CutFrom(old(argLine[..argLineWriteIndex]), 0, argv.Length);
              && argLine[..argLineWriteIndex] == c.buf
              && argv[..] == Filled(c.starts, argv.Length)
              && argc == |c.starts|
      ensures argLine[argLineWriteIndex..] == old(argLine[argLineWriteIndex..])
    {
      ghost var final := CutFrom(argLine[..argLineWriteIndex], 0, argv.Length);
      ghost var starts: seq<nat> := [];
      assert argLine[0..argLineWriteIndex] == argLine[..argLineWriteIndex];
      assert Filled([], argv.Length) == argv[..];
      var p := 0;
      argc := 0;
      var i := 0;
      while i < argv.Length
        invariant i == |starts| && argc == i
        invariant argLine[argLineWriteIndex..] == old(argLine[argLineWriteIndex..])
        invariant Splitting(final, starts, p)
      {
        var done;
        done, p, argc, starts := SplitRound(final, starts, p, i);
        if done {
          return;
        }
        i := i + 1;
      }
      assert starts + [] == starts;
    }

    /** The argument a table entry points at: the line buffer read from
        `start` up to the next NUL. */
    method ArgumentText(start: nat) returns (arg: seq<Ascii>)
      requires start <= argLineWriteIndex < argLine.Length && argLine[argLineWriteIndex] == NUL
      ensures arg == CStringAt(argLine[..argLineWriteIndex + 1], start)
    {
      var w := argLineWriteIndex;
      var i := start;
      arg := [];
      while argLine[i] != NUL
        invariant start <= i <= w
        invariant arg == argLine[start..i]
        invariant forall j :: start <= j < i ==> argLine[j] != NUL
        decreases w - i
      {
        arg := arg + [argLine[i]];
        i := i + 1;
      }
      ghost var b := argLine[..w + 1];
      assert b[start..i] == arg;
      assert IsCString(b[start..i]) by {
        forall j | 0 <= j < i - start ensures b[start..i][j] != NUL {
          assert b[start..i][j] == argLine[start + j];
        }
      }
      CStringUpTo(b, start, i - start);
    }

    /** The arguments a callback receives: the first `argc` table entries,
        each read as the C string it points at. */
    method Arguments(argc: nat) returns (args: seq<seq<Ascii>>)
      requires argLineWriteIndex < argLine.Length && argLine[argLineWriteIndex] == NUL
      requires argc <= argv.Length
      requires forall j :: 0 <= j < argc ==> argv[j].Some? && argv[j].value <= argLineWriteIndex
      ensures |args| == argc
      ensures forall j :: 0 <= j < argc ==>
                args[j] == CStringAt(argLine[..argLineWriteIndex + 1], argv[j].value)
    {
      args := [];
      for k := 0 to argc
        invariant |args| == k
        invariant forall j :: 0 <= j < k ==>
                    args[j] == CStringAt(argLine[..argLineWriteIndex + 1], argv[j].value)
      {
        var arg := ArgumentText(argv[k].value);
        args := args + [arg];
      }
    }

    /** Walks the list from the root for the first command named `name`. */
    method LocateCommand(name: seq<Ascii>) returns (command: Command?)
      ensures match Find(EntriesOf(registry), name)
                case None => command == null
                case Some(i) => command == registry[i]
    {
      ghost var es := EntriesOf(registry);
      for i := 0 to |registry|
        invariant forall j :: 0 <= j < i ==> es[j].name != name
      {
        if registry[i].name == name {
          assert es[i].name == name;
          return registry[i];
        }
      }
      return null;
    }

    /** One line of the listing: a command's name and a newline. */
    method ListEntry(name: seq<Ascii>)
      requires IsCString(name)
      modifies this`output
      ensures output == old(output) + TranslateString(name) + [CR, LF]
    {
      CStringWhole(name);
      TermPuts(Some(name));
      TermPutNewline();
    }

    /** The built-in list command: every registered name on a line of its
        own, from the root on. */
    method ListCommands()
      requires NamesOk()
      modifies this`output
      ensures output == old(output) + Listing(EntriesOf(registry))
    {
      var commands := registry;
      ghost var es := EntriesOf(commands);
      ghost var listed: seq<Entry<Command>> := [];
      var i := 0;
      while i < |commands|
        invariant i <= |commands| && listed == es[..i]
        invariant output == old(output) + Listing(listed)
      {
        ListEntry(commands[i].name);
        ListingSnoc(listed, es[i]);
        Regroup(old(output), Listing(listed), TranslateString(es[i].name), [CR, LF]);
        listed := listed + [es[i]];
        i := i + 1;
      }
      assert listed == es;
    }

    /** Looks the first argument up and calls the command's callback, or
        writes that the command was not found. */
    method Execute(args: seq<seq<Ascii>>)
      requires args != [] && IsCString(args[0])
      requires NamesOk()
      modifies this`output, this`dispatched
      ensures match Find(EntriesOf(registry), args[0])
                case Some(i) =>
                  && dispatched == old(dispatched) + [Dispatch(registry[i], args)]
                  && output == old(output) + CommandOutput(EntriesOf(registry), EntriesOf(registry)[i])
                case None =>
                  && dispatched == old(dispatched)
                  && output == old(output) + NotFound(args[0])
    {
      var command := LocateCommand(args[0]);
      if command != null {
        if command.callback == ListCommand {
          ListCommands();
        }
        dispatched := dispatched + [Dispatch(command, args)];
      } else {
        ReportNotFound(args[0]);
      }
    }

    /** Writes that no command is named `name`: the name in quotes and
        "not found", through the translating path. */
    method ReportNotFound(name: seq<Ascii>)
      requires IsCString(name)
      modifies this`output
      ensures output == old(output) + NotFound(name)
    {
      NotFoundPiecesAreCStrings();
      CStringWhole(QUOTE);
      CStringWhole(name);
      CStringWhole(NOT_FOUND);
      TermPuts(Some(QUOTE));
      TermPuts(Some(name));
      TermPuts(Some(NOT_FOUND));
    }

    /** ParseInput: terminates the line, splits it into the argument table,
        runs the command the first argument names (or says that none has
        that name), and starts a new command. */
    method ParseInput()
      requires Shaped() && LineOk() && NamesOk() && state.ParseInput?
      modifies this`output, this`state, this`dispatched, argLine, argv
      ensures Shaped() && LineOk() && View() == ParseSpec(old(View()))
    {
      ghost var v := View();
      assert argv as object != argLine && argv as object != csBuffer;
      var argc := SplitLine();
      if argc > 0 {
        RunArguments(v.line, argc);
      }
      state := State.StartNewCommand;
      assert LineOk();
    }

    /** The second half of ParseInput: the callback of the command the
        first argument names receives the arguments, or the console says
        that no command has that name. */
    method RunArguments(ghost line: seq<Ascii>, argc: nat)
      requires argLineWriteIndex < argLine.Length && NamesOk()
      requires var c := CutFrom(line, 0, argv.Length);
               && argLine[..argLineWriteIndex] == c.buf && argLine[argLineWriteIndex] == NUL
               && argv[..] == Filled(c.starts, argv.Length) && argc == |c.starts| > 0
               && CutMatches(c, line, 0, Capture(line, argv.Length))
      modifies this`output, this`dispatched
      ensures var args := Capture(line, argv.Length);
              match Find(EntriesOf(registry), args[0])
                case Some(i) =>
                  && dispatched == old(dispatched) + [Dispatch(registry[i], args)]
                  && output == old(output) + CommandOutput(EntriesOf(registry), EntriesOf(registry)[i])
                case None =>
                  && dispatched == old(dispatched)
                  && output == old(output) + NotFound(args[0])
    {
      ghost var c := CutFrom(line, 0, argv.Length);
      ghost var w := argLineWriteIndex;
      assert argLine[..w + 1] == c.buf + [NUL];
      var received := Arguments(argc);
      ReceivedArguments(line, c, argLine[..w + 1], argv[..], received);
      Execute(received);
    }

    /** The first half of ParseInput: the argument table is cleared, the
        line terminated and split in place. */
    method SplitLine() returns (argc: nat)
      requires Shaped() && LineOk() && state.ParseInput?
      modifies argLine, argv
      ensures var c := CutFrom(old(Line()), 0, argv.Length);
              && Line() == c.buf && argv[..] == Filled(c.starts, argv.Length)
              && argc == |c.starts| && argLine[argLineWriteIndex] == NUL
              && CutMatches(c, old(Line()), 0, Capture(old(Line()), argv.Length))
    {
      assert argv as object != argLine;
      ghost var line := Line();
      var w := argLineWriteIndex;
      ClearArgv();
      argLine[w] := NUL;
      assert argLine[..w] == line;
      PrintableIsCString(line);
      argc := SplitArguments();
      assert line[0..] == line;
      CutFromWords(line, 0, argv.Length);
    }

    // ------------------------------------------------------ pump

    /** Runs the current state's function once. */
    method Pump()
      requires Valid()
      modifies this`argLineWriteIndex, this`output, this`snoop, this`input, this`state,
               this`csWriteIndex, this`dispatched, argLine, argv, csBuffer
      ensures Valid() && View() == PumpSpec(old(View()))
    {
      RunState();
    }

    /** The state switch of one pump, on the line invariants alone; the
        registry and the prompt are outside its frame. */
    method RunState()
      requires Shaped() && LineOk() && NamesOk() && PromptOk()
      modifies this`argLineWriteIndex, this`output, this`snoop, this`input, this`state,
               this`csWriteIndex, this`dispatched, argLine, argv, csBuffer
      ensures Shaped() && LineOk() && View() == PumpSpec(old(View()))
    {
      ghost var v := View();
      match state
        case WaitForClient =>
          WaitForClient();
          assert PumpSpec(v) == WaitSpec(v);
        case StartNewCommand =>
          StartNewCommand();
          assert PumpSpec(v) == PromptSpec(v);
        case ReadInput =>
          ReadInput();
          assert PumpSpec(v) == ReadSpec(v);
        case ReadEscapeSequence =>
          ReadEscapeSequence();
          assert PumpSpec(v) == EscapeSpec(v);
        case ParseEscapeSequence =>
          ParseEscapeSequence();
        case ParseInput =>
          ParseInput();
          assert PumpSpec(v) == ParseSpec(v);
    }

    // ------------------------------------------------------ registry

    /** Where `command` sits in the list: the root, or the node after its
        predecessor. */
    method Position(command: Command) returns (at: Option<nat>)
      requires command.console == this
      ensures at == IndexOf(EntriesOf(registry), command)
    {
      if registry != [] && registry[0] == command {
        assert EntriesOf(registry)[0].handle == command;
        return Some(0);
      }
      var prev := GetPreviousCommand(command);
      if prev.None? {
        return None;
      }
      return Some(prev.value + 1);
    }

    /** Takes `command` out of the list: the root moves on when it is the
        first node, otherwise its predecessor is relinked past it. A good
        list stays good and holds every node but the command. */
    method Unlink(command: Command)
      requires command.console == this
      modifies this`registry
      ensures EntriesOf(registry) == Remove(old(EntriesOf(registry)), command)
      ensures old(ListOk()) ==> ListOk() && Nodes(registry) == Nodes(old(registry)) - {command}
    {
      var rs := registry;
      var at := Position(command);
      if at.Some? {
        var k := at.value;
        EntriesDrop(rs, k);
        if ListOk() {
          DropKeepsList(this, rs, k);
        }
        registry := rs[..k] + rs[k + 1..];
      }
    }

    /** Links `command` in after the last node, or as the root of an empty
        list, and points it back here. A valid console with a detached
        command under a new C-string name stays valid. */
    method Append(command: Command)
      modifies this`registry, command`console
      ensures registry == old(registry) + [command] && command.console == this
      ensures (old(Valid()) && old(command.console) == null && IsCString(command.name) &&
               Find(old(EntriesOf(registry)), command.name).None?) ==> Valid()
    {
      var rs := registry;
      ghost var ok := ListOk() && command.console == null && IsCString(command.name) &&
                      Find(EntriesOf(rs), command.name).None?;
      if ok {
        assert forall i :: 0 <= i < |rs| ==> rs[i] != command by {
          assert forall i :: 0 <= i < |rs| ==> rs[i].console == this;
        }
      }
      command.console := this;
      var last := GetLastCommand(this);
      if last.None? {
        registry := [command];
      } else {
        registry := rs + [command];
      }
      if ok {
        AppendKeepsList(this, rs, command);
      }
    }

    /** Unlinks `command` and detaches it. A good list stays good and holds
        every node but the command; a valid console stays valid. */
    method Unregister(command: Command)
      requires command.console == this
      modifies this`registry, command`console
      ensures command.console == null
      ensures EntriesOf(registry) == Remove(old(EntriesOf(registry)), command)
      ensures old(ListOk()) ==> ListOk() && Nodes(registry) == Nodes(old(registry)) - {command}
      ensures old(Valid()) ==> Valid()
    {
      ghost var ok := ListOk();
      Unlink(command);
      ghost var rs := registry;
      if ok {
        assert forall i :: 0 <= i < |rs| ==> rs[i] != command by {
          assert command !in Nodes(rs);
        }
      }
      command.console := null;
      assert registry == rs;
      if ok {
        assert forall i :: 0 <= i < |rs| ==> rs[i].console == this;
      }
    }

    // ------------------------------------------------------ settings

    /** Sets the terminal mode, and local echo from bit 0 of the flags. */
    method Configure(mode: Mode, flags: bv32)
      modifies this`mode, this`localEcho
      ensures this.mode == mode
      ensures localEcho <==> flags & SET_LOCAL_ECHO != 0
    {
      this.mode := mode;
      localEcho := flags & SET_LOCAL_ECHO != 0;
    }

    /** The transport receives bytes from the client; the next reads
        return them after what was already pending. */
    method Receive(bytes: seq<Ascii>)
      modifies this`input
      ensures input == old(input) + bytes
      ensures Stream() == old(Stream()) + bytes
    {
      input := input + bytes;
    }

    /** A new console: the line capacity is raised to at least 16 and the
        argument count to at least 1; the line buffer has room for the
        terminator, the argument table is cleared, local echo is on, and
        the console waits for its client. */
    constructor (maxArgLineLength: nat, maxArgCount: nat)
      ensures Valid()
      ensures argLineSize == if maxArgLineLength < MIN_LINE_LENGTH then MIN_LINE_LENGTH else maxArgLineLength
      ensures argv.Length == if maxArgCount < MIN_ARG_COUNT then MIN_ARG_COUNT else maxArgCount
      ensures View() == Machine.View(State.WaitForClient, [], [], Cleared(argv.Length), [], [], [], [],
                                     argLineSize, true, None)
      ensures mode == Ansi
      ensures fresh(argLine) && fresh(argv) && fresh(csBuffer)
    {
      registry := [];
      input := [];
      output := [];
      snoop := None;
      state := State.WaitForClient;
      prompt := None;
      var lineLength := if maxArgLineLength < MIN_LINE_LENGTH then MIN_LINE_LENGTH else maxArgLineLength;
      argLineSize := lineLength;
      argLineWriteIndex := 0;
      argLine := new Ascii[lineLength + 1](_ => NUL);
      var argCount := if maxArgCount < MIN_ARG_COUNT then MIN_ARG_COUNT else maxArgCount;
      argv := new Option<nat>[argCount](_ => None);
      csWriteIndex := 0;
      csBuffer := new Ascii[CS_BUFFER_SIZE](_ => NUL);
      dispatched := [];
      new;
      Configure(Ansi, SET_LOCAL_ECHO);
      assert argv[..] == Cleared(argv.Length);
    }
  }


  // -------------------------------------------------------- registry

  /** Walks the list to its last node: None for a null console or an empty
      list, else the position of the last command. */
  method GetLastCommand(console: Console?) returns (last: Option<nat>)
    ensures console == null || console.registry == [] ==> last.None?
    ensures console != null && console.registry != [] ==> last == Some(|console.registry| - 1)
  {
    last := None;
    if console != null {
      var n := |console.registry|;
      var i := 0;
      while i < n
        invariant i <= n
        invariant last == if i == 0 then None else Some(i - 1)
      {
        last := Some(i);
        if i + 1 == n {
          break;
        }
        i := i + 1;
      }
    }
  }

  /** The position of the command linked in front of `command`: None for a
      null or detached command and for the first command. */
  method GetPreviousCommand(command: Command?) returns (prev: Option<nat>)
    ensures command == null || command.console == null ==> prev.None?
    ensures command != null && command.console != null ==>
              var at := IndexOf(EntriesOf(command.console.registry), command);
              && (prev.Some? <==> at.Some? && at.value > 0)
              && (prev.Some? ==> at.value == prev.value + 1)
  {
    prev := None;
    if command == null || command.console == null {
      return;
    }
    var rs := command.console.registry;
    ghost var es := EntriesOf(rs);
    if rs != [] && rs[0] == command {
      return;
    }
    var i := 0;
    while i + 1 < |rs|
      invariant i <= |rs|
      invariant forall j :: 0 <= j <= i && j < |rs| ==> rs[j] != command
    {
      if rs[i + 1] == command {
        assert es[i + 1].handle == command;
        return Some(i);
      }
      i := i + 1;
    }
  }

  /** Links `command` in at the tail of the console's list and points it
      back at the console; a null console leaves the command as it is. */
  method RegisterCommand(console: Console?, command: Command)
    modifies command`console, (if console != null then {console} else {})`registry
    ensures console == null ==> command.console == old(command.console)
    ensures console != null ==> console.registry == old(console.registry) + [command] && command.console == console
    ensures (console != null && old(console.Valid()) && old(command.console) == null &&
             IsCString(command.name) && Find(old(EntriesOf(console.registry)), command.name).None?) ==>
              console.Valid()
  {
    if console != null {
      console.Append(command);
    }
  }

  /** Every node's name is a C string. */
  predicate NamedNodes(rs: seq<Command>) {
    forall i :: 0 <= i < |rs| ==> IsCString(rs[i].name)
  }

  /** A list as a console keeps it: each node once, each pointing back at
      the console, and the names unique C strings. */
  ghost predicate GoodList(console: Console, rs: seq<Command>)
    reads rs
  {
    && (forall i, j :: 0 <= i < j < |rs| ==> rs[i] != rs[j])
    && (forall i :: 0 <= i < |rs| ==> rs[i].console == console)
    && UniqueNames(EntriesOf(rs))
    && NamedNodes(rs)
  }

  /** Appending a detached node under a new C-string name to a good list,
      once it points at the console, leaves a good list. */
  lemma AppendKeepsList(console: Console, rs: seq<Command>, c: Command)
    requires forall i, j :: 0 <= i < j < |rs| ==> rs[i] != rs[j]
    requires forall i :: 0 <= i < |rs| ==> rs[i] != c && rs[i].console == console
    requires UniqueNames(EntriesOf(rs)) && NamedNodes(rs)
    requires c.console == console && IsCString(c.name) && Find(EntriesOf(rs), c.name).None?
    ensures GoodList(console, rs + [c])
  {
    var e := Entry(c, c.name, c.callback);
    AppendFresh(EntriesOf(rs), e);
    assert EntriesOf(rs + [c]) == EntriesOf(rs) + [e];
  }

  /** Dropping one node of a good list leaves a good list without it. */
  lemma DropKeepsList(console: Console, rs: seq<Command>, k: nat)
    requires k < |rs| && GoodList(console, rs)
    ensures GoodList(console, rs[..k] + rs[k + 1..])
    ensures Nodes(rs[..k] + rs[k + 1..]) == Nodes(rs) - {rs[k]}
  {
    var rs' := rs[..k] + rs[k + 1..];
    assert forall i :: 0 <= i < |rs'| ==> rs'[i] == rs[if i < k then i else i + 1];
  }

  /** Dropping one node from a list of nodes drops its entry. */
  lemma EntriesDrop(rs: seq<Command>, k: nat)
    requires k < |rs|
    ensures EntriesOf(rs[..k] + rs[k + 1..]) == EntriesOf(rs)[..k] + EntriesOf(rs)[k + 1..]
  {
  }

  /** Unlinks `command` from its console's list and detaches it; a null
      or detached command is left alone. */
  method UnregisterCommand(command: Command?)
    modifies (if command != null then {command} else {})`console
    modifies (if command != null && command.console != null then {command.console} else {})`registry
    ensures command != null ==> command.console == null
    ensures command != null && old(command.console) != null ==>
              var console := old(command.console);
              && EntriesOf(console.registry) == Remove(old(EntriesOf(console.registry)), command)
              && (old(console.ListOk()) ==>
                    console.ListOk() && Nodes(console.registry) == Nodes(old(console.registry)) - {command})
              && (old(console.Valid()) ==> console.Valid())
  {
    if command != null && command.console != null {
      command.console.Unregister(command);
    }
  }

  // ------------------------------------------------------ public API

  /** Releases a console: every command still in its list is unregistered,
      from the root on, so each is left detached; the commands themselves
      stay with their owners. */
  method FreeConsole(console: Console?)
    requires console != null ==> console.ListOk()
    modifies (if console != null then {console} else {})`registry
    modifies (if console != null then Nodes(console.registry) else {})`console
    ensures console != null ==> console.registry == []
    ensures console != null ==> forall c :: c in old(Nodes(console.registry)) ==> c.console == null
  {
    if console == null {
      return;
    }
    ghost var nodes := Nodes(console.registry);
    while console.registry != []
      invariant console.ListOk()
      invariant Nodes(console.registry) <= nodes
      invariant forall c :: c in nodes - Nodes(console.registry) ==> c.console == null
      modifies console`registry, nodes`console
      decreases |console.registry|
    {
      var root := console.registry[0];
      ghost var es := EntriesOf(console.registry);
      assert IndexOf(es, root) == Some(0);
      RemoveKeepsOrder(es, root);
      UnregisterCommand(root);
    }
  }

  /** Sets a console's terminal mode and local echo; a null console is
      ignored. */
  method ConfigureConsole(console: Console?, mode: Mode, flags: bv32)
    modifies (if console != null then {console} else {})`mode
    modifies (if console != null then {console} else {})`localEcho
    ensures console != null ==> console.mode == mode && (console.localEcho <==> flags & SET_LOCAL_ECHO != 0)
  {
    if console != null {
      console.Configure(mode, flags);
    }
  }

  /** Runs one step of a console's state machine; a null console is
      ignored. */
  method PumpConsole(console: Console?)
    requires console != null ==> console.Valid()
    modifies (if console != null then {console} else {})`argLineWriteIndex
    modifies (if console != null then {console} else {})`output
    modifies (if console != null then {console} else {})`snoop
    modifies (if console != null then {console} else {})`input
    modifies (if console != null then {console} else {})`state
    modifies (if console != null then {console} else {})`csWriteIndex
    modifies (if console != null then {console} else {})`dispatched
    modifies if console != null then {console.argLine, console.csBuffer} else {}
    modifies if console != null then {console.argv} else {}
    ensures console != null ==> console.Valid() && console.View() == PumpSpec(old(console.View()))
  {
    if console != null {
      console.Pump();
    }
  }

  /** Creates a command and registers it with the console. There is no
      command for a missing name or for a name the console already has;
      with a null console the command is created detached. The name is
      copied as a C string. */
  method AllocCommand(console: Console?, name: Option<seq<Ascii>>, callback: Callback) returns (command: Command?)
    requires console != null ==> console.Valid()
    modifies (if console != null then {console} else {})`registry
    ensures name.None? ==> command == null
    ensures name.Some? && console != null && Find(old(EntriesOf(console.registry)), CString(name.value)).Some? ==>
              command == null
    ensures name.Some? && (console == null || Find(old(EntriesOf(console.registry)), CString(name.value)).None?) ==>
              command != null && fresh(command) && command.name == CString(name.value) && command.callback == callback
    ensures console == null && command != null ==> command.console == null
    ensures console != null && command == null ==> console.registry == old(console.registry)
    ensures console != null && command != null ==>
              console.registry == old(console.registry) + [command] && command.console == console &&
              Find(EntriesOf(console.registry), command.name) == Some(|old(console.registry)|)
    ensures console != null ==> console.Valid()
  {
    if name.None? {
      return null;
    }
    var copy := CString(name.value);
    if console != null {
      var found := console.LocateCommand(copy);
      if found != null {
        return null;
      }
    }
    CStringAtShape(name.value, 0);
    command := new Command(copy, callback);
    if console != null {
      ghost var es := EntriesOf(console.registry);
      RegisterCommand(console, command);
      FindAppend(es, Entry(command, copy, callback), copy);
      assert EntriesOf(console.registry) == es + [Entry(command, copy, callback)];
    }
  }

  /** Unregisters a command and releases it; a null command is ignored. */
  method FreeCommand(command: Command?)
    modifies (if command != null then {command} else {})`console
    modifies (if command != null && command.console != null then {command.console} else {})`registry
    ensures command != null ==> command.console == null
    ensures command != null && old(command.console) != null ==>
              var console := old(command.console);
              && EntriesOf(console.registry) == Remove(old(EntriesOf(console.registry)), command)
              && (old(console.ListOk()) ==>
                    console.ListOk() && Nodes(console.registry) == Nodes(old(console.registry)) - {command})
              && (old(console.Valid()) ==> console.Valid())
  {
    UnregisterCommand(command);
  }

  /** Creates the built-in command that lists the console's commands. */
  method AllocListCommand(console: Console?, name: Option<seq<Ascii>>) returns (command: Command?)
    requires console != null ==> console.Valid()
    modifies (if console != null then {console} else {})`registry
    ensures name.None? ==> command == null
    ensures name.Some? && console != null && Find(old(EntriesOf(console.registry)), CString(name.value)).Some? ==>
              command == null
    ensures name.Some? && (console == null || Find(old(EntriesOf(console.registry)), CString(name.value)).None?) ==>
              command != null && fresh(command) && command.name == CString(name.value) && command.callback == ListCommand
    ensures console != null && command != null ==>
              console.registry == old(console.registry) + [command] && command.console == console
    ensures console != null ==> console.Valid()
  {
    command := AllocCommand(console, name, ListCommand);
  }

  /** Replaces the prompt by a copy of `prompt` and returns the copy; with a
      null console or a null prompt nothing happens and the result is
      null. */
  method ReplacePrompt(console: Console?, prompt: Option<seq<Ascii>>) returns (r: Option<seq<Ascii>>)
    modifies (if console != null then {console} else {})`prompt
    ensures console == null || prompt.None? ==> r.None?
    ensures console != null && prompt.None? ==> console.prompt == old(console.prompt)
    ensures console != null && prompt.Some? ==> r == Some(CString(prompt.value)) && console.prompt == r
    ensures console != null && old(console.Valid()) ==> console.Valid()
  {
    if console == null || prompt.None? {
      return None;
    }
    CStringAtShape(prompt.value, 0);
    console.prompt := Some(CString(prompt.value));
    return console.prompt;
  }

  /** Drops the custom prompt, so the default one is used again. */
  method FreePrompt(console: Console)
    modifies console`prompt
    ensures console.prompt.None?
    ensures old(console.Valid()) ==> console.Valid()
  {
    console.prompt := None;
  }

  /** Writes one character to the client through the translating path; a
      null console is ignored. */
  method Putc(console: Console?, c: Ascii)
    modifies (if console != null then {console} else {})`output
    ensures console != null ==> console.output == old(console.output) + Translate(c)
  {
    if console != null {
      console.TermPutc(c);
    }
  }

  /** Writes a C string to the client through the translating path; a null
      console or a null string writes nothing. */
  method Puts(console: Console?, str: Option<seq<Ascii>>)
    modifies (if console != null then {console} else {})`output
    ensures console != null && str.None? ==> console.output == old(console.output)
    ensures console != null && str.Some? ==> console.output == old(console.output) + TranslateString(CString(str.value))
  {
    if console != null {
      console.TermPuts(str);
    }
  }
}
