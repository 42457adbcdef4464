/** What the ReadInput state does in one pump, as a function of the line
    typed so far, the terminal output so far and the pending input.

    One pump reads at most a quantum of bytes. A carriage return ends the
    line (the engine echoes a newline and moves on to parsing); an escape
    character is put back and hands the rest of the stream to the escape
    decoder; every other byte edits the line (see `Key`). */
module LineEditor {
  import opened Bytes
  import opened States

  /** The line and the output after one byte that neither ends the line nor
      starts an escape sequence. */
  datatype Keyed = Keyed(line: seq<Ascii>, out: seq<Ascii>)

  /** One editing byte. NUL does nothing. Backspace and DEL erase the last
      character (and the terminal's copy of it) when there is one. Bytes
      above 0x1F are stored while the line has room, and echoed when they
      are stored and local echo is on. Other control bytes do nothing. */
  function Key(line: seq<Ascii>, out: seq<Ascii>, c: Ascii, cap: nat, echo: bool): Keyed {
    if c == NUL then Keyed(line, out)
    else if c == BS || c == DEL then
      if |line| > 0 then Keyed(line[..|line| - 1], out + [BS, SP, BS]) else Keyed(line, out)
    else if c > '\U{1F}' then
      if |line| < cap then Keyed(line + [c], if echo then out + [c] else out) else Keyed(line, out)
    else Keyed(line, out)
  }

  /** The state after a ReadInput pump: the line, the output, how far into
      the input stream the pump read, and the state the next pump runs. */
  datatype Edit = Edit(line: seq<Ascii>, out: seq<Ascii>, pos: nat, next: State)

  /** ReadInput over at most `budget` bytes of `stream`, from position `p`
      on. */
  function ReadQuantum(line: seq<Ascii>, out: seq<Ascii>, stream: seq<Ascii>, p: nat, cap: nat, echo: bool, budget: nat): (r: Edit)
    ensures p <= |stream| ==> p <= r.pos <= |stream|
    decreases budget
  {
    if budget == 0 || p >= |stream| then Edit(line, out, p, ReadInput)
    else if stream[p] == CR then Edit(line, out + [CR, LF], p + 1, ParseInput)
    else if stream[p] == ESC then Edit(line, out, p, ReadEscapeSequence)
    else
      var k := Key(line, out, stream[p], cap, echo);
      ReadQuantum(k.line, k.out, stream, p + 1, cap, echo, budget - 1)
  }

  /** One pump step over an editing byte: the pump goes on from the edited
      line with one byte less of budget. */
  lemma QuantumStep(line: seq<Ascii>, out: seq<Ascii>, stream: seq<Ascii>, p: nat, cap: nat, echo: bool, budget: nat)
    requires budget > 0 && p < |stream| && stream[p] != CR && stream[p] != ESC
    ensures ReadQuantum(line, out, stream, p, cap, echo, budget) ==
            ReadQuantum(Key(line, out, stream[p], cap, echo).line, Key(line, out, stream[p], cap, echo).out,
                        stream, p + 1, cap, echo, budget - 1)
  {
  }

  /** The line after a pump never outgrows its capacity, and only stored
      (printable) bytes stay in it. */
  lemma {:induction false} QuantumLine(line: seq<Ascii>, out: seq<Ascii>, stream: seq<Ascii>, p: nat, cap: nat, echo: bool, budget: nat)
    requires |line| <= cap && PrintableText(line)
    ensures |ReadQuantum(line, out, stream, p, cap, echo, budget).line| <= cap
    ensures PrintableText(ReadQuantum(line, out, stream, p, cap, echo, budget).line)
    decreases budget
  {
    if budget > 0 && p < |stream| && stream[p] != CR && stream[p] != ESC {
      var k := Key(line, out, stream[p], cap, echo);
      KeyKeepsLine(line, out, stream[p], cap, echo);
      QuantumStep(line, out, stream, p, cap, echo, budget);
      QuantumLine(k.line, k.out, stream, p + 1, cap, echo, budget - 1);
    }
  }

  /** One editing key keeps the line within its capacity and printable. */
  lemma KeyKeepsLine(line: seq<Ascii>, out: seq<Ascii>, c: Ascii, cap: nat, echo: bool)
    requires |line| <= cap && PrintableText(line)
    ensures |Key(line, out, c, cap, echo).line| <= cap
    ensures PrintableText(Key(line, out, c, cap, echo).line)
  {
    var k := Key(line, out, c, cap, echo);
    if |k.line| > |line| {
      assert k.line == line + [c];
    } else if k.line != line {
      assert k.line == line[..|line| - 1];
    }
  }

  /** The progress of one pump from position `p` that ended in `r`: it reads
      at most its budget, output is only appended, and it ends in ReadInput
      only when the input ran dry or the budget was spent. */
  predicate WithinQuantum(out: seq<Ascii>, stream: seq<Ascii>, p: nat, budget: nat, r: Edit) {
    && r.pos <= p + budget
    && out <= r.out
    && r.next in {ReadInput, ParseInput, ReadEscapeSequence}
    && (r.next == ReadInput ==> r.pos == |stream| || r.pos == p + budget)
  }

  /** Every pump stays within its budget. */
  lemma {:induction false} QuantumBounds(line: seq<Ascii>, out: seq<Ascii>, stream: seq<Ascii>, p: nat, cap: nat, echo: bool, budget: nat)
    requires p <= |stream|
    ensures WithinQuantum(out, stream, p, budget, ReadQuantum(line, out, stream, p, cap, echo, budget))
    decreases budget
  {
    if budget > 0 && p < |stream| && stream[p] != CR && stream[p] != ESC {
      var k := Key(line, out, stream[p], cap, echo);
      QuantumStep(line, out, stream, p, cap, echo, budget);
      QuantumBounds(k.line, k.out, stream, p + 1, cap, echo, budget - 1);
    }
  }

  /** How a pump that stops early ends: having consumed a carriage return
      and echoed a newline, or in front of an escape character, which stays
      the next byte to read. */
  predicate EndsAtCommandOrEscape(stream: seq<Ascii>, r: Edit) {
    && (r.next == ParseInput ==>
          0 < r.pos <= |stream| && stream[r.pos - 1] == CR &&
          |r.out| >= 2 && r.out[|r.out| - 2..] == [CR, LF])
    && (r.next == ReadEscapeSequence ==> r.pos < |stream| && stream[r.pos] == ESC)
  }

  /** A pump that ends the line consumed a carriage return and echoed a
      newline; a pump that meets an escape character leaves it as the next
      byte to read. */
  lemma {:induction false} QuantumEnds(line: seq<Ascii>, out: seq<Ascii>, stream: seq<Ascii>, p: nat, cap: nat, echo: bool, budget: nat)
    ensures EndsAtCommandOrEscape(stream, ReadQuantum(line, out, stream, p, cap, echo, budget))
    decreases budget
  {
    if budget == 0 || p >= |stream| {
    } else if stream[p] == CR {
      var o := out + [CR, LF];
      assert o[|o| - 2..] == [CR, LF];
    } else if stream[p] != ESC {
      var k := Key(line, out, stream[p], cap, echo);
      QuantumStep(line, out, stream, p, cap, echo, budget);
      QuantumEnds(k.line, k.out, stream, p + 1, cap, echo, budget - 1);
    }
  }

  /** Backspace, DEL and NUL on an empty line write nothing and leave the
      line empty. */
  lemma EraseEmpty(out: seq<Ascii>, c: Ascii, cap: nat, echo: bool)
    requires c == BS || c == DEL || c == NUL
    ensures Key([], out, c, cap, echo) == Keyed([], out)
  {
  }

  /** A byte typed into a full line is dropped without echo. */
  lemma FullLineDrops(line: seq<Ascii>, out: seq<Ascii>, c: Ascii, cap: nat, echo: bool)
    requires |line| == cap && IsPrintable(c)
    ensures Key(line, out, c, cap, echo) == Keyed(line, out)
  {
  }

  /** The output a run of typed characters produces: the characters
      themselves with local echo, nothing without. */
  function Echo(w: seq<Ascii>, echo: bool): seq<Ascii> {
    if echo then w else []
  }

  /** A printable byte typed into a line with room is stored and echoed. */
  lemma KeyStores(line: seq<Ascii>, out: seq<Ascii>, c: Ascii, cap: nat, echo: bool)
    requires IsPrintable(c) && |line| < cap
    ensures Key(line, out, c, cap, echo) == Keyed(line + [c], out + Echo([c], echo))
  {
  }

  /** Taking the first byte of a slice off and appending it first gives the
      same text. */
  lemma AppendFirst(x: seq<Ascii>, s: seq<Ascii>, p: nat, q: nat, echo: bool)
    requires p < q <= |s|
    ensures x + [s[p]] + s[p + 1..q] == x + s[p..q]
    ensures x + Echo([s[p]], echo) + Echo(s[p + 1..q], echo) == x + Echo(s[p..q], echo)
  {
    assert [s[p]] + s[p + 1..q] == s[p..q];
  }

  /** Typing printable characters that fit appends them to the line and
      echoes them; the pump goes on with the rest of its budget. */
  lemma {:induction false} TypeRun(line: seq<Ascii>, out: seq<Ascii>, stream: seq<Ascii>, p: nat, q: nat,
                                   cap: nat, echo: bool, budget: nat)
    requires p <= q <= |stream| && forall i :: p <= i < q ==> IsPrintable(stream[i])
    requires |line| + (q - p) <= cap && q - p <= budget
    ensures ReadQuantum(line, out, stream, p, cap, echo, budget) ==
            ReadQuantum(line + stream[p..q], out + Echo(stream[p..q], echo), stream, q, cap, echo, budget - (q - p))
    decreases q - p
  {
    if p < q {
      var c := stream[p];
      assert IsPrintable(c);
      KeyStores(line, out, c, cap, echo);
      QuantumStep(line, out, stream, p, cap, echo, budget);
      TypeRun(line + [c], out + Echo([c], echo), stream, p + 1, q, cap, echo, budget - 1);
      AppendFirst(line, stream, p, q, echo);
      AppendFirst(out, stream, p, q, echo);
    } else {
      assert stream[p..q] == [];
      assert line + stream[p..q] == line && out + Echo(stream[p..q], echo) == out;
    }
  }

  /** What a terminal shows after it receives `o` on a line that showed
      `screen`: a BS SP BS triple erases the last column, every other byte
      takes a column. */
  function Render(screen: seq<Ascii>, o: seq<Ascii>): seq<Ascii>
    decreases |o|
  {
    if o == [] then screen
    else if |o| >= 3 && o[|o| - 3] == BS && o[|o| - 2] == SP && o[|o| - 1] == BS then
      var s := Render(screen, o[..|o| - 3]);
      if s == [] then [] else s[..|s| - 1]
    else Render(screen, o[..|o| - 1]) + [o[|o| - 1]]
  }

  /** The terminal, having shown `screen` before the output from position
      `n` on, shows the line of `r`; after a completed line the newline at
      the end of the output is not part of what the line shows. */
  predicate Mirrors(screen: seq<Ascii>, n: nat, r: Edit) {
    if r.next == ParseInput then |r.out| >= n + 2 && Render(screen, r.out[n..|r.out| - 2]) == r.line
    else n <= |r.out| && Render(screen, r.out[n..]) == r.line
  }

  /** With local echo on, the terminal mirrors the line buffer: rendering
      what a pump writes (up to the newline that ends the line) onto the
      line shown before the pump shows exactly the line after it. */
  lemma EchoMirrorsLine(line: seq<Ascii>, out: seq<Ascii>, stream: seq<Ascii>, p: nat, cap: nat, budget: nat)
    ensures Mirrors(line, |out|, ReadQuantum(line, out, stream, p, cap, true, budget))
  {
    assert out[|out|..] == [];
    MirrorKept(line, |out|, line, out, stream, p, cap, budget);
  }

  /** The induction behind EchoMirrorsLine: if the terminal shows the line
      after the output from position `n` on, it still does after the rest of
      the pump. */
  lemma {:induction false} MirrorKept(screen: seq<Ascii>, n: nat, line: seq<Ascii>, out: seq<Ascii>,
                                      stream: seq<Ascii>, p: nat, cap: nat, budget: nat)
    requires n <= |out| && Render(screen, out[n..]) == line
    ensures Mirrors(screen, n, ReadQuantum(line, out, stream, p, cap, true, budget))
    decreases budget, 1
  {
    if budget == 0 || p >= |stream| || stream[p] == ESC {
      MirrorStops(screen, n, line, out, stream, p, cap, budget);
    } else if stream[p] == CR {
      MirrorEnds(screen, n, line, out, stream, p, cap, budget);
    } else {
      MirrorGoesOn(screen, n, line, out, stream, p, cap, budget);
    }
  }

  /** A pump that goes on after an editing byte: the byte keeps the mirror
      and so does the rest of the pump. */
  lemma {:induction false} MirrorGoesOn(screen: seq<Ascii>, n: nat, line: seq<Ascii>, out: seq<Ascii>,
                                        stream: seq<Ascii>, p: nat, cap: nat, budget: nat)
    requires n <= |out| && Render(screen, out[n..]) == line
    requires budget > 0 && p < |stream| && stream[p] != CR && stream[p] != ESC
    ensures Mirrors(screen, n, ReadQuantum(line, out, stream, p, cap, true, budget))
    decreases budget, 0
  {
    var k := Key(line, out, stream[p], cap, true);
    KeyKeepsMirror(screen, n, line, out, stream[p], cap);
    MirrorKept(screen, n, k.line, k.out, stream, p + 1, cap, budget - 1);
    QuantumStep(line, out, stream, p, cap, true, budget);
  }

  /** A pump that stops without reading writes nothing. */
  lemma MirrorStops(screen: seq<Ascii>, n: nat, line: seq<Ascii>, out: seq<Ascii>,
                    stream: seq<Ascii>, p: nat, cap: nat, budget: nat)
    requires n <= |out| && Render(screen, out[n..]) == line
    requires budget == 0 || p >= |stream| || stream[p] == ESC
    ensures Mirrors(screen, n, ReadQuantum(line, out, stream, p, cap, true, budget))
  {
    var r := ReadQuantum(line, out, stream, p, cap, true, budget);
    assert r.out == out && r.line == line && r.next != ParseInput;
  }

  /** A pump that ends the line writes a newline after what the line shows. */
  lemma MirrorEnds(screen: seq<Ascii>, n: nat, line: seq<Ascii>, out: seq<Ascii>,
                   stream: seq<Ascii>, p: nat, cap: nat, budget: nat)
    requires n <= |out| && Render(screen, out[n..]) == line
    requires budget > 0 && p < |stream| && stream[p] == CR
    ensures Mirrors(screen, n, ReadQuantum(line, out, stream, p, cap, true, budget))
  {
    var o := out + [CR, LF];
    assert ReadQuantum(line, out, stream, p, cap, true, budget) == Edit(line, o, p + 1, ParseInput);
    assert o[n..|o| - 2] == out[n..];
  }

  /** One editing byte keeps the terminal mirroring the line. */
  lemma KeyKeepsMirror(screen: seq<Ascii>, n: nat, line: seq<Ascii>, out: seq<Ascii>, c: Ascii, cap: nat)
    requires n <= |out| && Render(screen, out[n..]) == line
    ensures n <= |Key(line, out, c, cap, true).out|
    ensures Render(screen, Key(line, out, c, cap, true).out[n..]) == Key(line, out, c, cap, true).line
  {
    var k := Key(line, out, c, cap, true);
    if (c == BS || c == DEL) && |line| > 0 {
      assert k.out == out + [BS, SP, BS];
      assert k.out[n..] == out[n..] + [BS, SP, BS];
      RenderErase(screen, out[n..]);
    } else if c != NUL && c != BS && c != DEL && c > '\U{1F}' && |line| < cap {
      assert k.out == out + [c];
      assert k.out[n..] == out[n..] + [c];
      RenderPut(screen, out[n..], c);
    } else {
      assert k == Keyed(line, out);
    }
  }

  /** The terminal erases the last column on BS SP BS. */
  lemma RenderErase(screen: seq<Ascii>, x: seq<Ascii>)
    ensures Render(screen, x + [BS, SP, BS]) ==
            if Render(screen, x) == [] then [] else Render(screen, x)[..|Render(screen, x)| - 1]
  {
    var y := x + [BS, SP, BS];
    assert y[|y| - 3] == BS && y[|y| - 2] == SP && y[|y| - 1] == BS && y[..|y| - 3] == x;
  }

  /** The terminal shows any other byte in the next column. */
  lemma RenderPut(screen: seq<Ascii>, x: seq<Ascii>, c: Ascii)
    requires c != BS
    ensures Render(screen, x + [c]) == Render(screen, x) + [c]
  {
    var y := x + [c];
    assert y[|y| - 1] == c;
    assert y[..|y| - 1] == x;
  }
}
