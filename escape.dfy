/** What the ReadEscapeSequence state does in one pump.

    The decoder collects an escape sequence, ESC included, in a small
    scratch buffer. A sequence is complete after ESC and one final byte in
    0x40-0x5F other than '[' (an ECMA-48 "Fe" sequence). Any other second
    byte keeps it open until the first later byte in 0x40-0x7E: after '['
    that is the final byte of an ECMA-48 control sequence ("CSI"), and
    after any other byte (ESC '7', ESC 'a') it is whatever byte comes next
    in that range, typed text included. CAN or SUB cancels the sequence,
    and so does a byte that finds the buffer full; a cancelled sequence is
    written to the terminal raw, so nothing typed is silently lost. */
module EscapeDecoder {
  import opened Bytes
  import opened States

  /** The bytes that cancel a sequence in progress. */
  predicate IsCancel(c: Ascii) {
    c == CAN || c == SUB
  }

  /** Whether byte `c`, stored at index `i` of the buffer, ends the
      sequence: at index 1 an Fe final byte ('[' opens a control sequence
      instead), later any final byte of a control sequence. The ESC at
      index 0 never ends it. */
  predicate Completes(i: nat, c: Ascii) {
    if i == 1 then c != '[' && '\U{40}' <= c <= '\U{5F}'
    else i > 1 && '\U{40}' <= c <= '\U{7E}'
  }

  /** The decoder after a pump: the bytes collected, the output, how far
      into the input stream it read, and the state the next pump runs. */
  datatype Scan = Scan(buf: seq<Ascii>, out: seq<Ascii>, pos: nat, next: State)

  /** ReadEscapeSequence over at most `budget` bytes of `stream`, from
      position `p` on. A byte that overflows the buffer is put back (the
      engine makes it the snoop byte), so the position stays on it. */
  function EscapeScan(buf: seq<Ascii>, out: seq<Ascii>, stream: seq<Ascii>, p: nat, budget: nat): (r: Scan)
    ensures p <= |stream| ==> p <= r.pos <= |stream|
    decreases budget
  {
    if budget == 0 || p >= |stream| then Scan(buf, out, p, ReadEscapeSequence)
    else if IsCancel(stream[p]) then Scan([], out + buf, p + 1, ReadInput)
    else if |buf| < CS_BUFFER_SIZE then
      if Completes(|buf|, stream[p]) then Scan(buf + [stream[p]], out, p + 1, ParseEscapeSequence)
      else EscapeScan(buf + [stream[p]], out, stream, p + 1, budget - 1)
    else Scan([], out + buf, p, ReadInput)
  }

  /** One decoder step over a byte that neither cancels nor ends the
      sequence, with room in the buffer: the byte is collected. */
  lemma ScanStep(buf: seq<Ascii>, out: seq<Ascii>, stream: seq<Ascii>, p: nat, budget: nat)
    requires budget > 0 && p < |stream| && !IsCancel(stream[p])
    requires |buf| < CS_BUFFER_SIZE && !Completes(|buf|, stream[p])
    ensures EscapeScan(buf, out, stream, p, budget) == EscapeScan(buf + [stream[p]], out, stream, p + 1, budget - 1)
  {
  }

  /** The bounds of one decoder pump from position `p` that ended in `r`:
      the buffer stays within its 16 bytes, the pump reads forward, at most
      its budget and never past the input, and it stays in
      ReadEscapeSequence only when the input ran dry or the budget was
      spent. */
  predicate WithinScan(stream: seq<Ascii>, p: nat, budget: nat, r: Scan) {
    && |r.buf| <= CS_BUFFER_SIZE
    && p <= r.pos <= p + budget
    && r.pos <= |stream|
    && r.next in {ReadEscapeSequence, ReadInput, ParseEscapeSequence}
    && (r.next == ReadEscapeSequence ==> r.pos == |stream| || r.pos == p + budget)
  }

  /** Nothing the decoder reads is lost. While the sequence is open or once
      it is complete, the buffer holds what it held plus every byte read,
      and nothing is written. Once it is cancelled the buffer is empty and
      the output gained exactly those bytes: all of them but the CAN or SUB
      that cancelled it, or all of them when a byte found the buffer full,
      and that byte is the next one to read. */
  predicate Conserves(buf: seq<Ascii>, out: seq<Ascii>, stream: seq<Ascii>, p: nat, r: Scan)
    requires p <= r.pos <= |stream|
  {
    if r.next != ReadInput then
      r.out == out && r.buf == buf + stream[p..r.pos]
    else
      && r.buf == []
      && ((p < r.pos && IsCancel(stream[r.pos - 1]) && r.out == out + buf + stream[p..r.pos - 1])
          || (r.pos < |stream| && r.out == out + buf + stream[p..r.pos] && |buf + stream[p..r.pos]| == CS_BUFFER_SIZE))
  }

  /** Every decoder pump stays within its bounds. */
  lemma {:induction false} ScanBounds(buf: seq<Ascii>, out: seq<Ascii>, stream: seq<Ascii>, p: nat, budget: nat)
    requires |buf| <= CS_BUFFER_SIZE && p <= |stream|
    ensures WithinScan(stream, p, budget, EscapeScan(buf, out, stream, p, budget))
    decreases budget
  {
    if budget > 0 && p < |stream| && !IsCancel(stream[p]) && |buf| < CS_BUFFER_SIZE && !Completes(|buf|, stream[p]) {
      ScanStep(buf, out, stream, p, budget);
      ScanBounds(buf + [stream[p]], out, stream, p + 1, budget - 1);
    }
  }

  /** Every decoder pump conserves the bytes it reads. */
  lemma {:induction false} ScanConserves(buf: seq<Ascii>, out: seq<Ascii>, stream: seq<Ascii>, p: nat, budget: nat)
    requires |buf| <= CS_BUFFER_SIZE && p <= |stream|
    ensures WithinScan(stream, p, budget, EscapeScan(buf, out, stream, p, budget))
    ensures Conserves(buf, out, stream, p, EscapeScan(buf, out, stream, p, budget))
    decreases budget
  {
    ScanBounds(buf, out, stream, p, budget);
    var r := EscapeScan(buf, out, stream, p, budget);
    if budget == 0 || p >= |stream| {
      assert stream[p..p] == [];
    } else if IsCancel(stream[p]) {
      assert stream[p..p] == [];
    } else if |buf| < CS_BUFFER_SIZE {
      var b := buf + [stream[p]];
      if Completes(|buf|, stream[p]) {
        assert stream[p..p + 1] == [stream[p]];
      } else {
        ScanStep(buf, out, stream, p, budget);
        ScanConserves(b, out, stream, p + 1, budget - 1);
        ConservesGlue(buf, out, stream, p, r);
      }
    } else {
      assert stream[p..p] == [];
    }
  }

  /** Conservation from position `p + 1` with the byte at `p` collected is
      conservation from `p`. */
  lemma ConservesGlue(buf: seq<Ascii>, out: seq<Ascii>, stream: seq<Ascii>, p: nat, r: Scan)
    requires p < r.pos <= |stream|
    requires Conserves(buf + [stream[p]], out, stream, p + 1, r)
    ensures Conserves(buf, out, stream, p, r)
  {
    var b := buf + [stream[p]];
    assert b + stream[p + 1..r.pos] == buf + stream[p..r.pos] by {
      assert [stream[p]] + stream[p + 1..r.pos] == stream[p..r.pos];
    }
    if r.pos - 1 >= p + 1 {
      assert b + stream[p + 1..r.pos - 1] == buf + stream[p..r.pos - 1] by {
        assert [stream[p]] + stream[p + 1..r.pos - 1] == stream[p..r.pos - 1];
      }
    }
  }

  /** A cancelling byte ends the sequence at once: what was collected is
      written out raw and the decoder goes back to reading the line. */
  lemma CancelFlushes(buf: seq<Ascii>, out: seq<Ascii>, stream: seq<Ascii>, p: nat, budget: nat)
    requires budget > 0 && p < |stream| && IsCancel(stream[p])
    ensures EscapeScan(buf, out, stream, p, budget) == Scan([], out + buf, p + 1, ReadInput)
  {
  }

  /** ESC followed by an Fe final byte is a complete two-byte sequence. */
  lemma FeCompletes(out: seq<Ascii>, stream: seq<Ascii>, p: nat, budget: nat)
    requires budget > 0 && p < |stream|
    requires stream[p] != '[' && '\U{40}' <= stream[p] <= '\U{5F}'
    ensures EscapeScan([ESC], out, stream, p, budget) == Scan([ESC, stream[p]], out, p + 1, ParseEscapeSequence)
  {
  }

  /** A run of bytes that neither cancels nor ends the sequence, and fits in
      the buffer, is collected as it is. */
  lemma {:induction false} ScanRun(buf: seq<Ascii>, out: seq<Ascii>, stream: seq<Ascii>, p: nat, q: nat, budget: nat)
    requires p <= q <= |stream| && q - p <= budget && |buf| + (q - p) <= CS_BUFFER_SIZE
    requires forall j :: p <= j < q ==> !IsCancel(stream[j]) && !Completes(|buf| + (j - p), stream[j])
    ensures EscapeScan(buf, out, stream, p, budget) == EscapeScan(buf + stream[p..q], out, stream, q, budget - (q - p))
    decreases q - p
  {
    if p < q {
      assert !IsCancel(stream[p]) && !Completes(|buf| + (p - p), stream[p]);
      ScanStep(buf, out, stream, p, budget);
      ScanRun(buf + [stream[p]], out, stream, p + 1, q, budget - 1);
      assert buf + [stream[p]] + stream[p + 1..q] == buf + stream[p..q] by {
        assert [stream[p]] + stream[p + 1..q] == stream[p..q];
      }
    } else {
      assert buf + stream[p..q] == buf;
    }
  }

  /** Any second byte other than an Fe final byte keeps the sequence open,
      and it then ends at the first later byte in 0x40-0x7E. */
  lemma LaterFinalCompletes(out: seq<Ascii>, stream: seq<Ascii>, p: nat, q: nat, budget: nat)
    requires p < q < |stream| && q - p < budget && q - p + 2 <= CS_BUFFER_SIZE
    requires !IsCancel(stream[p]) && !Completes(1, stream[p])
    requires forall j :: p < j < q ==> !IsCancel(stream[j]) && !('\U{40}' <= stream[j] <= '\U{7E}')
    requires '\U{40}' <= stream[q] <= '\U{7E}'
    ensures EscapeScan([ESC], out, stream, p, budget) ==
            Scan([ESC] + stream[p..q + 1], out, q + 1, ParseEscapeSequence)
  {
    forall j | p <= j < q ensures !IsCancel(stream[j]) && !Completes(1 + (j - p), stream[j]) {
    }
    ScanRun([ESC], out, stream, p, q, budget);
    var b := [ESC] + stream[p..q];
    assert |b| == 1 + (q - p) && Completes(|b|, stream[q]);
    assert b + [stream[q]] == [ESC] + stream[p..q + 1] by {
      assert stream[p..q] + [stream[q]] == stream[p..q + 1];
    }
  }

  /** ESC '[', then parameter and intermediate bytes (0x20-0x3F), then a
      final byte in 0x40-0x7E is a complete control sequence, provided it
      fits the buffer and the pump's budget. */
  lemma CsiCompletes(out: seq<Ascii>, stream: seq<Ascii>, p: nat, q: nat, budget: nat)
    requires p < q < |stream| && q - p < budget && q - p + 2 <= CS_BUFFER_SIZE
    requires stream[p] == '['
    requires forall j :: p < j < q ==> '\U{20}' <= stream[j] <= '\U{3F}'
    requires '\U{40}' <= stream[q] <= '\U{7E}'
    ensures EscapeScan([ESC], out, stream, p, budget) ==
            Scan([ESC] + stream[p..q + 1], out, q + 1, ParseEscapeSequence)
  {
    LaterFinalCompletes(out, stream, p, q, budget);
  }

  /** ESC '7' (a two-byte sequence in ECMA-48) is not an Fe sequence here,
      so the decoder also takes the letter typed after it. */
  lemma SaveCursorTakesNextLetter(out: seq<Ascii>, c: Ascii, budget: nat)
    requires budget >= 2 && '\U{40}' <= c <= '\U{7E}'
    ensures EscapeScan([ESC], out, ['7', c], 0, budget) == Scan([ESC, '7', c], out, 2, ParseEscapeSequence)
  {
    LaterFinalCompletes(out, ['7', c], 0, 1, budget);
    assert ['7', c][0..2] == ['7', c];
  }

  /** A byte that finds the buffer full is put back and the collected
      bytes are written out raw. */
  lemma OverflowPutsBack(buf: seq<Ascii>, out: seq<Ascii>, stream: seq<Ascii>, p: nat, budget: nat)
    requires |buf| == CS_BUFFER_SIZE && budget > 0 && p < |stream| && !IsCancel(stream[p])
    ensures EscapeScan(buf, out, stream, p, budget) == Scan([], out + buf, p, ReadInput)
  {
  }
}
