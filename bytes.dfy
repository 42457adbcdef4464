/** Characters as the console engine sees them, and the small wrappers shared
    by every other module.

    The engine reads and writes C `char`s. Only 7-bit characters are modelled:
    the engine compares input bytes as signed `char`s, so bytes at or above
    0x80 behave in an implementation-defined way that this model leaves out. */
module Bytes {

  /** A 7-bit character. */
  type Ascii = c: char | c < '\U{80}'

  datatype Option<T> = None | Some(value: T)

  const NUL: Ascii := '\0'
  const BS: Ascii := '\U{08}'
  const TAB: Ascii := '\t'
  const LF: Ascii := '\n'
  const VT: Ascii := '\U{0B}'
  const FF: Ascii := '\U{0C}'
  const CR: Ascii := '\r'
  const CAN: Ascii := '\U{18}'
  const SUB: Ascii := '\U{1A}'
  const ESC: Ascii := '\U{1B}'
  const SP: Ascii := ' '
  const DEL: Ascii := '\U{7F}'

  /** The six characters both whitespace scanners of the tokenizer skip or
      stop at: space, horizontal tab, line feed, vertical tab, form feed and
      carriage return. */
  predicate IsWhitespace(c: Ascii) {
    c == SP || TAB <= c <= CR
  }

  /** The characters the line editor stores: space through tilde. */
  predicate IsPrintable(c: Ascii) {
    SP <= c < DEL
  }

  /** Every character of `s` is printable. */
  predicate PrintableText(s: seq<Ascii>) {
    forall i :: 0 <= i < |s| ==> IsPrintable(s[i])
  }

  /** A C string's contents: no NUL inside, so the terminator ends it. */
  predicate IsCString(s: seq<Ascii>) {
    forall i :: 0 <= i < |s| ==> s[i] != NUL
  }

  /** The C string that starts at `start` in buffer `b`: the characters up to
      the first NUL (or the end of the buffer). */
  function CStringAt(b: seq<Ascii>, start: nat): seq<Ascii>
    decreases |b| - start
  {
    if start >= |b| || b[start] == NUL then [] else [b[start]] + CStringAt(b, start + 1)
  }

  /** The C string a pointer to the start of `b` designates. A `seq` handed
      to the engine as a `char *` argument stands for the memory from the
      pointer on, so its C string is this prefix. */
  function CString(b: seq<Ascii>): seq<Ascii> {
    CStringAt(b, 0)
  }

  /** The C string read from a buffer holds no NUL, lies inside the buffer
      and ends at a NUL or at the buffer's end. */
  lemma {:induction false} CStringAtShape(b: seq<Ascii>, start: nat)
    requires start <= |b|
    ensures start + |CStringAt(b, start)| <= |b|
    ensures CStringAt(b, start) == b[start..start + |CStringAt(b, start)|]
    ensures IsCString(CStringAt(b, start))
    ensures start + |CStringAt(b, start)| < |b| ==> b[start + |CStringAt(b, start)|] == NUL
    decreases |b| - start
  {
    if start < |b| && b[start] != NUL {
      CStringAtShape(b, start + 1);
    }
  }

  /** A NUL-free stretch of `n` characters followed by a NUL is the C string
      read from its first position. */
  lemma {:induction false} CStringAtSlice(b: seq<Ascii>, start: nat, n: nat)
    requires start + n < |b|
    requires IsCString(b[start..start + n])
    requires b[start + n] == NUL
    ensures CStringAt(b, start) == b[start..start + n]
    decreases n
  {
    if n > 0 {
      assert b[start] == b[start..start + n][0];
      assert b[start + 1..start + n] == b[start..start + n][1..];
      CStringAtSlice(b, start + 1, n - 1);
    }
  }

  /** A NUL-free stretch of `n` characters that ends at a NUL or at the end
      of the buffer is the C string read from its first position. */
  lemma {:induction false} CStringUpTo(b: seq<Ascii>, start: nat, n: nat)
    requires start + n <= |b|
    requires IsCString(b[start..start + n])
    requires start + n == |b| || b[start + n] == NUL
    ensures CStringAt(b, start) == b[start..start + n]
    decreases n
  {
    if n > 0 {
      assert b[start] == b[start..start + n][0];
      assert b[start + 1..start + n] == b[start..start + n][1..];
      CStringUpTo(b, start + 1, n - 1);
    }
  }

  /** A C string's contents read back as themselves. */
  lemma CStringWhole(s: seq<Ascii>)
    requires IsCString(s)
    ensures CString(s) == s
  {
    CStringUpTo(s, 0, |s|);
    assert s[0..|s|] == s;
  }

  /** Regrouping a concatenation of three pieces. */
  lemma Assoc<T>(a: seq<T>, b: seq<T>, c: seq<T>)
    ensures a + b + c == a + (b + c)
  {
  }

  /** Regrouping a concatenation of four pieces. The solver proves sequence
      equalities pointwise, so stating this once is cheaper than letting it
      rediscover it inside a larger proof. */
  lemma Regroup<T>(a: seq<T>, b: seq<T>, c: seq<T>, d: seq<T>)
    ensures a + b + c + d == a + (b + c + d)
  {
  }
}
