/** The terminal output adapter: what the engine hands to the transport's
    write function for every character it prints.

    The translating path (used for prompts, messages and the list command)
    turns a logical newline into CR LF and a logical backspace into
    BS SP BS, which erases one column on an ANSI terminal; every other
    character passes through. The raw path passes everything through.
    ANSI is the only terminal mode the engine defines, so the mode switch in
    front of each translation has a single case. */
module Terminal {
  import opened Bytes

  /** What the translating path writes for one character. */
  function Translate(c: Ascii): seq<Ascii> {
    if c == LF then [CR, LF]
    else if c == BS then [BS, SP, BS]
    else [c]
  }

  /** What the translating path writes for a string: the translations of its
      characters, in order. Defined from the right, the way a loop that
      advances over the string builds it. */
  function TranslateString(s: seq<Ascii>): seq<Ascii>
    decreases |s|
  {
    if s == [] then [] else TranslateString(s[..|s| - 1]) + Translate(s[|s| - 1])
  }

  /** The translation of a concatenation is the concatenation of the
      translations: writing a string is writing each character in turn. */
  lemma {:induction false} TranslateAppend(a: seq<Ascii>, b: seq<Ascii>)
    ensures TranslateString(a + b) == TranslateString(a) + TranslateString(b)
    decreases |b|
  {
    if b == [] {
      assert a + b == a;
    } else {
      var b', c := b[..|b| - 1], b[|b| - 1];
      assert (a + b)[..|a + b| - 1] == a + b';
      assert (a + b)[|a + b| - 1] == c;
      assert TranslateString(a + b) == TranslateString(a + b') + Translate(c);
      assert TranslateString(b) == TranslateString(b') + Translate(c);
      TranslateAppend(a, b');
    }
  }

  /** A string without newline or backspace characters is written verbatim. */
  lemma {:induction false} TranslatePlain(s: seq<Ascii>)
    requires forall i :: 0 <= i < |s| ==> s[i] != LF && s[i] != BS
    ensures TranslateString(s) == s
    decreases |s|
  {
    if s != [] {
      TranslatePlain(s[..|s| - 1]);
      assert s[..|s| - 1] + [s[|s| - 1]] == s;
    }
  }

  /** Translation only ever lengthens the text, by one character per
      newline and by two per backspace. */
  lemma {:induction false} TranslateLength(s: seq<Ascii>)
    ensures |TranslateString(s)| >= |s|
    ensures s != [] ==> TranslateString(s) != []
    decreases |s|
  {
    if s != [] {
      TranslateLength(s[..|s| - 1]);
    }
  }

  /** Translated output never starts with a bare line feed: every LF it holds
      comes right after the CR that a newline produced. */
  lemma TranslateHead(s: seq<Ascii>)
    requires s != []
    ensures TranslateString(s) != [] && TranslateString(s)[0] == Translate(s[0])[0]
    ensures TranslateString(s)[0] != LF
  {
    TranslateAppend([s[0]], s[1..]);
    assert [s[0]] + s[1..] == s;
    assert TranslateString([s[0]]) == Translate(s[0]) by {
      assert [s[0]][..0] == [];
    }
  }

  /** Reads a translated byte stream back as the text that produced it: CR LF
      is one newline, BS SP BS is one backspace, anything else stands for
      itself. */
  function Untranslate(t: seq<Ascii>): seq<Ascii>
    decreases |t|
  {
    if t == [] then []
    else if |t| >= 2 && t[0] == CR && t[1] == LF then [LF] + Untranslate(t[2..])
    else if |t| >= 3 && t[0] == BS && t[1] == SP && t[2] == BS then [BS] + Untranslate(t[3..])
    else [t[0]] + Untranslate(t[1..])
  }

  /** The translating path loses nothing: the written bytes determine the
      text exactly. */
  lemma {:induction false} UntranslateTranslate(s: seq<Ascii>)
    ensures Untranslate(TranslateString(s)) == s
    decreases |s|
  {
    if s != [] {
      var c, rest := s[0], s[1..];
      assert [c] + rest == s;
      TranslateAppend([c], rest);
      assert TranslateString([c]) == Translate(c) by {
        assert [c][..0] == [];
      }
      var t := TranslateString(rest);
      UntranslateTranslate(rest);
      if rest != [] {
        TranslateHead(rest);
      }
      var whole := Translate(c) + t;
      assert TranslateString(s) == whole;
      if c == LF {
        assert whole[2..] == t;
      } else if c == BS {
        assert whole[3..] == t;
      } else {
        assert whole[1..] == t;
        assert whole[0] == c;
        assert c == CR ==> t == [] || t[0] != LF;
      }
    }
  }
}
