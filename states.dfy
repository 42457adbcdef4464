/** The states of the console's pump and the engine's fixed settings. */
module States {
  import opened Bytes

  /** Which state function the next pump runs. The engine keeps this as a
      function pointer; here it is a closed enumeration. */
  datatype State =
    | WaitForClient
    | StartNewCommand
    | ReadInput
    | ReadEscapeSequence
    | ParseEscapeSequence
    | ParseInput

  /** Terminal modes: ANSI is the only one defined. */
  datatype Mode = Ansi

  /** The configuration flag that turns local echo on, bit 0 of the
      flags word. */
  const SET_LOCAL_ECHO: bv32 := 1

  /** Capacity of the escape-sequence scratch buffer. */
  const CS_BUFFER_SIZE: nat := 16

  /** Most bytes one pump consumes in ReadInput or ReadEscapeSequence. */
  const READ_QUANTUM: nat := 8

  /** Smallest line capacity and argument count a console is given. */
  const MIN_LINE_LENGTH: nat := 16
  const MIN_ARG_COUNT: nat := 1

  /** The prompt printed when no custom prompt is set. */
  const DEFAULT_PROMPT: seq<Ascii> := " # "

  /** The prompt the engine prints: the custom one, else the default. */
  function PromptText(prompt: Option<seq<Ascii>>): seq<Ascii> {
    if prompt.Some? then prompt.value else DEFAULT_PROMPT
  }

  /** The default prompt holds no NUL, so writing it as a C string writes
      all of it. */
  lemma DefaultPromptIsCString()
    ensures IsCString(DEFAULT_PROMPT)
  {
    var d := DEFAULT_PROMPT;
    assert d[0] == ' ' && d[1] == '#' && d[2] == ' ' && |d| == 3;
  }
}
