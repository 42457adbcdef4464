# Embedded C debug console engine, in Dafny

This project models the console engine of `src/ecdc/ecdc.c` and proves what it does.
The engine is a small, cooperative, single-threaded command-line console for embedded targets:

- The application pumps it, and each pump runs one step of a six-state machine: WaitForClient, StartNewCommand, ReadInput, ReadEscapeSequence, ParseEscapeSequence and ParseInput.
- A pump reads bytes from the client, edits a fixed-size line buffer, and decodes ANSI escape sequences in a 16-byte scratch buffer.
- On carriage return the pump splits the line in place into an argument table, then calls the callback of the registered command that the first argument names.
- Commands live in a singly linked list that starts at the console, and each command points back at its console.

The model has two layers.

- **Specification modules** are pure: datatypes, functions and lemmas.
  - `Bytes`: 7-bit characters, whitespace, C strings.
  - `States`: the state enumeration and the constants.
  - `Terminal`: the translating output path and its inverse.
  - `Tokens`: the words of a line, and the in-place split.
  - `Registry`: lookup, append, removal, and the listing.
  - `EscapeDecoder`: one quantum of the escape-sequence decoder. As in the C code, ESC and a byte in 0x40-0x5F other than `[` is complete at once, and any other second byte keeps the sequence open until the next byte in 0x40-0x7E. So ESC `7` or ESC `a` (two-byte sequences in ECMA-48) also take the byte typed after them. That is broader than "ESC plus a final byte, or a CSI sequence".
  - `LineEditor`: one quantum of line editing.
  - `Machine`: the whole console as a value `View`. `PumpSpec` is one pump. `Inv` is the invariant between pumps. The lemmas say what pumping does over time.
- **The `Engine` module** is imperative. It mirrors the C code.
  - `Console` is a class. Its line buffer, escape buffer and argument table are arrays, and its indexes, state, snoop byte and prompt are fields.
  - `Command` is a class with a mutable back-pointer.
  - Every state function, terminal helper and public entry point is a method. Each loop of the C code is a Dafny `while` or `for` loop with its invariants, with one exception: the constructor clears `argv` and `cs_buffer` (ecdc.c:709-717) with array initialisers, not loops. `Console.ArgumentText` and `Console.Arguments` add two loops the C code does not have. They read out the argument strings a callback receives, which the C code passes as pointers into the line buffer.
  - `Console.Pump` is proved to keep the console valid and to change its `View` exactly as `PumpSpec` says.

Surroundings:

- **Transport.** The client's `getc` becomes the `input` queue, with the one-byte snoop lookahead kept in front of it. The client's `putc` becomes the append-only `output` log.
- **Callbacks.** A user callback becomes a `Dispatch(command, args)` event appended to `dispatched`.
- **Linked list.** The list is a `seq<Command>` in link order. A "position" stands for a pointer into it.

## Model

| member | source | states |
|---|---|---|
| Terminal.TranslateAppend | src/ecdc/ecdc.c:333-348 | writing a string is writing each of its characters in turn: the translation of `a + b` is the translation of `a` followed by that of `b` |
| Terminal.TranslatePlain | src/ecdc/ecdc.c:351-361 | a text without LF or BS goes out unchanged |
| Terminal.TranslateLength | src/ecdc/ecdc.c:351-361 | translation never shortens the text, and a non-empty text writes something |
| Terminal.TranslateHead | src/ecdc/ecdc.c:288-305 | translated output never starts with a bare LF |
| Terminal.UntranslateTranslate | src/ecdc/ecdc.c:288-361 | the translating path loses nothing: reading CR LF as a newline and BS SP BS as a backspace recovers the text |
| Engine.Console.TermPutcRaw | src/ecdc/ecdc.c:376-380 | one byte is appended to the output as it is |
| Engine.Console.TermPutNewline | src/ecdc/ecdc.c:288-305 | a newline is written as CR LF |
| Engine.Console.TermBackspace | src/ecdc/ecdc.c:310-328 | a backspace is written as BS SP BS |
| Engine.Console.TermPutc | src/ecdc/ecdc.c:351-361 | one character is written as its translation: LF as CR LF, BS as BS SP BS, any other byte as itself |
| Engine.Console.TermPuts | src/ecdc/ecdc.c:333-348 | a null string writes nothing; otherwise the output gains the translation of the string up to its NUL |
| Engine.Console.TermPutsRaw | src/ecdc/ecdc.c:364-373 | a null string writes nothing; otherwise the string up to its NUL is written verbatim |
| Engine.Console.GetcRaw | src/ecdc/ecdc.c:385-396 | the read returns the snoop byte when one is set, else the next pending byte, else end of file; the stream loses exactly the byte returned |
| Engine.Console.SetSnoop | src/ecdc/ecdc.c:399-403 | a byte that is put back becomes the first byte of the stream |
| Tokens.WordsShape | src/ecdc/ecdc.c:226-281 | every word is a non-empty run without whitespace; a NUL-free or printable line gives NUL-free or printable words |
| Tokens.WordsSplit | src/ecdc/ecdc.c:514-532 | a whitespace run of any length separates: the words of `a + m + b` are the words of `a` then the words of `b` |
| Tokens.WordsOfBlank | src/ecdc/ecdc.c:516-520 | an all-whitespace line has no words |
| Tokens.WordsOfSolid | src/ecdc/ecdc.c:525-529 | a non-empty run without whitespace is a single word |
| Tokens.Capture | src/ecdc/ecdc.c:514-532 | at most the table's capacity of arguments are captured, they are the leading words of the line in order, and they are all the words when the table has room |
| Tokens.SkipBlankStops | src/ecdc/ecdc.c:226-252 | the first-non-whitespace scan passes over whitespace only and stops at a non-whitespace byte or at the end |
| Tokens.SkipSolidStops | src/ecdc/ecdc.c:255-281 | the first-whitespace scan passes over non-whitespace only and stops at whitespace or at the end |
| Tokens.CutFromWords | src/ecdc/ecdc.c:508-533 | the in-place split records one start per captured word, each start reading back (up to the next NUL) as that word, the buffer keeps its length, and nothing before the split point changes |
| Tokens.CutRound | src/ecdc/ecdc.c:515-531 | one round of the split that meets whitespace: the word is cut off with a NUL and the rest of the line is split the same way |
| Tokens.WordsOfFourRuns | src/ecdc/ecdc.c:514-532 | for any four non-empty runs without whitespace `a`, `b`, `c`, `d` and any non-empty whitespace runs `m1`, `m2`, `m3`, the words of `a m1 b m2 c m3 d` are exactly `a`, `b`, `c`, `d` |
| Tokens.WordsExample | test/ecdc_ut.c:274-290 | the engine's example line `cmd_1 arg_1 arg_2     arg_3` splits into exactly `cmd_1`, `arg_1`, `arg_2` and `arg_3` |
| Engine.FindFirstNonWhitespace | src/ecdc/ecdc.c:226-252 | the scan returns the first non-whitespace position before the terminating NUL, or null when only whitespace is left |
| Engine.FindFirstWhitespace | src/ecdc/ecdc.c:255-281 | the scan returns the first whitespace position before the terminating NUL, or null when the argument runs to the end |
| Engine.SplitFinish | src/ecdc/ecdc.c:516-528 | a split round that finds no more words, or an argument that runs to the end, completes the split |
| Engine.SplitAdvance | src/ecdc/ecdc.c:522-531 | a split round that writes a NUL over the whitespace after an argument leaves the rest of the split to do |
| Engine.Console.SplitArguments | src/ecdc/ecdc.c:508-533 | the loop leaves the line buffer and the argument table exactly as the in-place split prescribes, and argc is the number of arguments |
| Engine.Console.ArgumentText | src/ecdc/ecdc.c:537-540 | an argument read from its start in the split line is the text up to the next NUL |
| Engine.Console.Arguments | src/ecdc/ecdc.c:537-540 | the arguments a callback receives are the C strings that the first argc table slots point at, in order |
| Engine.ReceivedArguments | src/ecdc/ecdc.c:537-540 | the argument strings the table points at are the captured words, and the first one is a C string |
| Registry.Find | src/ecdc/ecdc.c:105-122 | lookup returns the first command whose name matches exactly, and none when no name matches |
| Registry.FindOwnName | src/ecdc/ecdc.c:105-122 | with unique names every command is found by its own name |
| Registry.FindAppend | src/ecdc/ecdc.c:177-193 | after an append at the tail, a name that was present is found where it was, and otherwise the new command is found when the name is its own |
| Registry.AppendFresh | src/ecdc/ecdc.c:779-812 | appending a command whose name is not taken keeps names unique and finds the new command at the end and every other one where it was |
| Registry.IndexOf | src/ecdc/ecdc.c:145-174 | the position is that of the first node holding the command, and there is none exactly when no node holds it |
| Registry.RemoveKeepsOrder | src/ecdc/ecdc.c:196-223 | unregistering removes exactly that command, keeps the others in their relative order, keeps names unique, and its name is no longer found |
| Registry.ListingSnoc | src/ecdc/ecdc.c:645-658 | listing one more command adds its name and a newline |
| Registry.ListingIsLines | src/ecdc/ecdc.c:645-658 | the listing is every registered name on a line of its own, in registry order, through the translating path |
| Registry.ListingReadsBack | src/ecdc/ecdc.c:645-658 | a terminal reading the listing back gets every name, one per line, in registration order |
| Engine.Console.LocateCommand | src/ecdc/ecdc.c:105-122 | the list walk returns the node that the first exact-name match designates, or null |
| Engine.GetLastCommand | src/ecdc/ecdc.c:125-142 | null for a null console or an empty list, otherwise the last node |
| Engine.GetPreviousCommand | src/ecdc/ecdc.c:145-174 | null for a null or detached command and for the root; otherwise the node right before the command |
| Engine.Console.Position | src/ecdc/ecdc.c:205-214 | the node that unregistering relinks around is the command's first occurrence in the list |
| Engine.Console.Unlink | src/ecdc/ecdc.c:205-216 | the list loses exactly that command (root moved on, or predecessor relinked); a good list stays good |
| Engine.Console.Append | src/ecdc/ecdc.c:177-193 | the command is linked in at the tail and points back at the console; a valid console with a new, unique C-string name stays valid |
| Engine.RegisterCommand | src/ecdc/ecdc.c:177-193 | a null console leaves everything as it is; otherwise the command is appended at the tail and points back at the console |
| Engine.Console.Unregister | src/ecdc/ecdc.c:196-223 | the command is unlinked and detached; the registry becomes `Remove` of the old one, and validity is kept |
| Engine.UnregisterCommand | src/ecdc/ecdc.c:196-223 | a null or detached command changes nothing; otherwise it is unlinked and detached, the entries become `Remove` of the old ones, and a good list stays good |
| Engine.AppendKeepsList | src/ecdc/ecdc.c:177-193 | a detached command under a new C-string name, appended and pointed at the console, keeps the list good |
| Engine.DropKeepsList | src/ecdc/ecdc.c:205-216 | dropping one node of a good list leaves a good list of all the other nodes |
| Engine.EntriesDrop | src/ecdc/ecdc.c:205-216 | dropping a node drops its entry, at the same position |
| Engine.Console.ListEntry | src/ecdc/ecdc.c:655-656 | one listing line is the name's translation followed by CR LF |
| Engine.Console.ListCommands | src/ecdc/ecdc.c:645-658 | the built-in list command writes exactly the listing of the registry |
| Engine.Console.Execute | src/ecdc/ecdc.c:536-546 | a registered first argument dispatches that command once with all the arguments (and the list command writes the listing); otherwise the not-found message is written and nothing is dispatched |
| Engine.Console.ReportNotFound | src/ecdc/ecdc.c:541-545 | the output gains a quote, the name, and `' not found` with a newline |
| Machine.NotFoundText | src/ecdc/ecdc.c:542-544 | for a printable word the not-found message is `'word' not found` followed by CR LF |
| Engine.Console.ClearArgv | src/ecdc/ecdc.c:609-614 | every slot of the argument table is cleared |
| Engine.Console.WaitForClient | src/ecdc/ecdc.c:630-638 | without input nothing changes; the first byte is put back to be read again and the console moves to StartNewCommand |
| Engine.Console.StartNewCommand | src/ecdc/ecdc.c:602-627 | the line and the argument table are emptied, the custom prompt (or ` # `) is written, and the console reads input next |
| Engine.Console.EditLine | src/ecdc/ecdc.c:570-597 | one editing byte changes the line and the output exactly as `Key` says |
| LineEditor.QuantumStep | src/ecdc/ecdc.c:556-598 | a ReadInput pump over an editing byte is that byte's edit followed by the rest of the pump |
| LineEditor.QuantumLine | src/ecdc/ecdc.c:586-593 | the line never outgrows its capacity and holds only stored printable bytes |
| LineEditor.QuantumBounds | src/ecdc/ecdc.c:556-561 | a pump reads at most 8 bytes, only appends output, and stays in ReadInput only when the input ran dry or the 8 bytes were read |
| LineEditor.QuantumEnds | src/ecdc/ecdc.c:566-585 | a pump that ends the line consumed a CR and wrote CR LF; a pump that meets ESC leaves it as the next byte to read |
| LineEditor.EraseEmpty | src/ecdc/ecdc.c:570-580 | BS, DEL and NUL on an empty line write nothing and leave the line empty |
| LineEditor.FullLineDrops | src/ecdc/ecdc.c:586-593 | a byte typed into a full line is dropped without echo |
| LineEditor.KeyStores | src/ecdc/ecdc.c:586-597 | a printable byte that fits is stored and echoed when local echo is on |
| LineEditor.TypeRun | src/ecdc/ecdc.c:556-598 | typing printable bytes that fit appends them to the line and echoes them |
| LineEditor.EchoMirrorsLine | src/ecdc/ecdc.c:572-597 | with local echo on, the terminal shows exactly the line buffer after every pump |
| LineEditor.KeyKeepsMirror | src/ecdc/ecdc.c:572-597 | one editing byte keeps the terminal mirroring the line |
| Engine.Console.ReadInputStep | src/ecdc/ecdc.c:556-598 | one turn of the ReadInput loop advances the pump exactly as `ReadQuantum` prescribes |
| Engine.Console.ReadQuantumLoop | src/ecdc/ecdc.c:556-598 | the 8-byte loop ends where `ReadQuantum` ends |
| Engine.Console.ReadInput | src/ecdc/ecdc.c:552-599 | a ReadInput pump changes the console as `ReadSpec` says, keeping the line within its capacity and printable |
| EscapeDecoder.ScanStep | src/ecdc/ecdc.c:446-466 | a byte that neither cancels nor ends the sequence, with room in the buffer, is collected |
| EscapeDecoder.ScanBounds | src/ecdc/ecdc.c:433-473 | the escape buffer stays within 16 bytes, a pump reads at most 8 bytes, and it stays in ReadEscapeSequence only when the input ran dry or the 8 bytes were read |
| EscapeDecoder.ScanConserves | src/ecdc/ecdc.c:433-481 | nothing read is lost: bytes are collected, or written out raw on cancel (all but the CAN/SUB) or on overflow (all, the overflowing byte put back) |
| EscapeDecoder.CancelFlushes | src/ecdc/ecdc.c:442-445 | CAN or SUB ends the sequence: the collected bytes are written raw and the console reads input again |
| EscapeDecoder.FeCompletes | src/ecdc/ecdc.c:451-459 | ESC and a byte in 0x40-0x5F other than `[` is a complete two-byte sequence |
| EscapeDecoder.ScanRun | src/ecdc/ecdc.c:446-466 | a run of bytes that neither cancels nor ends the sequence and fits is collected as it is |
| EscapeDecoder.LaterFinalCompletes | src/ecdc/ecdc.c:451-466 | ESC and any second byte that is neither CAN, SUB nor an Fe final byte keeps the sequence open, and it completes at the first later byte in 0x40-0x7E |
| EscapeDecoder.SaveCursorTakesNextLetter | src/ecdc/ecdc.c:451-466 | ESC `7` followed by any byte in 0x40-0x7E is one complete three-byte sequence, so the byte typed after ESC `7` is taken into it |
| EscapeDecoder.CsiCompletes | src/ecdc/ecdc.c:451-466 | ESC `[`, parameter and intermediate bytes, then a byte in 0x40-0x7E is a complete control sequence |
| EscapeDecoder.OverflowPutsBack | src/ecdc/ecdc.c:467-472 | a byte that finds the buffer full is put back and the collected bytes are written out raw |
| Engine.Console.ReadEscapeStep | src/ecdc/ecdc.c:433-473 | one turn of the decoder loop advances the pump exactly as `EscapeScan` prescribes |
| Engine.Console.ReadEscapeLoop | src/ecdc/ecdc.c:433-473 | the 8-byte loop ends where `EscapeScan` ends, with the abort or parse flag set accordingly |
| Engine.Console.FlushEscape | src/ecdc/ecdc.c:475-481 | the collected bytes are written raw in order, the buffer is emptied, and the console reads input again |
| Engine.Console.ReadEscapeSequence | src/ecdc/ecdc.c:426-490 | a ReadEscapeSequence pump changes the console as `EscapeSpec` says |
| Engine.Console.ParseEscapeSequence | src/ecdc/ecdc.c:417-423 | a recognised sequence is ignored and the console reads input again |
| Engine.Console.SplitLine | src/ecdc/ecdc.c:500-533 | the table is cleared, the line terminated and split in place, and argc is the number of captured words |
| Engine.Console.RunArguments | src/ecdc/ecdc.c:535-546 | the command named by the first captured word is dispatched with the captured words, or the not-found message is written |
| Engine.Console.ParseInput | src/ecdc/ecdc.c:493-549 | a ParseInput pump changes the console as `ParseSpec` says and starts a new command |
| Engine.Console.Pump | src/ecdc/ecdc.c:755-762 | one pump keeps the console valid and changes its view exactly as `PumpSpec` says |
| Engine.PumpConsole | src/ecdc/ecdc.c:755-762 | a null console is ignored; otherwise one pump as `PumpSpec` says |
| Engine.Console.ViewInv | src/ecdc/ecdc.c:62-100 | a valid console's view satisfies the invariant between pumps |
| Machine.PumpKeepsInv | src/ecdc/ecdc.c:552-638 | every pump keeps the invariant: line within capacity and printable, escape buffer within 16 bytes, unique C-string names, C-string prompt |
| Machine.ParseKeepsInv | src/ecdc/ecdc.c:493-549 | parsing a line keeps the invariant |
| Machine.PumpBounds | src/ecdc/ecdc.c:552-638 | a pump reads at most 8 bytes from the front of the stream, only appends output and dispatches, dispatches only when parsing, and leaves registry and settings alone |
| Machine.QuietUntilInput | src/ecdc/ecdc.c:630-638 | before the first input byte any number of pumps changes nothing, so no prompt is written |
| Machine.FirstByteThenPrompt | src/ecdc/ecdc.c:602-638 | the first byte is kept to be read again, and the next pump writes the prompt (` # ` by default), clears line and table, and reads input |
| Machine.ParseDelivers | src/ecdc/ecdc.c:500-533 | after parsing, the table's filled slots point into the split line at C strings equal to the captured words, in order, and the other slots are cleared |
| Machine.ParseDispatches | src/ecdc/ecdc.c:536-540 | a line whose first word names a registered command calls its callback once with the captured words, the first being the name |
| Machine.ParseNotFound | src/ecdc/ecdc.c:541-545 | a line whose first word names no command writes `'word' not found` and CR LF and calls nothing |
| Machine.RunSplit | src/ecdc/ecdc.c:755-762 | pumping `a + b` times is pumping `a` times and then `b` times |
| Machine.DryReadStays | src/ecdc/ecdc.c:552-599 | in ReadInput with nothing to read, any number of pumps changes nothing |
| Machine.ReadLine | src/ecdc/ecdc.c:552-599 | a printable text that fits the line, followed by CR, is read at 8 bytes per pump: when the text holds `k` whole runs of 8 bytes and less than one more, after `k + 1` pumps the line holds the text, the echo and CR LF are written, the rest of the input is untouched, and ParseInput is next |
| Machine.ParseExample | test/ecdc_ut.c:266-335 | the parsing test on the model: with `cmd_1` registered and the input `cmd_1 arg_1 arg_2     arg_3`, CR, NUL, the seventh pump calls `cmd_1` once with the four words, and after thirty pumps all input is read and nothing else was called |
| Machine.ParseBlank | src/ecdc/ecdc.c:536 | a blank line calls nothing and writes nothing |
| Engine.Console.Configure | src/ecdc/ecdc.c:765-775 | the mode is set, and local echo is on exactly when bit 0 of the flags is set |
| Engine.ConfigureConsole | src/ecdc/ecdc.c:765-775 | a null console is ignored; otherwise as `Configure` |
| Engine.Console.constructor | src/ecdc/ecdc.c:664-737 | line capacity raised to at least 16, argument count to at least 1, line buffer one byte longer, table cleared, no snoop byte, echo on, ANSI mode, WaitForClient, valid |
| Engine.FreeConsole | src/ecdc/ecdc.c:740-752 | every command still linked is unregistered from the root on: the list ends empty and each of its commands is detached |
| Engine.AllocCommand | src/ecdc/ecdc.c:779-812 | no command for a null name or a name already registered, registry unchanged; otherwise a fresh command with a copy of the name, appended at the tail and found there, or detached when the console is null; validity kept |
| Engine.FreeCommand | src/ecdc/ecdc.c:815-824 | the command is unregistered, so a command freed after its console touches nothing; otherwise it is removed in order, detached, and the list stays good with exactly that node gone |
| Engine.AllocListCommand | src/ecdc/ecdc.c:827-835 | as `AllocCommand`, with the built-in list callback |
| Engine.ReplacePrompt | src/ecdc/ecdc.c:838-851 | null for a null console or prompt, with the prompt unchanged; otherwise the prompt becomes a copy of the string, which is returned |
| Engine.FreePrompt | src/ecdc/ecdc.c:853-857 | the custom prompt is dropped, so the default one is used again |
| Engine.Putc | src/ecdc/ecdc.c:859-865 | a null console is ignored; otherwise the character goes out through the translating path |
| Engine.Puts | src/ecdc/ecdc.c:868-874 | a null console or string is ignored; otherwise the string goes out through the translating path |
| Engine.Console.Receive | src/ecdc/ecdc.c:385-396 | bytes the client sends are read after those already pending |

## Left out

- Transport: the client's `getc`/`putc` function pointers and their opaque hint are modelled as the `input` queue and the `output` log. `Console.Receive` stands for the client sending bytes.
- Callback bodies are foreign code. A dispatch is recorded as an event with the command and its arguments. The command's `hint` pointer is not kept. A callback that re-enters the console (for example by writing through `Putc`) is not modelled.
- The built-in list command receives the console through its hint. The model runs it on the dispatching console, which is the console it was registered with.
- Memory management: `malloc`, `strdup` and `free` always succeed, and freeing is not modelled. This covers the failure paths of `ecdc_alloc_console` and `ecdc_alloc_command`, the unchecked `strdup` results, and the prompt that `ecdc_free_console` does not free.
- Bytes are 7-bit (`Ascii`, below 0x80). Signed `char` behaviour for bytes of 0x80 and above is not modelled, so a 0xFF byte cannot collide with the end-of-file value.
- Engine.Console.constructor: the line buffer starts all NUL, where `malloc` leaves it uninitialised. The model never reads those bytes before writing them.
- Terminal modes: only ANSI exists, so `Mode` has one value and the mode switches have one case.
- Engine.FreePrompt takes a non-null console. The C function has no NULL check and dereferences the pointer, so a NULL console crashes there and is not modelled.
- Engine.ConfigureConsole takes the flags as a 32-bit pattern, where the C function takes an `int`. Only bit 0 matters.
- The ESC branch of the ReadInput loop has no `break`. The loop goes on re-reading the ESC it just put back until the 8 turns are spent. The engine model keeps that loop. `ReadSpec` stops at the ESC, which has the same effect, and `ReadInput` is proved equal to it.
- Pointers into the list are positions in the sequence (`GetLastCommand`, `GetPreviousCommand`). The `next` fields are the sequence order.
- Engine.FreeConsole, Engine.AllocCommand and Engine.AllocListCommand require a console built by the constructor (`Valid`, or `ListOk` for `FreeConsole`). That is what makes the list a proper, finite list without repeats.
- The transport's pseudo-terminal, the run loop and the unit-test harness are not part of this model. `src/ecdc/ecdc.h` adds declarations only. Its two constants are `SET_LOCAL_ECHO` and the end-of-file value, which `Option` stands for. It also declares `enum ecdc_mode`, whose one value, ANSI, is the model's `Mode`.
