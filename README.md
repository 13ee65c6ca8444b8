# gpiod in Dafny

`gpiod.py` is a small Python 2 daemon that lets unprivileged programs drive
the GPIO pins of a Raspberry Pi. Clients connect to a Unix-domain stream
socket and send text commands, one per line:

- `SETUP port OUT [LOW|HIGH]`
- `SETUP port IN [PULLUP|PULLDOWN]`
- `OUTPUT port LOW|HIGH`
- `INPUT port`

The daemon answers each command with one line ending in a newline:
`ok`, `true`, `false` or `error ...`. Before it opens the socket, it runs
the commands in the start-up file `/etc/gpiod.cfg`, skipping lines that
begin with `#`.

This project models three parts of the daemon and proves properties of
each:

- the command interpreter `gpio_command`;
- the start-up loop over the file;
- the socket loop that assembles commands from what it reads and sends
  back the answers.

The pin library (RPi.GPIO) is not modelled. It is an oracle, `Controller`,
that answers each call given the calls made before it. A call returns, is
refused with a direction mismatch, raises an IOError, or raises something
else. The start-up loop tells an IOError apart: its `except IOError: pass`
(gpiod.py:167-168) wraps `gpio_command` too, so an IOError from the pin
library ends start-up quietly and the daemon goes on to the socket.

Files, one module each:

- `wrappers.dfy`: `Option`.
- `text.dfy`: the Python 2 string operations the daemon uses, with their
  properties. These are `s[0:-1]`, `s[0:n]`, ASCII `lower()`,
  `split(' ')` and base-10 `int()`. It also defines `' '.join` and
  `str(n)`, which the daemon does not call, to state the round trips of
  `split(' ')` and `int()`.
- `gpio.dfy`: the three controller calls, their replies, and the
  `Controller` oracle.
- `protocol.dfy`: `gpio_command` as the function `Command`. It returns the
  controller call it made, if any, and its result. The result is a
  string, `None`, or an exception that escapes the function.
- `protocol_properties.dfy`: what `gpio_command` guarantees. The
  guarantees are stated against the command grammar in the file's header
  comment, and against `Render`, which turns a controller call into the
  command line that asks for it.
- `protocol_examples.dfy`: `gpio_command` worked out on particular lines.
- `replay.dfy`: the record of dispatched lines. It shows that the
  controller sees exactly their calls, in order.
- `config_loader.dfy`: the start-up loop. It is the method `LoadConfig`
  with its `while cmd:` loop, proved against the fold `Run`/`LoadFile`.
- `server.dfy`: the socket loop. It is the method `Serve` with the
  source's three nested loops, proved against the fold `Run` over reads.
- `daemon.dfy`: `gpio_main` from the start-up file on, with
  `gpio_command` plugged into both loops.

The two loops take the command interpreter as a parameter of type
`Dispatcher`, so their properties hold for any interpreter. `Daemon`
passes `Protocol.Command`. A read of the socket is an `Event`: the bytes
read (empty when the client closed), or an exception from the socket
layer.

Behaviour is reproduced as the code is written, including its surprises:

- `cmd[0:-1]` drops the last character unconditionally. A last file line
  with no newline loses a letter.
- Splitting is on single spaces, so two spaces make an empty word.
- The port word is parsed before the verb is looked at.
- `SETUP p OUT HIGH` raises `UnboundLocalError` (line 125 compares where
  it should assign) and sets nothing up.
- `SETUP p X` with a direction word other than `out`/`in` returns `None`.
  A `None` response then raises in either loop.
- A direction mismatch is caught only for OUTPUT and INPUT.
- A blank line in the start-up file is dispatched, not skipped.
- The log call of line 165 can never run, because a 4-character slice is
  compared with the 5-character `"error"`.
- A read holding several lines is dispatched as one command when it ends
  in a newline.

## Model

| member | source | states |
|---|---|---|
| Text.DropLast | gpiod.py:74 | `s[0:-1]`: the input is the result followed by its last character, and the empty string stays empty |
| Text.Prefix | gpiod.py:164 | `s[0:n]`: a prefix of `s`, of length `n` or all of `s` when shorter |
| Text.Lower | gpiod.py:74 | lowering keeps the length |
| Text.LowerAt | gpiod.py:74 | character `i` of the lowered string is character `i` lowered (ASCII only) |
| Text.LowerKeepsSpaces | gpiod.py:74 | lowering neither adds nor removes spaces |
| Text.LowerDropLast | gpiod.py:74 | lowering and dropping the last character commute |
| Text.Split | gpiod.py:74 | `split(' ')` gives one more field than there are spaces, and no field holds a space |
| Text.SplitSingle | gpiod.py:74 | a string splits into one field exactly when it holds no space, and that field is the string |
| Text.JoinSplit | gpiod.py:74 | joining the fields of `split(' ')` with single spaces gives the original string back |
| Text.SplitJoin | gpiod.py:74 | splitting the join of a non-empty list of space-free fields, some of which may be empty, gives the fields back |
| Text.ParseShow | gpiod.py:77 | `int(str(n)) == n` for every integer |
| Text.ParseIntAccepts | gpiod.py:77 | `int()` reads digits with whitespace around them, optionally behind `+` or `-` that may be followed by more whitespace, as the digits' value, negated after `-` |
| Text.SignThenTab | gpiod.py:77 | `int("+\t7")` is 7: whitespace between the sign and the digits is skipped |
| Text.ParseIntOnly | gpiod.py:77 | conversely, every word `int()` accepts is whitespace, an optional sign, whitespace only after a sign, digits and whitespace, and its value is the digits' value, negated after `-` |
| Text.MisplacedSigns | gpiod.py:77 | a sign alone, two signs, and a sign between digits are not integers (ValueError) |
| Text.ParseIntRejects | gpiod.py:77-79 | a word holding a character other than a digit, a sign or whitespace is not an integer (ValueError) |
| Protocol.Command | gpiod.py:73-147 | any call it makes is one the protocol can express (never SETUP OUT with initial HIGH), and every string result is `ok`, `true`, `false` or an `error ` message |
| Protocol.Dispatch | gpiod.py:76-147 | the same two guarantees for the body after tokenising |
| ProtocolProperties.MissingPort | gpiod.py:74-81 | the answer is "Port number not found" exactly when the line minus its last character holds no space, whatever the verb, and then no call is made |
| ProtocolProperties.InvalidPortNumber | gpiod.py:76-79 | the answer is "Invalid port number" exactly when there is a second word that is not an integer, and a line with no valid port makes no call |
| ProtocolProperties.SyntaxErrorEchoesLine | gpiod.py:83-147 | every syntax-error answer is the prefix followed by the received line minus its last character, in its original case, and comes with no call |
| ProtocolProperties.SyntaxErrorIff | gpiod.py:48-64 | a line is a syntax error exactly when it has a port, is none of the documented command forms, and is not a SETUP with an unknown direction word |
| ProtocolProperties.IssuedMatches | gpiod.py:83-145 | the call made has exactly the words of the line, up to how the port is written |
| ProtocolProperties.MatchesIssued | gpiod.py:83-145 | words that match an expressible call make that call |
| ProtocolProperties.ActionIff | gpiod.py:83-145 | a line makes call `a` exactly when its words are `a`'s words and `a` is expressible, and its answer is then the one the controller's reply dictates |
| ProtocolProperties.OutputReports | gpiod.py:83-98 | OUTPUT answers `ok` exactly when the write returns, "Wrong direction exception" exactly on a mismatch, and raises exactly on any other failure, an IOError exactly when the library raised one |
| ProtocolProperties.InputReports | gpiod.py:100-110 | INPUT answers `true` or `false` exactly as the pin reads, "Wrong direction exception" exactly on a mismatch, and raises exactly on any other failure, an IOError exactly when the library raised one |
| ProtocolProperties.SetupReports | gpiod.py:112-145 | SETUP answers `ok` exactly when the call returns and raises on every failure, a mismatch included, an IOError exactly when the library raised one |
| ProtocolProperties.SetupOutHighCrashes | gpiod.py:122-128 | SETUP p OUT HIGH raises and makes no call |
| ProtocolProperties.NoneIff | gpiod.py:112-145 | the result is `None` exactly for a SETUP whose direction word is neither `out` nor `in`, and then no call is made |
| ProtocolProperties.CrashIff | gpiod.py:94-143 | the function raises exactly on SETUP OUT HIGH, on a controller failure other than a mismatch, or on a mismatch during SETUP; the exception is an IOError exactly when the library raised one |
| ProtocolProperties.CaseInsensitive | gpiod.py:74 | lines equal up to case make the same call and get the same answer, except that each syntax error echoes its own line |
| ProtocolProperties.LineOnlyEchoed | gpiod.py:83-147 | the received text matters only through the syntax-error echo |
| ProtocolProperties.LowerNoUpper | gpiod.py:74 | lowering leaves a string with no capital letter unchanged |
| ProtocolProperties.TokensOfJoin | gpiod.py:74 | a lower-case line of space-free words joined by single spaces, plus one last character, reads back as those words |
| ProtocolProperties.RenderRoundTrip | gpiod.py:48-64 | every expressible call is made, and answered by the controller's reply, by its rendered command line followed by a newline |
| ProtocolExamples.SetupOutHighLine | gpiod.py:122-128 | `setup 7 out high` raises before any call |
| ProtocolExamples.LastLineWithoutNewline | gpiod.py:74 | `output 7 low` without its newline loses the `w` and is a syntax error echoing `output 7 lo` |
| ProtocolExamples.LastLineWithNewline | gpiod.py:83-98 | `output 7 low` with its newline sets pin 7 low |
| ProtocolExamples.DoubleSpace | gpiod.py:74-79 | `input  7` (two spaces) has an empty port word and gets "Invalid port number" |
| ProtocolExamples.MissingLevel | gpiod.py:83-85 | `output 11`, with no level, is a syntax error echoing `output 11` |
| ProtocolExamples.UnknownVerb | gpiod.py:146-147 | `abc 5 high` is a syntax error |
| ProtocolExamples.UnknownVerbBadPort | gpiod.py:76-79 | `abc foo high` gets "Invalid port number" before its verb is looked at |
| Replay.CallOf | gpiod.py:73-147 | an outcome made no call or exactly one |
| Replay.CallsAppend | gpiod.py:160-166 | the calls of two runs of exchanges are the calls of the first, then those of the second |
| Replay.AppendReplayed | gpiod.py:160-166 | recording the next command with what it gives keeps the record and the controller's history in step |
| Replay.ReplayedConcat | gpiod.py:156-199 | two records one after the other, the second starting where the first left the controller, are one record |
| ConfigLoader.LoadConfig | gpiod.py:158-168 | the loop computes `LoadFile`: nothing when the file cannot be opened; otherwise it reads until the first empty read, skips `#` lines, dispatches the rest and stops at an exception, which escapes unless it is an IOError |
| ConfigLoader.RunStopped | gpiod.py:156-168 | once the loop has ended or raised, no further line changes anything |
| ConfigLoader.StepDispatch | gpiod.py:161-163 | a non-comment line is recorded with its outcome and calls, and the loop goes on exactly when the result is a string, and is cut short quietly exactly when the command raised an IOError |
| ConfigLoader.StepSkip | gpiod.py:160-161 | a comment line changes nothing; the empty read ends the loop |
| ConfigLoader.DispatchOrder | gpiod.py:158-166 | the lines dispatched are the non-comment lines before the first empty read, in order, each once; all of them unless an exception cut the loop short |
| ConfigLoader.NeverLogs | gpiod.py:164-165 | nothing is ever logged |
| ConfigLoader.RaiseCause | gpiod.py:162-165 | every dispatched line but a last one returned a string; the loop is cut short only right after a line that returned `None` or raised, and quietly exactly when that line raised an IOError |
| ConfigLoader.RunReplayed | gpiod.py:160-166 | the controller sees exactly the calls of the dispatched lines, in order, each line getting what `gpio_command` gives it at that point |
| ConfigLoader.RunExtends | gpiod.py:160-166 | the loop only appends to the record of dispatched lines |
| ConfigLoader.LoadFileFacts | gpiod.py:156-168 | no dispatched line is empty or a comment; nothing is logged; the loop always ends; the calls replay; a missing file dispatches nothing; the dispatched lines are a prefix of the file's non-comment lines before the first empty read, and all of them when the loop ended on the empty read |
| ConfigLoader.UntilEmptyAppend | gpiod.py:160-166 | the empty read that ends a file adds no line |
| ConfigLoader.EndsInEmpty | gpiod.py:160-166 | the loop over a file always leaves `Reading` |
| Server.Serve | gpiod.py:183-202 | the nested loops compute `Run` over the reads: collect bytes until the text ends in a newline, dispatch it, send the answer plus a newline, drop the partial command and take the next connection on an empty read, and stop on any exception |
| Server.RunStopped | gpiod.py:198-202 | after an exception no read changes anything |
| Server.StepAnswered | gpiod.py:183-197 | one read keeps `Answered` |
| Server.RunAnswered | gpiod.py:183-197 | every dispatched text ends in a newline; the k-th send carries the k-th answer plus a newline, on the connection its line came from; only a failing last command goes unanswered, and it stops the loop |
| Server.StartAnswered | gpiod.py:183-185 | the loop starts with nothing dispatched or sent |
| Server.StepReplayed | gpiod.py:195 | one read keeps the controller's history in step with the record |
| Server.RunReplayed | gpiod.py:183-197 | the controller sees exactly the calls of the dispatched lines, in order, each line getting what `gpio_command` gives it at that point |
| Server.StepFraming | gpiod.py:186-193 | one non-empty read adds its bytes to the buffered or dispatched text, on the same connection |
| Server.Framing | gpiod.py:186-193 | while one client stays connected, the lines served from it followed by the buffer are the earlier buffer followed by all it sent, and all are served on its connection |
| Server.RaiseCause | gpiod.py:183-202 | the loop stops only on a socket exception, or right after a line whose command returned `None` or raised |
| Server.PartialDropped | gpiod.py:188-193 | a partial command cut off by a disconnect is dropped; the next client's complete line is served alone, on the new connection |
| Server.WholeRead | gpiod.py:186-195 | a read holding several newline-terminated lines is dispatched whole, as one command |
| Daemon.GpioMain | gpiod.py:156-202 | `gpio_main` computes `Main`: the start-up loop, then the socket loop unless an exception other than an IOError escaped the start-up loop |
| Daemon.MainFacts | gpiod.py:156-202 | over the whole run the controller sees the calls of the start-up lines, then those of the client lines, in order; every send is `ok`, `true`, `false` or an error plus a newline, on the command's connection |
| Daemon.FirstLineRaises | gpiod.py:158-168 | a first start-up line whose command returns `None` or raises something other than an IOError stops the daemon before the socket is opened |
| Daemon.FirstLineIOError | gpiod.py:158-168 | a first start-up line whose command raises an IOError ends start-up quietly, and the socket loop then runs with that line's call already made |
| Daemon.SetupOutHighInFile | gpiod.py:125 | a start-up file beginning with `setup 7 out high` stops the daemon before the socket, with no pin set up |
| Daemon.BlankLineInFile | gpiod.py:160-166 | a blank start-up line is dispatched, answered "Port number not found", and makes no call |

## Left out

- Socket creation, removal of a stale socket file, bind, chmod, listen and the first accept (gpiod.py:172-181). The model starts the socket loop on connection 0.
- `GPIO.setmode` and `GPIO.setwarnings` (gpiod.py:153-154), and the pins themselves. The RPi.GPIO library is the `Controller` oracle.
- syslog (gpiod.py:151, 201) and the traceback text. The start-up loop records what line 165 would log, which is always nothing.
- The daemon context, pid file and the SIGHUP handler `program_cleanup` (gpiod.py:204-219). They are process lifecycle and signal handling.
- `conn.send` is modelled as sending its whole text and never failing. A short send, or an exception from `send`, is not modelled.
- The 64-byte limit of `recv` is not enforced. Nothing in the loop depends on the size of a read.
- The start-up file is the list of lines `readline` returns, or None when `open` fails. An IOError in the middle of reading, which would also end the loop silently, is not modelled.
- The model does not track which connections are still open. When a client closes and the daemon takes the next one, nothing is recorded for the old connection.
- Server.Step: an exception from the `accept` that follows a closed read is a `Fault` after the connection number has advanced. The model therefore names the new number as the closed connection, where the code closes the old one.
- Exceptions other than an IOError are not told apart. `Crash(false)`, `Raised` and `Fault` stand for any of them, including KeyboardInterrupt. Only the start-up loop tells an IOError apart; the socket loop's bare `except:` treats it like any other.
- RPi.GPIO is not part of this model. `GPIO.WrongDirectionException` is taken not to be a subclass of IOError.
- The controller's state is a function of the calls made before. Changes from outside the daemon, such as another process using the pins, are not modelled.
