/**
 * `gpio_command`: one received line in, one response and at most one call
 * into the pin controller out.
 */
module Protocol {
  import opened Wrappers
  import opened Text
  import opened Gpio

  /**
   * What `gpio_command` ends with: a returned string, Python's `None` (the
   * SETUP branch that falls off the end of the function), or an exception
   * that escapes it; `io` tells whether that exception is an `IOError`.
   */
  datatype Response = Resp(text: string) | NoneResult | Crash(io: bool)

  /** The controller call the command made, if any, and how it ended. */
  datatype Outcome = Outcome(action: Option<Action>, response: Response)

  /** The type of `gpio_command` as the loops of `gpio_main` call it; `Command` below is one. */
  type Dispatcher = (string, Controller, seq<Action>) -> Outcome

  const PortNotFound: string := "error Port number not found"
  const InvalidPort: string := "error Invalid port number"
  const WrongDirectionText: string := "error Wrong direction exception"
  const SyntaxPrefix: string := "error Command syntax error: "

  /** The words of a command: the line minus its last character, lowered, split on ' '. */
  function Tokens(cmd: string): seq<string>
  {
    Split(Lower(DropLast(cmd)))
  }

  /** The reply to a line with the wrong words: the prefix, then the line as received. */
  function SyntaxError(line: string): (o: Outcome)
    ensures o.action == None && o.response.Resp? && IsError(o.response.text)
  {
    assert (SyntaxPrefix + line)[..6] == SyntaxPrefix[..6];
    Outcome(None, Resp(SyntaxPrefix + line))
  }

  /** The fixed texts the daemon replies with. */
  lemma ErrorTexts()
    ensures IsError(PortNotFound) && IsError(InvalidPort) && IsError(WrongDirectionText)
  {
  }

  /** A call made inside `try ... except GPIO.WrongDirectionException` (OUTPUT, INPUT). */
  function Guarded(a: Action, r: Reply): Response
  {
    match r
    case Returned(v) => Resp(if a.Read? then (if v then "true" else "false") else "ok")
    case WrongDirection => Resp(WrongDirectionText)
    case IOFailure => Crash(true)
    case OtherError => Crash(false)
  }

  /** A call made with no handler around it (SETUP): every exception escapes. */
  function Unguarded(r: Reply): Response
  {
    match r
    case Returned(_) => Resp("ok")
    case IOFailure => Crash(true)
    case _ => Crash(false)
  }

  /** How a command that issued `a` ends when the controller answers `r`. */
  function Answer(a: Action, r: Reply): Response
  {
    if a.Setup? then Unguarded(r) else Guarded(a, r)
  }

  /** An error response as the daemon writes them. */
  predicate IsError(t: string)
  {
    |t| >= 6 && t[..6] == "error "
  }

  /** The calls the protocol can ask for (SETUP ... OUT HIGH is not among them). */
  predicate Expressible(a: Action)
  {
    match a
    case Write(_, _) => true
    case Read(_) => true
    case Setup(_, Out, opt) => opt == NoOption || opt == Initial(Low)
    case Setup(_, In, opt) => !opt.Initial?
  }

  /**
   * `gpio_command(cmd)`: `ctl` answers the call it makes, given the calls
   * `history` made before it.
   */
  function Command(cmd: string, ctl: Controller, history: seq<Action>): (o: Outcome)
    ensures o.action.Some? ==> Expressible(o.action.value)
    ensures o.response.Resp? ==>
      o.response.text in {"ok", "true", "false"} || IsError(o.response.text)
  {
    Dispatch(DropLast(cmd), Tokens(cmd), ctl, history)
  }

  /**
   * The body of `gpio_command` after line 74: `line` is `cmd[0:-1]` as
   * received, `token` its lowered words.
   */
  function Dispatch(line: string, token: seq<string>, ctl: Controller, history: seq<Action>): (o: Outcome)
    ensures o.action.Some? ==> Expressible(o.action.value)
    ensures o.response.Resp? ==>
      o.response.text in {"ok", "true", "false"} || IsError(o.response.text)
  {
    ErrorTexts();
    if |token| < 2 then Outcome(None, Resp(PortNotFound))
    else match ParseInt(token[1])
      case None => Outcome(None, Resp(InvalidPort))
      case Some(port) =>
        if token[0] == "output" then
          if |token| != 3 then SyntaxError(line)
          else if token[2] == "low" then Issue(Write(port, Low), ctl, history)
          else if token[2] == "high" then Issue(Write(port, High), ctl, history)
          else SyntaxError(line)
        else if token[0] == "input" then
          if |token| != 2 then SyntaxError(line)
          else Issue(Read(port), ctl, history)
        else if token[0] == "setup" then
          if |token| < 3 || |token| > 4 then SyntaxError(line)
          else if token[2] == "out" then
            if |token| == 3 then Issue(Setup(port, Out, NoOption), ctl, history)
            else if token[3] == "low" then Issue(Setup(port, Out, Initial(Low)), ctl, history)
            // `cmd1 == GPIO.HIGH` reads the unbound local `cmd1`: UnboundLocalError
            else if token[3] == "high" then Outcome(None, Crash(false))
            else SyntaxError(line)
          else if token[2] == "in" then
            if |token| == 3 then Issue(Setup(port, In, NoOption), ctl, history)
            else if token[3] == "pullup" then Issue(Setup(port, In, Resistor(PullUp)), ctl, history)
            else if token[3] == "pulldown" then Issue(Setup(port, In, Resistor(PullDown)), ctl, history)
            else SyntaxError(line)
          // neither `out` nor `in`: the function falls off its end
          else Outcome(None, NoneResult)
        else SyntaxError(line)
  }

  /** Making the call `a`, given the calls `history` made before it. */
  function Issue(a: Action, ctl: Controller, history: seq<Action>): (o: Outcome)
    ensures o.action == Some(a)
    ensures o.response.Resp? ==>
      o.response.text in {"ok", "true", "false"} || o.response.text == WrongDirectionText
  {
    Outcome(Some(a), Answer(a, ctl(history, a)))
  }
}
