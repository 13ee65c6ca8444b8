/**
 * What `gpio_command` guarantees, stated against the command grammar of the
 * header comment of gpiod.py and against a rendering of every controller call
 * as the command line that asks for it.
 */
module ProtocolProperties {
  import opened Wrappers
  import opened Text
  import opened Gpio
  import opened Protocol

  // ---------------------------------------------------------------
  // Reference definitions
  // ---------------------------------------------------------------

  /** The documented command forms (SETUP/OUTPUT/INPUT with their arguments). */
  predicate WellFormed(t: seq<string>)
    requires |t| >= 2
  {
    || (t[0] == "output" && |t| == 3 && (t[2] == "low" || t[2] == "high"))
    || (t[0] == "input" && |t| == 2)
    || (t[0] == "setup" && |t| == 3 && (t[2] == "out" || t[2] == "in"))
    || (t[0] == "setup" && |t| == 4 && t[2] == "out" && (t[3] == "low" || t[3] == "high"))
    || (t[0] == "setup" && |t| == 4 && t[2] == "in" && (t[3] == "pullup" || t[3] == "pulldown"))
  }

  /** A SETUP of the right length whose direction word is neither `out` nor `in`. */
  predicate UnknownDirection(t: seq<string>)
    requires |t| >= 2
  {
    t[0] == "setup" && 3 <= |t| <= 4 && t[2] != "out" && t[2] != "in"
  }

  /** SETUP ... OUT HIGH, the documented form the code cannot carry out. */
  predicate OutHigh(t: seq<string>)
    requires |t| >= 2
  {
    t[0] == "setup" && |t| == 4 && t[2] == "out" && t[3] == "high"
  }

  /** The port word parses as an integer. */
  predicate HasPort(t: seq<string>)
  {
    |t| >= 2 && ParseInt(t[1]).Some?
  }

  function LevelWord(l: Level): string
  {
    if l == Low then "low" else "high"
  }

  function OptionWords(opt: SetupOption): seq<string>
  {
    match opt
    case NoOption => []
    case Initial(l) => [LevelWord(l)]
    case Resistor(PullUp) => ["pullup"]
    case Resistor(PullDown) => ["pulldown"]
  }

  /** The words of the command that asks for the call `a`, in lower case. */
  function Words(a: Action): (w: seq<string>)
    ensures |w| >= 2 && w[1] == Show(a.pin)
  {
    match a
    case Write(p, l) => ["output", Show(p), LevelWord(l)]
    case Read(p) => ["input", Show(p)]
    case Setup(p, d, opt) => ["setup", Show(p), if d == Out then "out" else "in"] + OptionWords(opt)
  }

  /** The command line (without its newline) that asks for `a`. */
  function Render(a: Action): string
  {
    Join(Words(a))
  }

  /** `t` are the words of the command asking for `a`, up to how the port is written. */
  predicate Matches(t: seq<string>, a: Action)
  {
    var w := Words(a);
    |t| == |w| && ParseInt(t[1]) == Some(a.pin) &&
    forall i :: 0 <= i < |t| && i != 1 ==> t[i] == w[i]
  }

  // ---------------------------------------------------------------
  // The port word is looked at before the verb
  // ---------------------------------------------------------------

  lemma SyntaxTextDistinct(line: string)
    ensures SyntaxPrefix + line != PortNotFound
    ensures SyntaxPrefix + line != InvalidPort
  {
    assert (SyntaxPrefix + line)[6] == 'C';
    assert PortNotFound[6] == 'P';
    assert InvalidPort[6] == 'I';
  }

  /**
   * A line whose text (minus its last character) holds no space has no port
   * word: the answer is "Port number not found" whatever the verb, and no
   * other line gets that answer.
   */
  lemma MissingPort(cmd: string, ctl: Controller, history: seq<Action>)
    ensures Command(cmd, ctl, history).response == Resp(PortNotFound) <==> ' ' !in DropLast(cmd)
    ensures ' ' !in DropLast(cmd) ==> Command(cmd, ctl, history).action == None
  {
    LowerKeepsSpaces(DropLast(cmd));
    SplitSingle(Lower(DropLast(cmd)));
    assert |Tokens(cmd)| < 2 <==> ' ' !in DropLast(cmd);
    assert Command(cmd, ctl, history) == Dispatch(DropLast(cmd), Tokens(cmd), ctl, history);
    PortNotFoundOfDispatch(DropLast(cmd), Tokens(cmd), ctl, history);
  }

  lemma PortNotFoundOfDispatch(line: string, t: seq<string>, ctl: Controller, history: seq<Action>)
    ensures Dispatch(line, t, ctl, history).response == Resp(PortNotFound) <==> |t| < 2
    ensures |t| < 2 ==> Dispatch(line, t, ctl, history).action == None
  {
    SyntaxTextDistinct(line);
  }

  /**
   * A port word that is not an integer gives "Invalid port number" whatever
   * the verb, and no other line gets that answer.
   */
  lemma InvalidPortNumber(cmd: string, ctl: Controller, history: seq<Action>)
    ensures var t := Tokens(cmd);
      Command(cmd, ctl, history).response == Resp(InvalidPort) <==> |t| >= 2 && ParseInt(t[1]).None?
    ensures !HasPort(Tokens(cmd)) ==> Command(cmd, ctl, history).action == None
  {
    SyntaxTextDistinct(DropLast(cmd));
  }

  // ---------------------------------------------------------------
  // Syntax errors
  // ---------------------------------------------------------------

  /** `t` begins with the syntax-error prefix. */
  predicate SyntaxText(t: string)
  {
    |t| >= |SyntaxPrefix| && t[..|SyntaxPrefix|] == SyntaxPrefix
  }

  lemma OtherTextsDiffer()
    ensures !SyntaxText(PortNotFound) && !SyntaxText(InvalidPort) && !SyntaxText(WrongDirectionText)
    ensures !SyntaxText("ok") && !SyntaxText("true") && !SyntaxText("false")
  {
    assert PortNotFound[6] != SyntaxPrefix[6];
    assert InvalidPort[6] != SyntaxPrefix[6];
    assert WrongDirectionText[6] != SyntaxPrefix[6];
  }

  /**
   * Every syntax error echoes the received line minus its last character, in
   * its original case, and comes with no controller call.
   */
  lemma SyntaxErrorEchoesLine(cmd: string, ctl: Controller, history: seq<Action>)
    ensures var o := Command(cmd, ctl, history);
      o.response.Resp? && SyntaxText(o.response.text) ==>
        o.response.text == SyntaxPrefix + DropLast(cmd) && o.action == None
  {
    assert Command(cmd, ctl, history) == Dispatch(DropLast(cmd), Tokens(cmd), ctl, history);
    EchoOfDispatch(DropLast(cmd), Tokens(cmd), ctl, history);
  }

  lemma EchoOfDispatch(line: string, t: seq<string>, ctl: Controller, history: seq<Action>)
    ensures var o := Dispatch(line, t, ctl, history);
      o.response.Resp? && SyntaxText(o.response.text) ==> o == SyntaxError(line)
  {
    OtherTextsDiffer();
    var o := Dispatch(line, t, ctl, history);
    if o.action.Some? {
      var a := o.action.value;
      assert o.response == Answer(a, ctl(history, a));
    }
  }

  /**
   * A line with a port is a syntax error exactly when it is none of the
   * documented forms and not a SETUP with an unknown direction word.
   */
  lemma SyntaxErrorIff(cmd: string, ctl: Controller, history: seq<Action>)
    ensures var t := Tokens(cmd);
      Command(cmd, ctl, history).response == Resp(SyntaxPrefix + DropLast(cmd)) <==>
        HasPort(t) && !WellFormed(t) && !UnknownDirection(t)
  {
    SyntaxTextDistinct(DropLast(cmd));
    var o := Command(cmd, ctl, history);
    if o.response == Resp(SyntaxPrefix + DropLast(cmd)) {
      SyntaxIsNotOther(DropLast(cmd));
    }
  }

  lemma SyntaxIsNotOther(line: string)
    ensures SyntaxPrefix + line != WrongDirectionText
    ensures SyntaxPrefix + line !in {"ok", "true", "false"}
  {
    assert (SyntaxPrefix + line)[6] == 'C';
    assert WrongDirectionText[6] == 'W';
    assert |SyntaxPrefix + line| > 5;
  }

  // ---------------------------------------------------------------
  // Controller calls
  // ---------------------------------------------------------------

  /** The call `Dispatch` makes has the words the call renders to. */
  lemma IssuedMatches(line: string, t: seq<string>, ctl: Controller, history: seq<Action>)
    ensures var o := Dispatch(line, t, ctl, history);
      o.action.Some? ==> Matches(t, o.action.value)
  {
    var o := Dispatch(line, t, ctl, history);
    if o.action.Some? {
      var a := o.action.value;
      assert |t| >= 2 && ParseInt(t[1]) == Some(a.pin);
      var w := Words(a);
      if t[0] == "output" {
        assert |t| == 3 && w == ["output", Show(a.pin), t[2]];
      } else if t[0] == "input" {
        assert |t| == 2 && w == ["input", Show(a.pin)];
      } else {
        assert t[0] == "setup";
        if |t| == 3 {
          assert w == ["setup", Show(a.pin), t[2]];
        } else {
          assert w == ["setup", Show(a.pin), t[2], t[3]];
        }
      }
    }
  }

  /** Words that match an expressible call make `Dispatch` issue that call. */
  lemma MatchesIssued(line: string, t: seq<string>, ctl: Controller, history: seq<Action>, a: Action)
    requires Expressible(a) && Matches(t, a)
    ensures Dispatch(line, t, ctl, history).action == Some(a)
  {
    var w := Words(a);
    assert t[0] == w[0];
    assert |t| >= 3 ==> t[2] == w[2];
    assert |t| >= 4 ==> t[3] == w[3];
    match a
    case Write(p, l) =>
      assert t[0] == "output" && |t| == 3;
    case Read(p) =>
      assert t[0] == "input" && |t| == 2;
    case Setup(p, d, opt) =>
      assert t[0] == "setup";
      if d == Out {
        assert t[2] == "out";
      } else {
        assert t[2] == "in";
      }
  }

  /**
   * A command makes the call `a` exactly when its words are the words of
   * `a` (the port written any way `int()` accepts) and `a` is a call the
   * protocol can express; it then answers as the controller's reply
   * dictates.
   */
  lemma ActionIff(cmd: string, ctl: Controller, history: seq<Action>, a: Action)
    ensures Command(cmd, ctl, history).action == Some(a) <==> Expressible(a) && Matches(Tokens(cmd), a)
    ensures Command(cmd, ctl, history).action == Some(a) ==>
      Command(cmd, ctl, history).response == Answer(a, ctl(history, a))
  {
    var line, t := DropLast(cmd), Tokens(cmd);
    assert Command(cmd, ctl, history) == Dispatch(line, t, ctl, history);
    IssuedMatches(line, t, ctl, history);
    if Expressible(a) && Matches(t, a) {
      MatchesIssued(line, t, ctl, history, a);
    }
    AnswerOfIssued(line, t, ctl, history);
  }

  lemma AnswerOfIssued(line: string, t: seq<string>, ctl: Controller, history: seq<Action>)
    ensures var o := Dispatch(line, t, ctl, history);
      o.action.Some? ==> o.response == Answer(o.action.value, ctl(history, o.action.value))
  {
  }

  /**
   * INPUT answers "true" or "false" as the pin reads, "Wrong direction"
   * on a direction mismatch, and raises on any other failure, the
   * controller's IOError as an IOError.
   */
  lemma InputReports(cmd: string, ctl: Controller, history: seq<Action>, p: int)
    requires Command(cmd, ctl, history).action == Some(Read(p))
    ensures var r := Command(cmd, ctl, history).response;
      var reply := ctl(history, Read(p));
      (r == Resp("true") <==> reply == Returned(true)) &&
      (r == Resp("false") <==> reply == Returned(false)) &&
      (r == Resp(WrongDirectionText) <==> reply == WrongDirection) &&
      (r == Crash(true) <==> reply == IOFailure) &&
      (r == Crash(false) <==> reply == OtherError)
  {
    ActionIff(cmd, ctl, history, Read(p));
  }

  /**
   * OUTPUT answers "ok" when the write goes through, "Wrong direction" on a
   * direction mismatch, and raises on any other failure, the controller's
   * IOError as an IOError.
   */
  lemma OutputReports(cmd: string, ctl: Controller, history: seq<Action>, p: int, l: Level)
    requires Command(cmd, ctl, history).action == Some(Write(p, l))
    ensures var r := Command(cmd, ctl, history).response;
      var reply := ctl(history, Write(p, l));
      (r == Resp("ok") <==> reply.Returned?) &&
      (r == Resp(WrongDirectionText) <==> reply == WrongDirection) &&
      (r == Crash(true) <==> reply == IOFailure) &&
      (r == Crash(false) <==> reply == OtherError)
  {
    ActionIff(cmd, ctl, history, Write(p, l));
  }

  /**
   * SETUP answers "ok" when the call goes through and raises on any
   * failure, a direction mismatch included; the exception is an IOError
   * exactly when the controller's was.
   */
  lemma SetupReports(cmd: string, ctl: Controller, history: seq<Action>, a: Action)
    requires a.Setup? && Command(cmd, ctl, history).action == Some(a)
    ensures var r := Command(cmd, ctl, history).response;
      (r == Resp("ok") <==> ctl(history, a).Returned?) &&
      (r.Crash? <==> !ctl(history, a).Returned?) &&
      (r == Crash(true) <==> ctl(history, a) == IOFailure)
  {
    ActionIff(cmd, ctl, history, a);
  }

  /** SETUP p OUT HIGH raises before any call is made. */
  lemma SetupOutHighCrashes(cmd: string, ctl: Controller, history: seq<Action>)
    requires HasPort(Tokens(cmd)) && OutHigh(Tokens(cmd))
    ensures Command(cmd, ctl, history) == Outcome(None, Crash(false))
  {
  }

  /** SETUP with a direction word other than `out`/`in` returns `None`, and only it does. */
  lemma NoneIff(cmd: string, ctl: Controller, history: seq<Action>)
    ensures var t := Tokens(cmd);
      Command(cmd, ctl, history).response == NoneResult <==> HasPort(t) && UnknownDirection(t)
    ensures Command(cmd, ctl, history).response == NoneResult ==> Command(cmd, ctl, history).action == None
  {
  }

  /**
   * A command raises exactly when it is SETUP ... OUT HIGH, when the
   * controller raises something other than a direction mismatch, or when
   * SETUP meets a direction mismatch (only OUTPUT and INPUT catch it). The
   * exception is an IOError exactly when it is the controller's IOError.
   */
  lemma CrashIff(cmd: string, ctl: Controller, history: seq<Action>)
    ensures var o := Command(cmd, ctl, history);
      var t := Tokens(cmd);
      o.response.Crash? <==>
        (HasPort(t) && OutHigh(t)) ||
        (o.action.Some? &&
          (ctl(history, o.action.value) == OtherError ||
           ctl(history, o.action.value) == IOFailure ||
           (o.action.value.Setup? && ctl(history, o.action.value) == WrongDirection)))
    ensures var o := Command(cmd, ctl, history);
      o.response == Crash(true) <==> o.action.Some? && ctl(history, o.action.value) == IOFailure
  {
    var o := Command(cmd, ctl, history);
    if o.action.Some? {
      AnswerCrash(o.action.value, ctl(history, o.action.value));
    }
  }

  /** The exceptions a call lets escape: all of them for SETUP, all but a direction mismatch otherwise. */
  lemma AnswerCrash(a: Action, r: Reply)
    ensures Answer(a, r).Crash? <==> r == OtherError || r == IOFailure || (a.Setup? && r == WrongDirection)
    ensures Answer(a, r) == Crash(true) <==> r == IOFailure
  {
  }

  // ---------------------------------------------------------------
  // Case insensitivity and the round trip through Render
  // ---------------------------------------------------------------

  /**
   * Two lines equal up to case make the same call and get the same answer,
   * except that a syntax error echoes each line as it was received.
   */
  lemma CaseInsensitive(c1: string, c2: string, ctl: Controller, history: seq<Action>)
    requires Lower(c1) == Lower(c2)
    ensures Command(c1, ctl, history).action == Command(c2, ctl, history).action
    ensures Command(c1, ctl, history).response == Command(c2, ctl, history).response ||
      (Command(c1, ctl, history).response == Resp(SyntaxPrefix + DropLast(c1)) &&
       Command(c2, ctl, history).response == Resp(SyntaxPrefix + DropLast(c2)))
  {
    LowerDropLast(c1);
    LowerDropLast(c2);
    assert Tokens(c1) == Tokens(c2);
    LineOnlyEchoed(DropLast(c1), DropLast(c2), Tokens(c1), ctl, history);
  }

  /** The received line matters to `Dispatch` only through the syntax-error echo. */
  lemma LineOnlyEchoed(l1: string, l2: string, t: seq<string>, ctl: Controller, history: seq<Action>)
    ensures Dispatch(l1, t, ctl, history).action == Dispatch(l2, t, ctl, history).action
    ensures Dispatch(l1, t, ctl, history).response == Dispatch(l2, t, ctl, history).response ||
      (Dispatch(l1, t, ctl, history) == SyntaxError(l1) && Dispatch(l2, t, ctl, history) == SyntaxError(l2))
  {
  }

  predicate NoUpper(s: string)
  {
    forall i :: 0 <= i < |s| ==> !('A' <= s[i] <= 'Z')
  }

  lemma {:induction false} LowerNoUpper(s: string)
    requires NoUpper(s)
    ensures Lower(s) == s
  {
    if s != [] {
      assert NoUpper(s[1..]) by {
        forall i | 0 <= i < |s[1..]| ensures !('A' <= s[1..][i] <= 'Z') {
          assert s[1..][i] == s[i + 1];
        }
      }
      LowerNoUpper(s[1..]);
      assert !('A' <= s[0] <= 'Z');
      assert s == [s[0]] + s[1..];
    }
  }

  /**
   * A line made of lower-case, space-free words joined by single spaces,
   * plus one last character, is read back as exactly those words.
   */
  lemma TokensOfJoin(ts: seq<string>, c: char)
    requires |ts| >= 1
    requires forall i :: 0 <= i < |ts| ==> NoUpper(ts[i]) && ' ' !in ts[i]
    ensures Tokens(Join(ts) + [c]) == ts
  {
    JoinNoUpper(ts);
    LowerNoUpper(Join(ts));
    assert DropLast(Join(ts) + [c]) == Join(ts);
    SplitJoin(ts);
  }

  lemma {:induction false} JoinNoUpper(ts: seq<string>)
    requires forall i :: 0 <= i < |ts| ==> NoUpper(ts[i])
    ensures NoUpper(Join(ts))
  {
    if |ts| > 1 {
      JoinNoUpper(ts[1..]);
      assert NoUpper(ts[0]);
    }
  }

  lemma WordsPlain(a: Action)
    ensures forall i :: 0 <= i < |Words(a)| ==> NoUpper(Words(a)[i]) && ' ' !in Words(a)[i]
  {
    var s := Show(a.pin);
    assert NoUpper(s) && ' ' !in s by {
      var m: nat := if a.pin < 0 then -a.pin else a.pin;
      assert forall i :: 0 <= i < |s| ==> s[i] == '-' || IsDigit(s[i]) by {
        if a.pin < 0 {
          assert s == "-" + ShowNat(m);
        }
      }
    }
  }

  /**
   * Every call the protocol can express is made, and answered, by its
   * rendered command line followed by a newline.
   */
  lemma RenderRoundTrip(a: Action, ctl: Controller, history: seq<Action>)
    requires Expressible(a)
    ensures Command(Render(a) + "\n", ctl, history) == Outcome(Some(a), Answer(a, ctl(history, a)))
  {
    WordsPlain(a);
    TokensOfJoin(Words(a), '\n');
    assert Tokens(Render(a) + "\n") == Words(a);
    ParseShow(a.pin);
    ActionIff(Render(a) + "\n", ctl, history, a);
  }
}
