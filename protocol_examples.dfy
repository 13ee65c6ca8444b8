/**
 * `gpio_command` on particular lines, worked out from the definitions.
 */
module ProtocolExamples {
  import opened Wrappers
  import opened Text
  import opened Gpio
  import opened Protocol
  import ProtocolProperties

  /** `gpio_command` on a line whose words, and whose line as received, are known. */
  lemma CommandIs(cmd: string, line: string, ts: seq<string>, o: Outcome, ctl: Controller, history: seq<Action>)
    requires Tokens(cmd) == ts && DropLast(cmd) == line
    requires Dispatch(line, ts, ctl, history) == o
    ensures Command(cmd, ctl, history) == o
  {
  }

  lemma PortSeven()
    ensures ParseInt("7") == Some(7)
  {
    ParseShow(7);
    assert Show(7) == "7";
  }

  lemma SetupOutHighTokens()
    ensures Tokens("setup 7 out high\n") == ["setup", "7", "out", "high"]
  {
    var ts := ["setup", "7", "out", "high"];
    assert Join(ts) + ['\n'] == "setup 7 out high\n";
    ProtocolProperties.TokensOfJoin(ts, '\n');
  }

  lemma SetupOutHighDispatch(line: string, ctl: Controller, history: seq<Action>)
    ensures Dispatch(line, ["setup", "7", "out", "high"], ctl, history) == Outcome(None, Crash(false))
  {
    PortSeven();
  }

  /** SETUP 7 OUT HIGH raises, before any call is made. */
  lemma SetupOutHighLine(ctl: Controller, history: seq<Action>)
    ensures Command("setup 7 out high\n", ctl, history) == Outcome(None, Crash(false))
  {
    SetupOutHighTokens();
    SetupOutHighDispatch("setup 7 out high", ctl, history);
    assert DropLast("setup 7 out high\n") == "setup 7 out high";
    CommandIs("setup 7 out high\n", "setup 7 out high", ["setup", "7", "out", "high"], Outcome(None, Crash(false)), ctl, history);
  }

  lemma ShortLowTokens()
    ensures Tokens("output 7 low") == ["output", "7", "lo"]
  {
    var ts := ["output", "7", "lo"];
    assert Join(ts) + ['w'] == "output 7 low";
    ProtocolProperties.TokensOfJoin(ts, 'w');
  }

  lemma ShortLowDispatch(line: string, ctl: Controller, history: seq<Action>)
    ensures Dispatch(line, ["output", "7", "lo"], ctl, history) == Outcome(None, Resp(SyntaxPrefix + line))
  {
    PortSeven();
  }

  /**
   * `cmd[0:-1]` drops the last character whatever it is: a last line of
   * the start-up file without its newline loses its last letter and is
   * taken for a syntax error.
   */
  lemma LastLineWithoutNewline(ctl: Controller, history: seq<Action>)
    ensures Command("output 7 low", ctl, history) == Outcome(None, Resp(SyntaxPrefix + "output 7 lo"))
  {
    ShortLowTokens();
    ShortLowDispatch("output 7 lo", ctl, history);
    assert DropLast("output 7 low") == "output 7 lo";
    CommandIs("output 7 low", "output 7 lo", ["output", "7", "lo"], Outcome(None, Resp(SyntaxPrefix + "output 7 lo")), ctl, history);
  }

  lemma LowTokens()
    ensures Tokens("output 7 low\n") == ["output", "7", "low"]
  {
    var ts := ["output", "7", "low"];
    assert Join(ts) + ['\n'] == "output 7 low\n";
    ProtocolProperties.TokensOfJoin(ts, '\n');
  }

  lemma LowDispatch(line: string, ctl: Controller, history: seq<Action>)
    ensures Dispatch(line, ["output", "7", "low"], ctl, history) == Issue(Write(7, Low), ctl, history)
  {
    PortSeven();
  }

  /** The same line with its newline sets pin 7 low. */
  lemma LastLineWithNewline(ctl: Controller, history: seq<Action>)
    ensures Command("output 7 low\n", ctl, history).action == Some(Write(7, Low))
  {
    LowTokens();
    LowDispatch("output 7 low", ctl, history);
    assert DropLast("output 7 low\n") == "output 7 low";
    CommandIs("output 7 low\n", "output 7 low", ["output", "7", "low"], Issue(Write(7, Low), ctl, history), ctl, history);
  }

  lemma DoubleSpaceTokens()
    ensures Tokens("input  7\n") == ["input", "", "7"]
  {
    var ts := ["input", "", "7"];
    assert Join(ts) + ['\n'] == "input  7\n";
    ProtocolProperties.TokensOfJoin(ts, '\n');
  }

  lemma DoubleSpaceDispatch(line: string, ctl: Controller, history: seq<Action>)
    ensures Dispatch(line, ["input", "", "7"], ctl, history) == Outcome(None, Resp(InvalidPort))
  {
    assert ParseInt("") == None;
  }

  /**
   * Two spaces in a row make an empty word: the empty word stands where
   * the port should be, and `int("")` fails.
   */
  lemma DoubleSpace(ctl: Controller, history: seq<Action>)
    ensures Command("input  7\n", ctl, history) == Outcome(None, Resp(InvalidPort))
  {
    DoubleSpaceTokens();
    DoubleSpaceDispatch("input  7", ctl, history);
    assert DropLast("input  7\n") == "input  7";
    CommandIs("input  7\n", "input  7", ["input", "", "7"], Outcome(None, Resp(InvalidPort)), ctl, history);
  }

  lemma Output11Tokens()
    ensures Tokens("output 11\n") == ["output", "11"]
  {
    var ts := ["output", "11"];
    assert Join(ts) + ['\n'] == "output 11\n";
    ProtocolProperties.TokensOfJoin(ts, '\n');
  }

  lemma Output11Dispatch(line: string, ctl: Controller, history: seq<Action>)
    ensures Dispatch(line, ["output", "11"], ctl, history) == Outcome(None, Resp(SyntaxPrefix + line))
  {
    ParseShow(11);
    assert Show(11) == "11";
  }

  /** OUTPUT without its level is a syntax error that echoes the line. */
  lemma MissingLevel(ctl: Controller, history: seq<Action>)
    ensures Command("output 11\n", ctl, history) == Outcome(None, Resp(SyntaxPrefix + "output 11"))
  {
    Output11Tokens();
    Output11Dispatch("output 11", ctl, history);
    assert DropLast("output 11\n") == "output 11";
    CommandIs("output 11\n", "output 11", ["output", "11"], Outcome(None, Resp(SyntaxPrefix + "output 11")), ctl, history);
  }

  lemma UnknownVerbTokens()
    ensures Tokens("abc 5 high\n") == ["abc", "5", "high"]
  {
    var ts := ["abc", "5", "high"];
    assert Join(ts) + ['\n'] == "abc 5 high\n";
    ProtocolProperties.TokensOfJoin(ts, '\n');
  }

  lemma UnknownVerbDispatch(line: string, ctl: Controller, history: seq<Action>)
    ensures Dispatch(line, ["abc", "5", "high"], ctl, history) == Outcome(None, Resp(SyntaxPrefix + line))
  {
    ParseShow(5);
    assert Show(5) == "5";
  }

  /** An unknown verb with a port that parses is a syntax error. */
  lemma UnknownVerb(ctl: Controller, history: seq<Action>)
    ensures Command("abc 5 high\n", ctl, history) == Outcome(None, Resp(SyntaxPrefix + "abc 5 high"))
  {
    UnknownVerbTokens();
    UnknownVerbDispatch("abc 5 high", ctl, history);
    assert DropLast("abc 5 high\n") == "abc 5 high";
    CommandIs("abc 5 high\n", "abc 5 high", ["abc", "5", "high"], Outcome(None, Resp(SyntaxPrefix + "abc 5 high")), ctl, history);
  }

  lemma BadPortTokens()
    ensures Tokens("abc foo high\n") == ["abc", "foo", "high"]
  {
    var ts := ["abc", "foo", "high"];
    assert Join(ts) + ['\n'] == "abc foo high\n";
    ProtocolProperties.TokensOfJoin(ts, '\n');
  }

  lemma BadPortDispatch(line: string, ctl: Controller, history: seq<Action>)
    ensures Dispatch(line, ["abc", "foo", "high"], ctl, history) == Outcome(None, Resp(InvalidPort))
  {
    ParseIntRejects("foo", 'f');
  }

  /** A port word that is not a number is reported before the verb is looked at. */
  lemma UnknownVerbBadPort(ctl: Controller, history: seq<Action>)
    ensures Command("abc foo high\n", ctl, history) == Outcome(None, Resp(InvalidPort))
  {
    BadPortTokens();
    BadPortDispatch("abc foo high", ctl, history);
    assert DropLast("abc foo high\n") == "abc foo high";
    CommandIs("abc foo high\n", "abc foo high", ["abc", "foo", "high"], Outcome(None, Resp(InvalidPort)), ctl, history);
  }
}

