/**
 * `gpio_main` from the start-up file on: the start-up loop with
 * `gpio_command` as its dispatcher and, unless an exception other than an
 * IOError left that loop, the socket loop, both talking to the same pin
 * controller.
 */
module Daemon {
  import opened Wrappers
  import opened Text
  import opened Gpio
  import opened Protocol
  import opened Replay
  import ProtocolProperties
  import ProtocolExamples
  import ConfigLoader
  import Server

  /** How far `gpio_main` got: the start-up loop, then the socket loop if it was reached. */
  datatype Daemon = Daemon(load: ConfigLoader.Load, server: Option<Server.Server>)

  /** The whole run: `file` is /etc/gpiod.cfg (None when it cannot be opened), `events` the reads. */
  function Main(file: Option<seq<string>>, events: seq<Server.Event>, ctl: Controller): Daemon
  {
    var load := ConfigLoader.LoadFile(file, Command, ctl, []);
    if load.phase == ConfigLoader.Raised then Daemon(load, None)
    else Daemon(load, Some(Server.Run(Command, ctl, Server.Start(load.issued), events)))
  }

  /**
   * Lines 156-202; an exception from the start-up loop that is not an
   * IOError leaves `gpio_main` before the socket is made.
   */
  method GpioMain(file: Option<seq<string>>, events: seq<Server.Event>, ctl: Controller) returns (d: Daemon)
    ensures d == Main(file, events, ctl)
  {
    var load := ConfigLoader.LoadConfig(file, Command, ctl, []);
    if load.phase == ConfigLoader.Raised {
      return Daemon(load, None);
    }
    var server := Server.Serve(events, Command, ctl, load.issued);
    d := Daemon(load, Some(server));
  }

  /** A text the daemon writes to a client: a response and a newline. */
  predicate SentText(t: string)
  {
    |t| >= 1 && t[|t| - 1] == '\n' &&
    (t[..|t| - 1] in {"ok", "true", "false"} || IsError(t[..|t| - 1]))
  }

  /**
   * Over the whole run, the controller sees the calls of the start-up lines
   * and then of the client lines, in that order and nothing else, each call
   * made by `gpio_command` on its line after the calls before it; and every
   * text sent to a client is "ok", "true", "false" or an error message,
   * followed by a newline, on the connection the command came from.
   */
  lemma MainFacts(file: Option<seq<string>>, events: seq<Server.Event>, ctl: Controller)
    ensures var d := Main(file, events, ctl);
      d.load.phase != ConfigLoader.Reading &&
      (d.server.None? <==> d.load.phase == ConfigLoader.Raised) &&
      (d.server.None? ==> Replayed(Command, ctl, [], d.load.exchanges, d.load.issued)) &&
      (d.server.Some? ==>
         var s := d.server.value;
         Replayed(Command, ctl, [], d.load.exchanges + Server.Exchanges(s.served), s.issued) &&
         |s.sent| <= |s.served| &&
         forall k :: 0 <= k < |s.sent| ==> SentText(s.sent[k].data) && s.sent[k].conn == s.served[k].conn)
  {
    var d := Main(file, events, ctl);
    ConfigLoader.LoadFileFacts(file, Command, ctl, []);
    if d.server.Some? {
      var load := d.load;
      var s0 := Server.Start(load.issued);
      var s := d.server.value;
      ReplayedEmpty(Command, ctl, load.issued);
      Server.RunReplayed(Command, ctl, load.issued, s0, events);
      ReplayedConcat(Command, ctl, [], load.exchanges, load.issued, Server.Exchanges(s.served), s.issued);
      Server.StartAnswered(load.issued);
      Server.RunAnswered(Command, ctl, s0, events);
      var ex := Server.Exchanges(s.served);
      assert |ex| == |s.served|;
      forall k | 0 <= k < |s.sent|
        ensures SentText(s.sent[k].data)
      {
        assert ex[k] == s.served[k].exchange;
        AnswerIsText(ex[k].request, ctl, load.issued + Calls(ex[..k]), ex[k].outcome, s.sent[k].data);
      }
    }
  }

  /** A string answer of `gpio_command`, with the newline the loop adds, is a text the daemon sends. */
  lemma AnswerIsText(cmd: string, ctl: Controller, history: seq<Action>, o: Outcome, t: string)
    requires o == Command(cmd, ctl, history) && o.response.Resp? && t == o.response.text + "\n"
    ensures SentText(t)
  {
    assert t[..|t| - 1] == o.response.text;
  }

  // ---------------------------------------------------------------
  // The start-up file, line by line
  // ---------------------------------------------------------------

  /**
   * A start-up file whose first line makes `gpio_command` return `None` or
   * raise something other than an IOError stops the daemon before it opens
   * its socket.
   */
  lemma FirstLineRaises(line: string, rest: seq<string>, events: seq<Server.Event>, ctl: Controller)
    requires line != "" && line[0] != '#'
    requires !Command(line, ctl, []).response.Resp? && Command(line, ctl, []).response != Crash(true)
    ensures var o := Command(line, ctl, []);
      Main(Some([line] + rest), events, ctl) ==
        Daemon(ConfigLoader.Load(ConfigLoader.Raised, [Exchange(line, o)], CallOf(o), []), None)
  {
    var o := Command(line, ctl, []);
    var readouts := [line] + rest + [""];
    var st := ConfigLoader.Step(Command, ctl, ConfigLoader.Start([]), line);
    assert st == ConfigLoader.Load(ConfigLoader.Raised, [Exchange(line, o)], CallOf(o), []);
    assert readouts == [line] + (rest + [""]);
    ConfigLoader.RunStopped(Command, ctl, st, readouts[1..]);
  }

  /**
   * A start-up file whose first line makes the controller raise an IOError
   * ends the start-up loop there, and the daemon goes on to its socket with
   * the rest of the file unread.
   */
  lemma FirstLineIOError(line: string, rest: seq<string>, events: seq<Server.Event>, ctl: Controller)
    requires line != "" && line[0] != '#' && Command(line, ctl, []).response == Crash(true)
    ensures var o := Command(line, ctl, []);
      Main(Some([line] + rest), events, ctl) ==
        Daemon(ConfigLoader.Load(ConfigLoader.Interrupted, [Exchange(line, o)], CallOf(o), []),
               Some(Server.Run(Command, ctl, Server.Start(CallOf(o)), events)))
  {
    var o := Command(line, ctl, []);
    var readouts := [line] + rest + [""];
    var st := ConfigLoader.Step(Command, ctl, ConfigLoader.Start([]), line);
    assert st == ConfigLoader.Load(ConfigLoader.Interrupted, [Exchange(line, o)], CallOf(o), []);
    assert readouts == [line] + (rest + [""]);
    ConfigLoader.RunStopped(Command, ctl, st, readouts[1..]);
  }

  /**
   * A start-up file whose first line asks for SETUP 7 OUT HIGH stops the
   * daemon before it opens its socket, with no pin set up.
   */
  lemma SetupOutHighInFile(rest: seq<string>, events: seq<Server.Event>, ctl: Controller)
    ensures var line := "setup 7 out high\n";
      Main(Some([line] + rest), events, ctl) ==
        Daemon(ConfigLoader.Load(ConfigLoader.Raised, [Exchange(line, Outcome(None, Crash(false)))], [], []), None)
  {
    ProtocolExamples.SetupOutHighLine(ctl, []);
    FirstLineRaises("setup 7 out high\n", rest, events, ctl);
  }

  /**
   * A blank line in the start-up file is not skipped: it goes through
   * `gpio_command`, which answers that the port number is missing and
   * makes no call.
   */
  lemma BlankLineInFile(ctl: Controller, history: seq<Action>)
    ensures ConfigLoader.LoadFile(Some(["\n"]), Command, ctl, history) ==
      ConfigLoader.Load(ConfigLoader.Finished, [Exchange("\n", Outcome(None, Resp(PortNotFound)))], history, [])
  {
    ProtocolProperties.MissingPort("\n", ctl, history);
    assert DropLast("\n") == "";
    var st := ConfigLoader.Step(Command, ctl, ConfigLoader.Start(history), "\n");
    assert st == ConfigLoader.Load(ConfigLoader.Reading, [Exchange("\n", Outcome(None, Resp(PortNotFound)))], history, []);
    assert ["\n"] + [""] == ["\n", ""];
    assert ["\n", ""][1..] == [""];
  }
}
