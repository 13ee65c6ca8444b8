/**
 * The start-up loop of `gpio_main` over /etc/gpiod.cfg: every line that is
 * not a comment goes through `gpio_command`, until the first empty read.
 */
module ConfigLoader {
  import opened Wrappers
  import opened Text
  import opened Gpio
  import opened Protocol
  import opened Replay

  /**
   * Reading: still in the loop. Finished: `readline()` returned the empty
   * string, or the file could not be opened (IOError, passed over).
   * Interrupted: `gpio_command` raised an IOError, which `except IOError:
   * pass` passes over too; the rest of the file is not read. Raised: any
   * other exception left the loop and `gpio_main` with it.
   */
  datatype Phase = Reading | Finished | Interrupted | Raised

  /** The loop was left right after a dispatched line, by an exception. */
  predicate CutShort(p: Phase)
  {
    p == Interrupted || p == Raised
  }

  datatype Load = Load(phase: Phase, exchanges: seq<Exchange>, issued: seq<Action>, logged: seq<string>)

  /** The check of line 164 as written: a 4-character slice against "error". */
  predicate LogsResponse(r: string)
  {
    Prefix(r, 4) == "error"
  }

  function Start(history: seq<Action>): Load
  {
    Load(Reading, [], history, [])
  }

  /** One turn of the `while cmd:` loop on the value `cmd` holds. */
  function Step(gpio: Dispatcher, ctl: Controller, st: Load, cmd: string): Load
  {
    if st.phase != Reading then st
    else if cmd == "" then st.(phase := Finished)
    else if cmd[0] == '#' then st
    else
      var o := gpio(cmd, ctl, st.issued);
      var ex := st.exchanges + [Exchange(cmd, o)];
      var issued := st.issued + CallOf(o);
      match o.response
      case Resp(r) => Load(Reading, ex, issued, st.logged + if LogsResponse(r) then ["gpiod: " + r] else [])
      // `except IOError: pass` catches an IOError out of gpio_command
      case Crash(true) => Load(Interrupted, ex, issued, st.logged)
      // `None[0:4]` raises TypeError, and any other exception out of gpio_command escapes
      case _ => Load(Raised, ex, issued, st.logged)
  }

  /** The loop over the values `readline()` returns (`readouts`), in order. */
  function Run(gpio: Dispatcher, ctl: Controller, st: Load, readouts: seq<string>): Load
    decreases |readouts|
  {
    if readouts == [] then st else Run(gpio, ctl, Step(gpio, ctl, st, readouts[0]), readouts[1..])
  }

  /**
   * Lines 158-168: `file` is None when the file cannot be opened; otherwise
   * it holds the lines `readline()` returns before it returns "".
   */
  function LoadFile(file: Option<seq<string>>, gpio: Dispatcher, ctl: Controller, history: seq<Action>): Load
  {
    match file
    case None => Load(Finished, [], history, [])
    case Some(lines) => Run(gpio, ctl, Start(history), lines + [""])
  }

  lemma {:induction false} RunStopped(gpio: Dispatcher, ctl: Controller, st: Load, readouts: seq<string>)
    decreases |readouts|
    requires st.phase != Reading
    ensures Run(gpio, ctl, st, readouts) == st
  {
    if readouts != [] {
      RunStopped(gpio, ctl, st, readouts[1..]);
    }
  }

  /**
   * Lines 158-168: `cmd` starts as "#", which is skipped, and is then
   * reassigned from `f.readline()` until it is empty.
   */
  method LoadConfig(file: Option<seq<string>>, gpio: Dispatcher, ctl: Controller, history: seq<Action>) returns (result: Load)
    ensures result == LoadFile(file, gpio, ctl, history)
  {
    if file.None? {
      // open() raised IOError: `except IOError: pass`
      return Load(Finished, [], history, []);
    }
    var readouts := file.value + [""];
    var exchanges: seq<Exchange> := [];
    var issued := history;
    var logged: seq<string> := [];
    var cmd := "#";
    var i := 0;
    while cmd != ""
      invariant 0 <= i <= |readouts|
      invariant i > 0 ==> cmd == readouts[i - 1]
      invariant i == 0 ==> cmd == "#"
      invariant Run(gpio, ctl, Step(gpio, ctl, Load(Reading, exchanges, issued, logged), cmd), readouts[i..])
        == Run(gpio, ctl, Start(history), readouts)
      decreases |readouts| - i
    {
      ghost var before := Load(Reading, exchanges, issued, logged);
      if cmd[0] != '#' {
        var o := gpio(cmd, ctl, issued);
        exchanges := exchanges + [Exchange(cmd, o)];
        issued := issued + CallOf(o);
        if !o.response.Resp? {
          // an IOError is passed over, any other exception escapes
          result := Load(if o.response == Crash(true) then Interrupted else Raised, exchanges, issued, logged);
          RunStopped(gpio, ctl, result, readouts[i..]);
          return;
        }
        var response := o.response.text;
        if Prefix(response, 4) == "error" {
          logged := logged + ["gpiod: " + response];
        }
      }
      assert Load(Reading, exchanges, issued, logged) == Step(gpio, ctl, before, cmd);
      assert i < |readouts|;
      assert readouts[i..] == [readouts[i]] + readouts[i + 1..];
      cmd := readouts[i];
      i := i + 1;
    }
    result := Load(Finished, exchanges, issued, logged);
    RunStopped(gpio, ctl, result, readouts[i..]);
  }

  // ---------------------------------------------------------------
  // Reference definitions
  // ---------------------------------------------------------------

  /** The values read before the first empty read. */
  function UntilEmpty(readouts: seq<string>): seq<string>
  {
    if readouts == [] || readouts[0] == "" then [] else [readouts[0]] + UntilEmpty(readouts[1..])
  }

  /** The lines that are not comments, in order. */
  function Uncommented(lines: seq<string>): (r: seq<string>)
    ensures forall k :: 0 <= k < |r| ==> r[k] != "" && r[k][0] != '#'
  {
    if lines == [] then []
    else (if lines[0] != "" && lines[0][0] != '#' then [lines[0]] else []) + Uncommented(lines[1..])
  }

  /** The lines of the exchanges, in order. */
  function Requests(ex: seq<Exchange>): seq<string>
  {
    seq(|ex|, k requires 0 <= k < |ex| => ex[k].request)
  }

  // ---------------------------------------------------------------
  // Properties of the loop
  // ---------------------------------------------------------------

  /** One turn on a line that is dispatched. */
  lemma StepDispatch(gpio: Dispatcher, ctl: Controller, st: Load, x: string)
    requires st.phase == Reading && x != "" && x[0] != '#'
    ensures var o := gpio(x, ctl, st.issued);
      var st' := Step(gpio, ctl, st, x);
      st'.exchanges == st.exchanges + [Exchange(x, o)] &&
      st'.issued == st.issued + CallOf(o) &&
      st'.logged == st.logged &&
      (st'.phase == Reading <==> o.response.Resp?) &&
      (st'.phase == Interrupted <==> o.response == Crash(true)) && st'.phase != Finished
  {
  }

  /** One turn on a line that is not dispatched (a comment or the empty read). */
  lemma StepSkip(gpio: Dispatcher, ctl: Controller, st: Load, x: string)
    requires st.phase == Reading && (x == "" || x[0] == '#')
    ensures Step(gpio, ctl, st, x) == if x == "" then st.(phase := Finished) else st
  {
  }

  /**
   * `r` extends the exchanges `ex0`, and the requests it adds are a prefix
   * of `lines`, and all of `lines` unless the loop was cut short.
   */
  predicate Ordered(ex0: seq<Exchange>, r: Load, lines: seq<string>)
  {
    var n := |ex0|;
    n <= |r.exchanges| && r.exchanges[..n] == ex0 &&
    Requests(r.exchanges[n..]) <= lines &&
    (!CutShort(r.phase) ==> Requests(r.exchanges[n..]) == lines)
  }

  /** Taking one more exchange off the front of what was added. */
  lemma OrderedCons(ex0: seq<Exchange>, e: Exchange, r: Load, lines: seq<string>)
    requires Ordered(ex0 + [e], r, lines)
    ensures Ordered(ex0, r, [e.request] + lines)
  {
    var n := |ex0|;
    var tail := r.exchanges[n + 1..];
    assert r.exchanges[..n] == r.exchanges[..n + 1][..n] == (ex0 + [e])[..n] == ex0;
    assert r.exchanges[n] == r.exchanges[..n + 1][n] == e;
    assert r.exchanges[n..] == [e] + tail;
    assert Requests([e] + tail) == [e.request] + Requests(tail);
  }

  lemma OrderedLast(ex0: seq<Exchange>, e: Exchange, r: Load, lines: seq<string>)
    requires r.exchanges == ex0 + [e] && CutShort(r.phase)
    ensures Ordered(ex0, r, [e.request] + lines)
  {
    assert r.exchanges[..|ex0|] == ex0;
    assert r.exchanges[|ex0|..] == [e];
  }

  /**
   * The lines given to `gpio_command` are the non-comment lines before the
   * first empty read, in order, each once; they are all of them unless an
   * exception stopped the loop early.
   */
  lemma {:induction false} DispatchOrder(gpio: Dispatcher, ctl: Controller, st: Load, readouts: seq<string>)
    decreases |readouts|
    requires st.phase == Reading
    ensures Ordered(st.exchanges, Run(gpio, ctl, st, readouts), Uncommented(UntilEmpty(readouts)))
  {
    var r := Run(gpio, ctl, st, readouts);
    if readouts == [] {
      assert r == st;
      assert r.exchanges[..|st.exchanges|] == st.exchanges;
    } else {
      var x := readouts[0];
      var st' := Step(gpio, ctl, st, x);
      assert r == Run(gpio, ctl, st', readouts[1..]);
      if x == "" {
        StepSkip(gpio, ctl, st, x);
        RunStopped(gpio, ctl, st', readouts[1..]);
        assert r.exchanges[..|st.exchanges|] == st.exchanges;
      } else {
        assert UntilEmpty(readouts) == [x] + UntilEmpty(readouts[1..]);
        var rest := Uncommented(UntilEmpty(readouts[1..]));
        if x[0] == '#' {
          StepSkip(gpio, ctl, st, x);
          assert Uncommented(UntilEmpty(readouts)) == rest;
          DispatchOrder(gpio, ctl, st', readouts[1..]);
        } else {
          StepDispatch(gpio, ctl, st, x);
          assert Uncommented(UntilEmpty(readouts)) == [x] + rest;
          var e := Exchange(x, gpio(x, ctl, st.issued));
          if CutShort(st'.phase) {
            RunStopped(gpio, ctl, st', readouts[1..]);
            OrderedLast(st.exchanges, e, r, rest);
          } else {
            DispatchOrder(gpio, ctl, st', readouts[1..]);
            OrderedCons(st.exchanges, e, r, rest);
          }
        }
      }
    }
  }

  /** The error log of line 165 is never written: a 4-character slice is never "error". */
  lemma {:induction false} NeverLogs(gpio: Dispatcher, ctl: Controller, st: Load, readouts: seq<string>)
    decreases |readouts|
    ensures Run(gpio, ctl, st, readouts).logged == st.logged
  {
    if readouts != [] {
      var st' := Step(gpio, ctl, st, readouts[0]);
      assert st'.logged == st.logged;
      NeverLogs(gpio, ctl, st', readouts[1..]);
    }
  }

  /**
   * The loop stops by an exception only right after a `gpio_command` that
   * returned `None` or raised, and it is passed over exactly when that was an
   * IOError; every earlier call returned a string.
   */
  lemma {:induction false} RaiseCause(gpio: Dispatcher, ctl: Controller, st: Load, readouts: seq<string>)
    decreases |readouts|
    requires st.phase == Reading
    ensures var r := Run(gpio, ctl, st, readouts);
      var n := |st.exchanges|;
      n <= |r.exchanges| &&
      (forall k :: n <= k < |r.exchanges| && !(CutShort(r.phase) && k == |r.exchanges| - 1) ==>
         r.exchanges[k].outcome.response.Resp?) &&
      (CutShort(r.phase) ==>
         n < |r.exchanges| && !r.exchanges[|r.exchanges| - 1].outcome.response.Resp? &&
         (r.phase == Interrupted <==> r.exchanges[|r.exchanges| - 1].outcome.response == Crash(true)))
  {
    if readouts != [] {
      var x := readouts[0];
      var st' := Step(gpio, ctl, st, x);
      if x == "" || x[0] == '#' {
        StepSkip(gpio, ctl, st, x);
        if st'.phase == Reading {
          RaiseCause(gpio, ctl, st', readouts[1..]);
        } else {
          RunStopped(gpio, ctl, st', readouts[1..]);
        }
      } else {
        StepDispatch(gpio, ctl, st, x);
        if st'.phase == Reading {
          RaiseCause(gpio, ctl, st', readouts[1..]);
          RunExtends(gpio, ctl, st', readouts[1..]);
          assert st'.exchanges[|st.exchanges|].outcome.response.Resp?;
        } else {
          RunStopped(gpio, ctl, st', readouts[1..]);
        }
      }
    }
  }

  lemma StepReplayed(gpio: Dispatcher, ctl: Controller, history: seq<Action>, st: Load, x: string)
    requires Replayed(gpio, ctl, history, st.exchanges, st.issued)
    ensures var st' := Step(gpio, ctl, st, x); Replayed(gpio, ctl, history, st'.exchanges, st'.issued)
  {
    if st.phase == Reading && x != "" && x[0] != '#' {
      var o := gpio(x, ctl, st.issued);
      StepDispatch(gpio, ctl, st, x);
      AppendReplayed(gpio, ctl, history, st.exchanges, st.issued, Exchange(x, o));
    }
  }

  /** The controller sees exactly the calls of the dispatched lines, in order. */
  lemma {:induction false} RunReplayed(gpio: Dispatcher, ctl: Controller, history: seq<Action>, st: Load, readouts: seq<string>)
    decreases |readouts|
    requires Replayed(gpio, ctl, history, st.exchanges, st.issued)
    ensures var r := Run(gpio, ctl, st, readouts); Replayed(gpio, ctl, history, r.exchanges, r.issued)
  {
    if readouts != [] {
      StepReplayed(gpio, ctl, history, st, readouts[0]);
      RunReplayed(gpio, ctl, history, Step(gpio, ctl, st, readouts[0]), readouts[1..]);
    }
  }

  /** The loop only ever appends to the list of exchanges. */
  lemma {:induction false} RunExtends(gpio: Dispatcher, ctl: Controller, st: Load, readouts: seq<string>)
    decreases |readouts|
    ensures var r := Run(gpio, ctl, st, readouts);
      |st.exchanges| <= |r.exchanges| && r.exchanges[..|st.exchanges|] == st.exchanges
  {
    if readouts != [] {
      var st' := Step(gpio, ctl, st, readouts[0]);
      RunExtends(gpio, ctl, st', readouts[1..]);
      assert |st.exchanges| <= |st'.exchanges| && st'.exchanges[..|st.exchanges|] == st.exchanges;
    }
  }

  // ---------------------------------------------------------------
  // The whole initialisation
  // ---------------------------------------------------------------

  /**
   * What the start-up loop does with a file, or with the absence of one:
   * comment lines are never dispatched, the other lines before the first
   * empty read are dispatched once each in file order (all of them unless a
   * command raised), nothing is logged, and a missing file dispatches
   * nothing.
   */
  lemma LoadFileFacts(file: Option<seq<string>>, gpio: Dispatcher, ctl: Controller, history: seq<Action>)
    ensures var r := LoadFile(file, gpio, ctl, history);
      (forall k :: 0 <= k < |r.exchanges| ==>
         r.exchanges[k].request != "" && r.exchanges[k].request[0] != '#') &&
      r.logged == [] && r.phase != Reading &&
      Replayed(gpio, ctl, history, r.exchanges, r.issued) &&
      (file.None? ==> r.exchanges == [] && r.phase == Finished) &&
      (file.Some? ==>
         Requests(r.exchanges) <= Uncommented(UntilEmpty(file.value)) &&
         (r.phase == Finished ==> Requests(r.exchanges) == Uncommented(UntilEmpty(file.value))))
  {
    var r := LoadFile(file, gpio, ctl, history);
    if file.Some? {
      var readouts := file.value + [""];
      DispatchOrder(gpio, ctl, Start(history), readouts);
      assert Ordered([], r, Uncommented(UntilEmpty(readouts)));
      NeverLogs(gpio, ctl, Start(history), readouts);
      RunReplayed(gpio, ctl, history, Start(history), readouts);
      EndsInEmpty(gpio, ctl, Start(history), file.value);
      UntilEmptyAppend(file.value);
      assert r.exchanges[0..] == r.exchanges;
      forall k | 0 <= k < |r.exchanges|
        ensures r.exchanges[k].request != "" && r.exchanges[k].request[0] != '#'
      {
        assert Requests(r.exchanges)[k] == Uncommented(UntilEmpty(file.value))[k];
      }
    }
  }

  lemma {:induction false} UntilEmptyAppend(lines: seq<string>)
    ensures UntilEmpty(lines + [""]) == UntilEmpty(lines)
  {
    if lines != [] && lines[0] != "" {
      UntilEmptyAppend(lines[1..]);
      assert (lines + [""])[1..] == lines[1..] + [""];
    }
  }

  /** A file's readouts end with "", so the loop always leaves `Reading`. */
  lemma {:induction false} EndsInEmpty(gpio: Dispatcher, ctl: Controller, st: Load, lines: seq<string>)
    decreases |lines|
    ensures Run(gpio, ctl, st, lines + [""]).phase != Reading
  {
    if lines == [] {
      assert Run(gpio, ctl, st, [""]) == Run(gpio, ctl, Step(gpio, ctl, st, ""), []);
    } else {
      assert (lines + [""])[1..] == lines[1..] + [""];
      EndsInEmpty(gpio, ctl, Step(gpio, ctl, st, lines[0]), lines[1..]);
    }
  }
}
