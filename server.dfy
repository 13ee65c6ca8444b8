/**
 * The socket loop of `gpio_main`: bytes read from the connected client are
 * collected until the collected text ends in a newline, that text goes
 * through `gpio_command` as one command, and the response goes back with a
 * newline appended. A read of nothing means the client went away: the
 * partial command is dropped and the next client is accepted.
 */
module Server {
  import opened Wrappers
  import opened Gpio
  import opened Protocol
  import opened Replay

  /**
   * What one `conn.recv(64)` gives: the bytes read (the empty string when
   * the client closed its end), or an exception from the socket layer
   * (from `recv`, or from the `accept` that follows a closed read).
   */
  datatype Event = Received(data: string) | Fault

  /**
   * Serving: inside `while True`. Raised: an exception reached the bare
   * `except:`, which closed the connection `conn` and re-raised.
   */
  datatype Status = Serving | Raised

  /** A command line and the connection it was read from. */
  datatype Request = Request(conn: nat, exchange: Exchange)

  /** One `conn.send(...)`: the connection written to and the text written. */
  datatype Sent = Sent(conn: nat, data: string)

  /**
   * The loop's state: connections are numbered in the order they were
   * accepted (0 is the one accepted before the loop), `buffer` is `cmd`,
   * `issued` the controller calls made so far (from the start of the
   * daemon).
   */
  datatype Server = Server(status: Status, conn: nat, buffer: string,
                           served: seq<Request>, sent: seq<Sent>, issued: seq<Action>)

  function Start(history: seq<Action>): Server
  {
    Server(Serving, 0, "", [], [], history)
  }

  /** The test of the inner loop, negated: `cmd` is non-empty and ends in a newline. */
  predicate Complete(cmd: string)
  {
    cmd != "" && cmd[|cmd| - 1] == '\n'
  }

  /**
   * Leaving the reading loop: a complete `cmd` goes through `gpio`, and the
   * response is sent with a newline. `None + '\n'` raises TypeError, and an
   * exception out of `gpio_command` reaches the `except:` too.
   */
  function Settle(gpio: Dispatcher, ctl: Controller, st: Server): Server
  {
    if st.status != Serving || !Complete(st.buffer) then st
    else
      var o := gpio(st.buffer, ctl, st.issued);
      var served := st.served + [Request(st.conn, Exchange(st.buffer, o))];
      var issued := st.issued + CallOf(o);
      match o.response
      case Resp(t) => Server(Serving, st.conn, "", served, st.sent + [Sent(st.conn, t + "\n")], issued)
      case _ => st.(status := Raised, served := served, issued := issued)
  }

  /** What the loop does with one read. */
  function Step(gpio: Dispatcher, ctl: Controller, st: Server, e: Event): Server
  {
    if st.status != Serving then st
    else match e
      case Fault => st.(status := Raised)
      // `while not c:` accept the next client and forget the partial command
      case Received(c) =>
        if c == "" then st.(conn := st.conn + 1, buffer := "")
        else Settle(gpio, ctl, st.(buffer := st.buffer + c))
  }

  /** The loop over a sequence of reads, in order. */
  function Run(gpio: Dispatcher, ctl: Controller, st: Server, events: seq<Event>): Server
    decreases |events|
  {
    if events == [] then st else Run(gpio, ctl, Step(gpio, ctl, st, events[0]), events[1..])
  }

  lemma {:induction false} RunStopped(gpio: Dispatcher, ctl: Controller, st: Server, events: seq<Event>)
    decreases |events|
    requires st.status == Raised
    ensures Run(gpio, ctl, st, events) == st
  {
    if events != [] {
      RunStopped(gpio, ctl, st, events[1..]);
    }
  }

  lemma RunCons(gpio: Dispatcher, ctl: Controller, st: Server, e: Event, rest: seq<Event>)
    ensures Run(gpio, ctl, st, [e] + rest) == Run(gpio, ctl, Step(gpio, ctl, st, e), rest)
  {
    assert ([e] + rest)[1..] == rest;
  }

  /** An incomplete `cmd` is left to collect more bytes. */
  lemma SettleWaiting(gpio: Dispatcher, ctl: Controller, st: Server)
    requires !Complete(st.buffer)
    ensures Settle(gpio, ctl, st) == st
  {
  }

  /** An exception from `recv` or `accept` ends the loop. */
  lemma RunFault(gpio: Dispatcher, ctl: Controller, st: Server, rest: seq<Event>)
    requires st.status == Serving
    ensures Run(gpio, ctl, st, [Fault] + rest) == st.(status := Raised)
  {
    RunCons(gpio, ctl, st, Fault, rest);
    RunStopped(gpio, ctl, st.(status := Raised), rest);
  }

  /** A closed read: the next client, with an empty `cmd`. */
  lemma RunClosed(gpio: Dispatcher, ctl: Controller, st: Server, rest: seq<Event>)
    requires st.status == Serving
    ensures Run(gpio, ctl, st, [Received("")] + rest) == Run(gpio, ctl, st.(conn := st.conn + 1, buffer := ""), rest)
  {
    RunCons(gpio, ctl, st, Received(""), rest);
    assert Step(gpio, ctl, st, Received("")) == st.(conn := st.conn + 1, buffer := "");
  }

  /** A read of some bytes: appended to `cmd`, which is then settled. */
  lemma RunRead(gpio: Dispatcher, ctl: Controller, st: Server, c: string, rest: seq<Event>)
    requires st.status == Serving && c != ""
    ensures Run(gpio, ctl, st, [Received(c)] + rest) == Run(gpio, ctl, Settle(gpio, ctl, st.(buffer := st.buffer + c)), rest)
  {
    RunCons(gpio, ctl, st, Received(c), rest);
    assert Step(gpio, ctl, st, Received(c)) == Settle(gpio, ctl, st.(buffer := st.buffer + c));
  }

  /**
   * Lines 183-202, starting right after the first `accept`, over the reads
   * `events`; `gpio` is `gpio_command` and `history` the controller calls
   * made before the loop. When the reads run out the daemon is left waiting
   * in `recv` or `accept`, and the result is its state at that point.
   */
  method Serve(events: seq<Event>, gpio: Dispatcher, ctl: Controller, history: seq<Action>) returns (result: Server)
    ensures result == Run(gpio, ctl, Start(history), events)
  {
    ghost var total := Run(gpio, ctl, Start(history), events);
    var conn: nat := 0;
    var served: seq<Request> := [];
    var sent: seq<Sent> := [];
    var issued := history;
    var i := 0;
    // while True:
    while i < |events|
      invariant 0 <= i <= |events|
      invariant Run(gpio, ctl, Server(Serving, conn, "", served, sent, issued), events[i..]) == total
      decreases |events| - i
    {
      ghost var i0 := i;
      var cmd := "";
      // while not cmd or cmd[-1] != '\n':
      while !Complete(cmd)
        invariant i0 <= i <= |events|
        invariant cmd == "" || i0 < i
        invariant Run(gpio, ctl, Settle(gpio, ctl, Server(Serving, conn, cmd, served, sent, issued)), events[i..]) == total
        decreases |events| - i
      {
        SettleWaiting(gpio, ctl, Server(Serving, conn, cmd, served, sent, issued));
        if i == |events| {
          // waiting in recv
          return Server(Serving, conn, cmd, served, sent, issued);
        }
        var e := events[i];
        assert events[i..] == [e] + events[i + 1..];
        i := i + 1;
        if e.Fault? {
          RunFault(gpio, ctl, Server(Serving, conn, cmd, served, sent, issued), events[i..]);
          return Server(Raised, conn, cmd, served, sent, issued);
        }
        var c := e.data;
        // while not c:
        while c == ""
          invariant i0 < i <= |events|
          invariant !Complete(cmd)
          invariant Run(gpio, ctl, Server(Serving, conn, cmd, served, sent, issued), [Received(c)] + events[i..]) == total
          decreases |events| - i
        {
          RunClosed(gpio, ctl, Server(Serving, conn, cmd, served, sent, issued), events[i..]);
          conn := conn + 1;
          cmd := "";
          if i == |events| {
            // waiting in accept or recv
            return Server(Serving, conn, cmd, served, sent, issued);
          }
          e := events[i];
          assert events[i..] == [e] + events[i + 1..];
          i := i + 1;
          if e.Fault? {
            RunFault(gpio, ctl, Server(Serving, conn, cmd, served, sent, issued), events[i..]);
            return Server(Raised, conn, cmd, served, sent, issued);
          }
          c := e.data;
        }
        RunRead(gpio, ctl, Server(Serving, conn, cmd, served, sent, issued), c, events[i..]);
        cmd := cmd + c;
      }
      ghost var settled := Settle(gpio, ctl, Server(Serving, conn, cmd, served, sent, issued));
      var o := gpio(cmd, ctl, issued);
      served := served + [Request(conn, Exchange(cmd, o))];
      issued := issued + CallOf(o);
      if !o.response.Resp? {
        result := Server(Raised, conn, cmd, served, sent, issued);
        assert settled == result;
        RunStopped(gpio, ctl, result, events[i..]);
        return;
      }
      sent := sent + [Sent(conn, o.response.text + "\n")];
      assert settled == Server(Serving, conn, "", served, sent, issued);
    }
    result := Server(Serving, conn, "", served, sent, issued);
  }

  // ---------------------------------------------------------------
  // Reference definitions
  // ---------------------------------------------------------------

  /** The exchanges of the requests, in order. */
  function Exchanges(rs: seq<Request>): seq<Exchange>
  {
    seq(|rs|, k requires 0 <= k < |rs| => rs[k].exchange)
  }

  /** The command lines of the requests, one after the other. */
  function Lines(rs: seq<Request>): string
  {
    if rs == [] then "" else Lines(rs[..|rs| - 1]) + rs[|rs| - 1].exchange.request
  }

  /** The bytes of the reads, one after the other. */
  function Data(events: seq<Event>): string
  {
    if events == [] then "" else (if events[0].Received? then events[0].data else "") + Data(events[1..])
  }

  /** The reads of one client: no closed read and no exception. */
  predicate OneClient(events: seq<Event>)
  {
    forall k :: 0 <= k < |events| ==> events[k].Received? && events[k].data != ""
  }

  /**
   * Every dispatched line is a complete command; the k-th send goes, on the
   * connection the k-th line was read from, with the response to that line
   * and a newline; every line but possibly the last has had its send, and
   * a line without one is the last, whose command failed and stopped the
   * loop; a line no longer sits in the buffer once it is complete.
   */
  predicate Answered(st: Server)
  {
    (forall k :: 0 <= k < |st.served| ==> Complete(st.served[k].exchange.request) && st.served[k].conn <= st.conn) &&
    |st.sent| <= |st.served| <= |st.sent| + 1 &&
    (forall k :: 0 <= k < |st.sent| ==>
       st.served[k].exchange.outcome.response.Resp? &&
       st.sent[k] == Sent(st.served[k].conn, st.served[k].exchange.outcome.response.text + "\n")) &&
    (|st.served| == |st.sent| + 1 ==>
       st.status == Raised && !st.served[|st.sent|].exchange.outcome.response.Resp?) &&
    (st.status == Serving ==> !Complete(st.buffer))
  }

  // ---------------------------------------------------------------
  // Properties of the loop
  // ---------------------------------------------------------------

  lemma StepAnswered(gpio: Dispatcher, ctl: Controller, st: Server, e: Event)
    requires Answered(st)
    ensures Answered(Step(gpio, ctl, st, e))
  {
    if st.status == Serving && e.Received? && e.data != "" {
      var b := st.(buffer := st.buffer + e.data);
      if Complete(b.buffer) {
        var st' := Settle(gpio, ctl, b);
        assert st'.served[..|st.served|] == st.served;
        assert st'.served[|st.served|].exchange.request == b.buffer;
        if st'.status == Serving {
          assert st'.sent[..|st.sent|] == st.sent;
        }
      }
    }
  }

  /**
   * One send per command line, on the line's own connection, carrying the
   * response with a newline; only a failing command goes unanswered, and it
   * ends the loop.
   */
  lemma {:induction false} RunAnswered(gpio: Dispatcher, ctl: Controller, st: Server, events: seq<Event>)
    decreases |events|
    requires Answered(st)
    ensures Answered(Run(gpio, ctl, st, events))
  {
    if events != [] {
      StepAnswered(gpio, ctl, st, events[0]);
      RunAnswered(gpio, ctl, Step(gpio, ctl, st, events[0]), events[1..]);
    }
  }

  lemma StartAnswered(history: seq<Action>)
    ensures Answered(Start(history))
  {
  }

  /** A complete buffer is recorded with what `gpio` gives it, and its call is made. */
  lemma SettleRecords(gpio: Dispatcher, ctl: Controller, st: Server)
    requires st.status == Serving && Complete(st.buffer)
    ensures var o := gpio(st.buffer, ctl, st.issued);
      var st' := Settle(gpio, ctl, st);
      st'.served == st.served + [Request(st.conn, Exchange(st.buffer, o))] &&
      st'.issued == st.issued + CallOf(o)
  {
  }

  lemma ExchangesAppend(rs: seq<Request>, q: Request)
    ensures Exchanges(rs + [q]) == Exchanges(rs) + [q.exchange]
  {
  }

  lemma StepReplayed(gpio: Dispatcher, ctl: Controller, history: seq<Action>, st: Server, e: Event)
    requires Replayed(gpio, ctl, history, Exchanges(st.served), st.issued)
    ensures var st' := Step(gpio, ctl, st, e); Replayed(gpio, ctl, history, Exchanges(st'.served), st'.issued)
  {
    if st.status == Serving && e.Received? && e.data != "" {
      var b := st.(buffer := st.buffer + e.data);
      if Complete(b.buffer) {
        var o := gpio(b.buffer, ctl, st.issued);
        var q := Request(st.conn, Exchange(b.buffer, o));
        SettleRecords(gpio, ctl, b);
        ExchangesAppend(st.served, q);
        AppendReplayed(gpio, ctl, history, Exchanges(st.served), st.issued, q.exchange);
      }
    }
  }

  /**
   * The controller sees exactly the calls of the served lines, in order,
   * and each line gets what `gpio` gives it after the calls before it.
   */
  lemma {:induction false} RunReplayed(gpio: Dispatcher, ctl: Controller, history: seq<Action>, st: Server, events: seq<Event>)
    decreases |events|
    requires Replayed(gpio, ctl, history, Exchanges(st.served), st.issued)
    ensures var r := Run(gpio, ctl, st, events); Replayed(gpio, ctl, history, Exchanges(r.served), r.issued)
  {
    if events != [] {
      StepReplayed(gpio, ctl, history, st, events[0]);
      RunReplayed(gpio, ctl, history, Step(gpio, ctl, st, events[0]), events[1..]);
    }
  }

  /**
   * From `st` to `r` no other client was taken: the connection is the
   * same, `r` only adds requests, all from that connection, and while
   * serving, the lines added and the buffer are the old buffer followed
   * by `data`.
   */
  predicate SameClient(st: Server, r: Server, data: string)
  {
    r.conn == st.conn &&
    |st.served| <= |r.served| && r.served[..|st.served|] == st.served &&
    (forall k :: |st.served| <= k < |r.served| ==> r.served[k].conn == st.conn) &&
    (r.status == Serving ==> Lines(r.served) + r.buffer == Lines(st.served) + st.buffer + data)
  }

  lemma SameClientTrans(st: Server, mid: Server, r: Server, a: string, b: string)
    requires SameClient(st, mid, a) && SameClient(mid, r, b)
    requires r.status == Serving ==> mid.status == Serving
    ensures SameClient(st, r, a + b)
  {
    assert r.served[..|st.served|] == r.served[..|mid.served|][..|st.served|];
    forall k | |st.served| <= k < |r.served|
      ensures r.served[k].conn == st.conn
    {
      if k < |mid.served| {
        assert r.served[k] == r.served[..|mid.served|][k] == mid.served[k];
      }
    }
  }

  lemma SameClientStill(st: Server)
    ensures SameClient(st, st, "")
  {
    assert st.served[..|st.served|] == st.served;
  }

  /** One non-empty read from the connected client. */
  lemma StepFraming(gpio: Dispatcher, ctl: Controller, st: Server, c: string)
    requires st.status == Serving && c != ""
    ensures SameClient(st, Step(gpio, ctl, st, Received(c)), c)
  {
    var b := st.buffer + c;
    if Complete(b) {
      var q := Request(st.conn, Exchange(b, gpio(b, ctl, st.issued)));
      var served := st.served + [q];
      assert served[..|st.served|] == st.served;
      assert Lines(served) == Lines(st.served) + b;
    } else {
      assert st.served[..|st.served|] == st.served;
    }
  }

  /**
   * While one client stays connected, no byte is lost, added or reordered:
   * the lines served from it, followed by what is still buffered, are the
   * buffered text followed by everything it sent; and all of them are
   * served on its connection.
   */
  lemma {:induction false} Framing(gpio: Dispatcher, ctl: Controller, st: Server, events: seq<Event>)
    decreases |events|
    requires st.status == Serving && OneClient(events)
    ensures SameClient(st, Run(gpio, ctl, st, events), Data(events))
  {
    if events == [] {
      SameClientStill(st);
    } else {
      var c := events[0].data;
      var st' := Step(gpio, ctl, st, events[0]);
      StepFraming(gpio, ctl, st, c);
      assert OneClient(events[1..]) by {
        forall k | 0 <= k < |events[1..]| ensures events[1..][k].Received? && events[1..][k].data != "" {
          assert events[1..][k] == events[k + 1];
        }
      }
      assert Data(events) == c + Data(events[1..]);
      var r := Run(gpio, ctl, st', events[1..]);
      assert r == Run(gpio, ctl, st, events);
      if st'.status == Serving {
        Framing(gpio, ctl, st', events[1..]);
      } else {
        RunStopped(gpio, ctl, st', events[1..]);
        SameClientStill(st');
        assert Data(events[1..]) == "" || r.status == Raised;
      }
      SameClientTrans(st, st', r, c, Data(events[1..]));
    }
  }

  /**
   * The loop is stopped only by an exception from the socket layer or by a
   * line whose command returned `None` or raised, which is then the last
   * line served.
   */
  lemma {:induction false} RaiseCause(gpio: Dispatcher, ctl: Controller, st: Server, events: seq<Event>)
    decreases |events|
    requires st.status == Serving
    ensures var r := Run(gpio, ctl, st, events);
      r.status == Raised ==>
        Fault in events ||
        (|st.served| < |r.served| && !r.served[|r.served| - 1].exchange.outcome.response.Resp?)
  {
    if events != [] {
      var st' := Step(gpio, ctl, st, events[0]);
      if st'.status == Serving {
        RaiseCause(gpio, ctl, st', events[1..]);
        assert events == [events[0]] + events[1..];
      } else {
        RunStopped(gpio, ctl, st', events[1..]);
      }
    }
  }

  /**
   * A client that goes away in the middle of a command loses that partial
   * command: after the next client sends a complete line, only that line
   * is served, on the new connection.
   */
  lemma PartialDropped(gpio: Dispatcher, ctl: Controller, st: Server, a: string, b: string)
    requires st.status == Serving && a != "" && !Complete(st.buffer + a) && Complete(b)
    ensures var r := Run(gpio, ctl, st, [Received(a), Received(""), Received(b)]);
      r.served == st.served + [Request(st.conn + 1, Exchange(b, gpio(b, ctl, st.issued)))]
  {
    var events := [Received(a), Received(""), Received(b)];
    var s1 := Step(gpio, ctl, st, Received(a));
    var s2 := Step(gpio, ctl, s1, Received(""));
    var s3 := Step(gpio, ctl, s2, Received(b));
    assert s1 == st.(buffer := st.buffer + a);
    assert s2 == st.(conn := st.conn + 1, buffer := "");
    assert s2.buffer + b == b;
    assert s3.served == st.served + [Request(st.conn + 1, Exchange(b, gpio(b, ctl, st.issued)))];
    assert events[1..] == [Received(""), Received(b)];
    assert events[1..][1..] == [Received(b)];
    assert Run(gpio, ctl, s2, [Received(b)]) == Run(gpio, ctl, s3, []) == s3;
    assert Run(gpio, ctl, st, events) == Run(gpio, ctl, s1, events[1..]) == Run(gpio, ctl, s2, [Received(b)]);
  }

  /**
   * Newlines inside one read are not split on: a read holding several
   * newline-terminated lines is dispatched whole, as one command.
   */
  lemma WholeRead(gpio: Dispatcher, ctl: Controller, history: seq<Action>, a: string, b: string)
    requires Complete(b)
    ensures var c := a + "\n" + b;
      Run(gpio, ctl, Start(history), [Received(c)]).served == [Request(0, Exchange(c, gpio(c, ctl, history)))]
  {
    var c := a + "\n" + b;
    assert c[|c| - 1] == b[|b| - 1];
    var s1 := Step(gpio, ctl, Start(history), Received(c));
    assert Start(history).buffer + c == c;
    assert s1.served == [Request(0, Exchange(c, gpio(c, ctl, history)))];
    assert Run(gpio, ctl, Start(history), [Received(c)]) == Run(gpio, ctl, s1, []) == s1;
  }
}
