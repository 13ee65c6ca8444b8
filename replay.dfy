/**
 * How the daemon's calls of `gpio_command` line up with what the pin
 * controller sees: both loops keep a record of the lines they dispatched
 * and of the calls those lines made.
 */
module Replay {
  import opened Wrappers
  import opened Gpio
  import opened Protocol

  /** One call of `gpio_command`: the line it was given and how it ended. */
  datatype Exchange = Exchange(request: string, outcome: Outcome)

  /** The calls an outcome made (none or one). */
  function CallOf(o: Outcome): (r: seq<Action>)
    ensures |r| <= 1
    ensures r == [] <==> o.action.None?
  {
    if o.action.Some? then [o.action.value] else []
  }

  /** The controller calls of a sequence of exchanges, in order. */
  function Calls(ex: seq<Exchange>): seq<Action>
  {
    if ex == [] then [] else CallOf(ex[0].outcome) + Calls(ex[1..])
  }

  /**
   * The controller has seen, after `history`, exactly the calls of the
   * exchanges, in order, and each exchange is what `gpio` gives its line
   * when the calls before it have been made.
   */
  predicate Replayed(gpio: Dispatcher, ctl: Controller, history: seq<Action>, ex: seq<Exchange>, issued: seq<Action>)
  {
    issued == history + Calls(ex) &&
    forall k :: 0 <= k < |ex| ==> ex[k].outcome == gpio(ex[k].request, ctl, history + Calls(ex[..k]))
  }

  lemma ReplayedEmpty(gpio: Dispatcher, ctl: Controller, history: seq<Action>)
    ensures Replayed(gpio, ctl, history, [], history)
  {
  }

  /** Appending the exchange `gpio` gives next keeps the replay. */
  lemma AppendReplayed(gpio: Dispatcher, ctl: Controller, history: seq<Action>, ex: seq<Exchange>, issued: seq<Action>, e: Exchange)
    requires Replayed(gpio, ctl, history, ex, issued)
    requires e.outcome == gpio(e.request, ctl, issued)
    ensures Replayed(gpio, ctl, history, ex + [e], issued + CallOf(e.outcome))
  {
    var ex' := ex + [e];
    assert ex'[..|ex|] == ex;
    CallsAppend(ex, [e]);
    assert Calls([e]) == CallOf(e.outcome) + Calls([e][1..]);
    assert Calls(ex') == Calls(ex) + CallOf(e.outcome);
    forall k | 0 <= k < |ex'|
      ensures ex'[k].outcome == gpio(ex'[k].request, ctl, history + Calls(ex'[..k]))
    {
      if k < |ex| {
        assert ex'[k] == ex[k];
        assert ex'[..k] == ex[..k];
      }
    }
  }

  lemma {:induction false} CallsAppend(ex1: seq<Exchange>, ex2: seq<Exchange>)
    decreases |ex1|
    ensures Calls(ex1 + ex2) == Calls(ex1) + Calls(ex2)
  {
    if ex1 == [] {
      assert ex1 + ex2 == ex2;
    } else {
      var e := ex1 + ex2;
      assert e[0] == ex1[0];
      assert e[1..] == ex1[1..] + ex2;
      CallsAppend(ex1[1..], ex2);
      AppendAssoc(CallOf(ex1[0].outcome), Calls(ex1[1..]), Calls(ex2));
    }
  }

  /** Two replays one after the other are one replay. */
  lemma ReplayedConcat(gpio: Dispatcher, ctl: Controller, history: seq<Action>,
                       ex1: seq<Exchange>, mid: seq<Action>, ex2: seq<Exchange>, issued: seq<Action>)
    requires Replayed(gpio, ctl, history, ex1, mid)
    requires Replayed(gpio, ctl, mid, ex2, issued)
    ensures Replayed(gpio, ctl, history, ex1 + ex2, issued)
  {
    CallsAppend(ex1, ex2);
    AppendAssoc(history, Calls(ex1), Calls(ex2));
    forall k | 0 <= k < |ex1 + ex2|
      ensures (ex1 + ex2)[k].outcome == gpio((ex1 + ex2)[k].request, ctl, history + Calls((ex1 + ex2)[..k]))
    {
      if k < |ex1| {
        FirstPartAt(ex1, ex2, k);
        assert ex1[k].outcome == gpio(ex1[k].request, ctl, history + Calls(ex1[..k]));
      } else {
        SecondPartAt(history, ex1, ex2, k);
        var j := k - |ex1|;
        assert ex2[j].outcome == gpio(ex2[j].request, ctl, mid + Calls(ex2[..j]));
      }
    }
  }

  /** Exchange `k` of two replays, when it is in the first, and the exchanges before it. */
  lemma FirstPartAt(ex1: seq<Exchange>, ex2: seq<Exchange>, k: nat)
    requires k < |ex1|
    ensures (ex1 + ex2)[k] == ex1[k] && (ex1 + ex2)[..k] == ex1[..k]
  {
  }

  /** Exchange `k` of two replays, when it is in the second, and the calls before it. */
  lemma SecondPartAt(history: seq<Action>, ex1: seq<Exchange>, ex2: seq<Exchange>, k: nat)
    requires |ex1| <= k < |ex1| + |ex2|
    ensures (ex1 + ex2)[k] == ex2[k - |ex1|]
    ensures history + Calls((ex1 + ex2)[..k]) == (history + Calls(ex1)) + Calls(ex2[..k - |ex1|])
  {
    var j := k - |ex1|;
    assert (ex1 + ex2)[..k] == ex1 + ex2[..j];
    CallsAppend(ex1, ex2[..j]);
    AppendAssoc(history, Calls(ex1), Calls(ex2[..j]));
  }

  lemma AppendAssoc(a: seq<Action>, b: seq<Action>, c: seq<Action>)
    ensures a + (b + c) == (a + b) + c
  {
  }
}
