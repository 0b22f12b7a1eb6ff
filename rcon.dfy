/**
 * `sendRCON` (index.js:104-139) as an event-driven state machine. One call
 * opens its own connection and keeps three pieces of closure state:
 * `resolved`, the accumulated `result` and the pending idle timer. The rcon
 * library delivers `auth`, `response`, `error` and `end` events; the 500 ms
 * timer is an event of its own that can fire only while it is armed.
 * Each call resolves at most once: on a timer that fires (with the buffer,
 * disconnecting), on an error (with the error text) or on the end of the
 * connection (with the buffer).
 */
module Rcon {
  import opened Wrappers
  import opened JsString

  /** What one exchange can be told by the connection and its timer. */
  datatype Event =
    | Auth                  // the connection authenticated
    | Response(text: Str)   // a chunk of command output arrived
    | TimerFires            // the idle timer set on the last response ran out
    | Error(message: Str)   // the connection failed; `message` is `err.toString()`
    | End                   // the remote closed the connection

  /** The state of one exchange: its closure variables and what it has done
      outwardly (commands written, values passed to `resolve`, whether it
      called `disconnect`). */
  datatype Exchange = Exchange(
    command: Str,
    resolved: bool,
    result: Str,
    timerPending: bool,
    sent: seq<Str>,
    resolutions: seq<Str>,
    disconnected: bool)

  /** The state right after `conn.connect()` (index.js:106-109, 137). */
  function Init(command: Str): Exchange {
    Exchange(command, false, [], false, [], [], false)
  }

  /** How each event handler changes the state (index.js:110-136). */
  function Step(x: Exchange, e: Event): Exchange {
    match e
    case Auth => x.(sent := x.sent + [x.command])
    case Response(t) => x.(result := x.result + t, timerPending := true)
    case TimerFires =>
      if !x.timerPending then x
      else if x.resolved then x.(timerPending := false)
      else x.(timerPending := false, resolved := true, resolutions := x.resolutions + [x.result], disconnected := true)
    case Error(m) =>
      if x.resolved then x else x.(resolved := true, resolutions := x.resolutions + [m])
    case End =>
      if x.resolved then x else x.(resolved := true, resolutions := x.resolutions + [x.result])
  }

  /** The state after the given events, in order. */
  function Run(command: Str, evs: seq<Event>): Exchange {
    if evs == [] then Init(command) else Step(Run(command, evs[..|evs| - 1]), evs[|evs| - 1])
  }

  /** The exchange's own invariant: `resolve` has been called at most once,
      exactly when `resolved` is set, and a disconnect only after it. */
  ghost predicate Inv(x: Exchange) {
    && |x.resolutions| <= 1
    && (x.resolved <==> |x.resolutions| == 1)
    && (x.disconnected ==> x.resolved)
  }

  lemma StepKeepsInv(x: Exchange, e: Event)
    requires Inv(x)
    ensures Inv(Step(x, e))
    ensures Step(x, e).command == x.command
    ensures x.resolved ==> Step(x, e).resolutions == x.resolutions && Step(x, e).disconnected == x.disconnected
  {
  }

  /** `sendRCON` resolves at most once, whatever the connection does. */
  lemma {:induction false} RunKeepsInv(command: Str, evs: seq<Event>)
    ensures Inv(Run(command, evs))
    ensures Run(command, evs).command == command
  {
    if evs != [] {
      RunKeepsInv(command, evs[..|evs| - 1]);
      StepKeepsInv(Run(command, evs[..|evs| - 1]), evs[|evs| - 1]);
    }
  }

  /** The response chunks of a trace, concatenated in arrival order. */
  function Responses(evs: seq<Event>): Str {
    if evs == [] then []
    else Responses(evs[..|evs| - 1]) + (if evs[|evs| - 1].Response? then evs[|evs| - 1].text else [])
  }

  /** The command is written once per authentication. */
  function AuthCount(evs: seq<Event>): nat {
    if evs == [] then 0 else AuthCount(evs[..|evs| - 1]) + (if evs[|evs| - 1].Auth? then 1 else 0)
  }

  /** The buffer holds every response chunk in arrival order, also those
      that arrive after the exchange resolved; the command is written once
      for every `auth` event and nothing else is written. */
  lemma {:induction false} BufferAndCommands(command: Str, evs: seq<Event>)
    ensures Run(command, evs).result == Responses(evs)
    ensures |Run(command, evs).sent| == AuthCount(evs)
    ensures forall c :: c in Run(command, evs).sent ==> c == command
  {
    if evs != [] {
      BufferAndCommands(command, evs[..|evs| - 1]);
      RunKeepsInv(command, evs[..|evs| - 1]);
    }
  }

  /** The idle timer is armed when a response arrived after the last time
      it fired. */
  ghost predicate Armed(p: seq<Event>) {
    exists i :: 0 <= i < |p| && p[i].Response? && forall j :: i < j < |p| ==> !p[j].TimerFires?
  }

  lemma {:induction false} PendingIsArmed(command: Str, evs: seq<Event>)
    ensures Run(command, evs).timerPending == Armed(evs)
  {
    if evs != [] {
      var p, e := evs[..|evs| - 1], evs[|evs| - 1];
      PendingIsArmed(command, p);
      if e.Response? {
        assert evs[|evs| - 1].Response?;
      } else if e.TimerFires? {
        if Armed(evs) {
          var i :| 0 <= i < |evs| && evs[i].Response? && forall j :: i < j < |evs| ==> !evs[j].TimerFires?;
          assert false;
        }
      } else {
        if Armed(p) {
          var i :| 0 <= i < |p| && p[i].Response? && forall j :: i < j < |p| ==> !p[j].TimerFires?;
          assert evs[i].Response? && forall j :: i < j < |evs| ==> !evs[j].TimerFires?;
        }
        if Armed(evs) {
          var i :| 0 <= i < |evs| && evs[i].Response? && forall j :: i < j < |evs| ==> !evs[j].TimerFires?;
          assert p[i].Response? && forall j :: i < j < |p| ==> !p[j].TimerFires?;
        }
      }
    }
  }

  /** Event j settles the exchange if it is an error, an end, or the timer
      firing while armed. */
  ghost predicate SettlesAt(evs: seq<Event>, j: nat)
    requires j < |evs|
  {
    evs[j].Error? || evs[j].End? || (evs[j].TimerFires? && Armed(evs[..j]))
  }

  /** What the first settling event resolves the exchange with: the error
      text, or the response chunks that arrived before it. */
  ghost function SettleValue(evs: seq<Event>, j: nat): Str
    requires j < |evs|
  {
    if evs[j].Error? then evs[j].message else Responses(evs[..j])
  }

  ghost predicate FirstSettle(evs: seq<Event>, j: int) {
    0 <= j < |evs| && SettlesAt(evs, j) && forall i :: 0 <= i < j ==> !SettlesAt(evs, i)
  }

  lemma PrefixSettles(evs: seq<Event>, e: Event, j: nat)
    requires j < |evs|
    ensures SettlesAt(evs + [e], j) == SettlesAt(evs, j)
    ensures SettleValue(evs + [e], j) == SettleValue(evs, j)
  {
    assert (evs + [e])[..j] == evs[..j];
  }

  /** The exchange resolves exactly when some event settles it, and then
      with the value of the FIRST such event, whatever follows; it has
      disconnected exactly when that event was the idle timer. */
  lemma {:induction false} Resolution(command: Str, evs: seq<Event>)
    ensures Run(command, evs).resolved <==> exists j :: 0 <= j < |evs| && SettlesAt(evs, j)
    ensures forall j :: FirstSettle(evs, j) ==>
              Run(command, evs).resolutions == [SettleValue(evs, j)]
              && (Run(command, evs).disconnected <==> evs[j].TimerFires?)
    ensures !Run(command, evs).resolved ==> Run(command, evs).resolutions == [] && !Run(command, evs).disconnected
  {
    RunKeepsInv(command, evs);
    if evs != [] {
      var p, e := evs[..|evs| - 1], evs[|evs| - 1];
      assert evs == p + [e];
      Resolution(command, p);
      ResolutionStep(command, p, e);
    }
  }

  /** The inductive step of `Resolution`: one more event after a prefix
      that already satisfies it. */
  lemma ResolutionStep(command: Str, p: seq<Event>, e: Event)
    requires Run(command, p).resolved <==> exists j :: 0 <= j < |p| && SettlesAt(p, j)
    requires forall j :: FirstSettle(p, j) ==>
               Run(command, p).resolutions == [SettleValue(p, j)]
               && (Run(command, p).disconnected <==> p[j].TimerFires?)
    requires !Run(command, p).resolved ==> Run(command, p).resolutions == [] && !Run(command, p).disconnected
    ensures var evs := p + [e];
            && (Run(command, evs).resolved <==> exists j :: 0 <= j < |evs| && SettlesAt(evs, j))
            && (forall j :: FirstSettle(evs, j) ==>
                  Run(command, evs).resolutions == [SettleValue(evs, j)]
                  && (Run(command, evs).disconnected <==> evs[j].TimerFires?))
            && (!Run(command, evs).resolved ==> Run(command, evs).resolutions == [] && !Run(command, evs).disconnected)
  {
    var evs := p + [e];
    assert evs[..|evs| - 1] == p;
    RunKeepsInv(command, p);
    PendingIsArmed(command, p);
    BufferAndCommands(command, p);
    forall j | 0 <= j < |p| ensures SettlesAt(evs, j) == SettlesAt(p, j) && SettleValue(evs, j) == SettleValue(p, j) {
      PrefixSettles(p, e, j);
    }
    assert evs[..|p|] == p;
    var x := Run(command, p);
    if x.resolved {
      var j :| 0 <= j < |p| && SettlesAt(p, j);
      assert SettlesAt(evs, j);
      forall k | FirstSettle(evs, k) ensures k < |p| && FirstSettle(p, k) {
      }
    } else {
      forall k | FirstSettle(evs, k) ensures k == |p| {
      }
      if SettlesAt(evs, |p|) {
        assert FirstSettle(evs, |p|);
      }
    }
  }

  /** Once resolved, nothing the connection does later changes the value or
      causes a disconnect. */
  lemma {:induction false} ResolvedIsFinal(command: Str, evs: seq<Event>, more: seq<Event>)
    requires Run(command, evs).resolved
    ensures Run(command, evs + more).resolutions == Run(command, evs).resolutions
    ensures Run(command, evs + more).disconnected == Run(command, evs).disconnected
    ensures Run(command, evs + more).resolved
    decreases |more|
  {
    if more == [] {
      assert evs + more == evs;
    } else {
      var init := more[..|more| - 1];
      assert (evs + more)[..|evs + more| - 1] == evs + init;
      assert (evs + more)[|evs + more| - 1] == more[|more| - 1];
      ResolvedIsFinal(command, evs, init);
      RunKeepsInv(command, evs + init);
      StepKeepsInv(Run(command, evs + init), more[|more| - 1]);
    }
  }

  lemma RunSnoc(command: Str, evs: seq<Event>, e: Event)
    ensures Run(command, evs + [e]) == Step(Run(command, evs), e)
  {
    assert (evs + [e])[..|evs|] == evs;
  }

  /** Two chunks, then silence: one resolution with both chunks in order,
      and a disconnect. */
  lemma QuietAfterTwoChunks(command: Str, a: Str, b: Str)
    ensures var x := Run(command, [Auth, Response(a), Response(b), TimerFires]);
            x.resolutions == [a + b] && x.disconnected && x.sent == [command]
  {
    assert [] + [Auth] == [Auth];
    assert [Auth] + [Response(a)] == [Auth, Response(a)];
    assert [Auth, Response(a)] + [Response(b)] == [Auth, Response(a), Response(b)];
    assert [Auth, Response(a), Response(b)] + [TimerFires] == [Auth, Response(a), Response(b), TimerFires];
    RunSnoc(command, [], Auth);
    RunSnoc(command, [Auth], Response(a));
    RunSnoc(command, [Auth, Response(a)], Response(b));
    RunSnoc(command, [Auth, Response(a), Response(b)], TimerFires);
    assert [] + a == a;
  }

  /** An error before the timer resolves with the error text; the timer it
      leaves armed later fires without effect and without disconnecting. */
  lemma ErrorThenTimer(command: Str, a: Str, m: Str)
    ensures var x := Run(command, [Auth, Response(a), Error(m), TimerFires]);
            x.resolutions == [m] && !x.disconnected && !x.timerPending
  {
    assert [] + [Auth] == [Auth];
    assert [Auth] + [Response(a)] == [Auth, Response(a)];
    assert [Auth, Response(a)] + [Error(m)] == [Auth, Response(a), Error(m)];
    assert [Auth, Response(a), Error(m)] + [TimerFires] == [Auth, Response(a), Error(m), TimerFires];
    RunSnoc(command, [], Auth);
    RunSnoc(command, [Auth], Response(a));
    RunSnoc(command, [Auth, Response(a)], Error(m));
    RunSnoc(command, [Auth, Response(a), Error(m)], TimerFires);
  }

  /** The exchange of one `sendRCON` call, with the handlers as methods. */
  class RconExchange {
    const command: Str
    var resolved: bool
    var result: Str
    var timerPending: bool
    var sent: seq<Str>
    var resolutions: seq<Str>
    var disconnected: bool

    ghost function State(): Exchange
      reads this
    {
      Exchange(command, resolved, result, timerPending, sent, resolutions, disconnected)
    }

    ghost predicate Valid()
      reads this
    {
      Inv(State())
    }

    constructor (command: Str)
      ensures Valid() && State() == Init(command)
    {
      this.command := command;
      resolved := false;
      result := [];
      timerPending := false;
      sent := [];
      resolutions := [];
      disconnected := false;
    }

    /** `conn.on('auth')`: send the command. */
    method OnAuth()
      requires Valid()
      modifies this
      ensures Valid() && State() == Step(old(State()), Auth)
      ensures sent == old(sent) + [command]
    {
      sent := sent + [command];
    }

    /** `conn.on('response')`: append the chunk and (re)arm the timer. */
    method OnResponse(text: Str)
      requires Valid()
      modifies this
      ensures Valid() && State() == Step(old(State()), Response(text))
      ensures result == old(result) + text && timerPending
      ensures resolutions == old(resolutions) && disconnected == old(disconnected)
    {
      result := result + text;
      timerPending := true;
    }

    /** The timer callback: resolve with the buffer and disconnect, unless
        already resolved. */
    method OnTimerFires()
      requires Valid() && timerPending
      modifies this
      ensures Valid() && State() == Step(old(State()), TimerFires)
      ensures !timerPending && resolved
      ensures resolutions == if old(resolved) then old(resolutions) else old(resolutions) + [result]
      ensures disconnected == (old(disconnected) || !old(resolved))
    {
      timerPending := false;
      if !resolved {
        resolved := true;
        resolutions := resolutions + [result];
        disconnected := true;
      }
    }

    /** `conn.on('error')`: resolve with the error text unless already
        resolved; the timer is left as it is and nothing is disconnected. */
    method OnError(message: Str)
      requires Valid()
      modifies this
      ensures Valid() && State() == Step(old(State()), Error(message))
      ensures resolved && timerPending == old(timerPending) && disconnected == old(disconnected)
      ensures resolutions == if old(resolved) then old(resolutions) else old(resolutions) + [message]
    {
      if !resolved {
        resolved := true;
        resolutions := resolutions + [message];
      }
    }

    /** `conn.on('end')`: resolve with the buffer unless already resolved. */
    method OnEnd()
      requires Valid()
      modifies this
      ensures Valid() && State() == Step(old(State()), End)
      ensures resolved && disconnected == old(disconnected)
      ensures resolutions == if old(resolved) then old(resolutions) else old(resolutions) + [result]
    {
      if !resolved {
        resolved := true;
        resolutions := resolutions + [result];
      }
    }
  }

  /** One `sendRCON(command)` call driven by the given events, delivered in
      order (a timer event only while the timer is armed). Returns the
      value the promise resolves to, if any, and whether the connection was
      disconnected by the exchange. */
  method SendRcon(command: Str, evs: seq<Event>) returns (value: Option<Str>, disconnected: bool)
    ensures value.Some? == Run(command, evs).resolved
    ensures value.Some? ==> [value.value] == Run(command, evs).resolutions
    ensures disconnected == Run(command, evs).disconnected
  {
    var ex := new RconExchange(command);
    for i := 0 to |evs|
      invariant ex.Valid() && ex.State() == Run(command, evs[..i])
    {
      assert evs[..i + 1][..i] == evs[..i];
      match evs[i]
      case Auth => ex.OnAuth();
      case Response(t) => ex.OnResponse(t);
      case TimerFires => if ex.timerPending { ex.OnTimerFires(); }
      case Error(m) => ex.OnError(m);
      case End => ex.OnEnd();
    }
    assert evs[..|evs|] == evs;
    value := if ex.resolved then Some(ex.resolutions[0]) else None;
    disconnected := ex.disconnected;
  }
}
