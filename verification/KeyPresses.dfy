// What the key router makes of the raw key reports (toolkit/src/platform/linux_input.cpp):
// which presses are dispatched, which open a session of which kind, when sessions
// end, and when a capture is open.
module KeyPresses {
  import opened KeyRouting
  import opened Options

  // The last report of a key before this point.
  function LastReport(events: seq<Event>): Option<Event> {
    if events == [] then None
    else
      var n := |events| - 1;
      if events[n].KeyEvent? then Some(events[n]) else LastReport(events[..n])
  }

  // A press: a key is down that was not the key down at the report before.
  predicate Press(events: seq<Event>, e: Event) {
    var was := LastReport(events);
    e.KeyEvent? && e.pressed && !(was.Some? && was.value.KeyEvent? && was.value.pressed && was.value.key == e.key)
  }

  // A NavBar key with a hold action, or ESC: their presses open a session instead.
  predicate Waits(e: Event)
    requires e.KeyEvent?
  {
    e.key.Esc? || (e.key.Nav? && e.hasHold)
  }

  // A press the router passes on at once.
  predicate Plain(events: seq<Event>, e: Event) {
    Press(events, e) && (Run(events).capture || !Waits(e))
  }

  predicate LastIs(s: Keys, was: Option<Event>) {
    if was.None? then !s.lastPressed
    else was.value.KeyEvent? && s.last == was.value.key && s.lastPressed == was.value.pressed
  }

  lemma {:induction false} LastAlways(events: seq<Event>)
    ensures LastIs(Run(events), LastReport(events))
  {
    hide OnPress, OnHoldTimer, OnEscTimer, OnRepeatTimer;
    if events != [] {
      var n := |events| - 1;
      LastAlways(events[..n]);
      StepKeepsLast(Run(events[..n]), events[n]);
    }
  }

  lemma StepKeepsLast(s: Keys, e: Event)
    ensures var t := Step(s, e);
            if e.KeyEvent? then t.last == e.key && t.lastPressed == e.pressed
            else t.last == s.last && t.lastPressed == s.lastPressed
  {}

  lemma RunNext(events: seq<Event>, e: Event)
    ensures Run(events + [e]) == Step(Run(events), e)
  {
    assert (events + [e])[..|events|] == events;
  }

  // ---- every plain press is dispatched

  function Dispatches(log: seq<Effect>): seq<Effect> {
    if log == [] then []
    else
      var n := |log| - 1;
      if log[n].Dispatch? then Dispatches(log[..n]) + [log[n]] else Dispatches(log[..n])
  }

  // The plain presses of a run, each as a dispatch with the capture it found open.
  function PlainPresses(events: seq<Event>): seq<Effect> {
    if events == [] then []
    else
      var n := |events| - 1;
      if Plain(events[..n], events[n]) then PlainPresses(events[..n]) + [Dispatch(events[n].key, Run(events[..n]).capture)]
      else PlainPresses(events[..n])
  }

  lemma DispatchesNext(log: seq<Effect>, e: Effect)
    ensures Dispatches(log + [e]) == if e.Dispatch? then Dispatches(log) + [e] else Dispatches(log)
  {
    assert (log + [e])[..|log|] == log;
  }

  lemma {:induction false} RepeatsNoDispatch(log: seq<Effect>, id: nat, key: Key, n: nat)
    ensures Dispatches(Repeated(log, id, key, n)) == Dispatches(log)
  {
    hide Dispatches;
    if n > 0 {
      RepeatsNoDispatch(log, id, key, n - 1);
      DispatchesNext(Repeated(log, id, key, n - 1), Repeat(id, key));
    }
  }

  // The log after a report of a key.
  lemma ReportLog(s: Keys, e: Event)
    requires e.KeyEvent?
    ensures var log, press := Step(s, e).log, e.pressed && (!s.lastPressed || s.last != e.key);
            if press && (s.capture || !Waits(e)) then log == s.log + [Dispatch(e.key, s.capture)]
            else log == s.log || log == s.log + [Tap(s.hold.id, s.hold.key, s.capture)]
  {}

  lemma StepDispatches(s: Keys, e: Event, was: Option<Event>)
    requires LastIs(s, was)
    ensures var press := e.KeyEvent? && e.pressed && !(was.Some? && was.value.pressed && was.value.key == e.key);
            Dispatches(Step(s, e).log) ==
            Dispatches(s.log) + (if press && (s.capture || !Waits(e)) then [Dispatch(e.key, s.capture)] else [])
  {
    StepAdds(s, e);
    if e.KeyEvent? { ReportLog(s, e); }
    var log := Step(s, e).log;
    hide Step, Dispatches;
    match e
    case KeyEvent(_, key, _, _, _, _) =>
      DispatchesNext(s.log, Dispatch(key, s.capture));
      DispatchesNext(s.log, Tap(s.hold.id, s.hold.key, s.capture));
    case HoldTimer(_, _, _) =>
      DispatchesNext(s.log, HoldAction(s.hold.id, s.hold.key));
      DispatchesNext(s.log, Tap(s.hold.id, s.hold.key, s.capture));
    case EscTimer(_, _, hasHome, after) =>
      DispatchesNext(s.log, Hint(s.esc.id, false));
      DispatchesNext(s.log, Hint(s.esc.id, true));
      DispatchesNext(HideHint(s, after).log, Back(s.esc.id));
      DispatchesNext(HideHint(s, after).log, Home(s.esc.id, !hasHome));
    case RepeatTimer(_, _, _, _) =>
      if log != s.log { RepeatsNoDispatch(s.log, s.rep.id, s.rep.key, Step(s, e).rep.count - s.rep.count); }
    case SetCapture(_, _) =>
  }

  // The presses that open no hold and no ESC session are dispatched: each once, in
  // the order they came, with its key and with the capture it found.
  lemma {:induction false} PressesAreDispatched(events: seq<Event>)
    ensures Dispatches(Run(events).log) == PlainPresses(events)
  {
    hide Dispatches, Step;
    if events == [] {
      assert Dispatches([]) == [] by { DispatchesNone(); }
    } else {
      var n := |events| - 1;
      PressesAreDispatched(events[..n]);
      LastAlways(events[..n]);
      StepDispatches(Run(events[..n]), events[n], LastReport(events[..n]));
    }
  }

  lemma DispatchesNone()
    ensures Dispatches([]) == []
  {}

  // ---- which presses open a session, and when sessions end

  // A press opens a hold session exactly when its key has a hold action, no capture is
  // open and its key's own session is not running; the session runs until a timer
  // finds its key up.
  lemma HoldSessionsIff(events: seq<Event>, e: Event)
    ensures var s, t := Run(events), Run(events + [e]);
            var opens := Press(events, e) && !s.capture && e.key.Nav? && e.hasHold && !(s.hold.on && s.hold.key == e.key);
            var ends := e.HoldTimer? && !(e.sample.pressed && e.sample.key == s.hold.key);
            && t.hold.id == (if opens then s.hold.id + 1 else s.hold.id)
            && (t.hold.on <==> opens || (s.hold.on && !ends))
            && (opens ==> t.hold.key == e.key && t.hold.at == e.now)
  {
    RunNext(events, e);
    LastAlways(events);
    HoldAlways(events, 0);
    HoldStep(Run(events), e);
    hide Step, Run;
  }

  lemma HoldStep(s: Keys, e: Event)
    ensures var t := Step(s, e);
            var press := e.KeyEvent? && e.pressed && (!s.lastPressed || s.last != e.key);
            var opens := press && !s.capture && e.key.Nav? && e.hasHold && !(s.hold.on && s.hold.key == e.key);
            if opens then t.hold.id == s.hold.id + 1 && t.hold.on && t.hold.key == e.key && t.hold.at == e.now
            else
              && t.hold.id == s.hold.id
              && t.hold.on == (s.hold.on && !(e.HoldTimer? && s.hold.runs && !(e.sample.pressed && e.sample.key == s.hold.key)))
  {}

  // ESC opens its session when no capture is open and none is running; it runs until a
  // timer finds ESC up.
  lemma EscSessionsIff(events: seq<Event>, e: Event)
    requires Timely(events)
    ensures var s, t := Run(events), Run(events + [e]);
            var opens := Press(events, e) && e.key.Esc? && !s.capture && !s.esc.on;
            var ends := e.EscTimer? && !(e.sample.pressed && e.sample.key.Esc?);
            && t.esc.id == (if opens then s.esc.id + 1 else s.esc.id)
            && (t.esc.on <==> opens || (s.esc.on && !ends))
            && (opens ==> t.esc.at == e.now)
  {
    RunNext(events, e);
    LastAlways(events);
    EscAlways(events, 0);
    EscStep(Run(events), e);
    hide Step, Run;
  }

  lemma EscStep(s: Keys, e: Event)
    ensures var t := Step(s, e);
            var press := e.KeyEvent? && e.pressed && (!s.lastPressed || s.last != e.key);
            if press && e.key.Esc? && !s.capture && !s.esc.on then t.esc.id == s.esc.id + 1 && t.esc.on && t.esc.at == e.now
            else
              && t.esc.id == s.esc.id
              && t.esc.on == (s.esc.on && !(e.EscTimer? && s.esc.runs && !(e.sample.pressed && e.sample.key.Esc?)))
  {}

  // Left, right and the NavBar keys that repeat.
  predicate Again(key: Key, repeats: bool) { key.Left? || key.Right? || (key.Nav? && repeats) }

  // A plain press of a repeating key opens a repeat session when its own handler left
  // no capture open; it runs until a timer finds the key up, a capture open, or the key
  // no longer repeating.
  lemma RepeatSessionsIff(events: seq<Event>, e: Event)
    requires Timely(events)
    ensures var s, t := Run(events), Run(events + [e]);
            var opens := Plain(events, e) && !e.after && Again(e.key, e.repeats);
            var ends := e.RepeatTimer? && (s.capture || !(e.sample.pressed && e.sample.key == s.rep.key) || !Again(s.rep.key, e.repeats));
            && t.rep.id == (if opens then s.rep.id + 1 else s.rep.id)
            && (t.rep.on <==> opens || (s.rep.on && !ends))
            && (opens ==> t.rep.key == e.key && t.rep.at == e.now)
  {
    RunNext(events, e);
    LastAlways(events);
    RepAlways(events, 0);
    RepStep(Run(events), e);
    hide Step, Run, Again;
  }

  lemma RepStep(s: Keys, e: Event)
    ensures var t := Step(s, e);
            var press := e.KeyEvent? && e.pressed && (!s.lastPressed || s.last != e.key);
            if press && (s.capture || !Waits(e)) && !e.after && Again(e.key, e.repeats) then
              t.rep.id == s.rep.id + 1 && t.rep.on && t.rep.key == e.key && t.rep.at == e.now
            else
              && t.rep.id == s.rep.id
              && t.rep.on == (s.rep.on && !(e.RepeatTimer? && s.rep.runs &&
                   (s.capture || !(e.sample.pressed && e.sample.key == s.rep.key) || !Again(s.rep.key, e.repeats))))
  {}

  // ---- captures

  // A capture opens and closes with what the handlers of an event leave: the event's
  // own word when it called one, the repeat that opens one among the repeats sent, and
  // otherwise no change.
  predicate CaptureIs(s: Keys, e: Event, t: Keys) {
    match e
    case SetCapture(_, on) => t.capture == on
    case RepeatTimer(_, _, _, opensAt) =>
      t.capture == if t.log == s.log then s.capture else |Trace(t.log, OfRepeat, t.rep.id)| == opensAt
    case _ => t.capture == if t.log == s.log then s.capture else e.after
  }

  // The events that name a handler's effect on the capture.
  lemma StepCapture(s: Keys, e: Event)
    requires !e.RepeatTimer? && !e.SetCapture?
    ensures var t := Step(s, e); t.capture == if t.log == s.log then s.capture else e.after
  {}

  lemma RepeatCapture(s: Keys, e: Event)
    requires e.RepeatTimer?
    ensures var t := Step(s, e);
            && t.rep.id == s.rep.id && (!s.rep.runs ==> t == s)
            && if t.rep.count == s.rep.count then t.log == s.log && t.capture == s.capture else t.capture == (t.rep.count == e.opensAt)
  {}

  lemma {:induction false} NumberedFrom1(events: seq<Event>)
    ensures Run(events).rep.id == 0 ==> !Run(events).rep.runs
  {
    hide Step;
    if events != [] {
      var n := |events| - 1;
      NumberedFrom1(events[..n]);
      RepRuns(Run(events[..n]), events[n]);
    }
  }

  lemma RepRuns(s: Keys, e: Event)
    ensures Step(s, e).rep.id > s.rep.id || (Step(s, e).rep.id == s.rep.id && (Step(s, e).rep.runs ==> s.rep.runs))
  {}

  lemma CaptureAlways(events: seq<Event>, e: Event)
    requires Timely(events + [e])
    ensures CaptureIs(Run(events), e, Run(events + [e]))
  {
    hide Step, Trace, Run;
    RunNext(events, e);
    if e.RepeatTimer? {
      assert forall i :: 0 <= i < |events| ==> Clock(events + [e], i) == Clock(events, i);
      RepeatCapture(Run(events), e);
      NumberedFrom1(events);
      RepAlways(events + [e], Run(events + [e]).rep.id);
      RepAlways(events, Run(events).rep.id);
    } else if !e.SetCapture? {
      StepCapture(Run(events), e);
    } else {
      assert Run(events + [e]).capture == e.on by { SetStep(Run(events), e); }
    }
  }

  lemma SetStep(s: Keys, e: Event)
    requires e.SetCapture?
    ensures Step(s, e).capture == e.on
  {}

  // ---- what the handlers are told

  predicate ToldRight(s: Keys, e: Event, told: Effect) {
    && (told.Dispatch? || told.Tap? ==> told.captured == s.capture)
    && (told.Home? ==> e.EscTimer? && told.quits == !e.hasHome)
    && (told.Repeat? ==> e.RepeatTimer? && StillRepeats(s, e, s.rep.id) && told == Repeat(s.rep.id, s.rep.key))
  }

  lemma {:induction false} RepeatedAdds(log: seq<Effect>, id: nat, key: Key, n: nat, j: nat)
    requires |log| <= j < |Repeated(log, id, key, n)|
    ensures Repeated(log, id, key, n)[j] == Repeat(id, key)
  {
    if j < |Repeated(log, id, key, n - 1)| { RepeatedAdds(log, id, key, n - 1, j); }
  }

  lemma {:induction false} RepeatedKeeps(log: seq<Effect>, id: nat, key: Key, n: nat)
    ensures log <= Repeated(log, id, key, n)
  {
    if n > 0 { RepeatedKeeps(log, id, key, n - 1); }
  }

  lemma SendsWhileHeld(s: Keys, e: Event)
    requires e.RepeatTimer? && s.rep.on == s.rep.runs && Step(s, e).log != s.log
    ensures StillRepeats(s, e, s.rep.id)
  {}

  // An event only adds to the log; a dispatch or a tap goes to the capture open just
  // then, ESC held long quits exactly when no home handler is there, and a repeat is
  // sent only while its key is still down, still repeats, and no capture is open.
  lemma HandlersAreTold(events: seq<Event>, e: Event, j: nat)
    requires Timely(events)
    ensures Run(events).log <= Run(events + [e]).log
    ensures |Run(events).log| <= j < |Run(events + [e]).log| ==> ToldRight(Run(events), e, Run(events + [e]).log[j])
  {
    RunNext(events, e);
    var s, t := Run(events), Run(events + [e]);
    StepAdds(s, e);
    RepAlways(events, 0);
    if e.RepeatTimer? && t.log != s.log { SendsWhileHeld(s, e); }
    hide Step, Run, Repeated;
    if e.RepeatTimer? && t.log != s.log {
      var n := Step(s, e).rep.count - s.rep.count;
      RepeatedKeeps(s.log, s.rep.id, s.rep.key, n);
      if |s.log| <= j < |t.log| { RepeatedAdds(s.log, s.rep.id, s.rep.key, n, j); }
    }
  }
}
