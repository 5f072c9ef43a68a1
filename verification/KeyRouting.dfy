// The key router (toolkit/src/platform/linux_input.cpp): taps and holds of NavBar
// keys, the ESC hold and auto-repeat, as sessions that timers sample whenever they
// happen to run. What the handlers answer, and whether they leave a key capture
// open, comes with each event.
module KeyRouting {

  const ESC_HINT_MS := 300
  const ESC_HOME_MS := 3000
  const NAV_HOLD_MS := 400
  const REPEAT_DELAY_MS := 400
  const REPEAT_PERIOD_MS := 100

  datatype Key = Esc | Left | Right | Nav(slot: nat) | Other(code: nat)

  // What the tracked input device reports.
  datatype Sample = Sample(pressed: bool, key: Key) {
    predicate Holds(k: Key) { pressed && key == k }
  }

  // What the router does, in order; sessions are numbered from 1.
  datatype Effect =
    | Dispatch(key: Key, captured: bool)
    | Tap(id: nat, key: Key, captured: bool)
    | HoldAction(id: nat, key: Key)
    | Hint(id: nat, show: bool)
    | Back(id: nat)
    | Home(id: nat, quits: bool)
    | Repeat(id: nat, key: Key)

  datatype HoldState = HoldState(on: bool, key: Key, at: int, sent: bool, runs: bool, id: nat)
  datatype EscState = EscState(on: bool, at: int, hint: bool, home: bool, runs: bool, id: nat)
  datatype RepState = RepState(on: bool, key: Key, at: int, count: nat, runs: bool, id: nat)

  datatype Keys = Keys(last: Key, lastPressed: bool, capture: bool,
                       hold: HoldState, esc: EscState, rep: RepState, log: seq<Effect>)

  const IDLE := Keys(Other(0), false, false, HoldState(false, Other(0), 0, false, false, 0),
                     EscState(false, 0, false, false, false, 0), RepState(false, Other(0), 0, 0, false, 0), [])

  // after: a capture is open once the handler called has returned. opensAt: the
  // repeat whose handler opens one. hasHold, repeats: what the app says of the slot.
  datatype Event =
    | KeyEvent(now: int, key: Key, pressed: bool, hasHold: bool, repeats: bool, after: bool)
    | HoldTimer(now: int, sample: Sample, after: bool)
    | EscTimer(now: int, sample: Sample, hasHome: bool, after: bool)
    | RepeatTimer(now: int, sample: Sample, repeats: bool, opensAt: nat)
    | SetCapture(now: int, on: bool)

  predicate HasHold(key: Key, hasHold: bool) { key.Nav? && hasHold }

  predicate KeyRepeats(key: Key, repeats: bool) { key.Left? || key.Right? || (key.Nav? && repeats) }

  function Did(s: Keys, e: Effect, after: bool): Keys { s.(log := s.log + [e], capture := after) }

  // The running hold ends as a tap, unless its hold action already ran.
  function Settle(s: Keys, after: bool): Keys {
    var t := if s.hold.sent then s else Did(s, Tap(s.hold.id, s.hold.key, s.capture), after);
    t.(hold := t.hold.(on := false))
  }

  function StartHold(s: Keys, key: Key, now: int): Keys {
    s.(hold := HoldState(true, key, now, false, true, s.hold.id + 1))
  }

  function OnPress(s: Keys, e: Event): Keys
    requires e.KeyEvent?
  {
    if e.key.Esc? && !s.capture && !s.esc.on then
      s.(esc := EscState(true, e.now, false, false, true, s.esc.id + 1))
    else if !s.capture && HasHold(e.key, e.hasHold) then
      var t := if s.hold.on && s.hold.key != e.key then Settle(s, e.after) else s;
      if t.hold.on then t else StartHold(t, e.key, e.now)
    else if !e.key.Esc? || s.capture then
      var t := Did(s, Dispatch(e.key, s.capture), e.after);
      if !t.capture && KeyRepeats(e.key, e.repeats) then
        t.(rep := RepState(true, e.key, e.now, 0, true, t.rep.id + 1))
      else t
    else s
  }

  function OnHoldTimer(s: Keys, e: Event): Keys
    requires e.HoldTimer?
  {
    if !e.sample.Holds(s.hold.key) then
      var t := Settle(s, e.after);
      t.(hold := t.hold.(runs := false))
    else if !s.hold.sent && e.now - s.hold.at >= NAV_HOLD_MS then
      Did(s, HoldAction(s.hold.id, s.hold.key), e.after).(hold := s.hold.(sent := true))
    else s
  }

  function HideHint(s: Keys, after: bool): Keys {
    if s.esc.hint then Did(s, Hint(s.esc.id, false), after).(esc := s.esc.(hint := false)) else s
  }

  function OnEscTimer(s: Keys, e: Event): Keys
    requires e.EscTimer?
  {
    if !e.sample.Holds(Esc) then
      var t := HideHint(s, e.after);
      var u := if s.esc.hint || s.esc.home then t else Did(t, Back(s.esc.id), e.after);
      u.(esc := u.esc.(on := false, runs := false))
    else if s.esc.home then s
    else if e.now - s.esc.at >= ESC_HOME_MS then
      var t := HideHint(s, e.after);
      Did(t, Home(s.esc.id, !e.hasHome), e.after).(esc := t.esc.(home := true))
    else if e.now - s.esc.at >= ESC_HINT_MS && !s.esc.hint then
      Did(s, Hint(s.esc.id, true), e.after).(esc := s.esc.(hint := true))
    else s
  }

  // The repeats due this long after the press.
  function Due(elapsed: int): (due: nat) {
    if elapsed < REPEAT_DELAY_MS then 0 else (elapsed - REPEAT_DELAY_MS) / REPEAT_PERIOD_MS + 1
  }

  // The log with n more repeats of the key.
  function Repeated(log: seq<Effect>, id: nat, key: Key, n: nat): seq<Effect> {
    if n == 0 then log else Repeated(log, id, key, n - 1) + [Repeat(id, key)]
  }

  function OnRepeatTimer(s: Keys, e: Event): Keys
    requires e.RepeatTimer?
  {
    if s.capture || !e.sample.Holds(s.rep.key) || !KeyRepeats(s.rep.key, e.repeats) then
      s.(rep := s.rep.(on := false, runs := false))
    else
      var due := Due(e.now - s.rep.at);
      var to := if s.rep.count < e.opensAt <= due then e.opensAt else due;
      if to <= s.rep.count then s
      else s.(log := Repeated(s.log, s.rep.id, s.rep.key, to - s.rep.count),
              rep := s.rep.(count := to), capture := to == e.opensAt)
  }

  // A paused timer does not run.
  function Step(s: Keys, e: Event): Keys {
    match e
    case KeyEvent(_, key, pressed, _, _, _) =>
      var t := if pressed && (!s.lastPressed || s.last != key) then OnPress(s, e) else s;
      t.(last := key, lastPressed := pressed)
    case HoldTimer(_, _, _) => if s.hold.runs then OnHoldTimer(s, e) else s
    case EscTimer(_, _, _, _) => if s.esc.runs then OnEscTimer(s, e) else s
    case RepeatTimer(_, _, _, _) => if s.rep.runs then OnRepeatTimer(s, e) else s
    case SetCapture(_, on) => s.(capture := on)
  }

  function Run(events: seq<Event>): Keys {
    if events == [] then IDLE else Step(Run(events[..|events| - 1]), events[|events| - 1])
  }

  // ---- the log, session by session

  datatype Kind = OfHold | OfEsc | OfRepeat

  predicate IsOf(e: Effect, kind: Kind, id: nat) {
    match kind
    case OfHold => (e.Tap? || e.HoldAction?) && e.id == id
    case OfEsc => (e.Hint? || e.Back? || e.Home?) && e.id == id
    case OfRepeat => e.Repeat? && e.id == id
  }

  // One session's part of the log.
  function Trace(log: seq<Effect>, kind: Kind, id: nat): seq<Effect> {
    if log == [] then []
    else
      var n := |log| - 1;
      if IsOf(log[n], kind, id) then Trace(log[..n], kind, id) + [log[n]] else Trace(log[..n], kind, id)
  }

  lemma TraceNext(log: seq<Effect>, e: Effect, kind: Kind, id: nat)
    ensures Trace(log + [e], kind, id) == if IsOf(e, kind, id) then Trace(log, kind, id) + [e] else Trace(log, kind, id)
  {
    assert (log + [e])[..|log|] == log;
  }

  predicate OnlyRepeats(tr: seq<Effect>, id: nat, key: Key) {
    forall i :: 0 <= i < |tr| ==> tr[i] == Repeat(id, key)
  }

  lemma {:induction false} RepeatedTrace(log: seq<Effect>, rid: nat, key: Key, n: nat, kind: Kind, id: nat)
    ensures var tr, was := Trace(Repeated(log, rid, key, n), kind, id), Trace(log, kind, id);
            if !(kind.OfRepeat? && id == rid) then tr == was
            else |tr| == |was| + n && (OnlyRepeats(was, id, key) ==> OnlyRepeats(tr, id, key))
  {
    hide Trace;
    if n > 0 {
      RepeatedTrace(log, rid, key, n - 1, kind, id);
      TraceNext(Repeated(log, rid, key, n - 1), Repeat(rid, key), kind, id);
    }
  }

  // What an event can add to the log.
  predicate AddsOnly(s: Keys, e: Event, log: seq<Effect>) {
    match e
    case KeyEvent(_, key, _, _, _, _) =>
      log == s.log || log == s.log + [Dispatch(key, s.capture)] ||
      (!s.capture && HasHold(key, e.hasHold) && log == s.log + [Tap(s.hold.id, s.hold.key, s.capture)])
    case HoldTimer(_, _, _) =>
      log == s.log || log == s.log + [HoldAction(s.hold.id, s.hold.key)] || log == s.log + [Tap(s.hold.id, s.hold.key, s.capture)]
    case EscTimer(_, _, _, _) =>
      var t := HideHint(s, e.after).log;
      log == s.log || log == s.log + [Hint(s.esc.id, true)] ||
      log == t || log == t + [Back(s.esc.id)] || log == t + [Home(s.esc.id, !e.hasHome)]
    case RepeatTimer(_, _, _, _) =>
      var to := Step(s, e).rep.count;
      log == s.log || (to > s.rep.count && log == Repeated(s.log, s.rep.id, s.rep.key, to - s.rep.count))
    case SetCapture(_, _) => log == s.log
  }

  lemma StepAdds(s: Keys, e: Event)
    ensures AddsOnly(s, e, Step(s, e).log)
  {}

  // An event that is not about a kind of session adds nothing to those sessions.
  predicate NotAbout(s: Keys, e: Event, kind: Kind) {
    match kind
    case OfHold => !e.HoldTimer? && (e.KeyEvent? ==> s.capture || !HasHold(e.key, e.hasHold))
    case OfEsc => !e.EscTimer?
    case OfRepeat => !e.RepeatTimer?
  }

  lemma OthersKeepTrace(s: Keys, e: Event, kind: Kind, id: nat)
    requires NotAbout(s, e, kind)
    ensures Trace(Step(s, e).log, kind, id) == Trace(s.log, kind, id)
  {
    StepAdds(s, e);
    var log := Step(s, e).log;
    hide Step, Trace;
    match e
    case KeyEvent(_, key, _, _, _, _) =>
      TraceNext(s.log, Dispatch(key, s.capture), kind, id);
      TraceNext(s.log, Tap(s.hold.id, s.hold.key, s.capture), kind, id);
    case HoldTimer(_, _, _) =>
      TraceNext(s.log, HoldAction(s.hold.id, s.hold.key), kind, id);
      TraceNext(s.log, Tap(s.hold.id, s.hold.key, s.capture), kind, id);
    case EscTimer(_, _, hasHome, after) =>
      TraceNext(s.log, Hint(s.esc.id, false), kind, id);
      TraceNext(s.log, Hint(s.esc.id, true), kind, id);
      TraceNext(HideHint(s, after).log, Back(s.esc.id), kind, id);
      TraceNext(HideHint(s, after).log, Home(s.esc.id, !hasHome), kind, id);
    case RepeatTimer(_, _, _, _) =>
      if log != s.log { RepeatedTrace(s.log, s.rep.id, s.rep.key, Step(s, e).rep.count - s.rep.count, kind, id); }
    case SetCapture(_, _) =>
  }

  // ---- NavBar holds: each session ends as one tap or one hold action

  // Event e opens hold session id.
  predicate OpensHold(s: Keys, e: Event, id: nat) { e.KeyEvent? && s.hold.id < id == Step(s, e).hold.id }

  // The event that opened the session.
  function HoldOpening(events: seq<Event>, id: nat): (open: Event)
    ensures open.KeyEvent?
  {
    if events == [] then KeyEvent(0, Other(0), false, false, false, false)
    else
      var n := |events| - 1;
      if OpensHold(Run(events[..n]), events[n], id) then events[n] else HoldOpening(events[..n], id)
  }

  predicate HoldEnded(s: Keys, id: nat) { id < s.hold.id || (id == s.hold.id && !s.hold.on) }

  // A timer run of the session finds its key down at or after the hold time, counted
  // from the press that opened it.
  predicate SeesHold(s: Keys, e: Event, id: nat, open: Event) {
    && e.HoldTimer? && s.hold.on && s.hold.id == id
    && open.KeyEvent? && e.sample.pressed && e.sample.key == open.key && e.now - open.now >= 400
  }

  predicate SawHold(events: seq<Event>, id: nat) {
    events != [] &&
    var n := |events| - 1;
    SawHold(events[..n], id) || SeesHold(Run(events[..n]), events[n], id, HoldOpening(events[..n], id))
  }

  // A session's effects: the hold action if the hold was seen, else a tap once it
  // has ended, else nothing yet.
  predicate HoldTraceIs(tr: seq<Effect>, id: nat, key: Key, saw: bool, ended: bool) {
    if saw then tr == [HoldAction(id, key)]
    else if ended then |tr| == 1 && tr[0].Tap? && tr[0].id == id && tr[0].key == key
    else tr == []
  }

  predicate HoldInv(s: Keys, id: nat, open: Event, saw: bool) {
    && s.hold.on == s.hold.runs
    && (id > s.hold.id ==> Trace(s.log, OfHold, id) == [] && !saw)
    && (1 <= id <= s.hold.id ==>
          && open.KeyEvent? && open.pressed
          && HoldTraceIs(Trace(s.log, OfHold, id), id, open.key, saw, HoldEnded(s, id))
          && (id == s.hold.id ==> open.key == s.hold.key && open.now == s.hold.at)
          && (id == s.hold.id && s.hold.on ==> s.hold.sent == saw))
  }

  lemma SettleTrace(s: Keys, after: bool, id: nat)
    ensures Settle(s, after).hold == s.hold.(on := false)
    ensures Trace(Settle(s, after).log, OfHold, id) ==
            Trace(s.log, OfHold, id) + (if !s.hold.sent && id == s.hold.id then [Tap(id, s.hold.key, s.capture)] else [])
  {
    TraceNext(s.log, Tap(s.hold.id, s.hold.key, s.capture), OfHold, id);
  }

  // A run of the hold timer: the end of a session, its hold action, or nothing.
  lemma HoldTimerRun(s: Keys, e: Event)
    requires e.HoldTimer?
    ensures var t := Step(s, e);
            if s.hold.runs && !e.sample.Holds(s.hold.key) then
              t.hold == s.hold.(on := false, runs := false) && t.log == Settle(s, e.after).log
            else if s.hold.runs && !s.hold.sent && e.now - s.hold.at >= NAV_HOLD_MS then
              t.hold == s.hold.(sent := true) && t.log == s.log + [HoldAction(s.hold.id, s.hold.key)]
            else t == s
  {}

  lemma HoldTimerKeeps(s: Keys, e: Event, id: nat, open: Event, saw: bool)
    requires e.HoldTimer? && HoldInv(s, id, open, saw)
    ensures HoldInv(Step(s, e), id, open, saw || SeesHold(s, e, id, open))
  {
    hide Step, Settle, Trace;
    HoldTimerRun(s, e);
    SettleTrace(s, e.after, id);
    TraceNext(s.log, HoldAction(s.hold.id, s.hold.key), OfHold, id);
  }

  // A press of a key with a hold action: absorbed, or the running hold is settled
  // and a new session starts.
  lemma HoldPress(s: Keys, e: Event)
    requires e.KeyEvent? && !s.capture && HasHold(e.key, e.hasHold)
    ensures var t := Step(s, e);
            || (t.hold == s.hold && t.log == s.log)
            || (e.pressed && t.hold == HoldState(true, e.key, e.now, false, true, s.hold.id + 1)
                && t.log == if s.hold.on then Settle(s, e.after).log else s.log)
  {}

  lemma HoldPressKeeps(s: Keys, e: Event, id: nat, open: Event, saw: bool)
    requires e.KeyEvent? && !s.capture && HasHold(e.key, e.hasHold) && HoldInv(s, id, open, saw)
    ensures HoldInv(Step(s, e), id, if OpensHold(s, e, id) then e else open, saw)
  {
    hide Settle, Trace, Step;
    SettleTrace(s, e.after, id);
    HoldPress(s, e);
  }

  lemma OthersKeepHold(s: Keys, e: Event)
    requires NotAbout(s, e, OfHold)
    ensures Step(s, e).hold == s.hold
  {}

  lemma HoldNext(s: Keys, e: Event, id: nat, open: Event, saw: bool)
    requires HoldInv(s, id, open, saw)
    ensures HoldInv(Step(s, e), id, if OpensHold(s, e, id) then e else open, saw || SeesHold(s, e, id, open))
  {
    hide Step, Trace;
    if e.HoldTimer? {
      HoldTimerKeeps(s, e, id, open, saw);
    } else if e.KeyEvent? && !s.capture && HasHold(e.key, e.hasHold) {
      HoldPressKeeps(s, e, id, open, saw);
    } else {
      OthersKeepTrace(s, e, OfHold, id);
      OthersKeepHold(s, e);
    }
  }

  lemma {:induction false} HoldAlways(events: seq<Event>, id: nat)
    ensures HoldInv(Run(events), id, HoldOpening(events, id), SawHold(events, id))
  {
    if events != [] {
      var n := |events| - 1;
      HoldAlways(events[..n], id);
      HoldNext(Run(events[..n]), events[n], id, HoldOpening(events[..n], id), SawHold(events[..n], id));
    }
  }

  // A NavBar hold session does exactly one thing: its hold action if a timer run
  // found the key down at or after the hold time, and the tap otherwise, when it ends.
  lemma HoldEndsOnce(events: seq<Event>, id: nat)
    requires 1 <= id <= Run(events).hold.id
    ensures var s := Run(events);
            HoldTraceIs(Trace(s.log, OfHold, id), id, HoldOpening(events, id).key, SawHold(events, id), HoldEnded(s, id))
  {
    HoldAlways(events, id);
  }

  // ---- ESC: back, home or cancel, with the hint shown and hidden in pairs

  predicate OpensEsc(s: Keys, e: Event, id: nat) { e.KeyEvent? && s.esc.id < id == Step(s, e).esc.id }

  function EscOpening(events: seq<Event>, id: nat): (open: Event)
    ensures open.KeyEvent?
  {
    if events == [] then KeyEvent(0, Other(0), false, false, false, false)
    else
      var n := |events| - 1;
      if OpensEsc(Run(events[..n]), events[n], id) then events[n] else EscOpening(events[..n], id)
  }

  predicate EscEnded(s: Keys, id: nat) { id < s.esc.id || (id == s.esc.id && !s.esc.on) }

  // A timer run of the session finds ESC down: in the hint's time after its press, or
  // later, when it goes home.
  predicate SeesEsc(s: Keys, e: Event, id: nat) {
    e.EscTimer? && s.esc.on && s.esc.id == id && e.sample.pressed && e.sample.key.Esc?
  }

  predicate SeesHint(s: Keys, e: Event, id: nat, open: Event) {
    open.KeyEvent? && SeesEsc(s, e, id) && 300 <= e.now - open.now < 3000
  }

  predicate SeesHome(s: Keys, e: Event, id: nat, open: Event) {
    open.KeyEvent? && SeesEsc(s, e, id) && e.now - open.now >= 3000
  }

  predicate SawHint(events: seq<Event>, id: nat) {
    events != [] &&
    var n := |events| - 1;
    SawHint(events[..n], id) || SeesHint(Run(events[..n]), events[n], id, EscOpening(events[..n], id))
  }

  predicate SawHome(events: seq<Event>, id: nat) {
    events != [] &&
    var n := |events| - 1;
    SawHome(events[..n], id) || SeesHome(Run(events[..n]), events[n], id, EscOpening(events[..n], id))
  }

  // Ticks never go back.
  predicate Timely(events: seq<Event>) {
    forall i :: 0 <= i < |events| ==> Clock(events, i) <= events[i].now
  }

  function Clock(events: seq<Event>, i: nat): int
    requires i <= |events|
  {
    if i == 0 then 0 else events[i - 1].now
  }

  // The hint of a session: shown, and hidden once it goes home or ends.
  function HintTrace(id: nat, hint: bool, over: bool): seq<Effect> {
    if !hint then [] else if over then [Hint(id, true), Hint(id, false)] else [Hint(id, true)]
  }

  // A session's effects: the hint if it was seen in time; then home if that was seen;
  // or back, on the end of a session that showed no hint.
  predicate EscTraceIs(tr: seq<Effect>, id: nat, hint: bool, home: bool, ended: bool) {
    var shown := HintTrace(id, hint, home || ended);
    if home then tr == shown + [Home(id, false)] || tr == shown + [Home(id, true)]
    else if ended && !hint then tr == [Back(id)]
    else tr == shown
  }

  predicate EscInv(s: Keys, id: nat, open: Event, hint: bool, home: bool, clock: int) {
    && s.esc.on == s.esc.runs
    && (id > s.esc.id ==> Trace(s.log, OfEsc, id) == [] && !hint && !home)
    && (1 <= id <= s.esc.id ==>
          && open.KeyEvent? && open.pressed && open.key.Esc?
          && EscTraceIs(Trace(s.log, OfEsc, id), id, hint, home, EscEnded(s, id))
          && (id == s.esc.id ==> open.now == s.esc.at)
          && (id == s.esc.id && s.esc.on ==> s.esc.hint == (hint && !home) && s.esc.home == home)
          && (home ==> clock - open.now >= ESC_HOME_MS))
  }

  lemma HideHintTrace(s: Keys, after: bool, id: nat)
    ensures HideHint(s, after).esc == s.esc.(hint := false)
    ensures Trace(HideHint(s, after).log, OfEsc, id) ==
            if s.esc.hint && id == s.esc.id then Trace(s.log, OfEsc, id) + [Hint(id, false)] else Trace(s.log, OfEsc, id)
  {
    TraceNext(s.log, Hint(s.esc.id, false), OfEsc, id);
  }

  // The end of a session.
  lemma EscReleased(s: Keys, e: Event, id: nat, open: Event, hint: bool, home: bool, clock: int)
    requires e.EscTimer? && EscInv(s, id, open, hint, home, clock) && clock <= e.now && s.esc.runs && !e.sample.Holds(Esc)
    ensures EscInv(OnEscTimer(s, e), id, open, hint, home, e.now)
  {
    hide Trace, HideHint;
    HideHintTrace(s, e.after, id);
    TraceNext(HideHint(s, e.after).log, Back(s.esc.id), OfEsc, id);
    assert OnEscTimer(s, e).esc == s.esc.(on := false, runs := false, hint := false);
  }

  // ESC down long enough to go home.
  lemma EscGoesHome(s: Keys, e: Event, id: nat, open: Event, hint: bool, home: bool, clock: int)
    requires e.EscTimer? && EscInv(s, id, open, hint, home, clock) && clock <= e.now && s.esc.runs && e.sample.Holds(Esc)
    requires !s.esc.home && e.now - s.esc.at >= ESC_HOME_MS
    ensures EscInv(OnEscTimer(s, e), id, open, hint, home || id == s.esc.id, e.now)
  {
    hide Trace, HideHint;
    HideHintTrace(s, e.after, id);
    TraceNext(HideHint(s, e.after).log, Home(s.esc.id, !e.hasHome), OfEsc, id);
    assert OnEscTimer(s, e).esc == s.esc.(home := true, hint := false);
  }

  lemma EscTimerKeeps(s: Keys, e: Event, id: nat, open: Event, hint: bool, home: bool, clock: int)
    requires e.EscTimer? && EscInv(s, id, open, hint, home, clock) && clock <= e.now
    ensures EscInv(Step(s, e), id, open, hint || SeesHint(s, e, id, open), home || SeesHome(s, e, id, open), e.now)
  {
    hide Trace;
    if s.esc.runs {
      if !e.sample.Holds(Esc) {
        EscReleased(s, e, id, open, hint, home, clock);
      } else if !s.esc.home && e.now - s.esc.at >= ESC_HOME_MS {
        EscGoesHome(s, e, id, open, hint, home, clock);
        hide OnEscTimer;
      } else {
        TraceNext(s.log, Hint(s.esc.id, true), OfEsc, id);
      }
    }
  }

  lemma PressOpensEsc(s: Keys, e: Event)
    requires NotAbout(s, e, OfEsc)
    ensures Step(s, e).esc == s.esc || (OpensEsc(s, e, s.esc.id + 1) && !s.esc.on && e.pressed && e.key.Esc?
                                        && Step(s, e).esc == EscState(true, e.now, false, false, true, s.esc.id + 1))
  {}

  lemma EscNext(s: Keys, e: Event, id: nat, open: Event, hint: bool, home: bool, clock: int)
    requires EscInv(s, id, open, hint, home, clock) && clock <= e.now
    ensures EscInv(Step(s, e), id, if OpensEsc(s, e, id) then e else open,
                   hint || SeesHint(s, e, id, open), home || SeesHome(s, e, id, open), e.now)
  {
    hide Step, Trace;
    if e.EscTimer? {
      EscTimerKeeps(s, e, id, open, hint, home, clock);
    } else {
      OthersKeepTrace(s, e, OfEsc, id);
      PressOpensEsc(s, e);
    }
  }

  lemma {:induction false} EscAlways(events: seq<Event>, id: nat)
    requires Timely(events)
    ensures EscInv(Run(events), id, EscOpening(events, id), SawHint(events, id), SawHome(events, id), Clock(events, |events|))
  {
    if events != [] {
      var n := |events| - 1;
      assert forall i :: 0 <= i < n ==> Clock(events[..n], i) == Clock(events, i);
      EscAlways(events[..n], id);
      EscNext(Run(events[..n]), events[n], id, EscOpening(events[..n], id),
              SawHint(events[..n], id), SawHome(events[..n], id), Clock(events, n));
    }
  }

  // An ESC session ends as exactly one of back, home and cancel: home if a timer run
  // found it down at or after the home time, else cancel if one found it down in the
  // hint's time, else back. Hints are shown and hidden in pairs.
  lemma EscEndsOnce(events: seq<Event>, id: nat)
    requires Timely(events) && 1 <= id <= Run(events).esc.id
    ensures var s := Run(events);
            EscTraceIs(Trace(s.log, OfEsc, id), id, SawHint(events, id), SawHome(events, id), EscEnded(s, id))
  {
    EscAlways(events, id);
  }

  // ---- auto-repeat: as many as are due by the clock, however late the timer runs

  predicate OpensRep(s: Keys, e: Event, id: nat) { e.KeyEvent? && s.rep.id < id == Step(s, e).rep.id }

  function RepOpening(events: seq<Event>, id: nat): (open: Event)
    ensures open.KeyEvent?
  {
    if events == [] then KeyEvent(0, Other(0), false, false, false, false)
    else
      var n := |events| - 1;
      if OpensRep(Run(events[..n]), events[n], id) then events[n] else RepOpening(events[..n], id)
  }

  predicate ExactlyRepeated(tr: seq<Effect>, id: nat, key: Key, n: nat) { OnlyRepeats(tr, id, key) && |tr| == n }

  predicate RepInv(s: Keys, id: nat, open: Event, clock: int) {
    var tr := Trace(s.log, OfRepeat, id);
    && s.rep.on == s.rep.runs
    && (id > s.rep.id ==> tr == [])
    && (1 <= id <= s.rep.id ==> open.KeyEvent? && open.pressed && OnlyRepeats(tr, id, open.key))
    && (1 <= id == s.rep.id ==>
          open.key == s.rep.key && open.now == s.rep.at && |tr| == s.rep.count <= Due(clock - open.now))
  }

  // Later is never fewer.
  lemma DueGrows(a: int, b: int)
    requires a <= b
    ensures Due(a) <= Due(b)
  {}

  // What a timer run sends: nothing, or the repeats up to at most the number due.
  lemma RepeatRun(s: Keys, e: Event)
    requires e.RepeatTimer?
    ensures var t := Step(s, e);
            && t.rep.id == s.rep.id && t.rep.key == s.rep.key && t.rep.at == s.rep.at
            && (s.rep.on == s.rep.runs ==> t.rep.on == t.rep.runs)
            && (|| (t.rep.count == s.rep.count && t.log == s.log)
                || (s.rep.count < t.rep.count <= Due(e.now - s.rep.at)
                    && t.log == Repeated(s.log, s.rep.id, s.rep.key, t.rep.count - s.rep.count)))
  {}

  lemma RepeatTimerKeeps(s: Keys, e: Event, id: nat, open: Event, clock: int)
    requires e.RepeatTimer? && RepInv(s, id, open, clock) && clock <= e.now
    ensures RepInv(Step(s, e), id, open, e.now)
  {
    hide Step, Trace, Repeated, Due;
    var t := Step(s, e);
    RepeatRun(s, e);
    if t.rep.count > s.rep.count {
      RepeatedTrace(s.log, s.rep.id, s.rep.key, t.rep.count - s.rep.count, OfRepeat, id);
    }
    if 1 <= id == s.rep.id { DueGrows(clock - open.now, e.now - open.now); }
  }

  lemma PressOpensRep(s: Keys, e: Event)
    requires NotAbout(s, e, OfRepeat)
    ensures Step(s, e).rep == s.rep || (OpensRep(s, e, s.rep.id + 1) && e.pressed
                                        && Step(s, e).rep == RepState(true, e.key, e.now, 0, true, s.rep.id + 1))
  {}

  lemma RepNext(s: Keys, e: Event, id: nat, open: Event, clock: int)
    requires RepInv(s, id, open, clock) && clock <= e.now
    ensures RepInv(Step(s, e), id, if OpensRep(s, e, id) then e else open, e.now)
  {
    hide Step, Trace, Due;
    if e.RepeatTimer? {
      RepeatTimerKeeps(s, e, id, open, clock);
    } else {
      OthersKeepTrace(s, e, OfRepeat, id);
      PressOpensRep(s, e);
      if 1 <= id == s.rep.id { DueGrows(clock - open.now, e.now - open.now); }
    }
  }

  lemma {:induction false} RepAlways(events: seq<Event>, id: nat)
    requires Timely(events)
    ensures RepInv(Run(events), id, RepOpening(events, id), Clock(events, |events|))
  {
    if events != [] {
      var n := |events| - 1;
      assert forall i :: 0 <= i < n ==> Clock(events[..n], i) == Clock(events, i);
      RepAlways(events[..n], id);
      RepNext(Run(events[..n]), events[n], id, RepOpening(events[..n], id), Clock(events, n));
    }
  }

  // The run of the timer finds the key of session id still down and still repeating,
  // with no capture open.
  predicate StillRepeats(s: Keys, e: Event, id: nat) {
    && e.RepeatTimer? && s.rep.on && s.rep.id == id && e.sample.pressed && e.sample.key == s.rep.key && !s.capture
    && (s.rep.key.Left? || s.rep.key.Right? || (s.rep.key.Nav? && e.repeats))
  }

  // How often the key has been sent after such a run: as often as is due, or up to
  // the repeat that opened a capture.
  function SentBy(elapsed: int, was: nat, opensAt: nat): nat {
    var due := if elapsed < 400 then 0 else (elapsed - 400) / 100 + 1;
    if was < opensAt <= due then opensAt else due
  }

  lemma StillRepeatsCount(s: Keys, e: Event, id: nat)
    requires StillRepeats(s, e, id) && s.rep.runs && s.rep.count <= Due(e.now - s.rep.at)
    ensures Step(s, e).rep == s.rep.(count := SentBy(e.now - s.rep.at, s.rep.count, e.opensAt))
  {}

  lemma RepeatsExact(s: Keys, e: Event, id: nat, open: Event, clock: int)
    requires RepInv(s, id, open, clock) && clock <= e.now && id > 0 && StillRepeats(s, e, id)
    ensures var was, tr := Trace(s.log, OfRepeat, id), Trace(Step(s, e).log, OfRepeat, id);
            open.KeyEvent? && ExactlyRepeated(tr, id, open.key, SentBy(e.now - open.now, |was|, e.opensAt))
  {
    RepNext(s, e, id, open, clock);
    DueGrows(clock - open.now, e.now - open.now);
    StillRepeatsCount(s, e, id);
    hide Step, Trace, Repeated, Due, SentBy;
  }

  // After such a run the session has sent its key exactly as often as is due by the
  // clock: not once before the delay, (elapsed - 400) / 100 + 1 times from then on.
  // The one repeat that opens a capture stops it there.
  lemma RepeatsAreExact(events: seq<Event>, e: Event, id: nat)
    requires Timely(events) && Clock(events, |events|) <= e.now && id > 0 && StillRepeats(Run(events), e, id)
    ensures var s, open := Run(events), RepOpening(events, id);
            ExactlyRepeated(Trace(Step(s, e).log, OfRepeat, id), id, open.key,
                            SentBy(e.now - open.now, |Trace(s.log, OfRepeat, id)|, e.opensAt))
  {
    hide Run, RepOpening, Trace, Step, Due, StillRepeats, ExactlyRepeated, RepInv, SentBy;
    RepAlways(events, id);
    RepeatsExact(Run(events), e, id, RepOpening(events, id), Clock(events, |events|));
  }

  // ---- the callbacks

  // The router's variables, grouped by what they track. A device pointer is its being
  // set; the session numbers and the log are there to be reasoned about.
  class KeyRouter {
    var lastKey: Key
    var lastKeyPressed: bool
    var keyCapture: bool
    var hold: HoldState
    var esc: EscState
    var rep: RepState
    ghost var log: seq<Effect>

    ghost function State(): Keys
      reads this
    {
      Keys(lastKey, lastKeyPressed, keyCapture, hold, esc, rep, log)
    }

    constructor ()
      ensures State() == IDLE
    {
      lastKey, lastKeyPressed, keyCapture := IDLE.last, false, false;
      hold, esc, rep, log := IDLE.hold, IDLE.esc, IDLE.rep, [];
    }

    // A handler is called; it may open or close a capture.
    method Call(ghost effect: Effect, after: bool)
      modifies this`log, this`keyCapture
      ensures log == old(log) + [effect] && keyCapture == after
    {
      log := log + [effect];
      keyCapture := after;
    }

    method SettleHold(after: bool)
      modifies this`log, this`keyCapture, this`hold
      ensures State() == Settle(old(State()), after)
    {
      if !hold.sent { Call(Tap(hold.id, hold.key, keyCapture), after); }
      hold := hold.(on := false);
    }

    method Pressed(now: int, key: Key, hasHold: bool, repeats: bool, after: bool)
      modifies this
      ensures State() == OnPress(old(State()), KeyEvent(now, key, true, hasHold, repeats, after))
    {
      if key == Esc && !keyCapture && !esc.on {
        esc := EscState(true, now, false, false, true, esc.id + 1);
      } else if !keyCapture && HasHold(key, hasHold) {
        if hold.on && hold.key != key {
          SettleHold(after);
        }
        if !hold.on {
          hold := HoldState(true, key, now, false, true, hold.id + 1);
        }
      } else if key != Esc || keyCapture {
        Call(Dispatch(key, keyCapture), after);
        if !keyCapture && KeyRepeats(key, repeats) {
          rep := RepState(true, key, now, 0, true, rep.id + 1);
        }
      }
    }

    method KeyEventCb(now: int, key: Key, pressed: bool, hasHold: bool, repeats: bool, after: bool)
      modifies this
      ensures State() == Step(old(State()), KeyEvent(now, key, pressed, hasHold, repeats, after))
    {
      if pressed && (!lastKeyPressed || lastKey != key) {
        Pressed(now, key, hasHold, repeats, after);
      }
      lastKey := key;
      lastKeyPressed := pressed;
    }

    method HoldTimerCb(now: int, sample: Sample, after: bool)
      requires hold.runs && hold.on
      modifies this`log, this`keyCapture, this`hold
      ensures State() == Step(old(State()), HoldTimer(now, sample, after))
    {
      var held := hold.on && sample.pressed && sample.key == hold.key;
      if !held {
        hold := hold.(runs := false);
        SettleHold(after);
        return;
      }
      if !hold.sent && now - hold.at >= NAV_HOLD_MS {
        hold := hold.(sent := true);
        Call(HoldAction(hold.id, hold.key), after);
      }
    }

    method EscTimerCb(now: int, sample: Sample, hasHome: bool, after: bool)
      requires esc.runs && esc.on
      modifies this`log, this`keyCapture, this`esc
      ensures State() == Step(old(State()), EscTimer(now, sample, hasHome, after))
    {
      var held := esc.on && sample.pressed && sample.key == Esc;
      var elapsed := now - esc.at;
      if !held {
        esc := esc.(runs := false);
        var shortPress := !esc.hint && !esc.home;
        if esc.hint { Call(Hint(esc.id, false), after); }
        esc := esc.(hint := false);
        if shortPress { Call(Back(esc.id), after); }
        esc := esc.(on := false);
        return;
      }
      if esc.home { return; }
      if elapsed >= ESC_HOME_MS {
        esc := esc.(home := true);
        if esc.hint { Call(Hint(esc.id, false), after); }
        esc := esc.(hint := false);
        Call(Home(esc.id, !hasHome), after);
      } else if elapsed >= ESC_HINT_MS && !esc.hint {
        esc := esc.(hint := true);
        Call(Hint(esc.id, true), after);
      }
    }

    method RepeatTimerCb(now: int, sample: Sample, repeats: bool, opensAt: nat)
      requires rep.runs && rep.on
      modifies this`log, this`keyCapture, this`rep
      ensures State() == Step(old(State()), RepeatTimer(now, sample, repeats, opensAt))
    {
      var held := rep.on && !keyCapture && sample.pressed && sample.key == rep.key && KeyRepeats(rep.key, repeats);
      if !held {
        rep := rep.(runs := false, on := false);
        return;
      }
      var elapsed := now - rep.at;
      if elapsed < REPEAT_DELAY_MS { return; }
      var due := (elapsed - REPEAT_DELAY_MS) / REPEAT_PERIOD_MS + 1;
      ghost var was := rep;
      while rep.count < due
        invariant was.count <= rep.count && rep == was.(count := rep.count) && !keyCapture
        invariant rep.count > was.count ==> rep.count <= due && !(was.count < opensAt <= rep.count)
        invariant log == Repeated(old(log), was.id, was.key, rep.count - was.count)
      {
        rep := rep.(count := rep.count + 1);
        Call(Repeat(rep.id, rep.key), rep.count == opensAt);
        if keyCapture { break; }
      }
    }
  }
}
