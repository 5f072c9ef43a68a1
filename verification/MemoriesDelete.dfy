// The two-press delete of the Memories list over a whole run of actions
// (apps/memories/src/viewmodel/memories_viewmodel.cpp).
module MemoriesDelete {
  import opened MemoriesStore
  import opened Options

  const CONFIRM_MS: int := 4000

  // What the user and the clock do: press delete on the selected memory, if any, at
  // a time; anything that disarms; a tick of the view; anything else.
  datatype Act = Press(sel: Option<Id>, now: int) | Disarm | Tick(now: int) | Neutral

  // The armed delete. The identity and the time stay when it is disarmed.
  datatype Arm = Arm(armed: bool, hz: int, name: string, at: int)

  const UNARMED := Arm(false, 0, [], 0)

  predicate Confirmed(d: Arm, id: Id, now: int) {
    d.armed && (d.hz, d.name) == id && now - d.at <= CONFIRM_MS
  }

  predicate OnMemory(a: Act) { a.Press? && a.sel.Some? }

  // This press removes the selected memory; this press only arms.
  predicate Removes(d: Arm, a: Act) { OnMemory(a) && Confirmed(d, a.sel.value, a.now) }

  predicate Arms(d: Arm, a: Act) { OnMemory(a) && !Confirmed(d, a.sel.value, a.now) }

  function After(d: Arm, a: Act): Arm {
    if Removes(d, a) then d.(armed := false)
    else if Arms(d, a) then Arm(true, a.sel.value.0, a.sel.value.1, a.now)
    else if a.Disarm? || (a.Tick? && d.armed && a.now - d.at > CONFIRM_MS) then d.(armed := false)
    else d
  }

  function Run(acts: seq<Act>): Arm {
    if acts == [] then UNARMED else After(Run(acts[..|acts| - 1]), acts[|acts| - 1])
  }

  lemma RunNext(acts: seq<Act>, a: Act)
    ensures Run(acts + [a]) == After(Run(acts), a)
  {
    assert (acts + [a])[..|acts|] == acts;
  }

  // Action a does not touch an arming made at time t.
  predicate Leaves(a: Act, t: int) {
    !OnMemory(a) && !a.Disarm? && (a.Tick? ==> a.now - t <= 4000)
  }

  // The arming press of action i still stands just before action j.
  predicate Stands(acts: seq<Act>, i: nat, j: nat)
    requires i < j <= |acts|
  {
    Arms(Run(acts[..i]), acts[i]) && forall k :: i < k < j ==> Leaves(acts[k], acts[i].now)
  }

  // And action j is on the same memory, in time.
  predicate Confirms(acts: seq<Act>, i: nat, j: nat)
    requires i < j < |acts|
  {
    Stands(acts, i, j) && OnMemory(acts[j]) && acts[i].sel == acts[j].sel && acts[j].now - acts[i].now <= 4000
  }

  lemma {:induction false} StandingArm(acts: seq<Act>, i: nat, j: nat)
    requires i < j <= |acts| && Stands(acts, i, j)
    ensures var p := acts[i]; Run(acts[..j]) == Arm(true, p.sel.value.0, p.sel.value.1, p.now)
    decreases j - i
  {
    assert acts[..j][..j - 1] == acts[..j - 1];
    if j > i + 1 {
      assert Leaves(acts[j - 1], acts[i].now);
      StandingArm(acts, i, j - 1);
    }
  }

  // An armed delete comes from an arming press that still stands.
  lemma {:induction false} ArmedBy(acts: seq<Act>, j: nat) returns (i: nat)
    requires j <= |acts| && Run(acts[..j]).armed
    ensures i < j && Stands(acts, i, j)
  {
    var d, a := Run(acts[..j - 1]), acts[j - 1];
    assert acts[..j][..j - 1] == acts[..j - 1];
    if Arms(d, a) {
      i := j - 1;
    } else {
      i := ArmedBy(acts, j - 1);
      StandingArm(acts, i, j - 1);
    }
  }

  // Delete safety, exactly: action j removes a memory if and only if it is a press
  // on it within the confirmation time of an arming press on the same identity, with
  // no disarming action, expiry or other press in between.
  lemma {:induction false} RemovalIff(acts: seq<Act>, j: nat)
    requires j < |acts|
    ensures Removes(Run(acts[..j]), acts[j]) <==>
            OnMemory(acts[j]) && exists i :: 0 <= i < j && Confirms(acts, i, j)
  {
    if Removes(Run(acts[..j]), acts[j]) {
      var i := ArmedBy(acts, j);
      StandingArm(acts, i, j);
      assert Confirms(acts, i, j);
    }
    if OnMemory(acts[j]) {
      forall i | 0 <= i < j && Confirms(acts, i, j)
        ensures Removes(Run(acts[..j]), acts[j])
      {
        StandingArm(acts, i, j);
      }
    }
  }

  // One arming press allows at most one removal.
  lemma {:induction false} OneRemovalPerArming(acts: seq<Act>, i: nat, j: nat, k: nat)
    requires i < j < k < |acts| && Stands(acts, i, j) && Removes(Run(acts[..j]), acts[j])
    ensures !Stands(acts, i, k)
  {
    assert !Leaves(acts[j], acts[i].now);
  }

  function Removals(acts: seq<Act>): nat {
    if acts == [] then 0
    else
      var n := |acts| - 1;
      Removals(acts[..n]) + (if Removes(Run(acts[..n]), acts[n]) then 1 else 0)
  }

  function Armings(acts: seq<Act>): nat {
    if acts == [] then 0
    else
      var n := |acts| - 1;
      Armings(acts[..n]) + (if Arms(Run(acts[..n]), acts[n]) then 1 else 0)
  }

  // Over a whole run there are never more removals than arming presses, and at least
  // one fewer while a delete is armed.
  lemma {:induction false} RemovalsNeedArmings(acts: seq<Act>)
    ensures Removals(acts) + (if Run(acts).armed then 1 else 0) <= Armings(acts)
  {
    if acts != [] {
      RemovalsNeedArmings(acts[..|acts| - 1]);
    }
  }

  // ---- what the user does

  // A NavBar key of a page (0 MEM, 1 SCAN, 2 EDIT) with what is selected and the time,
  // a page switch, UP or DOWN, TAB, ENTER, a tick of the view, the dialogs asked for
  // and answered. The edit and search requests are also those two keys' own.
  datatype UserEvent =
    | NavKey(page: int, slot: int, sel: Option<Id>, now: int)
    | PageSwitch | UpDown | Tab | Enter | TickAt(now: int)
    | EditRequest | SearchRequest | EditApplied | QueryApplied

  // The actions of an event, in the order the code performs them.
  function ActsOf(e: UserEvent): seq<Act> {
    match e
    case NavKey(page, slot, sel, now) =>
      if page == 2 then
        if slot == 1 || slot == 2 then [Disarm] else if slot == 3 then [Press(sel, now)] else []
      else if page == 0 && (slot == 1 || slot == 2 || slot == 4) then [Disarm, Disarm]
      else [Disarm]
    case PageSwitch => [Disarm]
    case UpDown => [Disarm]
    case Tab => [Disarm]
    case EditRequest => [Disarm]
    case SearchRequest => [Disarm]
    case TickAt(now) => [Tick(now)]
    case _ => []
  }

  // A NavBar key off the EDIT page disarms before its own action.
  lemma NavKeyActs(acts: seq<Act>, page: int, slot: int, sel: Option<Id>, now: int)
    ensures page != 2 ==>
              acts + ActsOf(NavKey(page, slot, sel, now)) ==
              acts + [Disarm] + (if page == 0 && (slot == 1 || slot == 2 || slot == 4) then [Disarm] else [])
    ensures page == 2 ==>
              acts + ActsOf(NavKey(page, slot, sel, now)) ==
              if slot == 1 || slot == 2 then acts + [Disarm] else if slot == 3 then acts + [Press(sel, now)] else acts
  {
    assert page != 2 ==> acts + [Disarm, Disarm] == acts + [Disarm] + [Disarm];
    assert acts + [] == acts;
  }

  function ActsOfAll(events: seq<UserEvent>): seq<Act> {
    if events == [] then [] else ActsOfAll(events[..|events| - 1]) + ActsOf(events[|events| - 1])
  }

  // The armed delete after a run of user events.
  function UserRun(events: seq<UserEvent>): Arm { Run(ActsOfAll(events)) }

  predicate DeleteKey(e: UserEvent) { e.NavKey? && e.page == 2 && e.slot == 3 && e.sel.Some? }

  predicate UserRemoves(d: Arm, e: UserEvent) { DeleteKey(e) && Confirmed(d, e.sel.value, e.now) }

  predicate UserArms(d: Arm, e: UserEvent) { DeleteKey(e) && !Confirmed(d, e.sel.value, e.now) }

  // The user leaves an arming of time t alone: no NavBar key but the unused ones of
  // the EDIT page, or delete with nothing selected; no page switch, move, TAB, edit or
  // search request; no tick past the confirmation time.
  predicate LeavesArmed(e: UserEvent, t: int) {
    match e
    case NavKey(page, slot, sel, _) => page == 2 && slot != 1 && slot != 2 && (slot == 3 ==> sel.None?)
    case TickAt(now) => now - t <= 4000
    case _ => e.Enter? || e.EditApplied? || e.QueryApplied?
  }

  // What an event does to the armed delete.
  function UserAfter(d: Arm, e: UserEvent): Arm {
    if UserRemoves(d, e) then d.(armed := false)
    else if UserArms(d, e) then Arm(true, e.sel.value.0, e.sel.value.1, e.now)
    else if LeavesArmed(e, d.at) then d
    else d.(armed := false)
  }

  lemma ActsDo(acts: seq<Act>, e: UserEvent)
    ensures Run(acts + ActsOf(e)) == UserAfter(Run(acts), e)
  {
    hide Run;
    var more := ActsOf(e);
    if more == [] {
      assert acts + more == acts;
    } else if more == [Disarm, Disarm] {
      RunNext(acts, Disarm);
      RunNext(acts + [Disarm], Disarm);
      assert acts + more == acts + [Disarm] + [Disarm];
    } else {
      RunNext(acts, more[0]);
      assert more == [more[0]];
    }
  }

  lemma UserRunNext(events: seq<UserEvent>, e: UserEvent)
    ensures UserRun(events + [e]) == UserAfter(UserRun(events), e)
  {
    hide Run, UserAfter, ActsOf;
    assert (events + [e])[..|events|] == events;
    ActsDo(ActsOfAll(events), e);
  }

  lemma UserRunStarts(events: seq<UserEvent>)
    ensures UserRun(events[..0]) == UNARMED
  {}

  // The arming press of event i still stands just before event j.
  predicate UserStands(events: seq<UserEvent>, i: nat, j: nat)
    requires i < j <= |events|
  {
    UserArms(UserRun(events[..i]), events[i]) && forall k :: i < k < j ==> LeavesArmed(events[k], events[i].now)
  }

  predicate UserConfirms(events: seq<UserEvent>, i: nat, j: nat)
    requires i < j < |events|
  {
    && UserStands(events, i, j) && DeleteKey(events[j])
    && events[i].sel == events[j].sel && events[j].now - events[i].now <= 4000
  }

  lemma {:induction false} UserStandingArm(events: seq<UserEvent>, i: nat, j: nat)
    requires i < j <= |events| && UserStands(events, i, j)
    ensures var p := events[i]; UserRun(events[..j]) == Arm(true, p.sel.value.0, p.sel.value.1, p.now)
    decreases j - i
  {
    hide UserRun;
    UserRunNext(events[..j - 1], events[j - 1]);
    assert events[..j] == events[..j - 1] + [events[j - 1]];
    if j > i + 1 {
      assert LeavesArmed(events[j - 1], events[i].now);
      UserStandingArm(events, i, j - 1);
    }
  }

  lemma {:induction false} UserArmedBy(events: seq<UserEvent>, j: nat) returns (i: nat)
    requires j <= |events| && UserRun(events[..j]).armed
    ensures i < j && UserStands(events, i, j)
  {
    hide UserRun;
    UserRunStarts(events);
    var e, d := events[j - 1], UserRun(events[..j - 1]);
    UserRunNext(events[..j - 1], e);
    assert events[..j] == events[..j - 1] + [e];
    if UserArms(d, e) {
      i := j - 1;
    } else {
      i := UserArmedBy(events, j - 1);
      UserStandingArm(events, i, j - 1);
    }
  }

  // Delete safety in the user's terms, exactly: event j removes a memory if and only if
  // it is the delete key on it within the confirmation time of an arming delete key on
  // the same identity, and in between the user left the arming alone.
  lemma UserRemovalIff(events: seq<UserEvent>, j: nat)
    requires j < |events|
    ensures UserRemoves(UserRun(events[..j]), events[j]) <==>
            DeleteKey(events[j]) && exists i :: 0 <= i < j && UserConfirms(events, i, j)
  {
    hide UserRun;
    if UserRemoves(UserRun(events[..j]), events[j]) {
      var i := UserArmedBy(events, j);
      UserStandingArm(events, i, j);
      assert UserConfirms(events, i, j);
    }
    if DeleteKey(events[j]) {
      forall i | 0 <= i < j && UserConfirms(events, i, j)
        ensures UserRemoves(UserRun(events[..j]), events[j])
      {
        UserStandingArm(events, i, j);
      }
    }
  }
}
