// When updates of the shared memories file go through
// (toolkit/src/app/memories_store.cpp): no step leaves an update stuck, a failed one
// had a system call that failed, and one left alone is saved.
module MemoriesProgress {
  import opened MemoriesStore
  import opened MemoriesSteps
  import opened Options

  // ---- failures have a cause

  predicate Fails(s: Step, p: Pid) {
    match s
    case OpenTemp(q, ok) => q == p && !ok
    case Write(q, n) => q == p && n == 0
    case Fsync(q, ok) => q == p && !ok
    case CloseTemp(q, ok) => q == p && !ok
    case Rename(q, ok) => q == p && !ok
    case _ => false
  }

  // The update is lost: it has to say so in the end.
  predicate Lost(pc: PC) {
    match pc
    case Writing(_, _, _, _, ok) => !ok
    case Synced(_, _, _, ok) => !ok
    case Closed(_, _, _, ok) => !ok
    case Cleaning(_, _) => true
    case Done(_, _, answer, _) => answer.WriteFailed?
    case _ => false
  }

  lemma LostNext(c: Codec, w: World, s: Step, p: Pid)
    requires Enabled(w, s)
    ensures Lost(At(Next(c, w, s), p)) ==> Fails(s, p) || Lost(At(w, p))
  {}

  // An update whose answer is that it could not be written had a call that failed.
  lemma {:induction false} FailureHasCause(c: Codec, start: seq<Memory>, run: seq<World>, steps: seq<Step>, i: nat, p: Pid)
    returns (j: nat)
    requires IsRun(c, start, run, steps) && i < |run| && Lost(At(run[i], p))
    ensures j < i && Fails(steps[j], p)
  {
    LostNext(c, run[i - 1], steps[i - 1], p);
    if Fails(steps[i - 1], p) {
      j := i - 1;
    } else {
      j := FailureHasCause(c, start, run, steps, i - 1, p);
    }
  }

  // ---- no update is stuck

  // How far an update is from its end: its place, and the bytes still to write.
  function Stage(pc: PC): nat {
    match pc
    case Waiting(_, _) => 9
    case Locked(_, _) => 8
    case Loaded(_, _, _) => 7
    case Opening(_, _, _) => 6
    case Writing(_, _, _, _, _) => 5
    case Synced(_, _, _, _) => 4
    case Closed(_, _, _, _) => 3
    case Cleaning(_, _) => 2
    case Done(_, _, _, _) => 1
    case Idle => 0
  }

  function BytesLeft(pc: PC): int {
    if pc.Writing? then |pc.text| - pc.done + (if pc.ok then 1 else 0) else 0
  }

  predicate Closer(a: PC, b: PC) { Stage(a) < Stage(b) || (Stage(a) == Stage(b) && 0 <= BytesLeft(a) < BytesLeft(b)) }

  // A step of an update of its own.
  predicate Own(s: Step) { !s.Call? && !s.Kill? && !s.PowerCut? }

  lemma EveryStepIsCloser(c: Codec, w: World, s: Step)
    requires Enabled(w, s) && Own(s)
    ensures Closer(At(Next(c, w, s), s.p), At(w, s.p))
  {}

  // While an update is under way, some update can take its next step, and every such
  // step brings it closer to its end.
  lemma {:induction false} SomeoneCanMove(c: Codec, start: seq<Memory>, run: seq<World>, steps: seq<Step>, i: nat, p: Pid)
    returns (s: Step)
    requires c.Faithful() && IsRun(c, start, run, steps) && i < |run| && !At(run[i], p).Idle?
    ensures Own(s) && Enabled(run[i], s) && Closer(At(Next(c, run[i], s), s.p), At(run[i], s.p))
  {
    RunInv(c, start, run, steps, i);
    var w := run[i];
    assert VersionOk(c, start, w, 0) && ProcessOk(c, start, w, p);
    if At(w, p).Waiting? && w.lock.Some? {
      assert ProcessOk(c, start, w, w.lock.value);
      s := NextStep(c, start, w, w.lock.value);
    } else {
      s := NextStep(c, start, w, p);
    }
    EveryStepIsCloser(c, w, s);
  }

  lemma NextStep(c: Codec, start: seq<Memory>, w: World, p: Pid) returns (s: Step)
    requires HasMain(w) && ProcessOk(c, start, w, p) && !At(w, p).Idle? && (At(w, p).Waiting? ==> w.lock.None?)
    ensures Own(s) && Enabled(w, s)
  {
    match At(w, p)
    case Waiting(_, _) => s := Acquire(p);
    case Locked(_, _) => s := Load(p);
    case Loaded(_, _, _) => s := Decide(p);
    case Opening(_, _, _) => s := OpenTemp(p, true);
    case Writing(_, _, text, done, ok) => s := if ok && done < |text| then Write(p, |text| - done) else Fsync(p, true);
    case Synced(_, _, _, _) => s := CloseTemp(p, true);
    case Closed(_, _, _, _) => s := Rename(p, true);
    case Cleaning(_, _) => s := RemoveTemp(p);
    case Done(_, _, _, _) => s := Release(p);
  }

  // ---- an update left alone is saved

  // The world after these steps, if each can be taken.
  function After(c: Codec, w: World, steps: seq<Step>): Option<World> {
    if steps == [] then Some(w)
    else
      var n := |steps| - 1;
      var before := After(c, w, steps[..n]);
      if before.Some? && Enabled(before.value, steps[n]) then Some(Next(c, before.value, steps[n])) else None
  }

  lemma AfterNext(c: Codec, w: World, steps: seq<Step>, s: Step)
    ensures After(c, w, steps + [s]) ==
            var before := After(c, w, steps);
            if before.Some? && Enabled(before.value, s) then Some(Next(c, before.value, s)) else None
  {
    assert (steps + [s])[..|steps|] == steps;
  }

  // The steps of one update of process p, all going well.
  function Deciding(p: Pid, op: Op): seq<Step> { [Call(p, op)] + [Acquire(p)] + [Load(p)] + [Decide(p)] }

  function Undisturbed(p: Pid, op: Op, text: string): seq<Step> {
    Deciding(p, op) + [OpenTemp(p, true)] + [Write(p, |text|)] + [Fsync(p, true)] + [CloseTemp(p, true)]
    + [Rename(p, true)] + [Release(p)]
  }

  // Process p holds the lock at this place of its update, with this temporary file,
  // and nothing else has changed.
  ghost predicate Reached(w: World, w': Option<World>, p: Pid, pc: PC, temp: Option<File>) {
    && w'.Some? && At(w'.value, p) == pc && w'.value.lock == Some(p)
    && w'.value.log == w.log && w'.value.versions == w.versions
    && (temp.Some? ==> p in w'.value.temps && w'.value.temps[p] == temp.value)
  }

  lemma NotInvalid(op: Op, all: seq<Memory>)
    requires Apply(op, all).Change?
    ensures op.Add? ==> Valid(op.m)
  {}

  lemma AfterNone(c: Codec, w: World)
    ensures After(c, w, []) == Some(w)
  {}

  lemma Decides(c: Codec, w: World, p: Pid, op: Op)
    requires HasMain(w) && At(w, p).Idle? && w.lock.None? && Apply(op, Read(c, Main(w))).Change?
    ensures Reached(w, After(c, w, Deciding(p, op)), p, Opening(w.calls, op, c.Text(Apply(op, Read(c, Main(w))).all)), None)
  {
    hide Apply, Read, After;
    NotInvalid(op, Read(c, Main(w)));
    assert After(c, w, []) == Some(w) by { AfterNone(c, w); }
    var one, two, three := [] + [Call(p, op)], [Call(p, op)] + [Acquire(p)], [Call(p, op)] + [Acquire(p)] + [Load(p)];
    AfterNext(c, w, [], Call(p, op));
    assert one == [Call(p, op)];
    AfterNext(c, w, one, Acquire(p));
    AfterNext(c, w, two, Load(p));
    AfterNext(c, w, three, Decide(p));
    assert Reached(w, After(c, w, three), p, Loaded(w.calls, op, Read(c, Main(w))), None);
  }

  lemma Writes(c: Codec, w: World, steps: seq<Step>, p: Pid, id: nat, op: Op, text: string, w0: World)
    requires After(c, w0, steps) == Some(w) && HasMain(w) && At(w, p) == Opening(id, op, text) && w.lock == Some(p) && text != []
    ensures Reached(w, After(c, w0, steps + [OpenTemp(p, true)] + [Write(p, |text|)]),
                    p, Writing(id, op, text, |text|, true), Some(File(text, false)))
  {
    hide After;
    AfterNext(c, w0, steps, OpenTemp(p, true));
    AfterNext(c, w0, steps + [OpenTemp(p, true)], Write(p, |text|));
    assert Reached(w, After(c, w0, steps + [OpenTemp(p, true)]), p, Writing(id, op, text, 0, true), None);
    assert text[..|text|] == text;
  }

  lemma Flushes(c: Codec, w: World, steps: seq<Step>, p: Pid, id: nat, op: Op, text: string, w0: World)
    requires After(c, w0, steps) == Some(w) && HasMain(w) && At(w, p) == Writing(id, op, text, |text|, true) && w.lock == Some(p)
    requires p in w.temps && w.temps[p] == File(text, false)
    ensures Reached(w, After(c, w0, steps + [Fsync(p, true)] + [CloseTemp(p, true)]),
                    p, Closed(id, op, text, true), Some(File(text, true)))
  {
    hide After;
    AfterNext(c, w0, steps, Fsync(p, true));
    AfterNext(c, w0, steps + [Fsync(p, true)], CloseTemp(p, true));
    assert Reached(w, After(c, w0, steps + [Fsync(p, true)]), p, Synced(id, op, text, true), Some(File(text, true)));
  }

  lemma Commits(c: Codec, w: World, steps: seq<Step>, p: Pid, id: nat, op: Op, text: string, w0: World)
    requires After(c, w0, steps) == Some(w) && HasMain(w) && At(w, p) == Closed(id, op, text, true) && w.lock == Some(p)
    requires p in w.temps && w.temps[p] == File(text, true)
    ensures var r := After(c, w0, steps + [Rename(p, true)] + [Release(p)]);
            && r.Some? && At(r.value, p).Idle? && r.value.lock.None? && r.value.log == w.log + [Entry(id, op)]
            && r.value.versions == w.versions + [Some(File(text, true))]
  {
    hide After;
    AfterNext(c, w0, steps, Rename(p, true));
    AfterNext(c, w0, steps + [Rename(p, true)], Release(p));
  }

  // From any state of the disk, an update that its list accepts, whose calls go well
  // and which nobody disturbs, is saved: the log has it, and the file is its result.
  lemma {:induction false} UndisturbedIsSaved(c: Codec, w: World, p: Pid, op: Op)
    requires c.Faithful() && HasMain(w) && At(w, p).Idle? && w.lock.None? && Apply(op, Read(c, Main(w))).Change?
    ensures var all := Apply(op, Read(c, Main(w))).all;
            var r := After(c, w, Undisturbed(p, op, c.Text(all)));
            && r.Some? && At(r.value, p).Idle? && r.value.lock.None?
            && r.value.log == w.log + [Entry(w.calls, op)]
            && r.value.versions == w.versions + [Some(File(c.Text(all), true))]
            && Read(c, Main(r.value)) == CleanAll(all)
  {
    hide After, Apply, Read, Deciding;
    var all := Apply(op, Read(c, Main(w))).all;
    var text := c.Text(all);
    var steps := Deciding(p, op);
    Decides(c, w, p, op);
    Writes(c, After(c, w, steps).value, steps, p, w.calls, op, text, w);
    var written := steps + [OpenTemp(p, true)] + [Write(p, |text|)];
    Flushes(c, After(c, w, written).value, written, p, w.calls, op, text, w);
    var more := written + [Fsync(p, true)] + [CloseTemp(p, true)];
    Commits(c, After(c, w, more).value, more, p, w.calls, op, text, w);
    ReadValid(c, Main(w));
    ApplyKeeps(op, Read(c, Main(w)));
    TextBack(c, all, File(text, true));
  }
}
