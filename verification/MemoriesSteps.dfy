// Several processes updating the shared memories file at once
// (toolkit/src/app/memories_store.cpp), as a step system: every system call of an
// update is one step, any process may be killed between two steps, and the power
// may fail at any point. The lock file is assumed to open.
module MemoriesSteps {
  import opened Ints
  import opened MemoriesStore
  import opened Options

  type Pid = nat

  // How a document becomes text and back. Parsing may fail.
  datatype Codec = Codec(dump: Json -> string, parse: string -> Option<Json>) {
    ghost predicate Faithful() {
      forall all: seq<Memory> :: parse(Text(all)) == Some(Document(all))
    }

    function Text(all: seq<Memory>): string { dump(Document(all)) + "\n" }
  }

  // A file on disk: what it holds, and whether it was flushed to storage.
  datatype File = File(text: string, durable: bool)

  // Where a process stands in one update. id tells its calls apart.
  datatype PC =
    | Idle
    | Waiting(id: nat, op: Op)                        // before the lock
    | Locked(id: nat, op: Op)                         // lock held, file not read yet
    | Loaded(id: nat, op: Op, all: seq<Memory>)       // list in memory
    | Opening(id: nat, op: Op, text: string)          // about to open the temporary file
    | Writing(id: nat, op: Op, text: string, done: nat, ok: bool)
    | Synced(id: nat, op: Op, text: string, ok: bool)
    | Closed(id: nat, op: Op, text: string, ok: bool)
    | Cleaning(id: nat, op: Op)                       // about to remove the temporary file
    | Done(id: nat, op: Op, answer: Answer, at: nat)  // about to release the lock
  {
    predicate Holding() { !Idle? && !Waiting? }
  }

  datatype Answer = Saved | Refused(why: Refusal) | WriteFailed

  datatype Entry = Entry(id: nat, op: Op)

  // versions are the contents the main file has had, the current one last; log the
  // updates committed since the first, in commit order; calls the number of calls.
  datatype World = World(versions: seq<Option<File>>, temps: map<Pid, File>, lock: Option<Pid>,
                         pcs: map<Pid, PC>, log: seq<Entry>, calls: nat)

  function At(w: World, p: Pid): PC { if p in w.pcs then w.pcs[p] else Idle }

  // ---- reading

  function Read(c: Codec, f: Option<File>): seq<Memory> {
    if f.None? then []
    else
      var doc := c.parse(f.value.text);
      if doc.Some? then MemoriesIn(doc.value) else []
  }

  predicate HasMain(w: World) { w.versions != [] }

  function Main(w: World): Option<File>
    requires HasMain(w)
  {
    w.versions[|w.versions| - 1]
  }

  // The sequential meaning: one update after the other, each saved and loaded.
  function Replay(start: seq<Memory>, log: seq<Entry>): seq<Memory> {
    if log == [] then start
    else
      var all := Replay(start, log[..|log| - 1]);
      var r := Apply(log[|log| - 1].op, all);
      if r.Change? then CleanAll(r.all) else all
  }

  // ---- the steps

  datatype Step =
    | Call(p: Pid, op: Op)
    | Acquire(p: Pid)
    | Load(p: Pid)
    | Decide(p: Pid)
    | OpenTemp(p: Pid, ok: bool)
    | Write(p: Pid, n: nat)          // n == 0 is an error
    | Fsync(p: Pid, ok: bool)
    | CloseTemp(p: Pid, ok: bool)
    | Rename(p: Pid, ok: bool)
    | RemoveTemp(p: Pid)
    | Release(p: Pid)
    | Kill(p: Pid)
    | PowerCut(keep: nat, junk: string)

  function Goto(w: World, p: Pid, pc: PC): World { w.(pcs := w.pcs[p := pc]) }

  predicate Enabled(w: World, s: Step) {
    HasMain(w) &&
    match s
    case Call(p, op) => At(w, p).Idle?
    case Acquire(p) => At(w, p).Waiting? && w.lock.None?
    case Load(p) => At(w, p).Locked?
    case Decide(p) => At(w, p).Loaded?
    case OpenTemp(p, ok) => At(w, p).Opening?
    case Write(p, n) => var pc := At(w, p); pc.Writing? && pc.ok && pc.done < |pc.text| && n <= |pc.text| - pc.done
    case Fsync(p, ok) => var pc := At(w, p); pc.Writing? && (!pc.ok || pc.done >= |pc.text|)
    case CloseTemp(p, ok) => At(w, p).Synced?
    case Rename(p, ok) => At(w, p).Closed? && (At(w, p).ok ==> p in w.temps)
    case RemoveTemp(p) => At(w, p).Cleaning?
    case Release(p) => At(w, p).Done?
    case Kill(p) => true
    case PowerCut(keep, junk) => keep < |w.versions|
  }

  // What a file holds after a power cut: anything, unless it was flushed.
  function Survives(f: Option<File>, junk: string): Option<File> {
    if f.Some? && !f.value.durable then Some(File(junk, true)) else f
  }

  // Put a list of memories in the temporary file's place, or give the answer at once.
  function Decided(c: Codec, id: nat, op: Op, all: seq<Memory>, at: nat): PC {
    var r := Apply(op, all);
    if r.Change? then Opening(id, op, c.Text(r.all)) else Done(id, op, Refused(r.why), at)
  }

  function Next(c: Codec, w: World, s: Step): World
    requires Enabled(w, s)
  {
    match s
    case Call(p, op) =>
      // An entry the loader would skip is refused before the lock.
      Goto(w, p, if op.Add? && !Valid(op.m) then Idle else Waiting(w.calls, op)).(calls := w.calls + 1)
    case Acquire(p) => Goto(w, p, Locked(At(w, p).id, At(w, p).op)).(lock := Some(p))
    case Load(p) => Goto(w, p, Loaded(At(w, p).id, At(w, p).op, Read(c, Main(w))))
    case Decide(p) => Goto(w, p, Decided(c, At(w, p).id, At(w, p).op, At(w, p).all, |w.log|))
    case OpenTemp(p, ok) =>
      var pc := At(w, p);
      if ok then Goto(w, p, Writing(pc.id, pc.op, pc.text, 0, true)).(temps := w.temps[p := File([], false)])
      else Goto(w, p, Done(pc.id, pc.op, WriteFailed, |w.log|))
    case Write(p, n) =>
      var pc := At(w, p);
      if n > 0 then
        Goto(w, p, Writing(pc.id, pc.op, pc.text, pc.done + n, true))
          .(temps := w.temps[p := File(pc.text[..pc.done + n], false)])
      else Goto(w, p, Writing(pc.id, pc.op, pc.text, pc.done, false))
    case Fsync(p, ok) =>
      var pc := At(w, p);
      var w' := Goto(w, p, Synced(pc.id, pc.op, pc.text, ok && pc.ok));
      if ok && p in w.temps then w'.(temps := w.temps[p := w.temps[p].(durable := true)]) else w'
    case CloseTemp(p, ok) => var pc := At(w, p); Goto(w, p, Closed(pc.id, pc.op, pc.text, ok && pc.ok))
    case Rename(p, ok) =>
      var pc := At(w, p);
      if pc.ok && ok then
        Goto(w, p, Done(pc.id, pc.op, Saved, |w.log|))
          .(versions := w.versions + [Some(w.temps[p])], temps := w.temps - {p}, log := w.log + [Entry(pc.id, pc.op)])
      else Goto(w, p, Cleaning(pc.id, pc.op))
    case RemoveTemp(p) =>
      Goto(w, p, Done(At(w, p).id, At(w, p).op, WriteFailed, |w.log|)).(temps := w.temps - {p})
    case Release(p) => Goto(w, p, Idle).(lock := None)
    case Kill(p) => Goto(w, p, Idle).(lock := if w.lock == Some(p) then None else w.lock)
    case PowerCut(keep, junk) =>
      // The rename of a version may not have reached the disk; flushed files have.
      w.(versions := w.versions[..keep] + [Survives(w.versions[keep], junk)],
         temps := map p | p in w.temps :: Survives(Some(w.temps[p]), junk).value,
         lock := None, pcs := map[], log := w.log[..Min(keep, |w.log|)])
  }

  // ---- the invariant

  // Version k holds what the first k committed updates make of the start.
  ghost predicate VersionOk(c: Codec, start: seq<Memory>, w: World, k: nat)
    requires k < |w.versions| == |w.log| + 1
  {
    && Read(c, w.versions[k]) == Replay(start, w.log[..k])
    && (w.versions[k].Some? ==> w.versions[k].value.durable)
  }

  // What the process that holds the lock has done so far.
  ghost predicate WorkOk(c: Codec, start: seq<Memory>, w: World, p: Pid) {
    var now := Replay(start, w.log);
    match At(w, p)
    case Loaded(id, op, all) => all == now
    case Opening(id, op, text) => Apply(op, now).Change? && text == c.Text(Apply(op, now).all)
    case Writing(id, op, text, done, ok) =>
      && Apply(op, now).Change? && text == c.Text(Apply(op, now).all) && done <= |text|
      && (ok ==> p in w.temps && w.temps[p].text == text[..done])
    case Synced(id, op, text, ok) => TempReady(c, now, w, p, op, text, ok)
    case Closed(id, op, text, ok) => TempReady(c, now, w, p, op, text, ok)
    case Done(id, op, answer, at) => AnswerOk(start, w.log, id, op, answer, at)
    case _ => true
  }

  ghost predicate TempReady(c: Codec, now: seq<Memory>, w: World, p: Pid, op: Op, text: string, ok: bool) {
    && Apply(op, now).Change? && text == c.Text(Apply(op, now).all)
    && (ok ==> p in w.temps && w.temps[p] == File(text, true))
  }

  // An answer says what happened: a saved update is in the log, a refused one was
  // refused by the list of that moment, a failed one was never committed.
  ghost predicate AnswerOk(start: seq<Memory>, log: seq<Entry>, id: nat, op: Op, answer: Answer, at: nat) {
    match answer
    case Saved => at < |log| && log[at] == Entry(id, op)
    case Refused(why) => at <= |log| && Apply(op, Replay(start, log[..at])) == NoChange(why)
    case WriteFailed => forall i :: 0 <= i < |log| ==> log[i].id != id
  }

  // A list of memories a start may be.
  ghost predicate StartOk(start: seq<Memory>) { AllValid(start) }

  ghost predicate LogIdsOk(w: World) {
    && (forall i :: 0 <= i < |w.log| ==> w.log[i].id < w.calls)
    && (forall i, j :: 0 <= i < j < |w.log| ==> w.log[i].id != w.log[j].id)
  }

  ghost predicate ProcessOk(c: Codec, start: seq<Memory>, w: World, p: Pid) {
    && (At(w, p).Holding() ==> w.lock == Some(p))
    && WorkOk(c, start, w, p)
    && (!At(w, p).Idle? ==> At(w, p).id < w.calls)
    && (!At(w, p).Idle? && !At(w, p).Done? ==> Fresh(w, At(w, p).id))
  }

  // No committed update has this id.
  ghost predicate Fresh(w: World, id: nat) { forall i :: 0 <= i < |w.log| ==> w.log[i].id != id }

  ghost predicate Apart(w: World, p: Pid, q: Pid) {
    p != q && !At(w, p).Idle? && !At(w, q).Idle? ==> At(w, p).id != At(w, q).id
  }

  ghost predicate Inv(c: Codec, start: seq<Memory>, w: World) {
    && |w.versions| == |w.log| + 1
    && (forall k :: 0 <= k < |w.versions| ==> VersionOk(c, start, w, k))
    && (forall p :: ProcessOk(c, start, w, p))
    && (forall p, q :: Apart(w, p, q))
    && LogIdsOk(w)
    && LockOk(w)
  }

  // The lock has a holder that is at work.
  predicate LockOk(w: World) { w.lock.Some? ==> At(w, w.lock.value).Holding() }

  // ---- every step keeps the invariant

  // A process the step did not touch.
  lemma Untouched(c: Codec, start: seq<Memory>, w: World, w': World, q: Pid)
    requires ProcessOk(c, start, w, q)
    requires At(w', q) == At(w, q) && w'.calls >= w.calls
    requires At(w, q).Holding() ==> w'.lock == w.lock && w'.log == w.log
    requires q in w.temps ==> q in w'.temps && w'.temps[q] == w.temps[q]
    requires !At(w, q).Idle? && !At(w, q).Done? ==> Fresh(w', At(w, q).id)
    ensures ProcessOk(c, start, w', q)
  {}

  // A step of one process that commits nothing.
  lemma LocalStep(c: Codec, start: seq<Memory>, w: World, w': World, p: Pid)
    requires Inv(c, start, w)
    requires w'.versions == w.versions && w'.log == w.log && w'.calls >= w.calls
    requires w'.lock == w.lock || At(w, p).Holding() || w.lock.None?
    requires forall q :: q != p ==> At(w', q) == At(w, q)
    requires forall q :: q != p && q in w.temps ==> q in w'.temps && w'.temps[q] == w.temps[q]
    requires !At(w', p).Idle? ==> (!At(w, p).Idle? && At(w', p).id == At(w, p).id) || At(w', p).id == w.calls
    requires ProcessOk(c, start, w', p) && LockOk(w')
    ensures Inv(c, start, w')
  {
    forall k | 0 <= k < |w'.versions| ensures VersionOk(c, start, w', k) { assert VersionOk(c, start, w, k); }
    forall q ensures ProcessOk(c, start, w', q) {
      assert ProcessOk(c, start, w, q) && ProcessOk(c, start, w, p);
      if q != p { Untouched(c, start, w, w', q); }
    }
    forall q, r ensures Apart(w', q, r) {
      assert Apart(w, q, r) && ProcessOk(c, start, w, q) && ProcessOk(c, start, w, r);
    }
  }

  lemma TextBack(c: Codec, all: seq<Memory>, f: File)
    requires c.Faithful() && AllValid(all) && f.text == c.Text(all)
    ensures Read(c, Some(f)) == CleanAll(all)
  {
    DocumentBack(all);
  }

  lemma {:induction false} ReplayValid(start: seq<Memory>, log: seq<Entry>)
    requires AllValid(start)
    ensures AllValid(Replay(start, log))
    ensures Distinct(start) ==> Distinct(Replay(start, log))
  {
    if log != [] {
      var n := |log| - 1;
      ReplayValid(start, log[..n]);
      var op, all := log[n].op, Replay(start, log[..n]);
      if Apply(op, all).Change? {
        ApplyKeeps(op, all);
        CleanKeeps(Apply(op, all).all);
      }
    }
  }

  lemma CommitVersion(c: Codec, start: seq<Memory>, w: World, p: Pid)
    requires c.Faithful() && StartOk(start) && ProcessOk(c, start, w, p)
    requires At(w, p).Closed? && At(w, p).ok && Enabled(w, Rename(p, true))
    ensures Read(c, Some(w.temps[p])) == Replay(start, w.log + [Entry(At(w, p).id, At(w, p).op)]) && w.temps[p].durable
  {
    var pc, now := At(w, p), Replay(start, w.log);
    ReplayValid(start, w.log);
    ApplyKeeps(pc.op, now);
    TextBack(c, Apply(pc.op, now).all, w.temps[p]);
    assert (w.log + [Entry(pc.id, pc.op)])[..|w.log|] == w.log;
  }

  // What a commit changes.
  lemma CommitWorld(c: Codec, w: World, p: Pid)
    requires At(w, p).Closed? && At(w, p).ok && Enabled(w, Rename(p, true))
    ensures var w' := Next(c, w, Rename(p, true));
            && w'.versions == w.versions + [Some(w.temps[p])] && w'.log == w.log + [Entry(At(w, p).id, At(w, p).op)]
            && w'.lock == w.lock && w'.calls == w.calls
            && At(w', p) == Done(At(w, p).id, At(w, p).op, Saved, |w.log|) && forall q :: q != p ==> At(w', q) == At(w, q)
  {}

  // The commit: the renamed file is the list after one more update.
  lemma CommitStep(c: Codec, start: seq<Memory>, w: World, p: Pid)
    requires c.Faithful() && StartOk(start) && Inv(c, start, w)
    requires At(w, p).Closed? && At(w, p).ok && Enabled(w, Rename(p, true))
    ensures Inv(c, start, Next(c, w, Rename(p, true)))
  {
    hide Next, Read, Replay, Apply, WorkOk, Codec.Faithful;
    var w' := Next(c, w, Rename(p, true));
    assert ProcessOk(c, start, w, p);
    CommitWorld(c, w, p);
    CommitVersion(c, start, w, p);
    forall k | 0 <= k < |w'.versions| ensures VersionOk(c, start, w', k) {
      if k < |w.versions| {
        assert VersionOk(c, start, w, k);
        assert w'.log[..k] == w.log[..k];
      } else {
        assert w'.log[..k] == w'.log;
      }
    }
    forall q ensures ProcessOk(c, start, w', q) {
      assert ProcessOk(c, start, w, q) && Apart(w, p, q);
      CommitProcess(c, start, w, p, q);
    }
    forall q, r ensures Apart(w', q, r) { assert Apart(w, q, r); }
  }

  lemma CommitProcess(c: Codec, start: seq<Memory>, w: World, p: Pid, q: Pid)
    requires ProcessOk(c, start, w, p) && ProcessOk(c, start, w, q) && Apart(w, p, q)
    requires At(w, p).Closed? && At(w, p).ok && Enabled(w, Rename(p, true))
    ensures ProcessOk(c, start, Next(c, w, Rename(p, true)), q)
  {
    hide Read, Replay, Apply;
  }

  lemma PowerStep(c: Codec, start: seq<Memory>, w: World, keep: nat, junk: string)
    requires Inv(c, start, w) && Enabled(w, PowerCut(keep, junk))
    ensures Inv(c, start, Next(c, w, PowerCut(keep, junk)))
  {
    var w' := Next(c, w, PowerCut(keep, junk));
    assert VersionOk(c, start, w, keep);
    forall k | 0 <= k < |w'.versions| ensures VersionOk(c, start, w', k) {
      assert VersionOk(c, start, w, k);
      assert w'.log[..k] == w.log[..k];
    }
    forall q ensures ProcessOk(c, start, w', q) {}
  }

  lemma {:induction false} InvNext(c: Codec, start: seq<Memory>, w: World, s: Step)
    requires c.Faithful() && StartOk(start) && Inv(c, start, w) && Enabled(w, s)
    ensures Inv(c, start, Next(c, w, s))
  {
    hide Read, Replay, Apply, WorkOk, Codec.Faithful;
    var w' := Next(c, w, s);
    if s.PowerCut? {
      PowerStep(c, start, w, s.keep, s.junk);
    } else if s.Rename? && s.ok && At(w, s.p).ok {
      CommitStep(c, start, w, s.p);
    } else {
      OneProcess(c, start, w, s);
      LocalStep(c, start, w, w', s.p);
    }
  }

  // What one process's own step leaves it in.
  lemma OneProcess(c: Codec, start: seq<Memory>, w: World, s: Step)
    requires Inv(c, start, w) && Enabled(w, s) && !s.PowerCut? && !(s.Rename? && s.ok && At(w, s.p).ok)
    ensures ProcessOk(c, start, Next(c, w, s), s.p)
  {
    hide Read, Replay, Apply;
    var p := s.p;
    assert ProcessOk(c, start, w, p);
    assert VersionOk(c, start, w, |w.log|);
    assert w.log[..|w.log|] == w.log;
    if s.Write? {
      var pc := At(w, p);
      assert s.n == 0 || pc.text[..pc.done + s.n] <= pc.text;
    }
    if s.Fsync? { var pc := At(w, p); assert pc.text[..|pc.text|] == pc.text; }
  }

  // ---- runs

  ghost predicate Init(c: Codec, start: seq<Memory>, w: World) {
    && |w.versions| == 1 && (w.versions[0].Some? ==> w.versions[0].value.durable)
    && Read(c, w.versions[0]) == start && w.lock == None && w.pcs == map[] && w.log == []
  }

  ghost predicate IsRun(c: Codec, start: seq<Memory>, run: seq<World>, steps: seq<Step>) {
    && |run| == |steps| + 1 && Init(c, start, run[0])
    && forall i :: 0 <= i < |steps| ==> Enabled(run[i], steps[i]) && run[i + 1] == Next(c, run[i], steps[i])
  }

  lemma {:induction false} RunInv(c: Codec, start: seq<Memory>, run: seq<World>, steps: seq<Step>, i: nat)
    requires c.Faithful() && IsRun(c, start, run, steps) && i < |run|
    ensures StartOk(start) && Inv(c, start, run[i])
  {
    assert StartOk(start) by { ReadValid(c, run[0].versions[0]); }
    if i > 0 {
      RunInv(c, start, run, steps, i - 1);
      InvNext(c, start, run[i - 1], steps[i - 1]);
    } else {
      assert VersionOk(c, start, run[0], 0);
    }
  }

  lemma ReadValid(c: Codec, f: Option<File>)
    ensures AllValid(Read(c, f))
  {
    if f.Some? {
      var doc := c.parse(f.value.text);
      if doc.Some? && doc.value.Obj? && "memories" in doc.value.fields && doc.value.fields["memories"].Arr? {
        ParsedAreValid(doc.value.fields["memories"].items);
      }
    }
  }

  // No lost update and no torn file: in every state of every run, the main file is
  // whole and flushed, and loads as the committed updates applied one after the
  // other, in commit order; so does every version a reader may still have open.
  lemma {:induction false} FileIsReplay(c: Codec, start: seq<Memory>, run: seq<World>, steps: seq<Step>, i: nat, k: nat)
    requires c.Faithful() && IsRun(c, start, run, steps) && i < |run| && k < |run[i].versions|
    ensures |run[i].versions| == |run[i].log| + 1
    ensures Read(c, Main(run[i])) == Replay(start, run[i].log)
    ensures Read(c, run[i].versions[k]) == Replay(start, run[i].log[..k])
    ensures run[i].versions[k].Some? ==> run[i].versions[k].value.durable
  {
    RunInv(c, start, run, steps, i);
    var w := run[i];
    assert VersionOk(c, start, w, k) && VersionOk(c, start, w, |w.log|);
    assert w.log[..|w.log|] == w.log;
  }

  // If the identities were distinct at the start, they are in every list a reader sees.
  lemma {:induction false} IdentitiesStayDistinct(c: Codec, start: seq<Memory>, run: seq<World>, steps: seq<Step>, i: nat, k: nat)
    requires c.Faithful() && IsRun(c, start, run, steps) && i < |run| && k < |run[i].versions| && Distinct(start)
    ensures Distinct(Read(c, run[i].versions[k]))
  {
    FileIsReplay(c, start, run, steps, i, k);
    ReadValid(c, run[0].versions[0]);
    ReplayValid(start, run[i].log[..k]);
  }

  // Commits are serialized by the lock, and no update is committed twice.
  lemma {:induction false} OneWriterAtATime(c: Codec, start: seq<Memory>, run: seq<World>, steps: seq<Step>,
                                             i: nat, p: Pid, q: Pid)
    requires c.Faithful() && IsRun(c, start, run, steps) && i < |run|
    requires At(run[i], p).Holding() && At(run[i], q).Holding()
    ensures p == q && LogIdsOk(run[i])
  {
    RunInv(c, start, run, steps, i);
    assert ProcessOk(c, start, run[i], p) && ProcessOk(c, start, run[i], q);
  }

  // The answer a call gives is true: saved means committed, refused means the list
  // at that point of the commit order refuses it, failed means never committed.
  lemma {:induction false} AnswersAreTrue(c: Codec, start: seq<Memory>, run: seq<World>, steps: seq<Step>, i: nat, p: Pid)
    requires c.Faithful() && IsRun(c, start, run, steps) && i < |run| && At(run[i], p).Done?
    ensures var pc := At(run[i], p); AnswerOk(start, run[i].log, pc.id, pc.op, pc.answer, pc.at)
  {
    RunInv(c, start, run, steps, i);
    assert ProcessOk(c, start, run[i], p);
  }

  // A committed update stays committed, and versions already open never change,
  // until a power cut; a power cut keeps a prefix of both.
  lemma {:induction false} CommitsLast(c: Codec, start: seq<Memory>, run: seq<World>, steps: seq<Step>, i: nat, j: nat)
    requires c.Faithful() && IsRun(c, start, run, steps) && i <= j < |run|
    requires forall k :: i <= k < j ==> !steps[k].PowerCut?
    ensures run[i].log <= run[j].log && run[i].versions <= run[j].versions
    decreases j - i
  {
    if i < j {
      CommitsLast(c, start, run, steps, i, j - 1);
      assert !steps[j - 1].PowerCut?;
    }
  }

  lemma {:induction false} PowerCutKeepsPrefix(c: Codec, start: seq<Memory>, run: seq<World>, steps: seq<Step>, i: nat)
    requires c.Faithful() && IsRun(c, start, run, steps) && i < |steps| && steps[i].PowerCut?
    ensures run[i + 1].log <= run[i].log && run[i + 1].versions <= run[i].versions
  {
    RunInv(c, start, run, steps, i);
    var w, keep := run[i], steps[i].keep;
    assert VersionOk(c, start, w, keep);
    assert w.versions[..keep] + [w.versions[keep]] == w.versions[..keep + 1];
  }

  // And any prefix: at any moment of any run a power cut may take back all committed
  // updates but the first k, answered or not, and leaves exactly what those make.
  lemma PowerCutMayKeep(c: Codec, start: seq<Memory>, run: seq<World>, steps: seq<Step>, i: nat, k: nat, junk: string)
    requires c.Faithful() && IsRun(c, start, run, steps) && i < |run| && k <= |run[i].log|
    ensures Enabled(run[i], PowerCut(k, junk))
    ensures var w := Next(c, run[i], PowerCut(k, junk));
            w.log == run[i].log[..k] && HasMain(w) && Read(c, Main(w)) == Replay(start, run[i].log[..k])
  {
    RunInv(c, start, run, steps, i);
    assert VersionOk(c, start, run[i], k);
  }
}
