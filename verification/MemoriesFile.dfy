// One update of the shared memories file as a program runs it, alone on the disk
// (toolkit/src/app/memories_store.cpp); MemoriesSteps interleaves its system calls.
module MemoriesFile {
  import opened MemoriesStore
  import opened Options
  import opened MemoriesSteps

  // What the system calls of one save answer: how many bytes each write takes (0 or
  // less is an error; a list that runs out ends in an error) and which calls succeed.
  datatype Calls = Calls(open: bool, writes: seq<int>, fsync: bool, close: bool, rename: bool)

  function Sum(writes: seq<int>): int {
    if writes == [] then 0 else Sum(writes[..|writes| - 1]) + writes[|writes| - 1]
  }

  // The first k writes go well and take this many bytes together.
  predicate Takes(writes: seq<int>, k: nat, bytes: nat)
    requires k <= |writes|
  {
    (forall i :: 0 <= i < k ==> writes[i] > 0) && Sum(writes[..k]) >= bytes
  }

  predicate Suffice(writes: seq<int>, bytes: nat) { exists k: nat :: k <= |writes| && Takes(writes, k, bytes) }

  // The calls of one save all go well, for a text of this many bytes.
  predicate GoWell(calls: Calls, bytes: nat) {
    calls.open && calls.fsync && calls.close && calls.rename && Suffice(calls.writes, bytes)
  }

  lemma {:induction false} MoreTake(writes: seq<int>, j: nat, k: nat)
    requires j <= k <= |writes| && forall i :: 0 <= i < k ==> writes[i] > 0
    ensures Sum(writes[..j]) <= Sum(writes[..k])
    decreases k
  {
    if j < k {
      assert writes[..k][..k - 1] == writes[..k - 1];
      MoreTake(writes, j, k - 1);
    }
  }

  // Once a write fails with bytes still to go, no number of writes does it.
  lemma CutShort(writes: seq<int>, k: nat, bytes: nat)
    requires k <= |writes| && (forall i :: 0 <= i < k ==> writes[i] > 0) && Sum(writes[..k]) < bytes
    requires k < |writes| ==> writes[k] <= 0
    ensures !Suffice(writes, bytes)
  {
    forall j: nat | j <= |writes| && Takes(writes, j, bytes) ensures false {
      if j <= k { MoreTake(writes, j, k); }
    }
  }

  class Disk {
    var main: Option<File>
    var temps: map<Pid, File>

    constructor (file: Option<File>)
      ensures main == file && temps == map[]
    {
      main := file;
      temps := map[];
    }

    /** Write, flush and close a temporary file, then rename it over the target: the
        target is replaced by the whole text, flushed, exactly when every call goes
        well and the writes take the text, and not touched otherwise. */
    method SaveMemories(pid: Pid, c: Codec, all: seq<Memory>, calls: Calls) returns (saved: bool)
      modifies this
      ensures saved ==> main == Some(File(c.Text(all), true))
      ensures !saved ==> main == old(main)
      ensures calls.open ==> temps == old(temps) - {pid}
      ensures !calls.open ==> !saved && temps == old(temps)
      ensures saved <==> GoWell(calls, |c.Text(all)|)
    {
      var text := c.Text(all);
      if !calls.open {
        return false;
      }
      var done, k, ok := 0, 0, true;
      temps := temps[pid := File([], false)];
      while ok && done < |text|
        invariant 0 <= done <= |text| && 0 <= k <= |calls.writes|
        invariant ok ==> (forall i :: 0 <= i < k ==> calls.writes[i] > 0) && done <= Sum(calls.writes[..k])
        invariant ok ==> done == |text| || done == Sum(calls.writes[..k])
        invariant ok || !Suffice(calls.writes, |text|)
        invariant main == old(main) && temps == old(temps)[pid := File(text[..done], false)]
        decreases |text| - done, ok
      {
        var n := if k < |calls.writes| then calls.writes[k] else 0;
        if n <= 0 {
          CutShort(calls.writes, k, |text|);
        } else {
          assert calls.writes[..k + 1][..k] == calls.writes[..k];
        }
        if k < |calls.writes| { k := k + 1; }
        if n > 0 {
          done := if done + n <= |text| then done + n else |text|;
          temps := temps[pid := File(text[..done], false)];
        } else {
          ok := false;
        }
      }
      assert ok ==> text[..done] == text && Takes(calls.writes, k, |text|);
      temps := temps[pid := File(text[..done], calls.fsync)];
      ok := calls.fsync && ok;
      ok := calls.close && ok;
      if !ok {
        temps := temps - {pid};
        return false;
      }
      if !calls.rename {
        temps := temps - {pid};
        return false;
      }
      main := Some(temps[pid]);
      temps := temps - {pid};
      return true;
    }

    /** Any update: load, decide, save. The file changes exactly to what the update
        makes of the list it held, or not at all. */
    method Update(pid: Pid, c: Codec, op: Op, calls: Calls) returns (answer: Answer)
      modifies this
      ensures var before := old(Read(c, main));
              match answer
              case Saved => Apply(op, before).Change? && GoWell(calls, |c.Text(Apply(op, before).all)|) && main == Some(File(c.Text(Apply(op, before).all), true))
              case Refused(why) => Apply(op, before) == NoChange(why) && main == old(main)
              case WriteFailed => Apply(op, before).Change? && !GoWell(calls, |c.Text(Apply(op, before).all)|) && main == old(main)
    {
      var all := Read(c, main);
      var outcome: Outcome;
      match op {
        case Add(m) => outcome := AddTo(all, m);
        case Modify(hz, name, change) => outcome := ModifyIn(all, hz, name, change);
        case Remove(hz, name) => outcome := RemoveFrom(all, hz, name);
      }
      if outcome.NoChange? {
        return Refused(outcome.why);
      }
      var saved := SaveMemories(pid, c, outcome.all, calls);
      return if saved then Saved else WriteFailed;
    }
  }
}
