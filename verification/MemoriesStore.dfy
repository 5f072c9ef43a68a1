// The shared memories file (toolkit/src/app/memories_store.cpp): what a document
// holds, and what one update does to a list of memories.
module MemoriesStore {
  import opened Options

  datatype Memory = Memory(name: string, hz: int, mode: string, tags: seq<string>, note: string)

  // What tells memories apart: frequency and name.
  type Id = (int, string)

  // ---- documents

  datatype Json = Str(s: string) | Int(n: int) | Arr(items: seq<Json>) | Obj(fields: map<string, Json>) | Other

  function StrAt(o: map<string, Json>, key: string): Option<string> {
    if key in o && o[key].Str? then Some(o[key].s) else None
  }

  // The tags that are non-empty strings.
  function TagsIn(items: seq<Json>): seq<string> {
    if items == [] then []
    else
      var n := |items| - 1;
      if items[n].Str? && items[n].s != [] then TagsIn(items[..n]) + [items[n].s] else TagsIn(items[..n])
  }

  // One entry: skipped without a name or a positive integer frequency.
  function ParseMemory(j: Json): Option<Memory> {
    if !j.Obj? then None
    else
      var o := j.fields;
      var name, mode, note := StrAt(o, "name"), StrAt(o, "mode"), StrAt(o, "note");
      if name.None? || name.value == [] then None
      else if !("hz" in o && o["hz"].Int? && o["hz"].n > 0) then None
      else
        Some(Memory(name.value, o["hz"].n, if mode.Some? then mode.value else [],
                    if "tags" in o && o["tags"].Arr? then TagsIn(o["tags"].items) else [],
                    if note.Some? then note.value else []))
  }

  function ParseAll(items: seq<Json>): seq<Memory> {
    if items == [] then []
    else
      var n := |items| - 1;
      var m := ParseMemory(items[n]);
      if m.Some? then ParseAll(items[..n]) + [m.value] else ParseAll(items[..n])
  }

  // The memories of a document; none when it has no such list.
  function MemoriesIn(doc: Json): seq<Memory> {
    if doc.Obj? && "memories" in doc.fields && doc.fields["memories"].Arr? then ParseAll(doc.fields["memories"].items) else []
  }

  function Strings(tags: seq<string>): (items: seq<Json>)
    ensures |items| == |tags|
  {
    if tags == [] then [] else Strings(tags[..|tags| - 1]) + [Str(tags[|tags| - 1])]
  }

  function ToJson(m: Memory): Json {
    var o := map["name" := Str(m.name), "hz" := Int(m.hz), "mode" := Str(m.mode), "tags" := Arr(Strings(m.tags))];
    Obj(if m.note == [] then o else o["note" := Str(m.note)])
  }

  function AllToJson(all: seq<Memory>): (items: seq<Json>)
    ensures |items| == |all|
  {
    if all == [] then [] else AllToJson(all[..|all| - 1]) + [ToJson(all[|all| - 1])]
  }

  function Document(all: seq<Memory>): Json {
    Obj(map["version" := Int(1), "memories" := Arr(AllToJson(all))])
  }

  // ---- what a save and a load make of a list

  predicate Valid(m: Memory) { m.name != [] && m.hz > 0 }

  predicate AllValid(all: seq<Memory>) { forall i :: 0 <= i < |all| ==> Valid(all[i]) }

  function NonEmpty(tags: seq<string>): seq<string> {
    if tags == [] then []
    else
      var n := |tags| - 1;
      if tags[n] != [] then NonEmpty(tags[..n]) + [tags[n]] else NonEmpty(tags[..n])
  }

  // The loader drops empty tags; everything else of a valid memory survives.
  function Clean(m: Memory): Memory { m.(tags := NonEmpty(m.tags)) }

  function CleanAll(all: seq<Memory>): (r: seq<Memory>)
    ensures |r| == |all|
    ensures forall i :: 0 <= i < |r| ==> r[i] == Clean(all[i])
  {
    seq(|all|, i requires 0 <= i < |all| => Clean(all[i]))
  }

  lemma {:induction false} TagsBack(tags: seq<string>)
    ensures TagsIn(Strings(tags)) == NonEmpty(tags)
  {
    if tags != [] {
      TagsBack(tags[..|tags| - 1]);
    }
  }

  lemma MemoryBack(m: Memory)
    requires Valid(m)
    ensures ParseMemory(ToJson(m)) == Some(Clean(m))
  {
    TagsBack(m.tags);
  }

  // Loading a written document gives the list back, with empty tags dropped.
  lemma {:induction false} DocumentBack(all: seq<Memory>)
    requires AllValid(all)
    ensures MemoriesIn(Document(all)) == CleanAll(all)
  {
    ItemsBack(all);
  }

  lemma {:induction false} ItemsBack(all: seq<Memory>)
    requires AllValid(all)
    ensures ParseAll(AllToJson(all)) == CleanAll(all)
  {
    hide ParseMemory, ToJson, Clean;
    if all != [] {
      var n := |all| - 1;
      ItemsBack(all[..n]);
      MemoryBack(all[n]);
      ParseAllNext(AllToJson(all[..n]), ToJson(all[n]));
      assert CleanAll(all) == CleanAll(all[..n]) + [Clean(all[n])];
    }
  }

  lemma ParseAllNext(items: seq<Json>, j: Json)
    ensures ParseMemory(j).Some? ==> ParseAll(items + [j]) == ParseAll(items) + [ParseMemory(j).value]
  {
    assert (items + [j])[..|items|] == items;
  }

  lemma {:induction false} ParsedAreValid(items: seq<Json>)
    ensures AllValid(ParseAll(items))
  {
    if items != [] {
      ParsedAreValid(items[..|items| - 1]);
    }
  }

  // ---- updates

  datatype Refusal = NotFound | Duplicate | Invalid

  datatype Op =
    | Add(m: Memory)
    | Modify(hz: int, name: string, change: Memory -> Memory)
    | Remove(hz: int, name: string)

  datatype Outcome = Change(all: seq<Memory>) | NoChange(why: Refusal)

  predicate Same(m: Memory, hz: int, name: string) { m.hz == hz && m.name == name }

  // The first memory with this identity, or the length of the list.
  function Find(all: seq<Memory>, hz: int, name: string): (i: nat)
    ensures i <= |all| && (i < |all| ==> Same(all[i], hz, name))
  {
    if all == [] then 0
    else
      var n := |all| - 1;
      var i := Find(all[..n], hz, name);
      if i < n then i else if Same(all[n], hz, name) then n else n + 1
  }

  function Without(all: seq<Memory>, hz: int, name: string): seq<Memory> {
    if all == [] then []
    else
      var n := |all| - 1;
      if Same(all[n], hz, name) then Without(all[..n], hz, name) else Without(all[..n], hz, name) + [all[n]]
  }

  // Another memory than the one at t has this identity.
  predicate TakenBut(all: seq<Memory>, t: nat, hz: int, name: string) {
    exists i :: 0 <= i < |all| && i != t && Same(all[i], hz, name)
  }

  function Apply(op: Op, all: seq<Memory>): Outcome {
    match op
    case Add(m) =>
      if !Valid(m) then NoChange(Invalid)
      else if Find(all, m.hz, m.name) < |all| then NoChange(Duplicate)
      else Change(all + [m])
    case Modify(hz, name, change) =>
      var t := Find(all, hz, name);
      if t == |all| then NoChange(NotFound)
      else
        var m := change(all[t]);
        if !Valid(m) then NoChange(Invalid)
        else if TakenBut(all, t, m.hz, m.name) then NoChange(Duplicate)
        else Change(all[t := m])
    case Remove(hz, name) =>
      if Find(all, hz, name) == |all| then NoChange(NotFound) else Change(Without(all, hz, name))
  }

  lemma {:induction false} FindIsFirst(all: seq<Memory>, hz: int, name: string, i: nat)
    requires i < |all|
    ensures i < Find(all, hz, name) ==> !Same(all[i], hz, name)
  {
    if i < |all| - 1 {
      FindIsFirst(all[..|all| - 1], hz, name, i);
    }
  }

  lemma {:induction false} WithoutLength(all: seq<Memory>, hz: int, name: string)
    ensures |Without(all, hz, name)| <= |all|
    ensures |Without(all, hz, name)| == |all| <==> Find(all, hz, name) == |all|
  {
    if all != [] {
      WithoutLength(all[..|all| - 1], hz, name);
    }
  }

  // ---- the vectors changed in place

  method AddTo(all: seq<Memory>, m: Memory) returns (r: Outcome)
    ensures r == Apply(Add(m), all)
  {
    if m.name == [] || m.hz <= 0 {
      return NoChange(Invalid);
    }
    for i := 0 to |all|
      invariant Find(all[..i], m.hz, m.name) == i
    {
      assert all[..i + 1][..i] == all[..i];
      if Same(all[i], m.hz, m.name) {
        FindIsFirst(all, m.hz, m.name, i);
        return NoChange(Duplicate);
      }
    }
    assert all[..|all|] == all;
    r := Change(all + [m]);
  }

  method ModifyIn(all: seq<Memory>, hz: int, name: string, change: Memory -> Memory) returns (r: Outcome)
    ensures r == Apply(Modify(hz, name, change), all)
  {
    var target := 0;
    while target < |all| && !Same(all[target], hz, name)
      invariant 0 <= target <= |all| && Find(all[..target], hz, name) == target
    {
      assert all[..target + 1][..target] == all[..target];
      target := target + 1;
    }
    FoundAt(all, hz, name, target);
    if target == |all| {
      return NoChange(NotFound);
    }
    var changed := change(all[target]);
    if changed.name == [] || changed.hz <= 0 {
      return NoChange(Invalid);
    }
    for i := 0 to |all|
      invariant forall k :: 0 <= k < i && k != target ==> !Same(all[k], changed.hz, changed.name)
    {
      if i != target && Same(all[i], changed.hz, changed.name) {
        return NoChange(Duplicate);
      }
    }
    r := Change(all[target := changed]);
  }

  lemma FoundAt(all: seq<Memory>, hz: int, name: string, t: nat)
    requires t <= |all| && Find(all[..t], hz, name) == t && (t < |all| ==> Same(all[t], hz, name))
    ensures Find(all, hz, name) == t
  {
    if t == |all| {
      assert all[..t] == all;
    } else {
      FindIsFirst(all, hz, name, t);
      var i := Find(all, hz, name);
      if i < t {
        assert all[..t][i] == all[i];
        FindIsFirst(all[..t], hz, name, i);
      }
    }
  }

  method RemoveFrom(all: seq<Memory>, hz: int, name: string) returns (r: Outcome)
    ensures r == Apply(Remove(hz, name), all)
  {
    var left := all;
    var it := 0;
    ghost var seen := 0;
    while it < |left|
      invariant 0 <= it <= |left| && seen <= |all| && |left| - it == |all| - seen
      invariant left[..it] == Without(all[..seen], hz, name) && left[it..] == all[seen..]
      decreases |left| - it
    {
      assert left[it] == left[it..][0] == all[seen];
      assert all[..seen + 1][..seen] == all[..seen];
      if Same(left[it], hz, name) {
        ghost var before := left;
        left := left[..it] + left[it + 1..];
        assert left[..it] == before[..it] && left[it..] == before[it..][1..];
      } else {
        assert left[..it + 1] == left[..it] + [left[it]];
        assert left[it + 1..] == left[it..][1..];
        it := it + 1;
      }
      seen := seen + 1;
    }
    assert all[..seen] == all && left[..it] == left;
    WithoutLength(all, hz, name);
    if |left| == |all| {
      return NoChange(NotFound);
    }
    r := Change(left);
  }

  // ---- what updates keep

  predicate Distinct(all: seq<Memory>) {
    forall i, j :: 0 <= i < j < |all| ==> !Same(all[i], all[j].hz, all[j].name)
  }

  lemma {:induction false} WithoutKeeps(all: seq<Memory>, hz: int, name: string, k: nat)
    returns (i: nat)
    requires k < |Without(all, hz, name)|
    ensures k <= i < |all| && Without(all, hz, name)[k] == all[i] && !Same(all[i], hz, name)
  {
    var n := |all| - 1;
    if k < |Without(all[..n], hz, name)| {
      i := WithoutKeeps(all[..n], hz, name, k);
    } else {
      WithoutLength(all[..n], hz, name);
      i := n;
    }
  }

  lemma {:induction false} WithoutDistinct(all: seq<Memory>, hz: int, name: string)
    requires Distinct(all)
    ensures Distinct(Without(all, hz, name))
  {
    if all != [] {
      var n := |all| - 1;
      WithoutDistinct(all[..n], hz, name);
      var w := Without(all[..n], hz, name);
      forall k | 0 <= k < |w| ensures !Same(w[k], all[n].hz, all[n].name) {
        var i := WithoutKeeps(all[..n], hz, name, k);
      }
    }
  }

  // An update keeps every memory valid and every identity unique.
  lemma {:induction false} ApplyKeeps(op: Op, all: seq<Memory>)
    requires Apply(op, all).Change?
    ensures AllValid(all) ==> AllValid(Apply(op, all).all)
    ensures Distinct(all) ==> Distinct(Apply(op, all).all)
  {
    var r := Apply(op, all).all;
    match op
    case Add(m) =>
      forall i | 0 <= i < |all| ensures !Same(all[i], m.hz, m.name) { FindIsFirst(all, m.hz, m.name, i); }
    case Modify(hz, name, change) =>
    case Remove(hz, name) =>
      if Distinct(all) { WithoutDistinct(all, hz, name); }
      if AllValid(all) {
        forall k | 0 <= k < |r| ensures Valid(r[k]) { var i := WithoutKeeps(all, hz, name, k); }
      }
  }

  lemma CleanKeeps(all: seq<Memory>)
    ensures AllValid(all) ==> AllValid(CleanAll(all))
    ensures Distinct(all) ==> Distinct(CleanAll(all))
  {}

  // An added memory is in the list, a removed identity is not, and every other
  // memory stays.
  lemma {:induction false} ApplyEffect(op: Op, all: seq<Memory>, m: Memory)
    requires Apply(op, all).Change?
    ensures var r := Apply(op, all).all;
            match op
            case Add(a) => m in r <==> m in all || m == a
            case Remove(hz, name) => m in r <==> m in all && !Same(m, hz, name)
            case Modify(hz, name, change) =>
              var t := Find(all, hz, name);
              r == all[..t] + [change(all[t])] + all[t + 1..]
  {
    if op.Remove? {
      MemberWithout(all, op.hz, op.name, m);
    }
  }

  lemma {:induction false} MemberWithout(all: seq<Memory>, hz: int, name: string, m: Memory)
    ensures m in Without(all, hz, name) <==> m in all && !Same(m, hz, name)
  {
    if all != [] {
      var n := |all| - 1;
      MemberWithout(all[..n], hz, name, m);
      assert all == all[..n] + [all[n]];
    }
  }
}
