// What loading a document and updating a list of memories mean, in terms of the
// places of the lists alone (toolkit/src/app/memories_store.cpp).
module MemoriesLaws {
  import opened MemoriesStore
  import opened Options

  // at lists places below n, in order.
  predicate Rising(at: seq<nat>, n: nat) {
    && (forall k :: 0 <= k < |at| ==> at[k] < n)
    && (forall k, l :: 0 <= k < l < |at| ==> at[k] < at[l])
  }

  // at lists the places below n of which this holds.
  ghost predicate Lists(at: seq<nat>, n: nat, holds: int -> bool) {
    Rising(at, n) && forall i: nat :: i < n ==> (i in at <==> holds(i))
  }

  lemma ListsNext(at: seq<nat>, n: nat, holds: int -> bool)
    requires Lists(at, n, holds)
    ensures Lists(if holds(n) then at + [n] else at, n + 1, holds)
  {
    assert n !in at;
  }

  lemma NoneListed(holds: int -> bool)
    ensures Lists([], 0, holds)
  {}

  lemma ListedBelow(at: seq<nat>, n: nat, holds: int -> bool)
    requires Lists(at, n, holds)
    ensures forall k :: 0 <= k < |at| ==> at[k] < n
  {}

  lemma SameLists(at: seq<nat>, n: nat, holds: int -> bool, also: int -> bool)
    requires Lists(at, n, holds) && forall i: nat :: i < n ==> holds(i) == also(i)
    ensures Lists(at, n, also)
  {}

  // The list has a memory of this frequency and name before place n.
  predicate Has(all: seq<Memory>, n: int, hz: int, name: string) {
    exists i :: 0 <= i < n && i < |all| && all[i].hz == hz && all[i].name == name
  }

  // ---- updates

  lemma {:induction false} FindIs(all: seq<Memory>, hz: int, name: string)
    ensures var t := Find(all, hz, name);
            !Has(all, t, hz, name) && (t < |all| <==> Has(all, |all|, hz, name))
  {
    var t := Find(all, hz, name);
    forall i | 0 <= i < t && i < |all| ensures !(all[i].hz == hz && all[i].name == name) { FindIsFirst(all, hz, name, i); }
  }

  // An entry is added at the end, unless it is not one or its identity is taken.
  lemma AddIs(all: seq<Memory>, m: Memory)
    ensures Apply(Add(m), all) ==
            if m.name == [] || m.hz <= 0 then NoChange(Invalid)
            else if Has(all, |all|, m.hz, m.name) then NoChange(Duplicate)
            else Change(all + [m])
  {
    FindIs(all, m.hz, m.name);
  }

  // The first memory of the identity changes in its place, unless the change leaves no
  // memory or takes the identity of another.
  lemma ModifyIs(all: seq<Memory>, hz: int, name: string, change: Memory -> Memory) returns (t: nat)
    ensures !Has(all, |all|, hz, name) ==> Apply(Modify(hz, name, change), all) == NoChange(NotFound)
    ensures Has(all, |all|, hz, name) ==>
              && t < |all| && all[t].hz == hz && all[t].name == name && !Has(all, t, hz, name)
              && var m := change(all[t]);
                 Apply(Modify(hz, name, change), all) ==
                 if m.name == [] || m.hz <= 0 then NoChange(Invalid)
                 else if Has(all, t, m.hz, m.name) || Has(all[t + 1..], |all|, m.hz, m.name) then NoChange(Duplicate)
                 else Change(all[t := m])
  {
    FindIs(all, hz, name);
    t := Find(all, hz, name);
    if t < |all| {
      TakenIs(all, t, change(all[t]).hz, change(all[t]).name);
    }
  }

  lemma TakenIs(all: seq<Memory>, t: nat, hz: int, name: string)
    requires t < |all|
    ensures TakenBut(all, t, hz, name) <==> Has(all, t, hz, name) || Has(all[t + 1..], |all|, hz, name)
  {
    if Has(all[t + 1..], |all|, hz, name) {
      var i :| 0 <= i < |all| && i < |all[t + 1..]| && all[t + 1..][i].hz == hz && all[t + 1..][i].name == name;
      assert Same(all[t + 1 + i], hz, name);
    }
    if TakenBut(all, t, hz, name) {
      var i :| 0 <= i < |all| && i != t && Same(all[i], hz, name);
      if i > t { assert all[t + 1..][i - t - 1] == all[i]; }
    }
    if Has(all, t, hz, name) {
      var i :| 0 <= i < t && i < |all| && all[i].hz == hz && all[i].name == name;
      assert Same(all[i], hz, name);
    }
  }

  predicate Differs(all: seq<Memory>, hz: int, name: string, i: int) {
    0 <= i < |all| && (all[i].hz != hz || all[i].name != name)
  }

  // What is left after a removal: the memories of other identities, in their order.
  lemma {:induction false} WithoutIs(all: seq<Memory>, hz: int, name: string) returns (at: seq<nat>)
    ensures Lists(at, |all|, i => Differs(all, hz, name, i)) && |Without(all, hz, name)| == |at|
    ensures forall k :: 0 <= k < |at| ==> Without(all, hz, name)[k] == all[at[k]]
  {
    hide Without, Lists, Differs;
    at := [];
    WithoutNext(all, hz, name);
    if all == [] {
      NoneListed(i => Differs(all, hz, name, i));
    } else {
      var n := |all| - 1;
      at := WithoutIs(all[..n], hz, name);
      ListedBelow(at, n, i => Differs(all[..n], hz, name, i));
      SameLists(at, n, i => Differs(all[..n], hz, name, i), i => Differs(all, hz, name, i));
      ListsNext(at, n, i => Differs(all, hz, name, i));
      if Differs(all, hz, name, n) { at := at + [n]; }
    }
  }

  lemma WithoutNext(all: seq<Memory>, hz: int, name: string)
    ensures all == [] ==> Without(all, hz, name) == []
    ensures var n := |all| - 1;
            all != [] ==>
              && (forall i: nat :: i < n ==> Differs(all[..n], hz, name, i) == Differs(all, hz, name, i))
              && Without(all, hz, name) ==
                 if Differs(all, hz, name, n) then Without(all[..n], hz, name) + [all[n]] else Without(all[..n], hz, name)
  {}

  // Every memory of the identity goes, when there is one.
  lemma RemoveIs(all: seq<Memory>, hz: int, name: string)
    ensures Apply(Remove(hz, name), all) ==
            if Has(all, |all|, hz, name) then Change(Without(all, hz, name)) else NoChange(NotFound)
  {
    FindIs(all, hz, name);
  }

  // ---- saving

  // A written entry holds the fields of the memory, all its tags in order, and the note
  // only if there is one.
  predicate EntryOf(j: Json, m: Memory) {
    && j.Obj? && j.fields.Keys == {"name", "hz", "mode", "tags"} + (if m.note == [] then {} else {"note"})
    && j.fields["name"] == Str(m.name) && j.fields["hz"] == Int(m.hz) && j.fields["mode"] == Str(m.mode)
    && j.fields["tags"].Arr? && |j.fields["tags"].items| == |m.tags|
    && (forall k :: 0 <= k < |m.tags| ==> j.fields["tags"].items[k] == Str(m.tags[k]))
    && (m.note != [] ==> j.fields["note"] == Str(m.note))
  }

  lemma {:induction false} StringsAre(tags: seq<string>, k: nat)
    requires k < |tags|
    ensures Strings(tags)[k] == Str(tags[k])
  {
    if k < |tags| - 1 { StringsAre(tags[..|tags| - 1], k); }
  }

  lemma EntryWritten(m: Memory)
    ensures EntryOf(ToJson(m), m)
  {
    forall k | 0 <= k < |m.tags| ensures Strings(m.tags)[k] == Str(m.tags[k]) { StringsAre(m.tags, k); }
  }

  lemma {:induction false} EntriesWritten(all: seq<Memory>, k: nat)
    requires k < |all|
    ensures EntryOf(AllToJson(all)[k], all[k])
  {
    hide EntryOf, ToJson;
    if k < |all| - 1 { EntriesWritten(all[..|all| - 1], k); } else { EntryWritten(all[k]); }
  }

  // The document of a list: version 1 and one entry for every memory, in order.
  lemma DocumentIs(all: seq<Memory>)
    ensures var d := Document(all);
            && d.Obj? && d.fields.Keys == {"version", "memories"} && d.fields["version"] == Int(1)
            && d.fields["memories"].Arr? && |d.fields["memories"].items| == |all|
            && forall k :: 0 <= k < |all| ==> EntryOf(d.fields["memories"].items[k], all[k])
  {
    forall k | 0 <= k < |all| ensures EntryOf(AllToJson(all)[k], all[k]) { EntriesWritten(all, k); }
  }

  // ---- loading

  // An entry is a memory exactly when it has a name and a positive whole frequency.
  predicate IsMemory(j: Json) {
    && j.Obj? && "name" in j.fields && j.fields["name"].Str? && j.fields["name"].s != []
    && "hz" in j.fields && j.fields["hz"].Int? && j.fields["hz"].n > 0
  }

  function TextOf(o: map<string, Json>, key: string): string {
    if key in o && o[key].Str? then o[key].s else []
  }

  // A loaded memory has the fields of its entry, empty where they are missing or of
  // another type.
  lemma EntryIs(j: Json)
    ensures ParseMemory(j).Some? <==> IsMemory(j)
    ensures IsMemory(j) ==>
              var m, o := ParseMemory(j).value, j.fields;
              && m.name == o["name"].s && m.hz == o["hz"].n && m.mode == TextOf(o, "mode") && m.note == TextOf(o, "note")
              && m.tags == if "tags" in o && o["tags"].Arr? then TagsIn(o["tags"].items) else []
  {}

  predicate IsTag(items: seq<Json>, i: int) { 0 <= i < |items| && items[i].Str? && items[i].s != [] }

  // The tags of an entry: its non-empty strings, in their order.
  lemma {:induction false} TagsAre(items: seq<Json>) returns (at: seq<nat>)
    ensures Lists(at, |items|, i => IsTag(items, i)) && |TagsIn(items)| == |at|
    ensures forall k :: 0 <= k < |at| ==> TagIs(items, at[k], TagsIn(items)[k])
  {
    hide TagsIn, IsTag, TagIs, Lists;
    at := [];
    TagsNext(items);
    if items == [] { NoneListed(i => IsTag(items, i)); }
    if items != [] {
      var n := |items| - 1;
      at := TagsAre(items[..n]);
      EarlierTags(items);
      SameLists(at, n, i => IsTag(items[..n], i), i => IsTag(items, i));
      ListsNext(at, n, i => IsTag(items, i));
      TagsKept(items, at, TagsIn(items[..n]));
      if IsTag(items, n) { at := at + [n]; }
    }
  }

  predicate TagIs(items: seq<Json>, i: int, tag: string) { IsTag(items, i) && items[i].s == tag }

  lemma TagsNext(items: seq<Json>)
    ensures items == [] ==> TagsIn(items) == []
    ensures var n := |items| - 1;
            items != [] ==>
              if IsTag(items, n) then TagsIn(items) == TagsIn(items[..n]) + [items[n].s] && TagIs(items, n, items[n].s)
              else TagsIn(items) == TagsIn(items[..n])
  {}

  lemma EarlierTags(items: seq<Json>)
    requires items != []
    ensures forall i: nat :: i < |items| - 1 ==> IsTag(items[..|items| - 1], i) == IsTag(items, i)
  {}

  lemma TagsKept(items: seq<Json>, at: seq<nat>, tags: seq<string>)
    requires items != [] && |tags| == |at|
    requires forall k :: 0 <= k < |at| ==> TagIs(items[..|items| - 1], at[k], tags[k])
    ensures forall k :: 0 <= k < |at| ==> TagIs(items, at[k], tags[k])
  {}

  predicate IsMemoryAt(items: seq<Json>, i: int) { 0 <= i < |items| && IsMemory(items[i]) }

  lemma {:induction false} EntriesAre(items: seq<Json>) returns (at: seq<nat>)
    ensures Lists(at, |items|, i => IsMemoryAt(items, i)) && |ParseAll(items)| == |at|
    ensures forall k :: 0 <= k < |at| ==> at[k] < |items| && ParseMemory(items[at[k]]) == Some(ParseAll(items)[k])
  {
    hide ParseMemory, IsMemoryAt, ParseAll, Lists;
    at := [];
    EntriesNext(items);
    if items == [] {
      NoneListed(i => IsMemoryAt(items, i));
    } else {
      var n := |items| - 1;
      at := EntriesAre(items[..n]);
      ListedBelow(at, n, i => IsMemoryAt(items[..n], i));
      SameLists(at, n, i => IsMemoryAt(items[..n], i), i => IsMemoryAt(items, i));
      ListsNext(at, n, i => IsMemoryAt(items, i));
      if IsMemoryAt(items, n) { at := at + [n]; }
    }
  }

  lemma EntriesNext(items: seq<Json>)
    ensures items == [] ==> ParseAll(items) == []
    ensures var n := |items| - 1;
            items != [] ==>
              && (forall i: nat :: i < n ==> IsMemoryAt(items[..n], i) == IsMemoryAt(items, i))
              && (IsMemoryAt(items, n) <==> ParseMemory(items[n]).Some?)
              && ParseAll(items) ==
                 if IsMemoryAt(items, n) then ParseAll(items[..n]) + [ParseMemory(items[n]).value] else ParseAll(items[..n])
  {
    if items != [] { EntryIs(items[|items| - 1]); }
  }

  // The list of a document: its entries that are memories, in their order; empty when
  // the document is no object, or has no such list.
  lemma {:induction false} LoadedAre(doc: Json) returns (at: seq<nat>)
    ensures var all := MemoriesIn(doc);
            if doc.Obj? && "memories" in doc.fields && doc.fields["memories"].Arr? then
              var items := doc.fields["memories"].items;
              && Lists(at, |items|, i => IsMemoryAt(items, i)) && |all| == |at|
              && forall k :: 0 <= k < |at| ==> at[k] < |items| && ParseMemory(items[at[k]]) == Some(all[k])
            else all == []
  {
    at := [];
    if doc.Obj? && "memories" in doc.fields && doc.fields["memories"].Arr? {
      at := EntriesAre(doc.fields["memories"].items);
    }
  }
}
