// The grouped and sorted rows of the Memories list, and the scan marks that follow
// identities (apps/memories/src/viewmodel/memories_viewmodel.cpp).
module MemoriesRows {
  import opened MemoriesStore
  import opened Options

  // ---- order

  // std::string order: byte by byte, the shorter first.
  predicate Less(a: string, b: string) {
    b != [] && (a == [] || a[0] < b[0] || (a[0] == b[0] && Less(a[1..], b[1..])))
  }

  lemma {:induction false} LessTotal(a: string, b: string)
    ensures Less(a, b) || Less(b, a) || a == b
    ensures !(Less(a, b) && Less(b, a)) && !Less(a, a)
    decreases |a|
  {
    if a != [] && b != [] {
      LessTotal(a[1..], b[1..]);
      assert a == [a[0]] + a[1..] && b == [b[0]] + b[1..];
    }
    if a != [] { LessTotal(a[1..], a[1..]); }
  }

  lemma {:induction false} LessTransitive(a: string, b: string, c: string)
    requires Less(a, b) && Less(b, c)
    ensures Less(a, c)
    decreases |a|
  {
    if a != [] && a[0] == b[0] && b[0] == c[0] {
      LessTransitive(a[1..], b[1..], c[1..]);
    }
  }

  // The comparator of the sort: by frequency when asked, then name, then frequency.
  predicate Before(a: Memory, b: Memory, byHz: bool) {
    if byHz && a.hz != b.hz then a.hz < b.hz
    else if a.name != b.name then Less(a.name, b.name)
    else a.hz < b.hz
  }

  // a may stand before b.
  predicate InOrder(a: Memory, b: Memory, byHz: bool) { !Before(b, a, byHz) }

  lemma BeforeIsStrict(a: Memory, b: Memory, byHz: bool)
    ensures Before(a, b, byHz) ==> InOrder(a, b, byHz)
    ensures InOrder(a, b, byHz) && InOrder(b, a, byHz) <==> a.hz == b.hz && a.name == b.name
  {
    LessTotal(a.name, b.name);
  }

  lemma InOrderTransitive(a: Memory, b: Memory, c: Memory, byHz: bool)
    requires InOrder(a, b, byHz) && InOrder(b, c, byHz)
    ensures InOrder(a, c, byHz)
  {
    LessTotal(a.name, b.name);
    LessTotal(b.name, c.name);
    LessTotal(a.name, c.name);
    if Less(a.name, b.name) && Less(b.name, c.name) { LessTransitive(a.name, b.name, c.name); }
    if Less(c.name, a.name) && Less(a.name, b.name) { LessTransitive(c.name, a.name, b.name); }
    if Less(b.name, c.name) && Less(c.name, a.name) { LessTransitive(b.name, c.name, a.name); }
  }

  // ---- what the list shows

  const OTHER := "other"

  function GroupOf(m: Memory): string { if m.tags == [] then OTHER else m.tags[0] }

  function Lower(c: char): char { if 'A' <= c <= 'Z' then (c as int + 32) as char else c }

  function Lowercase(s: string): (r: string)
    ensures |r| == |s|
  {
    seq(|s|, i requires 0 <= i < |s| => Lower(s[i]))
  }

  predicate Contains(s: string, needle: string) {
    exists i :: 0 <= i <= |s| && OccursAt(s, needle, i)
  }

  predicate OccursAt(s: string, needle: string, i: nat)
    requires i <= |s|
  {
    needle <= s[i..]
  }

  // The memory matches the search text, letter case aside.
  predicate Matches(m: Memory, query: string) {
    query == [] || Contains(Lowercase(m.name), Lowercase(query))
  }

  datatype Row = Header(name: string) | Entry(name: string, mode: string, index: nat, marked: bool)

  function RowOf(all: seq<Memory>, marked: seq<bool>, i: nat): Row
    requires i < |all| == |marked|
  {
    Entry(all[i].name, all[i].mode, i, marked[i])
  }

  // The header a row stands under.
  function HeaderOf(rows: seq<Row>, r: nat): string
    requires r < |rows|
  {
    if rows[r].Header? then rows[r].name else if r == 0 then [] else HeaderOf(rows, r - 1)
  }

  datatype View = View(all: seq<Memory>, marked: seq<bool>, query: string, byHz: bool) {
    ghost predicate Valid() { |all| == |marked| }
    predicate Shows(i: int) { 0 <= i < |all| && Matches(all[i], query) }
  }

  // Row r is a header, or the entry of a matching memory, under its group's header.
  predicate RowOk(v: View, rows: seq<Row>, r: nat)
    requires v.Valid() && r < |rows|
  {
    rows[r].Entry? ==>
      && v.Shows(rows[r].index) && rows[r] == RowOf(v.all, v.marked, rows[r].index)
      && HeaderOf(rows, r) == GroupOf(v.all[rows[r].index])
  }

  // Rows r < s in their order: headers ascend; entries of one group are sorted and
  // of different memories.
  predicate PairOk(v: View, rows: seq<Row>, r: nat, s: nat)
    requires v.Valid() && r < s < |rows|
  {
    && (rows[r].Header? && rows[s].Header? ==> Less(rows[r].name, rows[s].name))
    && (rows[r].Entry? && rows[s].Entry? ==> rows[r].index != rows[s].index)
    && (rows[r].Entry? && rows[s].Entry? && HeaderOf(rows, r) == HeaderOf(rows, s)
        && rows[r].index < |v.all| && rows[s].index < |v.all| ==>
          InOrder(v.all[rows[r].index], v.all[rows[s].index], v.byHz))
  }

  predicate Appears(rows: seq<Row>, i: nat) {
    exists r :: 0 <= r < |rows| && rows[r].Entry? && rows[r].index == i
  }

  // The rows of a view: every matching memory once, under its group's header, in
  // sort order; headers ascend, and none is empty.
  ghost predicate RowsOk(v: View, rows: seq<Row>) {
    && v.Valid()
    && (forall r :: 0 <= r < |rows| ==> RowOk(v, rows, r))
    && (forall r, s :: 0 <= r < s < |rows| ==> PairOk(v, rows, r, s))
    && (forall i :: v.Shows(i) ==> Appears(rows, i))
    && (forall r :: 0 <= r < |rows| && rows[r].Header? ==> r + 1 < |rows| && rows[r + 1].Entry?)
    && (rows != [] ==> rows[0].Header?)
  }

  // ---- blocks: one group at a time

  // A group with its sorted entries.
  datatype Block = Block(name: string, indices: seq<nat>)

  predicate SortedIndices(v: View, xs: seq<nat>) {
    && (forall k :: 0 <= k < |xs| ==> xs[k] < |v.all|)
    && (forall j, k :: 0 <= j < k < |xs| ==> xs[j] != xs[k] && InOrder(v.all[xs[j]], v.all[xs[k]], v.byHz))
  }

  // The block holds exactly the matching memories of its group.
  ghost predicate BlockOk(v: View, b: Block) {
    && b.indices != [] && SortedIndices(v, b.indices)
    && forall i :: i in b.indices <==> v.Shows(i) && GroupOf(v.all[i]) == b.name
  }

  function BlockRows(v: View, b: Block): (rows: seq<Row>)
    requires v.Valid() && forall k :: 0 <= k < |b.indices| ==> b.indices[k] < |v.all|
    ensures |rows| == |b.indices| + 1
  {
    [Header(b.name)] + seq(|b.indices|, k requires 0 <= k < |b.indices| => RowOf(v.all, v.marked, b.indices[k]))
  }

  lemma {:induction false} HeaderOfConcat(a: seq<Row>, b: seq<Row>, r: nat)
    requires r < |a| + |b| && (b != [] ==> b[0].Header?)
    ensures HeaderOf(a + b, r) == if r < |a| then HeaderOf(a, r) else HeaderOf(b, r - |a|)
  {
    if r > 0 && (a + b)[r].Entry? {
      HeaderOfConcat(a, b, r - 1);
    }
  }

  lemma {:induction false} BlockHeader(v: View, b: Block, r: nat)
    requires v.Valid() && (forall k :: 0 <= k < |b.indices| ==> b.indices[k] < |v.all|) && r <= |b.indices|
    ensures HeaderOf(BlockRows(v, b), r) == b.name
  {
    if r > 0 { BlockHeader(v, b, r - 1); }
  }

  // The rows of a prefix of the groups: complete but for the memories of later groups.
  ghost predicate RowsUpTo(v: View, rows: seq<Row>, names: seq<string>, n: nat)
    requires n <= |names|
  {
    && v.Valid()
    && (forall r :: 0 <= r < |rows| ==> RowOk(v, rows, r))
    && (forall r, s :: 0 <= r < s < |rows| ==> PairOk(v, rows, r, s))
    && (forall r :: 0 <= r < |rows| ==> HeaderOf(rows, r) in names[..n])
    && (forall i :: v.Shows(i) && GroupOf(v.all[i]) in names[..n] ==> Appears(rows, i))
    && (forall r :: 0 <= r < |rows| && rows[r].Header? ==> r + 1 < |rows| && rows[r + 1].Entry?)
    && (rows != [] ==> rows[0].Header?)
  }

  predicate Ascending(names: seq<string>) {
    forall i, j :: 0 <= i < j < |names| ==> Less(names[i], names[j])
  }

  lemma {:induction false} AddBlock(v: View, rows: seq<Row>, names: seq<string>, n: nat, b: Block)
    requires n < |names| && Ascending(names) && RowsUpTo(v, rows, names, n) && b.name == names[n] && BlockOk(v, b)
    ensures RowsUpTo(v, rows + BlockRows(v, b), names, n + 1)
  {
    var more := BlockRows(v, b);
    var out := rows + more;
    assert names[..n + 1] == names[..n] + [names[n]];
    forall r | 0 <= r < |out| ensures RowOk(v, out, r) && HeaderOf(out, r) in names[..n + 1] {
      AddBlockRow(v, rows, names, n, b, r);
    }
    forall r, s | 0 <= r < s < |out| ensures PairOk(v, out, r, s) {
      AddBlockPair(v, rows, names, n, b, r, s);
    }
    forall i | v.Shows(i) && GroupOf(v.all[i]) in names[..n + 1] ensures Appears(out, i) {
      AddBlockAppears(v, rows, names, n, b, i);
    }
    forall r | 0 <= r < |out| && out[r].Header? ensures r + 1 < |out| && out[r + 1].Entry? {}
  }

  lemma AddBlockRow(v: View, rows: seq<Row>, names: seq<string>, n: nat, b: Block, r: nat)
    requires n < |names| && RowsUpTo(v, rows, names, n) && b.name == names[n] && BlockOk(v, b)
    requires r < |rows| + |b.indices| + 1
    ensures var out := rows + BlockRows(v, b); RowOk(v, out, r) && HeaderOf(out, r) in names[..n + 1]
  {
    var more := BlockRows(v, b);
    assert names[..n + 1] == names[..n] + [names[n]];
    HeaderOfConcat(rows, more, r);
    if r < |rows| {
      assert RowOk(v, rows, r);
    } else {
      BlockHeader(v, b, r - |rows|);
      if r > |rows| { assert b.indices[r - |rows| - 1] in b.indices; }
    }
  }

  lemma AddBlockAppears(v: View, rows: seq<Row>, names: seq<string>, n: nat, b: Block, i: int)
    requires n < |names| && RowsUpTo(v, rows, names, n) && b.name == names[n] && BlockOk(v, b)
    requires v.Shows(i) && GroupOf(v.all[i]) in names[..n + 1]
    ensures Appears(rows + BlockRows(v, b), i)
  {
    var out := rows + BlockRows(v, b);
    if GroupOf(v.all[i]) == b.name {
      var k :| 0 <= k < |b.indices| && b.indices[k] == i;
      assert out[|rows| + 1 + k].index == i;
    } else {
      assert names[..n + 1] == names[..n] + [names[n]];
      var r :| 0 <= r < |rows| && rows[r].Entry? && rows[r].index == i;
      assert out[r] == rows[r];
    }
  }

  lemma AddBlockPair(v: View, rows: seq<Row>, names: seq<string>, n: nat, b: Block, r: nat, s: nat)
    requires n < |names| && Ascending(names) && RowsUpTo(v, rows, names, n) && b.name == names[n] && BlockOk(v, b)
    requires r < s < |rows| + |b.indices| + 1
    ensures PairOk(v, rows + BlockRows(v, b), r, s)
  {
    var more := BlockRows(v, b);
    var out := rows + more;
    HeaderOfConcat(rows, more, r);
    HeaderOfConcat(rows, more, s);
    if s < |rows| {
      assert PairOk(v, rows, r, s);
    } else if r >= |rows| {
      BlockHeader(v, b, r - |rows|);
      BlockHeader(v, b, s - |rows|);
    } else {
      assert HeaderOf(rows, r) in names[..n];
      var k :| 0 <= k < n && names[k] == HeaderOf(rows, r);
      LessTotal(names[k], names[n]);
      BlockHeader(v, b, s - |rows|);
      assert RowOk(v, rows, r);
      if rows[r].Entry? && out[s].Entry? { assert out[s].index in b.indices; }
    }
  }

  // With every group done, the rows are those of the view.
  lemma AllBlocks(v: View, rows: seq<Row>, names: seq<string>)
    requires RowsUpTo(v, rows, names, |names|)
    requires forall i :: v.Shows(i) ==> GroupOf(v.all[i]) in names
    ensures RowsOk(v, rows)
  {
    assert names[..|names|] == names;
  }

  // ---- the cursor

  // The cursor is on an entry, or -1 when there is none.
  predicate CursorOk(rows: seq<Row>, sel: int) {
    if 0 <= sel then sel < |rows| && rows[sel].Entry?
    else sel == -1 && forall r :: 0 <= r < |rows| ==> rows[r].Header?
  }

  function FirstEntry(rows: seq<Row>): (r: int)
    ensures CursorOk(rows, r)
    ensures forall k :: 0 <= k < r ==> rows[k].Header?
  {
    if rows == [] then -1
    else
      var n := |rows| - 1;
      var r := FirstEntry(rows[..n]);
      if r >= 0 then r else if rows[n].Entry? then n else -1
  }

  // ---- marks

  const MAX_SCAN: nat := 64

  function Count(marked: seq<bool>): nat {
    if marked == [] then 0 else Count(marked[..|marked| - 1]) + (if marked[|marked| - 1] then 1 else 0)
  }

  lemma {:induction false} CountUpdate(marked: seq<bool>, i: nat, b: bool)
    requires i < |marked|
    ensures Count(marked[i := b]) == Count(marked) + (if b then 1 else 0) - (if marked[i] then 1 else 0)
  {
    var n := |marked| - 1;
    if i < n {
      CountUpdate(marked[..n], i, b);
      assert marked[i := b][..n] == marked[..n][i := b];
    } else {
      assert marked[i := b][..n] == marked[..n];
    }
  }

  lemma {:induction false} CountNone(n: nat)
    ensures Count(seq(n, _ => false)) == 0
  {
    if n > 0 {
      assert seq(n, _ => false)[..n - 1] == seq(n - 1, _ => false);
      CountNone(n - 1);
    }
  }

  lemma {:induction false} NoneMarked(marked: seq<bool>)
    ensures Count(marked) == 0 <==> forall i :: 0 <= i < |marked| ==> !marked[i]
  {
    if marked != [] {
      var n := |marked| - 1;
      NoneMarked(marked[..n]);
      assert marked == marked[..n] + [marked[n]];
    }
  }

  lemma {:induction false} TakenAreCounted(flags: seq<bool>, xs: seq<nat>)
    requires forall k :: 0 <= k < |xs| ==> xs[k] < |flags| && flags[xs[k]]
    requires forall j, k :: 0 <= j < k < |xs| ==> xs[j] != xs[k]
    ensures |xs| <= Count(flags)
    ensures |xs| == Count(flags) ==> forall i :: 0 <= i < |flags| && flags[i] ==> i in xs
    decreases |xs|
  {
    if xs == [] {
      NoneMarked(flags);
    } else {
      var n := |xs| - 1;
      var less := flags[xs[n] := false];
      CountUpdate(flags, xs[n], false);
      TakenAreCounted(less, xs[..n]);
      forall i | 0 <= i < |flags| && flags[i] && |xs| == Count(flags) ensures i in xs {
        if i != xs[n] { assert less[i]; assert i in xs[..n]; }
      }
    }
  }

  lemma {:induction false} CountAtMost(marked: seq<bool>)
    ensures Count(marked) <= |marked|
  {
    if marked != [] { CountAtMost(marked[..|marked| - 1]); }
  }

  lemma {:induction false} CountEvery(n: nat)
    ensures Count(seq(n, _ => true)) == n
  {
    if n > 0 {
      assert seq(n, _ => true)[..n - 1] == seq(n - 1, _ => true);
      CountEvery(n - 1);
    }
  }

  function IdOf(m: Memory): Id { (m.hz, m.name) }

  // The identities to mark after a reload: a renamed memory takes its mark along.
  function MarkedIds(all: seq<Memory>, marked: seq<bool>, now: Id, was: Id): (ids: seq<Id>)
    requires |all| == |marked|
  {
    if all == [] then []
    else
      var n := |all| - 1;
      var ids := MarkedIds(all[..n], marked[..n], now, was);
      if !marked[n] then ids else if IdOf(all[n]) == was then ids + [now] else ids + [IdOf(all[n])]
  }

  function Remarked(all: seq<Memory>, ids: seq<Id>): (marked: seq<bool>)
    ensures |marked| == |all|
  {
    if all == [] then [] else Remarked(all[..|all| - 1], ids) + [IdOf(all[|all| - 1]) in ids]
  }

  lemma {:induction false} RemarkedAt(all: seq<Memory>, ids: seq<Id>, i: nat)
    requires i < |all|
    ensures Remarked(all, ids)[i] <==> IdOf(all[i]) in ids
  {
    if i < |all| - 1 {
      RemarkedAt(all[..|all| - 1], ids, i);
    }
  }

  lemma {:induction false} MarkedIdsCount(all: seq<Memory>, marked: seq<bool>, now: Id, was: Id)
    requires |all| == |marked|
    ensures |MarkedIds(all, marked, now, was)| == Count(marked)
  {
    if all != [] {
      MarkedIdsCount(all[..|all| - 1], marked[..|all| - 1], now, was);
    }
  }

  // Marks follow identities: an entry is marked after the reload exactly when a
  // marked memory had its identity before, or was renamed to it.
  lemma {:induction false} MarksFollow(all: seq<Memory>, marked: seq<bool>, now: Id, was: Id, id: Id)
    requires |all| == |marked|
    ensures id in MarkedIds(all, marked, now, was) <==>
            exists i :: 0 <= i < |all| && marked[i] && id == if IdOf(all[i]) == was then now else IdOf(all[i])
  {
    if all != [] {
      var n := |all| - 1;
      MarksFollow(all[..n], marked[..n], now, was, id);
      assert forall i :: 0 <= i < n ==> all[..n][i] == all[i] && marked[..n][i] == marked[i];
      if marked[n] && id == (if IdOf(all[n]) == was then now else IdOf(all[n])) { assert id in MarkedIds(all, marked, now, was); }
    }
  }

  // What a reload does to the marks: a memory is marked afterwards exactly when a
  // marked one had its identity before, or was renamed to it.
  lemma MarksAfterReload(all: seq<Memory>, marked: seq<bool>, now: Id, was: Id, loaded: seq<Memory>, j: nat)
    requires |all| == |marked| && j < |loaded|
    ensures Remarked(loaded, MarkedIds(all, marked, now, was))[j] <==>
            exists i :: 0 <= i < |all| && marked[i] && IdOf(loaded[j]) == if IdOf(all[i]) == was then now else IdOf(all[i])
  {
    RemarkedAt(loaded, MarkedIds(all, marked, now, was), j);
    MarksFollow(all, marked, now, was, IdOf(loaded[j]));
  }

  // The marked identities of a distinct list, as a set.
  function IdSet(all: seq<Memory>, ids: seq<Id>): set<Id> {
    if all == [] then {}
    else
      var n := |all| - 1;
      if IdOf(all[n]) in ids then IdSet(all[..n], ids) + {IdOf(all[n])} else IdSet(all[..n], ids)
  }

  lemma {:induction false} IdSetCounts(all: seq<Memory>, ids: seq<Id>)
    requires Distinct(all)
    ensures Count(Remarked(all, ids)) == |IdSet(all, ids)|
    ensures forall x :: x in IdSet(all, ids) ==> x in ids && exists i :: 0 <= i < |all| && IdOf(all[i]) == x
  {
    if all != [] {
      IdSetCounts(all[..|all| - 1], ids);
    }
  }

  lemma {:induction false} SetOfSeq(s: set<Id>, ids: seq<Id>)
    requires forall x :: x in s ==> x in ids
    ensures |s| <= |ids|
  {
    if ids != [] {
      var n := |ids| - 1;
      forall x | x in s - {ids[n]} ensures x in ids[..n] {}
      SetOfSeq(s - {ids[n]}, ids[..n]);
    } else {
      assert forall x :: x !in s;
      assert s == {};
    }
  }

  lemma DistinctAddsNoMarks(loaded: seq<Memory>, all: seq<Memory>, marked: seq<bool>, now: Id, was: Id)
    requires Distinct(loaded) && |all| == |marked|
    ensures Count(Remarked(loaded, MarkedIds(all, marked, now, was))) <= Count(marked)
  {
    var ids := MarkedIds(all, marked, now, was);
    IdSetCounts(loaded, ids);
    SetOfSeq(IdSet(loaded, ids), ids);
    MarkedIdsCount(all, marked, now, was);
  }

  // A reload can never add marks, whatever was marked before, if and only if the
  // loaded list has no two memories of the same identity.
  ghost predicate NeverAddsMarks(loaded: seq<Memory>) {
    forall all: seq<Memory>, marked: seq<bool>, now: Id, was: Id :: |all| == |marked| ==>
      Count(Remarked(loaded, MarkedIds(all, marked, now, was))) <= Count(marked)
  }

  lemma ReloadAddsNoMarksIff(loaded: seq<Memory>)
    ensures NeverAddsMarks(loaded) <==> Distinct(loaded)
  {
    if Distinct(loaded) {
      forall all: seq<Memory>, marked: seq<bool>, now: Id, was: Id | |all| == |marked|
        ensures Count(Remarked(loaded, MarkedIds(all, marked, now, was))) <= Count(marked)
      {
        DistinctAddsNoMarks(loaded, all, marked, now, was);
      }
    } else {
      var i, j :| 0 <= i < j < |loaded| && Same(loaded[i], loaded[j].hz, loaded[j].name);
      MarksWithTwin(loaded, [i], i, j);
      var all, marked, id := Picked(loaded, [i]), seq(1, _ => true), NO_ID;
      assert |all| == |marked| && Count(Remarked(loaded, MarkedIds(all, marked, id, id))) > Count(marked);
    }
  }

  // The lists a reload can pass the limit with have more memories than the limit, and
  // two of the same identity.
  predicate LimitSafe(loaded: seq<Memory>) { |loaded| <= 64 || Distinct(loaded) }

  lemma ReloadKeepsLimit(loaded: seq<Memory>, all: seq<Memory>, marked: seq<bool>, now: Id, was: Id)
    requires LimitSafe(loaded) && |all| == |marked| && Count(marked) <= 64
    ensures Count(Remarked(loaded, MarkedIds(all, marked, now, was))) <= 64
  {
    CountAtMost(Remarked(loaded, MarkedIds(all, marked, now, was)));
    if Distinct(loaded) { DistinctAddsNoMarks(loaded, all, marked, now, was); }
  }

  // No state within the limit passes it by this reload.
  ghost predicate NeverPassesLimit(loaded: seq<Memory>) {
    forall all: seq<Memory>, marked: seq<bool>, now: Id, was: Id :: |all| == |marked| && Count(marked) <= 64 ==>
      Count(Remarked(loaded, MarkedIds(all, marked, now, was))) <= 64
  }

  // The limit, exactly. For any other list 64 marks pass it that are on one of two
  // memories of the same identity and on 63 others.
  lemma ReloadKeepsLimitIff(loaded: seq<Memory>)
    ensures NeverPassesLimit(loaded) <==> |loaded| <= 64 || Distinct(loaded)
  {
    hide Count, Remarked, MarkedIds;
    if LimitSafe(loaded) {
      forall all: seq<Memory>, marked: seq<bool>, now: Id, was: Id | |all| == |marked| && Count(marked) <= 64
        ensures Count(Remarked(loaded, MarkedIds(all, marked, now, was))) <= 64
      {
        ReloadKeepsLimit(loaded, all, marked, now, was);
      }
    } else {
      var i, j :| 0 <= i < j < |loaded| && Same(loaded[i], loaded[j].hz, loaded[j].name);
      var xs := OtherPlaces(i, j, MAX_SCAN + 1)[..MAX_SCAN - 1] + [i];
      MarksWithTwin(loaded, xs, i, j);
      var all, marked, id := Picked(loaded, xs), seq(MAX_SCAN, _ => true), NO_ID;
      assert |all| == |marked| && Count(marked) <= MAX_SCAN
          && Count(Remarked(loaded, MarkedIds(all, marked, id, id))) > MAX_SCAN;
    }
  }

  const NO_ID: Id := (0, [])

  // The places before n other than i and j.
  function OtherPlaces(i: nat, j: nat, n: nat): (xs: seq<nat>)
    ensures |xs| + (if i < n then 1 else 0) + (if j < n then 1 else 0) >= n
    ensures forall k :: 0 <= k < |xs| ==> xs[k] < n && xs[k] != i && xs[k] != j
    ensures forall k, l :: 0 <= k < l < |xs| ==> xs[k] != xs[l]
  {
    if n == 0 then [] else if n - 1 == i || n - 1 == j then OtherPlaces(i, j, n - 1) else OtherPlaces(i, j, n - 1) + [n - 1]
  }

  predicate Places(loaded: seq<Memory>, xs: seq<nat>) {
    && (forall k :: 0 <= k < |xs| ==> xs[k] < |loaded|)
    && forall k, l :: 0 <= k < l < |xs| ==> xs[k] != xs[l]
  }

  function Picked(loaded: seq<Memory>, xs: seq<nat>): (all: seq<Memory>)
    requires Places(loaded, xs)
    ensures |all| == |xs|
  {
    seq(|xs|, k requires 0 <= k < |xs| => loaded[xs[k]])
  }

  // The memories at these places, i among them, all marked: a list with i's twin at j
  // marks one more.
  lemma MarksWithTwin(loaded: seq<Memory>, xs: seq<nat>, i: nat, j: nat)
    requires Places(loaded, xs) && i in xs && j !in xs && i < |loaded| && j < |loaded|
    requires Same(loaded[i], loaded[j].hz, loaded[j].name)
    ensures var marked := seq(|xs|, _ => true);
            && Count(marked) == |xs|
            && Count(Remarked(loaded, MarkedIds(Picked(loaded, xs), marked, NO_ID, NO_ID))) > |xs|
  {
    hide Remarked, MarkedIds, Count, Picked;
    var all, marked := Picked(loaded, xs), seq(|xs|, _ => true);
    var flags := Remarked(loaded, MarkedIds(all, marked, NO_ID, NO_ID));
    CountEvery(|xs|);
    forall k | 0 <= k < |xs| ensures flags[xs[k]] { PickedIsMarked(loaded, xs, k, xs[k]); }
    var k :| 0 <= k < |xs| && xs[k] == i;
    PickedIsMarked(loaded, xs, k, j);
    TakenAreCounted(flags, xs + [j]);
  }

  lemma PickedIsMarked(loaded: seq<Memory>, xs: seq<nat>, k: nat, j: nat)
    requires Places(loaded, xs) && k < |xs| && j < |loaded| && IdOf(loaded[j]) == IdOf(loaded[xs[k]])
    ensures Remarked(loaded, MarkedIds(Picked(loaded, xs), seq(|xs|, _ => true), NO_ID, NO_ID))[j]
  {
    var all, marked := Picked(loaded, xs), seq(|xs|, _ => true);
    MarksAfterReload(all, marked, NO_ID, NO_ID, loaded, j);
    assert marked[k] && IdOf(all[k]) == IdOf(loaded[j]);
  }
}
