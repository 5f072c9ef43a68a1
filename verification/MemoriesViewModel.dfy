// The Memories list (apps/memories/src/viewmodel/memories_viewmodel.cpp): rows,
// cursor, scan marks and the two-press delete, kept right by every action. What the
// shared file holds when an action reloads it is a parameter: other programs write
// it too.
module MemoriesViewModel {
  import opened MemoriesStore
  import opened Options
  import opened MemoriesRows
  import opened MemoriesScan
  import D = MemoriesDelete

  // ---- the pieces of the rebuild

  // Insertion keeps a sorted list sorted; std::sort is any such sort.
  function InsertIndex(v: View, xs: seq<nat>, e: nat): (r: seq<nat>)
    requires e < |v.all| && forall k :: 0 <= k < |xs| ==> xs[k] < |v.all|
    ensures multiset(r) == multiset(xs) + multiset{e} && |r| == |xs| + 1
    ensures forall k :: 0 <= k < |r| ==> r[k] < |v.all|
  {
    if xs == [] || InOrder(v.all[xs[|xs| - 1]], v.all[e], v.byHz) then xs + [e]
    else
      var n := |xs| - 1;
      assert xs == xs[..n] + [xs[n]];
      InsertIndex(v, xs[..n], e) + [xs[n]]
  }

  lemma {:induction false} InsertIndexSorted(v: View, xs: seq<nat>, e: nat)
    requires e < |v.all| && SortedIndices(v, xs) && e !in xs
    ensures SortedIndices(v, InsertIndex(v, xs, e))
  {
    hide InOrder;
    var n := |xs| - 1;
    if xs == [] || InOrder(v.all[xs[n]], v.all[e], v.byHz) {
      forall j | 0 <= j < |xs| ensures Precedes(v, xs[j], e) {
        if j < n { InOrderTransitive(v.all[xs[j]], v.all[xs[n]], v.all[e], v.byHz); }
      }
      SortedMore(v, xs, e);
    } else {
      var r := InsertIndex(v, xs[..n], e);
      InsertIndexSorted(v, xs[..n], e);
      forall j | 0 <= j < |r| ensures Precedes(v, r[j], xs[n]) {
        InsertedFrom(v, xs[..n], e, r[j]);
        if r[j] == e { NotAfter(v.all[xs[n]], v.all[e], v.byHz); }
      }
      SortedMore(v, r, xs[n]);
    }
  }

  predicate Precedes(v: View, a: nat, b: nat) {
    a < |v.all| && b < |v.all| && a != b && InOrder(v.all[a], v.all[b], v.byHz)
  }

  lemma SortedMore(v: View, xs: seq<nat>, e: nat)
    requires SortedIndices(v, xs) && e < |v.all| && forall j :: 0 <= j < |xs| ==> Precedes(v, xs[j], e)
    ensures SortedIndices(v, xs + [e])
  {
    hide InOrder;
  }

  lemma InsertedFrom(v: View, xs: seq<nat>, e: nat, x: nat)
    requires e < |v.all| && (forall k :: 0 <= k < |xs| ==> xs[k] < |v.all|) && x in InsertIndex(v, xs, e)
    ensures x in xs || x == e
  {
    assert x in multiset(InsertIndex(v, xs, e));
    hide InsertIndex;
  }

  lemma NotAfter(a: Memory, b: Memory, byHz: bool)
    requires !InOrder(a, b, byHz)
    ensures InOrder(b, a, byHz)
  {
    BeforeIsStrict(b, a, byHz);
  }

  method SortIndices(v: View, xs: seq<nat>) returns (r: seq<nat>)
    requires forall k :: 0 <= k < |xs| ==> xs[k] < |v.all|
    requires forall j, k :: 0 <= j < k < |xs| ==> xs[j] != xs[k]
    ensures SortedIndices(v, r) && multiset(r) == multiset(xs)
  {
    r := [];
    for i := 0 to |xs|
      invariant SortedIndices(v, r) && multiset(r) == multiset(xs[..i])
    {
      assert xs[i] !in multiset(xs[..i]);
      assert forall x :: x in r <==> x in multiset(r);
      InsertIndexSorted(v, r, xs[i]);
      r := InsertIndex(v, r, xs[i]);
      assert xs[..i + 1] == xs[..i] + [xs[i]];
    }
    assert xs[..|xs|] == xs;
  }

  function InsertName(names: seq<string>, g: string): (r: seq<string>)
    ensures forall x :: x in r <==> x in names || x == g
  {
    if names == [] || Less(names[|names| - 1], g) then names + [g]
    else
      var n := |names| - 1;
      assert names == names[..n] + [names[n]];
      InsertName(names[..n], g) + [names[n]]
  }

  lemma {:induction false} InsertNameAscending(names: seq<string>, g: string)
    requires Ascending(names) && g !in names
    ensures Ascending(InsertName(names, g))
  {
    var n := |names| - 1;
    if names == [] || Less(names[n], g) {
      forall i | 0 <= i < |names| ensures Less(names[i], g) {
        if i < n { LessTransitive(names[i], names[n], g); }
      }
    } else {
      InsertNameAscending(names[..n], g);
      LessTotal(names[n], g);
      var r := InsertName(names[..n], g);
      forall i | 0 <= i < |r| ensures Less(r[i], names[n]) {
        assert r[i] in r;
        if r[i] != g { assert r[i] in names[..n]; }
      }
    }
  }

  // The groups after the first n memories: their names ascend, and each lists its
  // matching memories.
  ghost predicate GroupsOk(v: View, names: seq<string>, groups: map<string, seq<nat>>, n: nat) {
    && n <= |v.all| && Ascending(names)
    && (forall g :: g in names <==> g in groups)
    && (forall g :: g in groups ==> GroupListOk(v, groups[g], g, n))
    && (forall i :: v.Shows(i) && i < n ==> GroupOf(v.all[i]) in groups)
  }

  ghost predicate GroupListOk(v: View, xs: seq<nat>, g: string, n: nat)
    requires n <= |v.all|
  {
    && xs != [] && (forall i :: i in xs <==> v.Shows(i) && i < n && GroupOf(v.all[i]) == g)
    && (forall j, k :: 0 <= j < k < |xs| ==> xs[j] < xs[k])
  }

  lemma GroupsNext(v: View, names: seq<string>, groups: map<string, seq<nat>>, n: nat)
    requires GroupsOk(v, names, groups, n) && n < |v.all|
    ensures !v.Shows(n) ==> GroupsOk(v, names, groups, n + 1)
    ensures v.Shows(n) ==>
              var g := GroupOf(v.all[n]);
              if g in groups then GroupsOk(v, names, groups[g := groups[g] + [n]], n + 1)
              else GroupsOk(v, InsertName(names, g), groups[g := [n]], n + 1)
  {
    if v.Shows(n) {
      var g := GroupOf(v.all[n]);
      var groups' := groups[g := if g in groups then groups[g] + [n] else [n]];
      if g !in groups { InsertNameAscending(names, g); }
      forall h | h in groups' ensures GroupListOk(v, groups'[h], h, n + 1) {
        if h in groups { assert GroupListOk(v, groups[h], h, n); }
        if h == g && g in groups {
          var xs := groups[g];
          forall k | 0 <= k < |xs| ensures xs[k] < n { assert xs[k] in xs; }
        }
      }
    } else {
      forall h | h in groups ensures GroupListOk(v, groups[h], h, n + 1) { assert GroupListOk(v, groups[h], h, n); }
    }
  }

  /** The groups of the matching memories, then their headers and sorted entries. */
  method Layout(v: View) returns (rows: seq<Row>)
    requires v.Valid()
    ensures RowsOk(v, rows)
  {
    var names: seq<string> := [];
    var groups: map<string, seq<nat>> := map[];
    for i := 0 to |v.all|
      invariant GroupsOk(v, names, groups, i)
    {
      GroupsNext(v, names, groups, i);
      if Matches(v.all[i], v.query) {
        var g := GroupOf(v.all[i]);
        if g !in groups { names := InsertName(names, g); }
        groups := groups[g := if g in groups then groups[g] + [i] else [i]];
      }
    }
    rows := [];
    for n := 0 to |names|
      invariant RowsUpTo(v, rows, names, n)
    {
      rows := LayBlock(v, rows, names, groups, n);
    }
    AllBlocks(v, rows, names);
  }

  method LayBlock(v: View, rows: seq<Row>, names: seq<string>, groups: map<string, seq<nat>>, n: nat) returns (out: seq<Row>)
    requires v.Valid() && GroupsOk(v, names, groups, |v.all|) && n < |names| && RowsUpTo(v, rows, names, n)
    ensures RowsUpTo(v, out, names, n + 1)
  {
    var name := names[n];
    assert name in groups && GroupListOk(v, groups[name], name, |v.all|);
    GroupIndices(v, groups[name], name);
    var indices := SortIndices(v, groups[name]);
    BlockFromSort(v, groups[name], indices, name);
    AddBlock(v, rows, names, n, Block(name, indices));
    out := rows + BlockRows(v, Block(name, indices));
  }

  lemma GroupIndices(v: View, xs: seq<nat>, g: string)
    requires GroupListOk(v, xs, g, |v.all|)
    ensures forall k :: 0 <= k < |xs| ==> xs[k] < |v.all|
  {
    forall k | 0 <= k < |xs| ensures xs[k] < |v.all| { assert xs[k] in xs; }
  }

  lemma BlockFromSort(v: View, xs: seq<nat>, sorted: seq<nat>, g: string)
    requires GroupListOk(v, xs, g, |v.all|) && SortedIndices(v, sorted) && multiset(sorted) == multiset(xs)
    ensures BlockOk(v, Block(g, sorted))
  {
    assert |multiset(sorted)| == |sorted| && |multiset(xs)| == |xs|;
    forall i ensures i in sorted <==> i in xs {
      assert i in sorted <==> i in multiset(sorted);
      assert i in xs <==> i in multiset(xs);
    }
  }

  /** The row of a memory, or -1. */
  method RowShowing(v: View, rows: seq<Row>, i: nat) returns (r: int)
    requires RowsOk(v, rows)
    ensures if v.Shows(i) then 0 <= r < |rows| && rows[r].Entry? && rows[r].index == i else r == -1
  {
    var k := 0;
    while k < |rows|
      invariant 0 <= k <= |rows|
      invariant forall j :: 0 <= j < k ==> !(rows[j].Entry? && rows[j].index == i)
    {
      if rows[k].Entry? && rows[k].index == i {
        assert RowOk(v, rows, k);
        return k;
      }
      k := k + 1;
    }
    assert v.Shows(i) ==> Appears(rows, i);
    return -1;
  }

  // ---- marks in the rows

  function Repainted(row: Row, marked: seq<bool>): Row {
    if row.Entry? && row.index < |marked| then row.(marked := marked[row.index]) else row
  }

  lemma {:induction false} HeaderOfRepainted(rows: seq<Row>, out: seq<Row>, marked: seq<bool>, r: nat)
    requires |out| == |rows| && r < |rows| && forall k :: 0 <= k < |rows| ==> out[k] == Repainted(rows[k], marked)
    ensures HeaderOf(out, r) == HeaderOf(rows, r)
  {
    if r > 0 && rows[r].Entry? { HeaderOfRepainted(rows, out, marked, r - 1); }
  }

  // Rows repainted with new marks are the rows of the view with those marks.
  lemma {:induction false} RepaintRows(v: View, rows: seq<Row>, marked: seq<bool>, out: seq<Row>)
    requires RowsOk(v, rows) && |marked| == |v.all|
    requires |out| == |rows| && forall k :: 0 <= k < |rows| ==> out[k] == Repainted(rows[k], marked)
    ensures RowsOk(v.(marked := marked), out)
  {
    var v' := v.(marked := marked);
    forall r | 0 <= r < |out| ensures RowOk(v', out, r) {
      assert RowOk(v, rows, r);
      HeaderOfRepainted(rows, out, marked, r);
    }
    forall r, s | 0 <= r < s < |out| ensures PairOk(v', out, r, s) {
      assert PairOk(v, rows, r, s);
      HeaderOfRepainted(rows, out, marked, r);
      HeaderOfRepainted(rows, out, marked, s);
    }
    forall i | v'.Shows(i) ensures Appears(out, i) {
      assert v.Shows(i);
      var r :| 0 <= r < |rows| && rows[r].Entry? && rows[r].index == i;
      assert out[r].index == i;
    }
  }

  // Changing one mark changes one row.
  lemma RemarkRow(v: View, rows: seq<Row>, r: nat, b: bool)
    requires RowsOk(v, rows) && r < |rows| && rows[r].Entry? && rows[r].index < |v.all|
    ensures RowsOk(v.(marked := v.marked[rows[r].index := b]), rows[r := rows[r].(marked := b)])
  {
    var i := rows[r].index;
    var marked, out := v.marked[i := b], rows[r := rows[r].(marked := b)];
    forall k | 0 <= k < |rows| ensures out[k] == Repainted(rows[k], marked) {
      assert RowOk(v, rows, k);
      if k < r { assert PairOk(v, rows, k, r); }
      if r < k { assert PairOk(v, rows, r, k); }
    }
    RepaintRows(v, rows, marked, out);
  }

  method ClearRows(v: View, rows: seq<Row>) returns (out: seq<Row>)
    requires RowsOk(v, rows)
    ensures |out| == |rows| && forall k :: 0 <= k < |rows| ==> out[k].Entry? == rows[k].Entry?
    ensures RowsOk(v.(marked := seq(|v.marked|, _ => false)), out)
  {
    out := [];
    ghost var none := seq(|v.marked|, _ => false);
    for r := 0 to |rows|
      invariant |out| == r && forall k :: 0 <= k < r ==> out[k] == Repainted(rows[k], none)
    {
      assert RowOk(v, rows, r);
      out := out + [if rows[r].Entry? then rows[r].(marked := false) else rows[r]];
    }
    RepaintRows(v, rows, none, out);
  }

  method MarkedIdentities(all: seq<Memory>, marked: seq<bool>, now: Id, was: Id) returns (ids: seq<Id>)
    requires |all| == |marked|
    ensures ids == MarkedIds(all, marked, now, was)
  {
    ids := [];
    for i := 0 to |all|
      invariant ids == MarkedIds(all[..i], marked[..i], now, was)
    {
      assert all[..i + 1][..i] == all[..i] && marked[..i + 1][..i] == marked[..i];
      if marked[i] {
        ids := ids + [if IdOf(all[i]) == was then now else IdOf(all[i])];
      }
    }
    assert all[..|all|] == all && marked[..|all|] == marked;
  }

  method MarkLoaded(all: seq<Memory>, ids: seq<Id>) returns (marked: seq<bool>, count: nat)
    ensures marked == Remarked(all, ids) && count == Count(marked)
  {
    marked, count := [], 0;
    for i := 0 to |all|
      invariant marked == Remarked(all[..i], ids) && count == Count(marked)
    {
      assert all[..i + 1][..i] == all[..i];
      var found := false;
      for k := 0 to |ids|
        invariant found <==> IdOf(all[i]) in ids[..k]
      {
        assert ids[..k + 1] == ids[..k] + [ids[k]];
        if all[i].hz == ids[k].0 && all[i].name == ids[k].1 {
          found := true;
        }
      }
      assert ids[..|ids|] == ids;
      assert (marked + [found])[..i] == marked;
      marked := marked + [found];
      if found { count := count + 1; }
    }
    assert all[..|all|] == all;
  }

  // ---- the view model

  // What a rebuild does to the cursor: it stays on its memory when that is shown.
  predicate CursorKept(v: View, rows: seq<Row>, was: Option<nat>, sel: int) {
    if was.Some? && v.Shows(was.value) then 0 <= sel < |rows| && rows[sel].Entry? && rows[sel].index == was.value
    else sel == FirstEntry(rows)
  }

  // The entry a cursor is on, as a memory index.
  function EntryAt(rows: seq<Row>, sel: int): Option<nat> {
    if 0 <= sel < |rows| && rows[sel].Entry? then Some(rows[sel].index) else None
  }

  function IdAt(all: seq<Memory>, rows: seq<Row>, sel: int): Option<Id> {
    var i := EntryAt(rows, sel);
    if i.Some? && i.value < |all| then Some(IdOf(all[i.value])) else None
  }

  // The first row that shows this identity.
  predicate FirstShowing(all: seq<Memory>, rows: seq<Row>, id: Id, r: int) {
    0 <= r < |rows| && IdAt(all, rows, r) == Some(id) && forall k :: 0 <= k < r ==> IdAt(all, rows, k) != Some(id)
  }

  predicate ShowsId(all: seq<Memory>, rows: seq<Row>, id: Id) {
    exists r :: 0 <= r < |rows| && IdAt(all, rows, r) == Some(id)
  }

  // The last entry at or before a row, or else the first entry.
  function Fallback(rows: seq<Row>, row: int): (r: int)
    requires row < |rows|
    ensures CursorOk(rows, r)
    ensures forall k :: 0 <= k <= row && rows[k].Entry? ==> k <= r <= row
    ensures (forall k :: 0 <= k <= row ==> rows[k].Header?) ==> r == FirstEntry(rows)
    decreases row + 1
  {
    if row < 0 then FirstEntry(rows) else if rows[row].Header? then Fallback(rows, row - 1) else row
  }

  // Where the cursor goes: the first row of the identity, or else the entry at or
  // before the given row.
  predicate LandsOn(all: seq<Memory>, rows: seq<Row>, id: Id, fallbackRow: int, row: int) {
    if ShowsId(all, rows, id) then FirstShowing(all, rows, id, row)
    else row == Fallback(rows, if fallbackRow < |rows| then fallbackRow else |rows| - 1)
  }

  method Land(all: seq<Memory>, rows: seq<Row>, id: Id, fallbackRow: int) returns (row: int)
    ensures LandsOn(all, rows, id, fallbackRow, row) && CursorOk(rows, row)
  {
    for i := 0 to |rows|
      invariant forall k :: 0 <= k < i ==> IdAt(all, rows, k) != Some(id)
    {
      if IdAt(all, rows, i) == Some(id) {
        return i;
      }
    }
    row := if fallbackRow < |rows| then fallbackRow else |rows| - 1;
    ghost var from := row;
    while row >= 0 && rows[row].Header?
      invariant row < |rows| && Fallback(rows, row) == Fallback(rows, from)
    {
      row := row - 1;
    }
    if row < 0 {
      row := FirstEntry(rows);
    }
  }

  // The row k steps away.
  function Reach(was: int, direction: int, k: nat): int { was + k * direction }

  lemma Reaches(was: int, direction: int, k: nat)
    ensures Reach(was, direction, k + 1) == Reach(was, direction, k) + direction
  {
    assert (k + 1) * direction == k * direction + direction;
  }

  // The rows before step n are headers.
  predicate AllHeaders(rows: seq<Row>, direction: int, was: int, n: nat) {
    forall k :: 1 <= k < n ==> 0 <= Reach(was, direction, k) < |rows| && rows[Reach(was, direction, k)].Header?
  }

  // Step n is the first that is past the rows or on an entry.
  predicate Stops(rows: seq<Row>, direction: int, was: int, n: nat) {
    && n >= 1 && AllHeaders(rows, direction, was, n)
    && var r := Reach(was, direction, n); 0 <= r < |rows| ==> rows[r].Entry?
  }

  // The row a move lands on: the first entry that way, or none and it stays.
  ghost predicate MovedTo(rows: seq<Row>, direction: int, was: int, now: int) {
    exists n :: Stops(rows, direction, was, n) &&
                var r := Reach(was, direction, n); now == if 0 <= r < |rows| then r else was
  }

  method NextEntry(rows: seq<Row>, was: int, direction: int) returns (now: int)
    requires direction != 0 && 0 <= was < |rows| && rows[was].Entry?
    ensures MovedTo(rows, direction, was, now) && CursorOk(rows, now)
  {
    ghost var n := 1;
    var row := was + direction;
    while 0 <= row < |rows|
      invariant n >= 1 && row == Reach(was, direction, n) && AllHeaders(rows, direction, was, n)
      decreases if direction > 0 then |rows| - row else row + 1
    {
      if rows[row].Entry? {
        assert Stops(rows, direction, was, n);
        return row;
      }
      Reaches(was, direction, n);
      row := row + direction;
      n := n + 1;
    }
    assert Stops(rows, direction, was, n);
    now := was;
  }

  lemma RowsHaveMarks(v: View, rows: seq<Row>)
    requires RowsOk(v, rows)
    ensures v.Valid()
  {}

  lemma ReloadedMarks(loaded: seq<Memory>, all: seq<Memory>, marked: seq<bool>, now: Id, was: Id)
    requires |all| == |marked|
    ensures var after := Count(Remarked(loaded, MarkedIds(all, marked, now, was)));
            && (Distinct(loaded) ==> after <= Count(marked))
            && (LimitSafe(loaded) && Count(marked) <= 64 ==> after <= 64)
  {
    if Distinct(loaded) { DistinctAddsNoMarks(loaded, all, marked, now, was); }
    if LimitSafe(loaded) && Count(marked) <= 64 { ReloadKeepsLimit(loaded, all, marked, now, was); }
  }

  // The state after a reload: marks follow identities, from was to now for a renamed
  // memory, and the cursor is on the memory called now or else near the given row.
  ghost predicate AfterReload(before: View, after: View, rows: seq<Row>, sel: int,
                              loaded: seq<Memory>, now: Id, fallbackRow: int, was: Id)
    requires before.Valid()
  {
    && after == View(loaded, Remarked(loaded, MarkedIds(before.all, before.marked, now, was)), before.query, before.byHz)
    && LandsOn(loaded, rows, now, fallbackRow, sel)
  }

  // What one press of the mark key makes of the marks, with the cursor on entry i.
  predicate Toggled(marked: seq<bool>, count: int, i: Option<nat>, after: seq<bool>) {
    if i.None? || i.value >= |marked| || (!marked[i.value] && count == 64) then after == marked
    else after == marked[i.value := !marked[i.value]]
  }

  // What a scan request picks, with the cursor on entry i.
  ghost predicate Picks(v: View, i: nat, forceGroup: bool, usesMarks: bool, scan: seq<nat>, total: nat)
    requires v.Valid() && i < |v.all|
  {
    && usesMarks == (!forceGroup && exists j :: 0 <= j < |v.marked| && v.marked[j])
    && IsScan(v, if usesMarks then None else Some(GroupOf(v.all[i])), scan, total) && scan != []
  }

  // The memory handed to the SDR program: the one of entry i, when it can be opened.
  predicate HandedOver(v: View, opens: bool, i: Option<nat>, handoff: Option<Memory>) {
    if opens && i.Some? then i.value < |v.all| && handoff == Some(v.all[i.value]) else handoff == None
  }

  // What the edit dialog starts from: the memory as it was selected.
  datatype Draft = Draft(hz: int, name: string, mode: string, group: string)

  function DraftOf(m: Memory): Draft { Draft(m.hz, m.name, m.mode, if m.tags == [] then [] else m.tags[0]) }

  // What an edit request leaves, with the cursor on entry i.
  predicate Drafted(v: View, asked: bool, i: Option<nat>, was: Draft, requests: nat, now: Draft, after: nat) {
    if asked && i.Some? then
      && i.value < |v.all| && after == requests + 1
      && now.hz == v.all[i.value].hz && now.name == v.all[i.value].name && now.mode == v.all[i.value].mode
      && now.group == if v.all[i.value].tags == [] then [] else v.all[i.value].tags[0]
    else now == was && after == requests
  }

  // What changing a memory in the file came to.
  datatype EditResult = Saved | NotFound | NotDone

  // What the surroundings answer while a key is handled: the time, whether the SDR
  // program is there, how removing and changing in the file went, and what it then holds.
  datatype Env = Env(now: int, available: bool, removed: bool, result: EditResult, loaded: seq<Memory>)

  // What a key of the MEM page does to the cursor.
  ghost predicate MemDone(rows: seq<Row>, slot: int, was: int, now: int) {
    if (slot == 1 || slot == 2) && rows != [] then MovedTo(rows, if slot == 1 then -1 else 1, was, now) else now == was
  }

  // What a key of the SCAN page does to the marks and the scan, with the cursor on entry
  // i before.
  ghost predicate ScanDone(before: View, after: View, count: int, now: int, i: Option<nat>, slot: int, available: bool,
                           usesMarks: bool, scan: seq<nat>, total: nat)
    requires before.Valid()
  {
    && after == before.(marked := after.marked)
    && (slot == 1 ==> Toggled(before.marked, count, i, after.marked))
    && (slot == 4 ==> now == 0 && forall k :: 0 <= k < |after.marked| ==> !after.marked[k])
    && (slot != 1 && slot != 4 ==> after == before)
    && ((slot == 2 || slot == 3) && i.Some? && available ==>
          i.value < |before.all| && Picks(before, i.value, slot == 3, usesMarks, scan, total))
  }

  // What a key of the EDIT page does to the list: next mode and delete reload it.
  ghost predicate EditDone(before: View, after: View, rows: seq<Row>, was: int, sel: int, slot: int, env: Env,
                           called: Option<Id>, id: Option<Id>)
    requires before.Valid()
  {
    if slot == 3 && called.Some? then
      AfterReload(before, after, rows, sel, env.loaded, if env.removed then NO_ID else called.value, was, NO_ID)
    else if slot == 2 && id.Some? && !env.result.NotDone? then
      AfterReload(before, after, rows, sel, env.loaded, if env.result.Saved? then id.value else NO_ID, was, NO_ID)
    else after == before && sel == was
  }

  // The user reaches ToggleMark, ClearMarks and PrepareScan through NavActivate only,
  // which disarms first.
  class MemoriesViewModel {
    var memories: seq<Memory>
    var marked: seq<bool>
    var markedCount: int
    var rows: seq<Row>
    var query: string
    var sortByHz: bool
    var selectedRow: int
    var pendingScan: seq<nat>
    var pendingTotal: nat
    var scanUsesMarks: bool
    var deleteArmed: bool
    var deleteHz: int
    var deleteName: string
    var deleteArmedAt: int
    var editDraft: Draft
    var editRequests: nat
    var searchRequests: nat
    ghost var acts: seq<D.Act>

    function V(): View
      reads this
    {
      View(memories, marked, query, sortByHz)
    }

    function ArmState(): D.Arm
      reads this
    {
      D.Arm(deleteArmed, deleteHz, deleteName, deleteArmedAt)
    }

    ghost predicate Valid()
      reads this
    {
      RowsOk(V(), rows) && CursorOk(rows, selectedRow) && markedCount == Count(marked) && ArmState() == D.Run(acts)
    }

    // The identity of the selected memory.
    function Selected(): Option<Id>
      reads this
    {
      IdAt(memories, rows, selectedRow)
    }

    constructor (loaded: seq<Memory>)
      ensures Valid() && memories == loaded && marked == seq(|loaded|, _ => false) && query == [] && !sortByHz
      ensures selectedRow == FirstEntry(rows) && acts == [] && markedCount == 0
    {
      memories := loaded;
      marked := seq(|loaded|, _ => false);
      markedCount := 0;
      rows := [];
      query := [];
      sortByHz := false;
      selectedRow := -1;
      pendingScan, pendingTotal, scanUsesMarks := [], 0, false;
      deleteArmed, deleteHz, deleteName, deleteArmedAt := false, 0, [], 0;
      editDraft, editRequests, searchRequests := Draft(0, [], [], []), 0, 0;
      acts := [];
      new;
      CountNone(|loaded|);
      RebuildRows();
    }

    /** Groups, sorts and lays out the rows again, and puts the cursor back. */
    method RebuildRows()
      requires |marked| == |memories|
      requires EntryAt(rows, selectedRow).Some? ==> EntryAt(rows, selectedRow).value < |memories|
      modifies this`rows, this`selectedRow
      ensures RowsOk(V(), rows) && CursorOk(rows, selectedRow)
      ensures CursorKept(V(), rows, old(EntryAt(rows, selectedRow)), selectedRow)
    {
      var was := EntryAt(rows, selectedRow);
      var v := V();
      rows := Layout(v);
      var selection := FirstEntry(rows);
      if was.Some? {
        var r := RowShowing(v, rows, was.value);
        if r >= 0 { selection := r; }
      }
      selectedRow := selection;
    }

    method SetQuery(q: string)
      requires Valid()
      modifies this
      ensures Valid() && query == q && memories == old(memories) && marked == old(marked) && sortByHz == old(sortByHz)
      ensures CursorKept(V(), rows, old(EntryAt(rows, selectedRow)), selectedRow)
      ensures acts == old(acts)
    {
      KeepsEntry();
      query := q;
      RebuildRows();
    }

    lemma KeepsEntry()
      requires Valid()
      ensures EntryAt(rows, selectedRow).Some? ==> EntryAt(rows, selectedRow).value < |memories|
    {
      if EntryAt(rows, selectedRow).Some? { assert RowOk(V(), rows, selectedRow); }
    }

    method ToggleSort()
      requires Valid()
      modifies this
      ensures Valid() && sortByHz == !old(sortByHz) && memories == old(memories) && marked == old(marked) && query == old(query)
      ensures CursorKept(V(), rows, old(EntryAt(rows, selectedRow)), selectedRow)
      ensures acts == old(acts) + [D.Disarm]
    {
      DisarmDelete();
      KeepsEntry();
      sortByHz := !sortByHz;
      RebuildRows();
    }

    method DisarmDelete()
      requires ArmState() == D.Run(acts)
      modifies this`deleteArmed, this`acts
      ensures ArmState() == D.Run(acts) && acts == old(acts) + [D.Disarm] && !deleteArmed
    {
      D.RunNext(acts, D.Disarm);
      acts := acts + [D.Disarm];
      if !deleteArmed {
        return;
      }
      deleteArmed := false;
    }

    method Tick(now: int)
      requires Valid()
      modifies this`deleteArmed, this`acts
      ensures Valid() && acts == old(acts) + [D.Tick(now)]
    {
      D.RunNext(acts, D.Tick(now));
      acts := acts + [D.Tick(now)];
      if deleteArmed && now - deleteArmedAt > D.CONFIRM_MS {
        deleteArmed := false;
      }
    }

    /** By steps of the direction to the next entry; past the ends it stays. */
    method MoveSelection(direction: int)
      requires Valid()
      modifies this`selectedRow, this`deleteArmed, this`acts
      ensures Valid() && acts == old(acts) + [D.Disarm]
      ensures if direction == 0 || rows == [] then selectedRow == old(selectedRow)
              else MovedTo(rows, direction, old(selectedRow), selectedRow)
    {
      DisarmDelete();
      if direction == 0 || rows == [] {
        return;
      }
      // The source has a branch for no cursor here: rows that are not empty hold an
      // entry, so the cursor is on one.
      assert rows[1].Entry?;
      var row := NextEntry(rows, selectedRow, direction);
      selectedRow := row;
    }

    method ToggleMark()
      requires Valid()
      modifies this`marked, this`markedCount, this`rows
      ensures Valid()
      ensures Toggled(old(marked), old(markedCount), old(EntryAt(rows, selectedRow)), marked)
      ensures marked == old(marked) ==> rows == old(rows)
      ensures old(markedCount) <= 64 ==> markedCount <= 64
    {
      KeepsEntry();
      if selectedRow < 0 || selectedRow >= |rows| || rows[selectedRow].Header? {
        return;
      }
      var index := rows[selectedRow].index;
      if !marked[index] && markedCount == MAX_SCAN {
        return;
      }
      CountUpdate(marked, index, !marked[index]);
      RemarkRow(V(), rows, selectedRow, !marked[index]);
      marked := marked[index := !marked[index]];
      rows := rows[selectedRow := rows[selectedRow].(marked := marked[index])];
      if marked[index] { markedCount := markedCount + 1; } else { markedCount := markedCount - 1; }
    }

    method ClearMarks()
      requires Valid()
      modifies this`marked, this`markedCount, this`rows
      ensures Valid() && markedCount == 0 && forall i :: 0 <= i < |marked| ==> !marked[i]
    {
      if markedCount == 0 {
        NoneMarked(marked);
        return;
      }
      rows := ClearRows(V(), rows);
      CountNone(|marked|);
      marked := seq(|marked|, _ => false);
      markedCount := 0;
    }

    /** The new list, with its marks and rows; no cursor yet. */
    method Replace(loaded: seq<Memory>, now: Id, was: Id)
      requires Valid()
      modifies this`memories, this`marked, this`markedCount, this`rows, this`selectedRow
      ensures Valid()
      ensures V() == View(loaded, Remarked(loaded, MarkedIds(old(memories), old(marked), now, was)), query, sortByHz)
    {
      assert V().Valid();
      hide RowsOk, Remarked, MarkedIds, D.Run, Count, CursorKept;
      var ids := MarkedIdentities(memories, marked, now, was);
      memories := loaded;
      marked, markedCount := MarkLoaded(loaded, ids);
      selectedRow := -1;
      RebuildRows();
    }

    /** Reads the file again: marks follow identities, the cursor goes to the given
        memory if it is shown, or else near the given row. */
    method Reload(loaded: seq<Memory>, hz: int, name: string, fallbackRow: int, oldHz: int, oldName: string)
      requires Valid()
      modifies this`memories, this`marked, this`markedCount, this`rows, this`selectedRow
      ensures Valid() && AfterReload(old(V()), V(), rows, selectedRow, loaded, (hz, name), fallbackRow, (oldHz, oldName))
      ensures Distinct(loaded) ==> markedCount <= old(markedCount)
      ensures LimitSafe(loaded) && old(markedCount) <= 64 ==> markedCount <= 64
    {
      hide RowsOk, Remarked, MarkedIds, D.Run, Count, LandsOn, CursorOk, Distinct, LimitSafe;
      RowsHaveMarks(V(), rows);
      ReloadedMarks(loaded, memories, marked, (hz, name), (oldHz, oldName));
      Replace(loaded, (hz, name), (oldHz, oldName));
      var row := Land(loaded, rows, (hz, name), fallbackRow);
      selectedRow := row;
    }

    /** The delete key: it arms, or removes. ok and loaded are what removing and
        reading the file give. The result is the identity passed to the removal. */
    method RequestDelete(now: int, removed: bool, loaded: seq<Memory>) returns (called: Option<Id>)
      requires Valid()
      modifies this`memories, this`marked, this`markedCount, this`rows, this`selectedRow
      modifies this`deleteArmed, this`deleteHz, this`deleteName, this`deleteArmedAt, this`acts
      ensures Valid() && acts == old(acts) + [D.Press(old(Selected()), now)]
      ensures called.Some? <==> D.Removes(old(ArmState()), D.Press(old(Selected()), now))
      ensures called.Some? ==>
                called == old(Selected()) &&
                AfterReload(old(V()), V(), rows, selectedRow, loaded, if removed then NO_ID else called.value,
                            old(selectedRow), NO_ID)
      ensures called.None? ==> V() == old(V()) && rows == old(rows) && selectedRow == old(selectedRow)
      ensures LimitSafe(loaded) && old(markedCount) <= 64 ==> markedCount <= 64
    {
      hide RowsOk, CursorOk, AfterReload, Count, LimitSafe, Distinct, D.Run;
      var id := Selected();
      var press := D.Press(id, now);
      D.RunNext(acts, press);
      if id.None? {
        acts := acts + [press];
        return None;
      }
      var confirmed := deleteArmed && deleteHz == id.value.0 && deleteName == id.value.1 &&
                       now - deleteArmedAt <= D.CONFIRM_MS;
      acts := acts + [press];
      if !confirmed {
        deleteArmed := true;
        deleteHz, deleteName := id.value.0, id.value.1;
        deleteArmedAt := now;
        return None;
      }
      deleteArmed := false;
      if !removed {
        Reload(loaded, deleteHz, deleteName, selectedRow, 0, []);
      } else {
        Reload(loaded, 0, [], selectedRow, 0, []);
      }
      return id;
    }

    /** The next mode for the selected memory; result and loaded are what changing the
        file and reading it give. */
    method CycleMode(result: EditResult, loaded: seq<Memory>)
      requires Valid()
      modifies this`memories, this`marked, this`markedCount, this`rows, this`selectedRow
      modifies this`deleteArmed, this`acts
      ensures Valid() && acts == old(acts) + [D.Disarm]
      ensures var id := old(Selected());
              if id.None? || result.NotDone? then V() == old(V()) && rows == old(rows) && selectedRow == old(selectedRow)
              else AfterReload(old(V()), V(), rows, selectedRow, loaded, if result.Saved? then id.value else NO_ID,
                               old(selectedRow), NO_ID)
      ensures LimitSafe(loaded) && old(markedCount) <= 64 ==> markedCount <= 64
    {
      var id := Selected();
      DisarmDelete();
      if id.Some? && result.Saved? {
        Reload(loaded, id.value.0, id.value.1, selectedRow, 0, []);
      } else if id.Some? && result.NotFound? {
        Reload(loaded, 0, [], selectedRow, 0, []);
      }
    }

    /** The edited name for the memory the edit was opened on. */
    method ApplyEdit(name: string, result: EditResult, loaded: seq<Memory>)
      requires Valid()
      modifies this`memories, this`marked, this`markedCount, this`rows, this`selectedRow
      ensures Valid()
      ensures var draft := (editDraft.hz, editDraft.name);
              match result
              case Saved => AfterReload(old(V()), V(), rows, selectedRow, loaded, (draft.0, name), old(selectedRow), draft)
              case NotFound => AfterReload(old(V()), V(), rows, selectedRow, loaded, NO_ID, old(selectedRow), NO_ID)
              case NotDone => V() == old(V()) && rows == old(rows) && selectedRow == old(selectedRow)
      ensures LimitSafe(loaded) && old(markedCount) <= 64 ==> markedCount <= 64
    {
      match result
      case Saved => Reload(loaded, editDraft.hz, name, selectedRow, editDraft.hz, editDraft.name);
      case NotFound => Reload(loaded, 0, [], selectedRow, 0, []);
      case NotDone =>
    }

    /** Picks the memories to scan: the marked ones, or the group of the selected one. */
    method PrepareScan(forceGroup: bool, available: bool)
      requires Valid()
      modifies this`pendingScan, this`pendingTotal, this`scanUsesMarks
      ensures EntryAt(rows, selectedRow).None? || !available ==>
                pendingScan == old(pendingScan) && pendingTotal == old(pendingTotal) && scanUsesMarks == old(scanUsesMarks)
      ensures var i := EntryAt(rows, selectedRow);
              i.Some? && available ==>
                i.value < |memories| && Picks(V(), i.value, forceGroup, scanUsesMarks, pendingScan, pendingTotal)
    {
      KeepsEntry();
      if selectedRow < 0 || selectedRow >= |rows| || rows[selectedRow].Header? {
        return;
      }
      if !available {
        return;
      }
      NoneMarked(marked);
      scanUsesMarks := !forceGroup && markedCount > 0;
      var group := if scanUsesMarks then None else Some(GroupOf(memories[rows[selectedRow].index]));
      pendingScan, pendingTotal := Prepare(V(), group);
      SomeWanted(V(), group, rows[selectedRow].index);
    }
  
    /** The edit dialog for the selected memory. */
    method RequestEdit()
      requires Valid()
      modifies this`deleteArmed, this`acts, this`editDraft, this`editRequests
      ensures Valid() && acts == old(acts) + [D.Disarm]
      ensures Drafted(V(), true, EntryAt(rows, selectedRow), old(editDraft), old(editRequests), editDraft, editRequests)
    {
      DisarmDelete();
      KeepsEntry();
      var i := EntryAt(rows, selectedRow);
      if i.None? { return; }
      editDraft := DraftOf(memories[i.value]);
      editRequests := editRequests + 1;
    }

    method RequestSearch()
      requires Valid()
      modifies this`deleteArmed, this`acts, this`searchRequests
      ensures Valid() && acts == old(acts) + [D.Disarm] && searchRequests == old(searchRequests) + 1
    {
      DisarmDelete();
      searchRequests := searchRequests + 1;
    }

    method NavPageChanged()
      requires Valid()
      modifies this`deleteArmed, this`acts
      ensures Valid() && acts == old(acts) + [D.Disarm]
    {
      DisarmDelete();
    }

    /** The memory handed to the SDR program, if there is one to hand and to start. */
    method OpenSelectedInSdr(available: bool) returns (handoff: Option<Memory>)
      requires Valid()
      ensures HandedOver(V(), available, EntryAt(rows, selectedRow), handoff)
    {
      KeepsEntry();
      var i := EntryAt(rows, selectedRow);
      handoff := if i.None? || !available then None else Some(memories[i.value]);
    }

    /** The MEM page's keys: up, down, open, search. */
    method NavMem(slot: int, available: bool) returns (handoff: Option<Memory>)
      requires Valid()
      modifies this`selectedRow, this`deleteArmed, this`acts, this`searchRequests
      ensures Valid()
      ensures acts == old(acts) + (if slot == 1 || slot == 2 || slot == 4 then [D.Disarm] else [])
      ensures MemDone(rows, slot, old(selectedRow), selectedRow)
      ensures searchRequests == old(searchRequests) + (if slot == 4 then 1 else 0)
      ensures HandedOver(V(), slot == 3 && available, EntryAt(rows, selectedRow), handoff)
    {
      handoff := None;
      if slot == 1 {
        MoveSelection(-1);
      } else if slot == 2 {
        MoveSelection(1);
      } else if slot == 3 {
        handoff := OpenSelectedInSdr(available);
      } else if slot == 4 {
        RequestSearch();
      }
    }

    /** The SCAN page's keys: mark, scan the marks, scan the group, clear the marks. */
    method NavScan(slot: int, available: bool)
      requires Valid()
      modifies this`marked, this`markedCount, this`rows, this`pendingScan, this`pendingTotal, this`scanUsesMarks
      ensures Valid() && (old(markedCount) <= 64 ==> markedCount <= 64)
      ensures ScanDone(old(V()), V(), old(markedCount), markedCount, old(EntryAt(rows, selectedRow)), slot, available,
                       scanUsesMarks, pendingScan, pendingTotal)
      ensures (slot != 2 && slot != 3) || !available || old(EntryAt(rows, selectedRow)).None? ==>
                pendingScan == old(pendingScan) && pendingTotal == old(pendingTotal) && scanUsesMarks == old(scanUsesMarks)
    {
      if slot == 1 {
        ToggleMark();
      } else if slot == 2 {
        PrepareScan(false, available);
      } else if slot == 3 {
        PrepareScan(true, available);
      } else if slot == 4 {
        ClearMarks();
      }
    }

    /** The EDIT page's keys: edit, next mode, delete. */
    method NavEdit(slot: int, env: Env) returns (called: Option<Id>)
      requires Valid()
      modifies this`memories, this`marked, this`markedCount, this`rows, this`selectedRow
      modifies this`deleteArmed, this`deleteHz, this`deleteName, this`deleteArmedAt, this`acts, this`editDraft, this`editRequests
      ensures Valid() && acts == old(acts) + D.ActsOf(D.NavKey(2, slot, old(Selected()), env.now))
      ensures called.Some? <==> D.UserRemoves(old(ArmState()), D.NavKey(2, slot, old(Selected()), env.now))
      ensures called.Some? ==> called == old(Selected())
      ensures EditDone(old(V()), V(), rows, old(selectedRow), selectedRow, slot, env, called, old(Selected()))
      ensures Drafted(old(V()), slot == 1, old(EntryAt(rows, selectedRow)), old(editDraft), old(editRequests), editDraft, editRequests)
      ensures LimitSafe(env.loaded) && old(markedCount) <= 64 ==> markedCount <= 64
    {
      hide RowsOk, CursorOk, AfterReload, Count, LimitSafe, D.ActsOf, D.Run;
      D.NavKeyActs(acts, 2, slot, Selected(), env.now);
      called := None;
      if slot == 1 {
        RequestEdit();
      } else if slot == 2 {
        CycleMode(env.result, env.loaded);
      } else if slot == 3 {
        called := RequestDelete(env.now, env.removed, env.loaded);
      }
    }

    /** A NavBar key: on the EDIT page its own action; on the others a pending delete is
        disarmed first. */
    method NavActivate(page: int, slot: int, env: Env) returns (called: Option<Id>, handoff: Option<Memory>)
      requires Valid()
      modifies this
      ensures Valid() && acts == old(acts) + D.ActsOf(D.NavKey(page, slot, old(Selected()), env.now))
      ensures called.Some? <==> D.UserRemoves(old(ArmState()), D.NavKey(page, slot, old(Selected()), env.now))
      ensures called.Some? ==> called == old(Selected())
      ensures Drafted(old(V()), page == 2 && slot == 1, old(EntryAt(rows, selectedRow)), old(editDraft), old(editRequests),
                      editDraft, editRequests)
      ensures page == 2 ==> EditDone(old(V()), V(), rows, old(selectedRow), selectedRow, slot, env, called, old(Selected()))
      ensures page == 0 ==> V() == old(V()) && rows == old(rows) && MemDone(rows, slot, old(selectedRow), selectedRow)
      ensures page != 0 && page != 2 ==> selectedRow == old(selectedRow)
      ensures page != 0 && page != 2 ==>
                ScanDone(old(V()), V(), old(markedCount), markedCount, old(EntryAt(rows, selectedRow)), slot, env.available,
                         scanUsesMarks, pendingScan, pendingTotal)
      ensures page == 0 || page == 2 || (slot != 2 && slot != 3) || !env.available || old(EntryAt(rows, selectedRow)).None? ==>
                pendingScan == old(pendingScan) && pendingTotal == old(pendingTotal) && scanUsesMarks == old(scanUsesMarks)
      ensures HandedOver(V(), page == 0 && slot == 3 && env.available, EntryAt(rows, selectedRow), handoff)
      ensures searchRequests == old(searchRequests) + (if page == 0 && slot == 4 then 1 else 0)
      ensures LimitSafe(env.loaded) && old(markedCount) <= 64 ==> markedCount <= 64
    {
      hide RowsOk, CursorOk, EditDone, ScanDone, MemDone, Count, LimitSafe, D.ActsOf, D.Run, EntryAt, IdAt;
      D.NavKeyActs(acts, page, slot, Selected(), env.now);
      called, handoff := None, None;
      if page == 2 {
        called := NavEdit(slot, env);
        return;
      }
      DisarmDelete();
      if page == 0 {
        handoff := NavMem(slot, env.available);
      } else {
        NavScan(slot, env.available);
      }
    }
  }

  // A scan of something is not empty.
  lemma SomeWanted(v: View, group: Option<string>, i: nat)
    requires v.Valid() && i < |v.all| && (group == None || group == Some(GroupOf(v.all[i])))
    requires group == None ==> Count(v.marked) > 0
    ensures Count(WantedFlags(v, group)) > 0
  {
    var flags := WantedFlags(v, group);
    NoneMarked(flags);
    if group == None {
      assert flags == v.marked;
    } else {
      assert flags[i];
    }
  }
}
