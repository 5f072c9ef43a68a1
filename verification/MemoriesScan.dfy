// What the Memories list hands to the scanner: the marked memories, or those of one
// group, lowest frequencies first, cut at the limit
// (apps/memories/src/viewmodel/memories_viewmodel.cpp).
module MemoriesScan {
  import opened MemoriesStore
  import opened Options
  import opened MemoriesRows

  // A memory is wanted by its mark or by its group.
  predicate Wanted(v: View, group: Option<string>, i: nat)
    requires v.Valid() && i < |v.all|
  {
    if group.None? then v.marked[i] else GroupOf(v.all[i]) == group.value
  }

  function WantedFlags(v: View, group: Option<string>): (flags: seq<bool>)
    requires v.Valid()
    ensures |flags| == |v.all|
  {
    seq(|v.all|, i requires 0 <= i < |v.all| => Wanted(v, group, i))
  }

  // By frequency, then by place in the list.
  predicate ScansBefore(all: seq<Memory>, a: nat, b: nat)
    requires a < |all| && b < |all|
  {
    all[a].hz < all[b].hz || (all[a].hz == all[b].hz && a < b)
  }

  predicate InList(all: seq<Memory>, xs: seq<nat>) { forall k :: 0 <= k < |xs| ==> xs[k] < |all| }

  predicate ScanSorted(all: seq<Memory>, xs: seq<nat>) {
    InList(all, xs) && forall j, k :: 0 <= j < k < |xs| ==> ScansBefore(all, xs[j], xs[k])
  }

  // The scan of a view: wanted memories only, in scan order, as many as are wanted
  // up to the limit, and none left out that stands before one taken.
  ghost predicate IsScan(v: View, group: Option<string>, scan: seq<nat>, total: nat)
    requires v.Valid()
  {
    && ScanSorted(v.all, scan)
    && (forall k :: 0 <= k < |scan| ==> Wanted(v, group, scan[k]))
    && (forall i, k :: 0 <= i < |v.all| && 0 <= k < |scan| && Wanted(v, group, i) && i !in scan ==>
          ScansBefore(v.all, scan[k], i))
    && total == Count(WantedFlags(v, group)) && |scan| == if total <= 64 then total else 64
  }

  function InsertScan(all: seq<Memory>, xs: seq<nat>, e: nat): (r: seq<nat>)
    requires e < |all| && InList(all, xs)
    ensures multiset(r) == multiset(xs) + multiset{e} && InList(all, r)
  {
    if xs == [] || ScansBefore(all, xs[|xs| - 1], e) then xs + [e]
    else
      var n := |xs| - 1;
      assert xs == xs[..n] + [xs[n]];
      InsertScan(all, xs[..n], e) + [xs[n]]
  }

  lemma {:induction false} InsertScanSorted(all: seq<Memory>, xs: seq<nat>, e: nat)
    requires e < |all| && ScanSorted(all, xs) && e !in xs
    ensures ScanSorted(all, InsertScan(all, xs, e))
  {
    var n := |xs| - 1;
    if xs != [] && !ScansBefore(all, xs[n], e) {
      var r := InsertScan(all, xs[..n], e);
      InsertScanSorted(all, xs[..n], e);
      forall j | 0 <= j < |r| ensures ScansBefore(all, r[j], xs[n]) {
        assert r[j] in multiset(r);
        assert r[j] in xs[..n] || r[j] == e;
      }
    }
  }

  method SortScan(all: seq<Memory>, xs: seq<nat>) returns (r: seq<nat>)
    requires InList(all, xs) && forall j, k :: 0 <= j < k < |xs| ==> xs[j] != xs[k]
    ensures ScanSorted(all, r) && multiset(r) == multiset(xs)
  {
    r := [];
    for i := 0 to |xs|
      invariant ScanSorted(all, r) && multiset(r) == multiset(xs[..i])
    {
      assert xs[i] !in multiset(xs[..i]);
      assert forall x :: x in r <==> x in multiset(r);
      InsertScanSorted(all, r, xs[i]);
      r := InsertScan(all, r, xs[i]);
      assert xs[..i + 1] == xs[..i] + [xs[i]];
    }
    assert xs[..|xs|] == xs;
  }

  // The wanted memories among the first n, in list order.
  ghost predicate Collected(v: View, group: Option<string>, xs: seq<nat>, n: nat)
    requires v.Valid() && n <= |v.all|
  {
    && (forall i :: i in xs <==> 0 <= i < n && Wanted(v, group, i))
    && (forall j, k :: 0 <= j < k < |xs| ==> xs[j] < xs[k])
    && |xs| == Count(WantedFlags(v, group)[..n])
  }

  lemma CollectedInList(v: View, group: Option<string>, xs: seq<nat>)
    requires v.Valid() && Collected(v, group, xs, |v.all|)
    ensures InList(v.all, xs) && forall j, k :: 0 <= j < k < |xs| ==> xs[j] != xs[k]
  {
    forall k | 0 <= k < |xs| ensures xs[k] < |v.all| { assert xs[k] in xs; }
  }

  lemma CollectNext(v: View, group: Option<string>, xs: seq<nat>, n: nat)
    requires v.Valid() && n < |v.all| && Collected(v, group, xs, n)
    ensures Collected(v, group, if Wanted(v, group, n) then xs + [n] else xs, n + 1)
  {
    var flags := WantedFlags(v, group);
    assert flags[..n + 1][..n] == flags[..n];
    forall k | 0 <= k < |xs| ensures xs[k] < n { assert xs[k] in xs; }
  }

  // The first part of the sorted list of the wanted memories is their scan.
  lemma SortedPrefixIsScan(v: View, group: Option<string>, xs: seq<nat>, sorted: seq<nat>, n: nat)
    requires v.Valid() && Collected(v, group, xs, |v.all|) && ScanSorted(v.all, sorted) && multiset(sorted) == multiset(xs)
    requires n == if |sorted| <= 64 then |sorted| else 64
    ensures IsScan(v, group, sorted[..n], |sorted|)
  {
    var flags := WantedFlags(v, group);
    assert flags[..|v.all|] == flags;
    assert |multiset(sorted)| == |sorted| && |multiset(xs)| == |xs|;
    forall i ensures i in sorted <==> i in xs {
      assert i in sorted <==> i in multiset(sorted);
      assert i in xs <==> i in multiset(xs);
    }
    forall k | 0 <= k < n ensures Wanted(v, group, sorted[k]) { assert sorted[k] in sorted; }
    forall i, k | 0 <= i < |v.all| && 0 <= k < n && Wanted(v, group, i) && i !in sorted[..n]
      ensures ScansBefore(v.all, sorted[..n][k], i)
    {
      assert i in sorted && sorted == sorted[..n] + sorted[n..];
      var j :| n <= j < |sorted| && sorted[j] == i;
    }
  }

  /** The memories to scan, and how many were wanted. */
  method Prepare(v: View, group: Option<string>) returns (scan: seq<nat>, total: nat)
    requires v.Valid()
    ensures IsScan(v, group, scan, total)
  {
    var xs: seq<nat> := [];
    assert Collected(v, group, xs, 0);
    hide Collected, IsScan, ScanSorted;
    for i := 0 to |v.all|
      invariant Collected(v, group, xs, i)
    {
      CollectNext(v, group, xs, i);
      if (group.None? && v.marked[i]) || (group.Some? && GroupOf(v.all[i]) == group.value) {
        xs := xs + [i];
      }
    }
    CollectedInList(v, group, xs);
    scan := SortScan(v.all, xs);
    total := |scan|;
    SortedPrefixIsScan(v, group, xs, scan, if |scan| <= MAX_SCAN then |scan| else MAX_SCAN);
    if |scan| > MAX_SCAN {
      scan := scan[..MAX_SCAN];
    } else {
      assert scan[..|scan|] == scan;
    }
  }

  // A scan leaves nothing out exactly when no more is wanted than the limit.
  lemma ScanIsCompleteIff(v: View, group: Option<string>, scan: seq<nat>, total: nat)
    requires v.Valid() && IsScan(v, group, scan, total)
    ensures total <= 64 <==> forall i :: 0 <= i < |v.all| && Wanted(v, group, i) ==> i in scan
  {
    var flags := WantedFlags(v, group);
    forall j, k | 0 <= j < k < |scan| ensures scan[j] != scan[k] { assert ScansBefore(v.all, scan[j], scan[k]); }
    TakenAreCounted(flags, scan);
    if forall i :: 0 <= i < |v.all| && Wanted(v, group, i) ==> i in scan {
      AllCounted(flags, scan);
    } else {
      var i :| 0 <= i < |v.all| && Wanted(v, group, i) && i !in scan;
      assert flags[i];
    }
  }

  lemma {:induction false} AllCounted(flags: seq<bool>, xs: seq<nat>)
    requires forall i :: 0 <= i < |flags| && flags[i] ==> i in xs
    ensures Count(flags) <= |xs|
    decreases |xs|
  {
    if xs == [] {
      NoneMarked(flags);
    } else {
      var n := |xs| - 1;
      var less := if xs[n] < |flags| then flags[xs[n] := false] else flags;
      if xs[n] < |flags| { CountUpdate(flags, xs[n], false); }
      forall i | 0 <= i < |less| && less[i] ensures i in xs[..n] { assert flags[i] && i in xs; }
      AllCounted(less, xs[..n]);
    }
  }

  // The marks always fit a scan of them while there are no more than the limit.
  lemma MarksFitTheScan(v: View, scan: seq<nat>, total: nat)
    requires v.Valid() && IsScan(v, None, scan, total) && Count(v.marked) <= 64
    ensures total == Count(v.marked) == |scan| && forall i :: 0 <= i < |v.all| ==> (v.marked[i] <==> i in scan)
  {
    assert WantedFlags(v, None) == v.marked;
    ScanIsCompleteIff(v, None, scan, total);
    forall i | 0 <= i < |v.all| && i in scan ensures v.marked[i] {
      var k :| 0 <= k < |scan| && scan[k] == i;
      assert Wanted(v, None, scan[k]);
    }
    forall i | 0 <= i < |v.all| && v.marked[i] ensures i in scan { assert Wanted(v, None, i); }
  }
}
