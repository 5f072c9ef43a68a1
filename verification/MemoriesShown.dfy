// What the rows of the Memories list and a scan of it show, read off the memories
// themselves (apps/memories/src/viewmodel/memories_viewmodel.cpp).
module MemoriesShown {
  import opened MemoriesStore
  import opened MemoriesRows
  import opened MemoriesScan
  import opened Options

  // ---- order

  // a comes first in a dictionary: the two agree up to some place, and there a ends
  // or has the lower character.
  predicate ComesFirst(a: string, b: string) {
    exists k :: 0 <= k <= |a| && k <= |b| && Differ(a, b, k)
  }

  predicate Differ(a: string, b: string, k: nat)
    requires k <= |a| && k <= |b|
  {
    a[..k] == b[..k] && k < |b| && (k == |a| || a[k] < b[k])
  }

  lemma {:induction false} LessIff(a: string, b: string)
    ensures Less(a, b) <==> ComesFirst(a, b)
    decreases |a|
  {
    if a != [] && b != [] && a[0] == b[0] {
      LessIff(a[1..], b[1..]);
      if Less(a[1..], b[1..]) {
        var k :| 0 <= k <= |a[1..]| && k <= |b[1..]| && Differ(a[1..], b[1..], k);
        assert a[..k + 1] == [a[0]] + a[1..][..k] && b[..k + 1] == [b[0]] + b[1..][..k];
        assert Differ(a, b, k + 1);
      } else {
        forall k | 0 <= k <= |a| && k <= |b| && Differ(a, b, k) ensures false {
          assert k > 0 && a[1..][..k - 1] == a[..k][1..] && b[1..][..k - 1] == b[..k][1..];
          assert Differ(a[1..], b[1..], k - 1);
        }
      }
    } else if b != [] && (a == [] || a[0] < b[0]) {
      assert Differ(a, b, 0);
    } else {
      forall k | 0 <= k <= |a| && k <= |b| && Differ(a, b, k) ensures false {}
    }
  }

  // The lower place of two memories in the list: by name and then frequency, or first
  // by frequency when that is asked.
  lemma OrderIs(a: Memory, b: Memory, byHz: bool)
    ensures InOrder(a, b, byHz) <==>
            if byHz then a.hz < b.hz || (a.hz == b.hz && !ComesFirst(b.name, a.name))
            else ComesFirst(a.name, b.name) || (a.name == b.name && a.hz <= b.hz)
  {
    LessIff(a.name, b.name);
    LessIff(b.name, a.name);
    LessTotal(a.name, b.name);
  }

  // ---- search

  // The same letter, upper or lower.
  predicate SameLetter(a: char, b: char) {
    || a == b
    || ('A' <= a <= 'Z' && b as int == a as int + 32)
    || ('A' <= b <= 'Z' && a as int == b as int + 32)
  }

  // The text stands in the name at this place, letter case aside.
  predicate StandsAt(name: string, text: string, at: nat) {
    at + |text| <= |name| && forall k :: 0 <= k < |text| ==> SameLetter(name[at + k], text[k])
  }

  lemma StandsIff(name: string, text: string, at: nat)
    requires at <= |name|
    ensures OccursAt(Lowercase(name), Lowercase(text), at) <==> StandsAt(name, text, at)
  {
    var n, t := Lowercase(name), Lowercase(text);
    if OccursAt(n, t, at) {
      forall k | 0 <= k < |text| ensures SameLetter(name[at + k], text[k]) {
        assert n[at..][k] == t[k];
      }
    }
    if StandsAt(name, text, at) {
      assert forall k :: 0 <= k < |t| ==> n[at..][k] == t[k];
    }
  }

  // A memory matches when the text stands somewhere in its name.
  lemma MatchesIff(m: Memory, text: string)
    ensures Matches(m, text) <==> exists at: nat :: at <= |m.name| && StandsAt(m.name, text, at)
  {
    if Matches(m, text) {
      if text == [] {
        assert StandsAt(m.name, text, 0);
      } else {
        var at: nat :| at <= |m.name| && OccursAt(Lowercase(m.name), Lowercase(text), at);
        StandsIff(m.name, text, at);
      }
    }
    if exists at: nat :: at <= |m.name| && StandsAt(m.name, text, at) {
      var at: nat :| at <= |m.name| && StandsAt(m.name, text, at);
      StandsIff(m.name, text, at);
    }
  }

  // ---- rows

  lemma {:induction false} HeaderAbove(rows: seq<Row>, r: nat) returns (h: nat)
    requires r < |rows| && rows[0].Header?
    ensures h <= r && rows[h] == Header(HeaderOf(rows, r)) && forall k :: h < k <= r ==> rows[k].Entry?
  {
    if rows[r].Header? { h := r; } else { h := HeaderAbove(rows, r - 1); }
  }

  // An entry is a memory that matches the search, under the header named as its first
  // tag, or as other.
  lemma EntryShows(v: View, rows: seq<Row>, r: nat) returns (h: nat)
    requires RowsOk(v, rows) && r < |rows| && rows[r].Entry?
    ensures rows[r].index < |v.all|
    ensures var m := v.all[rows[r].index];
            && rows[r].name == m.name && rows[r].mode == m.mode && rows[r].marked == v.marked[rows[r].index]
            && (exists at: nat :: at <= |m.name| && StandsAt(m.name, v.query, at))
            && h < r && rows[h] == Header(if m.tags == [] then "other" else m.tags[0])
            && forall k :: h < k <= r ==> rows[k].Entry?
  {
    assert RowOk(v, rows, r);
    h := HeaderAbove(rows, r);
    MatchesIff(v.all[rows[r].index], v.query);
  }

  // Every memory that matches is shown, in exactly one row.
  lemma MatchIsShown(v: View, rows: seq<Row>, i: nat) returns (r: nat)
    requires RowsOk(v, rows) && i < |v.all| && exists at: nat :: at <= |v.all[i].name| && StandsAt(v.all[i].name, v.query, at)
    ensures r < |rows| && rows[r].Entry? && rows[r].index == i
    ensures forall s :: 0 <= s < |rows| && s != r ==> !(rows[s].Entry? && rows[s].index == i)
  {
    MatchesIff(v.all[i], v.query);
    assert v.Shows(i);
    r :| 0 <= r < |rows| && rows[r].Entry? && rows[r].index == i;
    forall s | 0 <= s < |rows| && s != r ensures !(rows[s].Entry? && rows[s].index == i) {
      assert s < r ==> PairOk(v, rows, s, r);
      assert r < s ==> PairOk(v, rows, r, s);
    }
  }

  // ---- scans

  // What is scanned: each wanted memory once, the lowest frequencies first and equal
  // ones in list order, all of them or the first 64.
  lemma ScanShows(v: View, group: Option<string>, scan: seq<nat>, total: nat)
    requires v.Valid() && IsScan(v, group, scan, total)
    ensures |scan| == (if total <= 64 then total else 64) && forall k :: 0 <= k < |scan| ==> scan[k] < |v.all|
    ensures forall j, k :: 0 <= j < k < |scan| ==>
              v.all[scan[j]].hz < v.all[scan[k]].hz || (v.all[scan[j]].hz == v.all[scan[k]].hz && scan[j] < scan[k])
    ensures forall k :: 0 <= k < |scan| ==>
              var m := v.all[scan[k]];
              if group.None? then v.marked[scan[k]] else group.value == if m.tags == [] then "other" else m.tags[0]
  {
    forall k | 0 <= k < |scan| ensures Wanted(v, group, scan[k]) {}
    forall j, k | 0 <= j < k < |scan| ensures ScansBefore(v.all, scan[j], scan[k]) {}
  }
}
