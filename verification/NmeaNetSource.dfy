// The line buffer in front of the NMEA callback (toolkit/src/net/nmea_net_source.cpp):
// chunks of a byte stream go in, whole lines come out.
module NmeaNetSource {
  import opened Options
  import opened Sequences

  const CAP: nat := 65536

  // The position just after the last newline, 0 when there is none.
  function AfterLastNewline(s: string): (n: nat)
    ensures n <= |s|
  {
    if s == [] then 0
    else if s[|s| - 1] == '\n' then |s|
    else AfterLastNewline(s[..|s| - 1])
  }

  function Whole(s: string): string { s[..AfterLastNewline(s)] }

  function Pending(s: string): string { s[AfterLastNewline(s)..] }

  lemma {:induction false} NewlineFacts(s: string)
    ensures '\n' !in Pending(s)
    ensures AfterLastNewline(s) > 0 ==> s[AfterLastNewline(s) - 1] == '\n'
  {
    if s != [] && s[|s| - 1] != '\n' {
      var p, n := s[..|s| - 1], AfterLastNewline(s);
      NewlineFacts(p);
      assert s[n..] == p[n..] + [s[|s| - 1]];
    }
  }

  // The buffer, and the texts handed to the callback so far.
  datatype Stream = Stream(buffer: string, handed: seq<string>)

  const START := Stream([], [])

  function Take(st: Stream, data: string): Stream {
    var all := st.buffer + data;
    var n := AfterLastNewline(all);
    var handed := if n > 0 then st.handed + [all[..n]] else st.handed;
    Stream(if |all[n..]| > CAP then [] else all[n..], handed)
  }

  class NmeaNetSource {
    var buffer: string
    ghost var handed: seq<string>

    ghost function State(): Stream
      reads this
    {
      Stream(buffer, handed)
    }

    constructor ()
      ensures State() == START
    {
      buffer := [];
      handed := [];
    }

    /** The result is what goes to the callback, if anything. */
    method Ingest(data: string) returns (text: Option<string>)
      modifies this
      ensures State() == Take(old(State()), data)
      ensures handed == old(handed) + (if text.Some? then [text.value] else [])
      ensures |buffer| <= CAP
    {
      text := None;
      buffer := buffer + data;
      var n := AfterLastNewline(buffer);
      if n > 0 {
        text := Some(buffer[..n]);
        handed := handed + [buffer[..n]];
        buffer := buffer[n..];
      }
      if |buffer| > CAP {
        buffer := [];
      }
    }
  }

  function IngestAll(cuts: seq<string>): Stream {
    if cuts == [] then START else Take(IngestAll(cuts[..|cuts| - 1]), cuts[|cuts| - 1])
  }

  // A line of the stream, from i to its newline at j, that does not fit the buffer.
  predicate LongLine(s: string, i: int, j: int) {
    0 <= i <= j < |s| && s[j] == '\n' && '\n' !in s[i..j] && j - i > 65536
  }

  // Every line that ends within the stream fits the buffer.
  ghost predicate LinesFit(s: string) {
    forall i, j :: !LongLine(s, i, j)
  }

  lemma {:induction false} NewlineBefore(s: string, i: nat)
    requires i <= |s| && '\n' !in s[i..]
    ensures AfterLastNewline(s) <= i
  {
    if i < |s| {
      assert s[|s| - 1] in s[i..];
      assert s[..|s| - 1][i..] == s[i..][..|s| - 1 - i];
      NewlineBefore(s[..|s| - 1], i);
    }
  }

  lemma {:induction false} AfterLastNewlineIs(s: string, n: nat)
    requires n <= |s| && '\n' !in s[n..] && (n > 0 ==> s[n - 1] == '\n')
    ensures AfterLastNewline(s) == n
  {
    NewlineBefore(s, n);
    if n > 0 { NewlineAfter(s, n); }
  }

  lemma {:induction false} NewlineAfter(s: string, n: nat)
    requires 0 < n <= |s| && s[n - 1] == '\n'
    ensures AfterLastNewline(s) >= n
  {
    if s[|s| - 1] != '\n' {
      NewlineAfter(s[..|s| - 1], n);
    }
  }

  lemma NewlineOfConcat(a: string, b: string)
    ensures AfterLastNewline(a + b) == if AfterLastNewline(b) > 0 then |a| + AfterLastNewline(b) else AfterLastNewline(a)
  {
    NewlineFacts(a);
    NewlineFacts(b);
    hide AfterLastNewline;
    var n, m := AfterLastNewline(b), AfterLastNewline(a);
    if n > 0 {
      assert (a + b)[|a| + n..] == b[n..];
      AfterLastNewlineIs(a + b, |a| + n);
    } else {
      assert (a + b)[m..] == a[m..] + b[0..];
      AfterLastNewlineIs(a + b, m);
    }
  }

  lemma WholeParts(p: string)
    ensures Whole(p) + Pending(p) == p
  {}

  lemma Regroup(a: string, b: string, c: string)
    ensures (a + b) + c == a + (b + c)
  {}

  lemma WholeIs(s: string, n: nat)
    requires AfterLastNewline(s) == n
    ensures n <= |s| && Whole(s) == s[..n] && Pending(s) == s[n..]
  {}

  lemma CutAfter(p: string, data: string, n: nat)
    requires n <= |data|
    ensures (p + data)[..|p| + n] == p + data[..n] && (p + data)[|p| + n..] == data[n..]
  {}

  // What a chunk with a newline does to the whole lines and the rest of a stream.
  lemma WholeOfConcat(p: string, data: string)
    requires AfterLastNewline(data) > 0
    ensures Whole(p + data) == Whole(p) + (Pending(p) + Whole(data)) && Pending(p + data) == Pending(data)
  {
    hide AfterLastNewline, Whole, Pending;
    var n := AfterLastNewline(data);
    NewlineOfConcat(p, data);
    WholeIs(data, n);
    WholeIs(p + data, |p| + n);
    CutAfter(p, data, n);
    WholeParts(p);
    Regroup(Whole(p), Pending(p), Whole(data));
  }

  // And a chunk without one.
  lemma PendingOfConcat(p: string, data: string)
    requires AfterLastNewline(data) == 0
    ensures Whole(p + data) == Whole(p) && Pending(p + data) == Pending(p) + data
  {
    hide AfterLastNewline;
    NewlineOfConcat(p, data);
  }

  // Where the buffer stands after a prefix p of the stream: all whole lines were
  // handed over and the rest is buffered, unless a line too long was dropped.
  ghost predicate InStep(st: Stream, p: string) {
    && Concat(st.handed) == Whole(p)
    && (st.buffer == Pending(p) || |Pending(p)| > CAP)
  }

  // A buffer holds no newline, so a chunk splits after its own last one.
  lemma WholeOfBuffer(b: string, data: string)
    requires '\n' !in b
    ensures AfterLastNewline(b + data) > 0 <==> AfterLastNewline(data) > 0
    ensures AfterLastNewline(data) > 0 ==> Whole(b + data) == b + Whole(data) && Pending(b + data) == Pending(data)
    ensures AfterLastNewline(data) == 0 ==> Pending(b + data) == b + data
  {
    hide AfterLastNewline;
    NewlineOfConcat(b, data);
    NewlineBefore(b, 0);
  }

  lemma TakeIs(st: Stream, data: string)
    ensures var all := st.buffer + data;
            Take(st, data) == Stream(if |Pending(all)| > CAP then [] else Pending(all),
                                     if AfterLastNewline(all) > 0 then st.handed + [Whole(all)] else st.handed)
    ensures '\n' !in Take(st, data).buffer
  {
    NewlineFacts(st.buffer + data);
  }

  lemma StepInStep(st: Stream, p: string, data: string)
    requires InStep(st, p) && '\n' !in st.buffer && (AfterLastNewline(data) > 0 ==> |Pending(p)| <= CAP)
    ensures InStep(Take(st, data), p + data) && '\n' !in Take(st, data).buffer
  {
    hide AfterLastNewline, Concat, Whole, Pending, Take;
    TakeIs(st, data);
    WholeOfBuffer(st.buffer, data);
    if AfterLastNewline(data) > 0 {
      WholeOfConcat(p, data);
      ConcatSnoc(st.handed, st.buffer + Whole(data));
    } else {
      PendingOfConcat(p, data);
    }
  }

  lemma {:induction false} FitsNext(p: string, data: string, rest: string)
    requires LinesFit(p + data + rest) && AfterLastNewline(data) > 0
    ensures |Pending(p)| <= CAP
  {
    NewlineFacts(p);
    hide AfterLastNewline;
    var s, m := p + data + rest, AfterLastNewline(p);
    var k := FirstNewline(data);
    assert s[m..|p| + k] == p[m..] + data[..k];
    assert !LongLine(s, m, |p| + k);
  }

  lemma {:induction false} FirstNewline(s: string) returns (k: nat)
    requires AfterLastNewline(s) > 0
    ensures k < |s| && s[k] == '\n' && '\n' !in s[..k]
  {
    NewlineFacts(s);
    k := 0;
    while s[k] != '\n'
      invariant k < AfterLastNewline(s) && '\n' !in s[..k]
      decreases |s| - k
    {
      k := k + 1;
    }
  }

  lemma {:induction false} FitsHands(cuts: seq<string>, rest: string)
    requires LinesFit(Concat(cuts) + rest)
    ensures InStep(IngestAll(cuts), Concat(cuts)) && '\n' !in IngestAll(cuts).buffer
  {
    if cuts != [] {
      var n := |cuts| - 1;
      var p, data := Concat(cuts[..n]), cuts[n];
      assert p + data + rest == p + (data + rest);
      FitsHands(cuts[..n], data + rest);
      if AfterLastNewline(data) > 0 { FitsNext(p, data, rest); }
      StepInStep(IngestAll(cuts[..n]), p, data);
    }
  }

  lemma TwoCuts(a: string, b: string)
    ensures Concat([a, b]) == a + b && IngestAll([a, b]) == Take(Take(START, a), b)
  {
    assert [a, b][..1] == [a] && [a][..0] == [];
    assert Concat([a]) == [] + a == a && IngestAll([a]) == Take(START, a);
  }

  lemma OneCut(a: string)
    ensures Concat([a]) == a && IngestAll([a]) == Take(START, a)
  {
    assert [a][..0] == [] && [] + a == a;
  }

  // In one piece, every stream hands over all its whole lines.
  lemma {:induction false} HandedAtOnce(s: string)
    ensures Concat(IngestAll([s]).handed) == Whole(s)
  {
    OneCut(s);
    assert [] + s == s;
    ConcatSnoc([], Whole(s));
    assert [] + [Whole(s)] == [Whole(s)] && [] + Whole(s) == Whole(s);
  }

  // Every way of cutting the stream hands over exactly its whole lines.
  ghost predicate CutInvariant(s: string) {
    forall cuts :: Concat(cuts) == s ==> Concat(IngestAll(cuts).handed) == Whole(s)
  }

  // Chunk invariance, exactly: every way of cutting the stream hands over the same
  // text, all its whole lines, if and only if every line of it fits the buffer.
  lemma {:induction false} ChunkInvariance(s: string)
    ensures LinesFit(s) <==> CutInvariant(s)
  {
    hide AfterLastNewline, IngestAll, LongLine, Concat;
    if LinesFit(s) {
      forall cuts | Concat(cuts) == s ensures Concat(IngestAll(cuts).handed) == Whole(s) {
        assert s + [] == s;
        FitsHands(cuts, []);
      }
    } else {
      var i, j :| LongLine(s, i, j);
      LongLineLost(s, i, j);
    }
  }

  // Cut just before the end of a line that does not fit, the line is lost.
  lemma {:induction false} LongLineLost(s: string, i: int, j: int)
    requires LongLine(s, i, j)
    ensures !CutInvariant(s)
  {
    var a, b := s[..j], s[j..];
    assert a + b == s && a[i..] == s[i..j];
    hide AfterLastNewline, IngestAll, Concat, Whole;
    LongLineCut(a, b, i);
    assert Concat(IngestAll([a, b]).handed) != Whole(s);
  }

  lemma LongLineCut(a: string, b: string, i: nat)
    requires i <= |a| && '\n' !in a[i..] && |a| - i > CAP && b != [] && b[0] == '\n'
    ensures Concat([a, b]) == a + b && |Concat(IngestAll([a, b]).handed)| < |Whole(a + b)|
  {
    TwoCuts(a, b);
    Dropped(a, i);
    hide AfterLastNewline, IngestAll, Concat, Take;
    NewlineBefore(a, i);
    NewlineAfter(b, 1);
    NewlineOfConcat(a, b);
    HandedLength(a, b);
  }

  lemma Dropped(a: string, i: nat)
    requires i <= |a| && '\n' !in a[i..] && |a| - i > CAP
    ensures Take(START, a).buffer == []
  {
    hide AfterLastNewline;
    NewlineBefore(a, i);
    assert [] + a == a;
  }

  lemma HandedLength(a: string, b: string)
    requires Take(START, a).buffer == []
    ensures |Concat(Take(Take(START, a), b).handed)| == AfterLastNewline(a) + AfterLastNewline(b)
  {
    hide AfterLastNewline, Take, Concat;
    var st := Take(START, a);
    ConcatNone();
    assert [] + a == a && [] + b == b;
    TakeLength(START, a);
    TakeLength(st, b);
  }

  lemma ConcatNone()
    ensures Concat<char>([]) == []
  {}

  lemma TakeLength(st: Stream, data: string)
    ensures |Concat(Take(st, data).handed)| == |Concat(st.handed)| + AfterLastNewline(st.buffer + data)
  {
    hide AfterLastNewline, Concat;
    ConcatSnoc(st.handed, Whole(st.buffer + data));
  }

  // The buffer never exceeds its cap after a call, whatever came in.
  lemma BufferBounded(cuts: seq<string>)
    ensures |IngestAll(cuts).buffer| <= CAP
  {}

  // Every text handed over ends with a newline.
  lemma {:induction false} HandedEndInNewline(cuts: seq<string>)
    ensures forall i :: 0 <= i < |IngestAll(cuts).handed| ==>
              var t := IngestAll(cuts).handed[i]; t != [] && t[|t| - 1] == '\n'
  {
    hide Take;
    if cuts != [] {
      HandedEndInNewline(cuts[..|cuts| - 1]);
      TakeHands(IngestAll(cuts[..|cuts| - 1]), cuts[|cuts| - 1]);
    }
  }

  lemma TakeHands(st: Stream, data: string)
    ensures var t := Take(st, data);
            t.handed == st.handed || (|t.handed| == |st.handed| + 1 && t.handed[..|st.handed|] == st.handed
                                      && t.handed[|st.handed|] != [] && t.handed[|st.handed|][|t.handed[|st.handed|]| - 1] == '\n')
  {
    NewlineFacts(st.buffer + data);
    hide AfterLastNewline;
  }
}
