// The stateful AIVDM reassembler (apps/ais/src/decoder/ais_decoder.cpp) and what it
// answers over a whole run of sentences.
module AisReassembler {
  import opened AisDecoder
  import opened Options

  // A message being collected: its fragment count, the fragment it waits for and
  // the payloads so far. (The source also keeps the last fill count, which it sets
  // only just before it drops the entry.)
  datatype Partial = Partial(total: nat, next: nat, payload: string)

  type Table = map<string, Partial>

  const MAX_PARTIALS := 32

  predicate Multi(f: Fragment) { 2 <= f.count && 1 <= f.num <= f.count }

  function Opened(t: Table, f: Fragment): Table { t[f.key := Partial(f.count, 2, f.payload)] }

  // Opening this fragment's message would exceed the bound: the table is cleared.
  predicate Floods(t: Table, f: Fragment) { f.num == 1 && |Opened(t, f)| > MAX_PARTIALS }

  // One fragment: the new table, and the payload and fill of a completed message.
  function Accept(t: Table, f: Fragment): (Table, Option<(string, nat)>) {
    if f.num == 1 then
      (if Floods(t, f) then Opened(map[], f) else Opened(t, f), None)
    else if f.key !in t || t[f.key].total != f.count || t[f.key].next != f.num then (t - {f.key}, None)
    else
      var payload := t[f.key].payload + f.payload;
      if f.num == f.count then (t - {f.key}, Some((payload, f.fill)))
      else (t[f.key := Partial(f.count, f.num + 1, payload)], None)
  }

  // One sentence: the new table, and the vessel it completes.
  function FeedStep(t: Table, s: string): (Table, Option<Vessel>) {
    match ParseEnvelope(s)
    case None => (t, None)
    case Some(f) =>
      if f.count == 1 then (t, DecodeMessage(f.payload, f.fill))
      else
        var (t', done) := Accept(t, f);
        (t', if done.Some? then DecodeMessage(done.value.0, done.value.1) else None)
  }

  class AivdmReassembler {
    var partials: Table

    constructor ()
      ensures partials == map[]
    {
      partials := map[];
    }

    method Feed(sentence: string) returns (r: Option<Vessel>)
      modifies this
      ensures (partials, r) == FeedStep(old(partials), sentence)
    {
      var env := Parse(sentence);
      if env.None? {
        return None;
      }
      var f := env.value;
      if f.count == 1 {
        r := Decode(f.payload, f.fill);
        return;
      }
      var key := f.key;
      if f.num == 1 {
        partials := partials[key := Partial(f.count, 2, f.payload)];
        if |partials| > MAX_PARTIALS {
          partials := map[];
          partials := partials[key := Partial(f.count, 2, f.payload)];
        }
        return None;
      }
      if key !in partials || partials[key].total != f.count || partials[key].next != f.num {
        partials := partials - {key};
        return None;
      }
      var p := partials[key];
      p := p.(payload := p.payload + f.payload, next := f.num + 1);
      if f.num == f.count {
        partials := partials - {key};
        r := Decode(p.payload, f.fill);
        return;
      }
      partials := partials[key := p];
      return None;
    }
  }

  // ---- runs of fragments

  // The table after a history of fragments, and where its last flood clear was.
  function Run(h: seq<Fragment>): (Table, nat) {
    if h == [] then (map[], 0)
    else
      var n := |h| - 1;
      var (t, c) := Run(h[..n]);
      (Accept(t, h[n]).0, if Floods(t, h[n]) then n else c)
  }

  predicate AllMulti(h: seq<Fragment>) { forall i :: 0 <= i < |h| ==> Multi(h[i]) }

  // What one key sees: its own fragments, in order.
  function OfKey(h: seq<Fragment>, k: string): (e: seq<Fragment>)
    ensures AllMulti(h) ==> AllMulti(e)
  {
    if h == [] then []
    else
      var n := |h| - 1;
      if h[n].key == k then OfKey(h[..n], k) + [h[n]] else OfKey(h[..n], k)
  }

  // The state of one key after its own fragments alone.
  function KeyState(e: seq<Fragment>): Option<Partial> {
    if e == [] then None
    else
      var n := |e| - 1;
      var s, f := KeyState(e[..n]), e[n];
      if f.num == 1 then Some(Partial(f.count, 2, f.payload))
      else if s.None? || s.value.total != f.count || s.value.next != f.num || f.num == f.count then None
      else Some(Partial(f.count, f.num + 1, s.value.payload + f.payload))
  }

  function Lookup(t: Table, k: string): Option<Partial> { if k in t then Some(t[k]) else None }

  lemma OfKeySnoc(h: seq<Fragment>, f: Fragment, k: string)
    ensures OfKey(h + [f], k) == if f.key == k then OfKey(h, k) + [f] else OfKey(h, k)
  {
    assert (h + [f])[..|h|] == h;
  }

  lemma RunSnoc(h: seq<Fragment>, f: Fragment)
    ensures Run(h + [f]) == (Accept(Run(h).0, f).0, if Floods(Run(h).0, f) then |h| else Run(h).1)
  {
    assert (h + [f])[..|h|] == h;
  }

  // Whatever is interleaved, the table holds for each key exactly what that key's
  // fragments since the last flood clear make of it.
  lemma {:induction false} TableIsPerKey(h: seq<Fragment>, k: string)
    ensures Run(h).1 <= |h|
    ensures Lookup(Run(h).0, k) == KeyState(OfKey(h[Run(h).1..], k))
  {
    if h != [] {
      var n := |h| - 1;
      var g, f := h[..n], h[n];
      assert h == g + [f];
      TableIsPerKey(g, k);
      hide KeyState;
      var (t, c) := Run(g);
      RunSnoc(g, f);
      hide Run, Accept, OfKey;
      if Floods(t, f) {
        assert h[n..] == [f];
        FloodIsPerKey(t, f, k);
      } else {
        assert h[c..] == g[c..] + [f];
        OfKeySnoc(g[c..], f, k);
        StepIsPerKey(t, f, k, OfKey(g[c..], k));
      }
    }
  }

  lemma FloodIsPerKey(t: Table, f: Fragment, k: string)
    requires Floods(t, f)
    ensures Lookup(Accept(t, f).0, k) == KeyState(OfKey([f], k))
  {
    assert [f][..0] == [];
  }

  lemma StepIsPerKey(t: Table, f: Fragment, k: string, e: seq<Fragment>)
    requires Lookup(t, k) == KeyState(e) && !Floods(t, f)
    ensures Lookup(Accept(t, f).0, k) == KeyState(if f.key == k then e + [f] else e)
  {
    assert (e + [f])[..|e|] == e;
  }

  // The table stays within its bound, and every entry waits for a fragment that exists.
  lemma {:induction false} TableBounded(h: seq<Fragment>)
    requires AllMulti(h)
    ensures |Run(h).0| <= MAX_PARTIALS
    ensures forall k :: k in Run(h).0 ==> 2 <= Run(h).0[k].next <= Run(h).0[k].total
  {
    if h != [] {
      TableBounded(h[..|h| - 1]);
      AcceptBounded(Run(h[..|h| - 1]).0, h[|h| - 1]);
    }
  }

  lemma AcceptBounded(t: Table, f: Fragment)
    requires Multi(f) && |t| <= MAX_PARTIALS && forall k :: k in t ==> 2 <= t[k].next <= t[k].total
    ensures var t' := Accept(t, f).0; |t'| <= MAX_PARTIALS && forall k :: k in t' ==> 2 <= t'[k].next <= t'[k].total
  {
    RemoveShrinks(t, f.key);
    if f.num == 1 {
      if Floods(t, f) { assert |Opened(map[], f)| == 1; }
    } else if f.key in t {
      UpdateKeeps(t, f.key, Partial(f.count, f.num + 1, t[f.key].payload + f.payload));
    }
  }

  lemma UpdateKeeps(t: Table, k: string, p: Partial)
    requires k in t
    ensures |t[k := p]| == |t|
  {
    assert t[k := p].Keys == t.Keys;
    assert |t[k := p].Keys| == |t.Keys|;
  }

  lemma RemoveShrinks(t: Table, k: string)
    ensures |t - {k}| <= |t|
  {
    assert (t - {k}).Keys == t.Keys - {k};
    assert |(t - {k}).Keys| <= |t.Keys|;
  }

  // ---- completed messages

  // The last m fragments are fragments 1..m of n.
  predicate EndsWith(e: seq<Fragment>, n: nat, m: nat) {
    m <= |e| && forall i :: |e| - m <= i < |e| ==> e[i].num == i - (|e| - m) + 1 && e[i].count == n
  }

  // The payloads of the last m fragments, joined.
  function Joined(e: seq<Fragment>, m: nat): string
    requires m <= |e|
  {
    if m == 0 then [] else Joined(e[..|e| - 1], m - 1) + e[|e| - 1].payload
  }

  lemma EndsWithSnoc(e: seq<Fragment>, f: Fragment, n: nat, m: nat)
    requires m >= 1
    ensures EndsWith(e + [f], n, m) <==> f.num == m && f.count == n && EndsWith(e, n, m - 1)
  {
    var a := e + [f];
    if EndsWith(a, n, m) {
      assert a[|e|].num == m && a[|e|].count == n;
      assert forall i :: |e| - (m - 1) <= i < |e| ==> a[i] == e[i];
    }
  }

  lemma JoinedSnoc(e: seq<Fragment>, f: Fragment, m: nat)
    requires m <= |e|
    ensures Joined(e + [f], m + 1) == Joined(e, m) + f.payload
  {
    assert (e + [f])[..|e|] == e;
  }

  // A key holds a partial message exactly when its last fragments are 1..m of n
  // with m < n, and then it waits for fragment m + 1 with their payloads joined.
  lemma {:induction false} KeyStateIs(e: seq<Fragment>, n: nat, m: nat)
    requires AllMulti(e)
    ensures KeyState(e).Some? ==>
              var p := KeyState(e).value;
              2 <= p.next <= p.total && EndsWith(e, p.total, p.next - 1) && p.payload == Joined(e, p.next - 1)
    ensures 1 <= m < n && EndsWith(e, n, m) ==>
              KeyState(e) == Some(Partial(n, m + 1, Joined(e, m)))
  {
    if e != [] {
      hide EndsWith;
      var k := |e| - 1;
      var d, f := e[..k], e[k];
      assert e == d + [f];
      KeyStateIs(d, n, if m == 0 then 0 else m - 1);
      if m >= 1 { EndsWithSnoc(d, f, n, m); }
      if 1 <= m < n && EndsWith(e, n, m) { JoinedSnoc(d, f, m - 1); }
      if KeyState(e).Some? {
        EndsWithSnoc(d, f, f.count, f.num);
        if f.num == 1 {
          assert Joined(e, 1) == Joined(d, 0) + f.payload;
        } else {
          JoinedSnoc(d, f, f.num - 1);
        }
      }
    }
  }

  // What a history and one more fragment of it complete, said outright.
  predicate Completes(e: seq<Fragment>, f: Fragment) {
    f.num == f.count && EndsWith(e + [f], f.count, f.count)
  }

  // Soundness and completeness: a fragment completes a message exactly when, since
  // the last flood clear, the last n fragments of its key are 1..n of n; and the
  // message is then exactly their payloads, in order, with the last fill count.
  lemma {:induction false} ReassembledExactly(h: seq<Fragment>, f: Fragment)
    requires AllMulti(h) && Multi(f)
    ensures Run(h).1 <= |h|
    ensures var e := OfKey(h[Run(h).1..], f.key);
            Accept(Run(h).0, f).1 == if Completes(e, f) then Some((Joined(e + [f], f.count), f.fill)) else None
  {
    TableIsPerKey(h, f.key);
    var since := h[Run(h).1..];
    var e := OfKey(since, f.key);
    assert AllMulti(since);
    EndsWithSnoc(e, f, f.count, f.count);
    KeyStateIs(e, f.count, f.count - 1);
    if Completes(e, f) {
      JoinedSnoc(e, f, f.count - 1);
    }
  }

  lemma {:induction false} OfKeyConcat(a: seq<Fragment>, b: seq<Fragment>, k: string)
    ensures OfKey(a + b, k) == OfKey(a, k) + OfKey(b, k)
  {
    if b == [] {
      assert a + b == a;
    } else {
      var n := |b| - 1;
      OfKeyConcat(a, b[..n], k);
      assert (a + b)[..|a + b| - 1] == a + b[..n];
    }
  }

  lemma EndsWithLonger(a: seq<Fragment>, e: seq<Fragment>, n: nat, m: nat)
    requires m <= |e|
    ensures EndsWith(a + e, n, m) <==> EndsWith(e, n, m)
  {
    var s := a + e;
    assert forall i :: |e| - m <= i < |e| ==> e[i] == s[i + |a|];
    assert forall i :: |s| - m <= i < |s| ==> s[i] == e[i - |a|];
  }

  lemma {:induction false} JoinedLonger(a: seq<Fragment>, e: seq<Fragment>, m: nat)
    requires m <= |e|
    ensures Joined(a + e, m) == Joined(e, m)
  {
    if m > 0 {
      assert (a + e)[..|a + e| - 1] == a + e[..|e| - 1];
      JoinedLonger(a, e[..|e| - 1], m - 1);
    }
  }

  // A message that starts at or after the last flood clear always completes,
  // whatever other keys came before or in between.
  lemma {:induction false} CompleteWithoutFlood(a: seq<Fragment>, b: seq<Fragment>, f: Fragment)
    requires AllMulti(a) && AllMulti(b) && Multi(f)
    requires Run(a + b).1 <= |a|
    requires f.num == f.count && f.count - 1 <= |OfKey(b, f.key)| && EndsWith(OfKey(b, f.key), f.count, f.count - 1)
    ensures Accept(Run(a + b).0, f).1 == Some((Joined(OfKey(b, f.key) + [f], f.count), f.fill))
  {
    hide Run, Accept, OfKey, Joined;
    var h, c := a + b, Run(a + b).1;
    assert AllMulti(h);
    ReassembledExactly(h, f);
    assert h[c..] == a[c..] + b;
    OfKeyConcat(a[c..], b, f.key);
    var x, e := OfKey(a[c..], f.key), OfKey(b, f.key);
    EndsWithSnoc(e, f, f.count, f.count);
    assert (x + e) + [f] == x + (e + [f]);
    EndsWithLonger(x, e + [f], f.count, f.count);
    JoinedLonger(x, e + [f], f.count);
  }

  lemma {:induction false} OneKeyNeverFloods(e: seq<Fragment>, k: string)
    requires forall i :: 0 <= i < |e| ==> e[i].key == k
    ensures Run(e).1 == 0 && Run(e).0.Keys <= {k}
  {
    if e != [] {
      var n := |e| - 1;
      OneKeyNeverFloods(e[..n], k);
      var t := Run(e[..n]).0;
      assert Opened(t, e[n]).Keys == {k} + t.Keys == {k};
      assert |Opened(t, e[n])| == |Opened(t, e[n]).Keys|;
    }
  }

  lemma {:induction false} OfKeyTwice(h: seq<Fragment>, k: string)
    ensures forall i :: 0 <= i < |OfKey(h, k)| ==> OfKey(h, k)[i].key == k
    ensures OfKey(OfKey(h, k), k) == OfKey(h, k)
  {
    if h != [] {
      var n := |h| - 1;
      OfKeyTwice(h[..n], k);
      OfKeySnoc(OfKey(h[..n], k), h[n], k);
    }
  }

  // Non-interference: with no flood, a fragment completes exactly what it would
  // complete if the other keys had never been heard.
  lemma {:induction false} OtherKeysDoNotMatter(h: seq<Fragment>, f: Fragment)
    requires Run(h).1 == 0
    ensures Accept(Run(h).0, f).1 == Accept(Run(OfKey(h, f.key)).0, f).1
  {
    var e := OfKey(h, f.key);
    OfKeyTwice(h, f.key);
    OneKeyNeverFloods(e, f.key);
    TableIsPerKey(h, f.key);
    TableIsPerKey(e, f.key);
    assert h[0..] == h && e[0..] == e;
    SameEntrySameAnswer(Run(h).0, Run(e).0, f);
  }

  lemma SameEntrySameAnswer(t: Table, u: Table, f: Fragment)
    requires Lookup(t, f.key) == Lookup(u, f.key)
    ensures Accept(t, f).1 == Accept(u, f).1
  {}


  // ---- runs of sentences

  // The multi-fragment sentences among those fed.
  function Fragments(ss: seq<string>): (h: seq<Fragment>)
    ensures AllMulti(h)
  {
    if ss == [] then []
    else
      var n := |ss| - 1;
      var p := ParseEnvelope(ss[n]);
      if p.Some? && p.value.count >= 2 then Fragments(ss[..n]) + [p.value] else Fragments(ss[..n])
  }

  function FeedAll(t: Table, ss: seq<string>): Table {
    if ss == [] then t else FeedStep(FeedAll(t, ss[..|ss| - 1]), ss[|ss| - 1]).0
  }

  lemma {:induction false} TableOfSentences(ss: seq<string>)
    ensures FeedAll(map[], ss) == Run(Fragments(ss)).0
  {
    if ss != [] {
      var n := |ss| - 1;
      TableOfSentences(ss[..n]);
      var p := ParseEnvelope(ss[n]);
      hide ParseEnvelope, Accept, DecodeMessage, Run;
      if p.Some? && p.value.count >= 2 {
        RunSnoc(Fragments(ss[..n]), p.value);
      }
    }
  }

  // The vessel a sentence gives after any run: that of a single-fragment message,
  // or of the multi-fragment message it completes; nothing otherwise.
  lemma {:induction false} FeedAnswers(ss: seq<string>, s: string)
    ensures var h := Fragments(ss);
            var c := Run(h).1;
            && c <= |h|
            && FeedStep(FeedAll(map[], ss), s).1 ==
               match ParseEnvelope(s)
               case None => None
               case Some(f) =>
                 var e := OfKey(h[c..], f.key);
                 if f.count == 1 then DecodeMessage(f.payload, f.fill)
                 else if Completes(e, f) then DecodeMessage(Joined(e + [f], f.count), f.fill)
                 else None
  {
    TableOfSentences(ss);
    TableIsPerKey(Fragments(ss), []);
    var p := ParseEnvelope(s);
    if p.Some? && p.value.count >= 2 {
      ReassembledExactly(Fragments(ss), p.value);
    }
  }
}
