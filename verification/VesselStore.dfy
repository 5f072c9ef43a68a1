// From received text to the vessel table (apps/ais/src/model/vessel_store.cpp):
// line splitting, decoding, and the sparse merge of each message.
module VesselStore {
  import opened AisDecoder
  import opened AisReassembler
  import opened Options
  import opened Sequences
  import Nmea = NmeaNetSource

  // ---- line splitting

  predicate LineEnd(c: char) { c == '\n' || c == '\r' }

  // The non-empty lines a text completes, and the line still open at its end.
  function Scan(text: string): (r: (seq<string>, string)) {
    if text == [] then ([], [])
    else
      var n := |text| - 1;
      var (done, open) := Scan(text[..n]);
      if !LineEnd(text[n]) then (done, open + [text[n]])
      else if open == [] then (done, [])
      else (done + [open], [])
  }

  // The sentences of a text; the end of the text ends the last line.
  function Lines(text: string): seq<string> {
    var (done, open) := Scan(text);
    if open == [] then done else done + [open]
  }

  lemma {:induction false} ScanConcat(a: string, b: string)
    requires Scan(a).1 == []
    ensures Scan(a + b) == (Scan(a).0 + Scan(b).0, Scan(b).1)
  {
    if b == [] {
      assert a + b == a && Scan(a).0 + [] == Scan(a).0;
    } else {
      var n := |b| - 1;
      assert (a + b)[..|a + b| - 1] == a + b[..n];
      ScanConcat(a, b[..n]);
      var (d, open) := Scan(b[..n]);
      assert (Scan(a).0 + d) + [open] == Scan(a).0 + (d + [open]);
      assert (a + b)[|a + b| - 1] == b[n];
    }
  }

  // Texts that end in a newline can be split apart or joined.
  lemma LinesConcat(a: string, b: string)
    requires a == [] || a[|a| - 1] == '\n'
    ensures Lines(a + b) == Lines(a) + Lines(b)
  {
    assert Scan(a).1 == [];
    ScanConcat(a, b);
  }

  // A text without a line end is one line.
  lemma {:induction false} ScanOpen(a: string)
    requires '\n' !in a && '\r' !in a
    ensures Scan(a) == ([], a)
  {
    if a != [] {
      var n := |a| - 1;
      ScanOpen(a[..n]);
      assert a == a[..n] + [a[n]];
    }
  }

  lemma OneLine(a: string)
    requires '\n' !in a && '\r' !in a
    ensures Lines(a) == if a == [] then [] else [a]
  {
    ScanOpen(a);
  }

  // A CR or an LF ends a line, and the two sides are split apart; with OneLine this
  // says what the lines of every text are.
  lemma LinesAtEnd(a: string, c: char, b: string)
    requires c == '\r' || c == '\n'
    ensures Lines(a + [c] + b) == Lines(a) + Lines(b)
  {
    assert (a + [c])[..|a|] == a;
    assert Scan(a + [c]) == (Lines(a), []);
    ScanConcat(a + [c], b);
  }

  function LinesOfAll(texts: seq<string>): seq<string> {
    if texts == [] then [] else LinesOfAll(texts[..|texts| - 1]) + Lines(texts[|texts| - 1])
  }

  lemma {:induction false} LinesOfHanded(texts: seq<string>)
    requires forall i :: 0 <= i < |texts| ==> texts[i] != [] && texts[i][|texts[i]| - 1] == '\n'
    ensures LinesOfAll(texts) == Lines(Concat(texts))
    ensures var t := Concat(texts); t == [] || t[|t| - 1] == '\n'
  {
    if texts != [] {
      var n := |texts| - 1;
      LinesOfHanded(texts[..n]);
      LinesConcat(Concat(texts[..n]), texts[n]);
    }
  }

  // However the stream was cut, the sentences that reach the reassembler are the
  // lines of its whole-line part, in order, when every line fits the buffer.
  lemma {:induction false} SentencesInvariant(s: string, cuts: seq<string>)
    requires Nmea.LinesFit(s) && Concat(cuts) == s
    ensures LinesOfAll(Nmea.IngestAll(cuts).handed) == Lines(Nmea.Whole(s))
  {
    Nmea.ChunkInvariance(s);
    Nmea.HandedEndInNewline(cuts);
    LinesOfHanded(Nmea.IngestAll(cuts).handed);
  }

  // ---- the merge

  // A tracked vessel: what the messages heard so far said about it.
  datatype Entity = Entity(pos: Option<(int, int)>, sog: Option<int>, cog: Option<int>, hdg: Option<int>,
                           status: Option<int>, name: Option<string>, callsign: Option<string>,
                           destination: Option<string>, shipType: Option<int>)

  const UNHEARD := Entity(None, None, None, None, None, None, None, None, None)

  // What one message carries, field by field.
  function TextIn(s: string): Option<string> { if s == [] then None else Some(s) }

  function PosIn(v: Vessel): Option<(int, int)> { if v.Position? then v.pos else None }
  function SogIn(v: Vessel): Option<int> { if v.Position? then v.sog else None }
  function CogIn(v: Vessel): Option<int> { if v.Position? then v.cog else None }
  function HdgIn(v: Vessel): Option<int> { if v.Position? then v.hdg else None }
  function StatusIn(v: Vessel): Option<int> { if v.Position? then Some(v.navStatus) else None }
  function NameIn(v: Vessel): Option<string> { if v.Static? then TextIn(v.name) else None }
  function CallsignIn(v: Vessel): Option<string> { if v.Static? then TextIn(v.callsign) else None }
  function DestinationIn(v: Vessel): Option<string> { if v.Static? then TextIn(v.destination) else None }
  function ShipTypeIn(v: Vessel): Option<int> { if v.Static? && v.shipType != 0 then Some(v.shipType) else None }

  type Store = map<int, Entity>

  function Entry(store: Store, mmsi: int): Entity { if mmsi in store then store[mmsi] else UNHEARD }

  // The patch of apply_to_store.
  function Patch(e: Entity, v: Vessel): Entity {
    match v
    case Position(_, _, nav, sog, pos, cog, hdg) =>
      e.(pos := if pos.Some? then pos else e.pos, sog := if sog.Some? then sog else e.sog,
         cog := if cog.Some? then cog else e.cog, hdg := if hdg.Some? then hdg else e.hdg, status := Some(nav))
    case Static(_, callsign, name, shipType, destination) =>
      e.(name := if name != [] then Some(name) else e.name,
         callsign := if callsign != [] then Some(callsign) else e.callsign,
         destination := if destination != [] then Some(destination) else e.destination,
         shipType := if shipType != 0 then Some(shipType) else e.shipType)
  }

  function Merge(store: Store, v: Vessel): Store { store[v.mmsi := Patch(Entry(store, v.mmsi), v)] }

  function MergeAll(vs: seq<Vessel>): Store {
    if vs == [] then map[] else Merge(MergeAll(vs[..|vs| - 1]), vs[|vs| - 1])
  }

  // The value a field had the last time a message of this vessel carried it.
  function Latest<T>(vs: seq<Vessel>, mmsi: int, carried: Vessel -> Option<T>): Option<T> {
    if vs == [] then None
    else
      var n := |vs| - 1;
      if vs[n].mmsi == mmsi && carried(vs[n]).Some? then carried(vs[n]) else Latest(vs[..n], mmsi, carried)
  }

  // The table always shows, for every vessel and every field, the latest value any
  // message carried: an absent field never erases one.
  lemma {:induction false} TableIsLatest(vs: seq<Vessel>, mmsi: int)
    ensures Entry(MergeAll(vs), mmsi) ==
            Entity(Latest(vs, mmsi, PosIn), Latest(vs, mmsi, SogIn), Latest(vs, mmsi, CogIn), Latest(vs, mmsi, HdgIn),
                   Latest(vs, mmsi, StatusIn), Latest(vs, mmsi, NameIn), Latest(vs, mmsi, CallsignIn),
                   Latest(vs, mmsi, DestinationIn), Latest(vs, mmsi, ShipTypeIn))
    ensures mmsi in MergeAll(vs) <==> exists i :: 0 <= i < |vs| && vs[i].mmsi == mmsi
  {
    if vs != [] {
      TableIsLatest(vs[..|vs| - 1], mmsi);
    }
  }

  // ---- the pipeline

  class EntityStore {
    var entities: Store

    constructor ()
      ensures entities == map[]
    {
      entities := map[];
    }

    method ApplyToStore(v: Vessel)
      modifies this
      ensures entities == Merge(old(entities), v)
    {
      var e := if v.mmsi in entities then entities[v.mmsi] else UNHEARD;
      match v {
        case Position(_, _, nav, sog, pos, cog, hdg) =>
          if pos.Some? { e := e.(pos := pos); }
          if sog.Some? { e := e.(sog := sog); }
          if cog.Some? { e := e.(cog := cog); }
          if hdg.Some? { e := e.(hdg := hdg); }
          e := e.(status := Some(nav));
        case Static(_, callsign, name, shipType, destination) =>
          if name != [] { e := e.(name := Some(name)); }
          if callsign != [] { e := e.(callsign := Some(callsign)); }
          if destination != [] { e := e.(destination := Some(destination)); }
          if shipType != 0 { e := e.(shipType := Some(shipType)); }
      }
      entities := entities[v.mmsi := e];
    }
  }

  // Feeding one line, then a list of lines.
  function FeedLine(t: Table, store: Store, line: string): (Table, Store) {
    var (t', v) := FeedStep(t, line);
    (t', if v.Some? then Merge(store, v.value) else store)
  }

  function FeedLines(t: Table, store: Store, lines: seq<string>): (Table, Store) {
    if lines == [] then (t, store)
    else
      var (t', store') := FeedLines(t, store, lines[..|lines| - 1]);
      FeedLine(t', store', lines[|lines| - 1])
  }

  lemma FeedLinesSnoc(t: Table, store: Store, lines: seq<string>, line: string)
    ensures FeedLines(t, store, lines + [line]) ==
            var (t', store') := FeedLines(t, store, lines); FeedLine(t', store', line)
  {
    assert (lines + [line])[..|lines|] == lines;
  }

  /** The flush: feed the line collected so far, if any. */
  method Flush(re: AivdmReassembler, store: EntityStore, line: string)
    modifies re, store
    ensures (re.partials, store.entities) ==
            if line == [] then old((re.partials, store.entities)) else FeedLine(old(re.partials), old(store.entities), line)
  {
    if line == [] {
      return;
    }
    var v := re.Feed(line);
    if v.Some? {
      store.ApplyToStore(v.value);
    }
  }

  method ApplyNmea(re: AivdmReassembler, store: EntityStore, nmea: string)
    modifies re, store
    ensures (re.partials, store.entities) == FeedLines(old(re.partials), old(store.entities), Lines(nmea))
  {
    var line: string := [];
    ghost var t0, s0 := re.partials, store.entities;
    for i := 0 to |nmea|
      invariant line == Scan(nmea[..i]).1
      invariant (re.partials, store.entities) == FeedLines(t0, s0, Scan(nmea[..i]).0)
    {
      assert nmea[..i + 1][..i] == nmea[..i];
      FeedLinesSnoc(t0, s0, Scan(nmea[..i]).0, line);
      var c := nmea[i];
      if c == '\n' || c == '\r' {
        Flush(re, store, line);
        line := [];
      } else {
        line := line + [c];
      }
    }
    assert nmea[..|nmea|] == nmea;
    FeedLinesSnoc(t0, s0, Scan(nmea).0, line);
    Flush(re, store, line);
  }

  lemma {:induction false} FeedLinesConcat(t: Table, store: Store, a: seq<string>, b: seq<string>)
    ensures FeedLines(t, store, a + b) == var (t', store') := FeedLines(t, store, a); FeedLines(t', store', b)
  {
    if b == [] {
      assert a + b == a;
    } else {
      assert (a + b)[..|a + b| - 1] == a + b[..|b| - 1];
      FeedLinesConcat(t, store, a, b[..|b| - 1]);
    }
  }

  // What the callback makes of the texts handed to it, one by one.
  function Receive(t: Table, store: Store, texts: seq<string>): (Table, Store) {
    if texts == [] then (t, store)
    else
      var (t', store') := Receive(t, store, texts[..|texts| - 1]);
      FeedLines(t', store', Lines(texts[|texts| - 1]))
  }

  lemma {:induction false} ReceiveIsFeed(t: Table, store: Store, texts: seq<string>)
    ensures Receive(t, store, texts) == FeedLines(t, store, LinesOfAll(texts))
  {
    if texts != [] {
      var n := |texts| - 1;
      ReceiveIsFeed(t, store, texts[..n]);
      FeedLinesConcat(t, store, LinesOfAll(texts[..n]), Lines(texts[n]));
    }
  }

  // Chunk invariance of the whole pipeline: however a stream whose lines fit was
  // cut, the same reassembler and vessel tables result.
  lemma {:induction false} PipelineInvariant(t: Table, store: Store, s: string, cuts: seq<string>)
    requires Nmea.LinesFit(s) && Concat(cuts) == s
    ensures Receive(t, store, Nmea.IngestAll(cuts).handed) == FeedLines(t, store, Lines(Nmea.Whole(s)))
  {
    ReceiveIsFeed(t, store, Nmea.IngestAll(cuts).handed);
    SentencesInvariant(s, cuts);
  }
}
