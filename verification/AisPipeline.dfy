// The whole receive path: chunks of a byte stream, lines, sentences, messages and
// the vessel table (toolkit/src/net/nmea_net_source.cpp,
// apps/ais/src/model/vessel_store.cpp, apps/ais/src/decoder/ais_decoder.cpp).
module AisPipeline {
  import opened AisCodec
  import opened AisDecoder
  import opened AisLaws
  import opened AisReassembler
  import opened Options
  import opened Sequences
  import opened VesselStore
  import Nmea = NmeaNetSource

  /** Each chunk goes in, and what the line buffer hands over is applied. */
  method Listen(source: Nmea.NmeaNetSource, re: AivdmReassembler, store: EntityStore, cuts: seq<string>)
    requires source.State() == Nmea.START
    modifies source, re, store
    ensures source.State() == Nmea.IngestAll(cuts)
    ensures (re.partials, store.entities) ==
            Receive(old(re.partials), old(store.entities), Nmea.IngestAll(cuts).handed)
  {
    ghost var t, s := re.partials, store.entities;
    for i := 0 to |cuts|
      invariant source.State() == Nmea.IngestAll(cuts[..i])
      invariant (re.partials, store.entities) == Receive(t, s, Nmea.IngestAll(cuts[..i]).handed)
    {
      ghost var before := Nmea.IngestAll(cuts[..i]).handed;
      assert cuts[..i + 1][..i] == cuts[..i];
      var text := source.Ingest(cuts[i]);
      if text.Some? {
        assert (before + [text.value])[..|before|] == before;
        ApplyNmea(re, store, text.value);
      } else {
        assert before + [] == before;
      }
    }
    assert cuts[..|cuts|] == cuts;
  }

  // ---- a message on its way

  // Text that stays on one line.
  predicate Unbroken(s: string) { '\n' !in s && '\r' !in s }

  // What a transmission looks like on the wire: each line ended by a newline.
  function Wire(x: Transmission, n: nat): string
    requires x.Valid() && n <= |x.pieces|
  {
    if n == 0 then [] else Wire(x, n - 1) + x.Line(n) + ['\n']
  }

  lemma {:induction false} JoinUnbroken(fields: seq<string>)
    requires fields != [] && forall i :: 0 <= i < |fields| ==> Unbroken(fields[i])
    ensures Unbroken(Join(fields))
  {
    JoinClean(fields, '\n');
    JoinClean(fields, '\r');
  }

  lemma SentenceUnbroken(tag: string, f: Fragment, seqId: string, channel: string)
    requires f.count <= 9 && f.num <= 9 && f.fill <= 9
    requires Unbroken(tag) && Unbroken(seqId) && Unbroken(channel) && Unbroken(f.payload)
    ensures Unbroken(Sentence(tag, f, seqId, channel)) && Sentence(tag, f, seqId, channel) != []
  {
    var fields := FieldsOf(tag, f, seqId, channel);
    assert Unbroken(fields[1]) && Unbroken(fields[2]) && Unbroken(fields[6]);
    assert forall k :: 0 <= k < 7 ==> Unbroken(fields[k]);
    JoinUnbroken(fields);
    DigitsUnbroken(Join(fields));
    hide Join, CheckDigits, FieldsOf;
  }

  lemma DigitsUnbroken(body: string)
    ensures Unbroken(CheckDigits(body))
  {
    hide Xor;
    assert Hex('\n') == -1 && Hex('\r') == -1;
  }

  lemma LineUnbroken(x: Transmission, i: nat)
    requires x.Valid() && 1 <= i <= |x.pieces| && Unbroken(x.tag) && Unbroken(x.seqId) && Unbroken(x.channel)
    ensures Unbroken(x.Line(i)) && x.Line(i) != []
  {
    hide Encodable, DecodeMessage, PayloadOf, Sentence, Unbroken;
    PayloadBack(x.m);
    PiecesArmoured(x.pieces, i - 1);
    ArmouredUnbroken(x.pieces[i - 1]);
    SentenceUnbroken(x.tag, x.Part(i), x.seqId, x.channel);
  }

  lemma ArmouredUnbroken(s: string)
    requires AllArmoured(s)
    ensures Unbroken(s)
  {
    assert !Armoured('\n') && !Armoured('\r');
  }

  lemma LineAdded(text: string, line: string)
    requires Unbroken(line) && line != [] && (text == [] || text[|text| - 1] == '\n')
    ensures Lines(text + line + ['\n']) == Lines(text) + [line]
  {
    hide Lines;
    LinesConcat(text, line + ['\n']);
    LinesAtEnd(line, '\n', []);
    OneLine(line);
    OneLine([]);
    assert line + ['\n'] + [] == line + ['\n'] && [line] + [] == [line];
    assert text + (line + ['\n']) == text + line + ['\n'];
  }

  // The lines of the wire are the lines of the transmission.
  lemma {:induction false} WireLines(x: Transmission, n: nat)
    requires x.Valid() && n <= |x.pieces| && Unbroken(x.tag) && Unbroken(x.seqId) && Unbroken(x.channel)
    ensures Lines(Wire(x, n)) == x.Lines(n)
    ensures Wire(x, n) == [] || Wire(x, n)[|Wire(x, n)| - 1] == '\n'
  {
    hide Encodable, PayloadOf, Sentence, Lines;
    OneLine([]);
    if n > 0 {
      WireLines(x, n - 1);
      LineUnbroken(x, n);
      LineAdded(Wire(x, n - 1), x.Line(n));
    }
  }

  // Feeding the lines of a transmission changes the table only at the last one.
  lemma {:induction false} FeedTransmission(x: Transmission, t: Table, store: Store, n: nat)
    requires x.Valid() && n <= |x.pieces|
    ensures FeedLines(t, store, x.Lines(n)) ==
            (FeedAll(t, x.Lines(n)), if n == |x.pieces| then Merge(store, Reported(x.m)) else store)
  {
    hide FeedStep, FeedLines, FeedAll, Merge, Reported, Encodable, TagOk, Clean, PayloadOf, Concat, Transmission.Line;
    if n > 0 {
      FeedTransmission(x, t, store, n - 1);
      TransmissionBack(x, t, n - 1);
      FeedLinesSnoc(t, store, x.Lines(n - 1), x.Line(n));
      FeedAllSnoc(t, x.Lines(n - 1), x.Line(n));
    } else {
      FeedNothing(t, store);
    }
  }

  lemma FeedNothing(t: Table, store: Store)
    ensures FeedLines(t, store, []) == (FeedAll(t, []), store)
  {}

  lemma FeedAllSnoc(t: Table, lines: seq<string>, line: string)
    ensures FeedAll(t, lines + [line]) == FeedStep(FeedAll(t, lines), line).0
  {
    assert (lines + [line])[..|lines|] == lines;
  }

  // End to end: a message, sent in any way and cut into chunks anywhere, to a receiver
  // that has heard anything before, leaves the vessel table with just that message
  // merged in.
  lemma MessageArrives(x: Transmission, t: Table, store: Store, cuts: seq<string>)
    requires x.Valid() && Unbroken(x.tag) && Unbroken(x.seqId) && Unbroken(x.channel)
    requires Concat(cuts) == Wire(x, |x.pieces|) && Nmea.LinesFit(Wire(x, |x.pieces|))
    ensures Receive(t, store, Nmea.IngestAll(cuts).handed).1 == Merge(store, Reported(x.m))
  {
    var wire, n := Wire(x, |x.pieces|), |x.pieces|;
    PipelineInvariant(t, store, wire, cuts);
    WireLines(x, n);
    WholeWire(wire);
    FeedTransmission(x, t, store, n);
  }

  lemma WholeWire(s: string)
    requires s == [] || s[|s| - 1] == '\n'
    ensures Nmea.Whole(s) == s
  {}

  // ---- what it leaves in the table

  function Or<T>(now: Option<T>, before: Option<T>): Option<T> { if now.Some? then now else before }

  // Text shows without the padding and spaces at its end; empty text is no text.
  ghost predicate Shows(s: string, now: Option<string>, before: Option<string>) {
    exists t :: TrimOf(s, t) && now == if t == [] then before else Some(t)
  }

  // The table after a report, vessel by vessel and field by field, in the numbers of
  // the format: what the message carries is shown, what it does not stays.
  lemma ReportShows(store: Store, m: Message, mmsi: int)
    requires Encodable(m)
    ensures var was, now := Entry(store, mmsi), Entry(Merge(store, Reported(m)), mmsi);
            if mmsi != m.mmsi then now == was
            else if m.PositionReport? then
              && now.sog == Or(Unless(m.sog == 1023, m.sog), was.sog)
              && now.cog == Or(Unless(m.cog >= 3600, m.cog), was.cog)
              && now.hdg == Or(Unless(m.hdg >= 360, m.hdg), was.hdg)
              && now.pos == (if m.lon != 108600000 && m.lat != 54600000 then Some((m.lon, m.lat)) else was.pos)
              && now.status == Some(m.nav)
              && (now.name, now.callsign, now.destination, now.shipType) == (was.name, was.callsign, was.destination, was.shipType)
            else
              && Shows(m.name, now.name, was.name) && Shows(m.callsign, now.callsign, was.callsign)
              && Shows(m.destination, now.destination, was.destination)
              && now.shipType == Or(Unless(m.shipType == 0, m.shipType), was.shipType)
              && (now.sog, now.cog, now.hdg, now.pos, now.status) == (was.sog, was.cog, was.hdg, was.pos, was.status)
    ensures mmsi in Merge(store, Reported(m)) <==> mmsi in store || mmsi == m.mmsi
  {
    hide Encodable, Trim, TrimOf;
    if m.StaticReport? {
      TrimIs(m.name);
      TrimIs(m.callsign);
      TrimIs(m.destination);
    }
  }
}
