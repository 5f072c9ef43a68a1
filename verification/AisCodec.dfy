// A reference encoder for the AIS messages the decoder understands, after the
// message tables of Annex 8 of Recommendation ITU-R M.1371-5 (types 1, 2, 3 and
// 5) and the armour, fragments and checksum of the AIVDM sentence; and the proof
// that the decoder gets every field back.
module AisCodec {
  import opened Ints
  import opened AisDecoder
  import opened AisReassembler
  import opened Options
  import opened Sequences

  // ---- bits

  lemma {:induction false} ValueOfBits(v: nat, n: nat)
    requires v < Pow2(n)
    ensures Value(BitsOf(v, n)) == v
  {
    if n > 0 {
      ValueOfBits(v / 2, n - 1);
      assert BitsOf(v, n)[..n - 1] == BitsOf(v / 2, n - 1);
    }
  }

  lemma {:induction false} BitsOfValue(b: seq<Bit>)
    ensures BitsOf(Value(b), |b|) == b
  {
    if b != [] {
      BitsOfValue(b[..|b| - 1]);
    }
  }

  lemma ReadBack(bits: seq<Bit>, off: nat, v: nat, n: nat)
    requires v < Pow2(n) && Sits(bits, off, BitsOf(v, n))
    ensures UBits(bits, off, n) == v
  {
    ValueOfBits(v, n);
  }

  // Two's complement of an n-bit signed number.
  function Complement(x: int, n: nat): int {
    if x < 0 then x + Pow2(n) else x
  }

  predicate FitsSigned(x: int, n: nat) {
    n > 0 && 0 - Pow2(n - 1) <= x < Pow2(n - 1)
  }

  // Signed numbers survive, negative ones included.
  lemma {:induction false} ReadSignedBack(bits: seq<Bit>, off: nat, x: int, n: nat)
    requires FitsSigned(x, n)
    requires Complement(x, n) >= 0 && Sits(bits, off, BitsOf(Complement(x, n), n))
    ensures SBits(bits, off, n) == x
  {
    var p, v := Pow2(n - 1), Complement(x, n);
    assert Pow2(n) == 2 * p;
    ReadBack(bits, off, v, n);
    QuotientIs(v, p, if x < 0 then 1 else 0);
  }

  // ---- text

  predicate SixBitChar(c: char) { 32 <= c as int < 96 }

  function CodeOf(c: char): (v: int)
    requires SixBitChar(c)
    ensures 0 <= v < 64 && CharOf(v) == c
  {
    if c as int >= 64 then c as int - 64 else c as int
  }

  predicate SixBitText(s: string) { forall i :: 0 <= i < |s| ==> SixBitChar(s[i]) }

  function Pad(s: string, n: nat): (r: string)
    requires |s| <= n
    ensures |r| == n && (SixBitText(s) ==> SixBitText(r))
  {
    s + seq(n - |s|, _ => '@')
  }

  function TextBits(s: string): (b: seq<Bit>)
    requires SixBitText(s)
    ensures |b| == 6 * |s|
  {
    if s == [] then [] else TextBits(s[..|s| - 1]) + BitsOf(CodeOf(s[|s| - 1]), 6)
  }

  lemma {:induction false} CharsBack(bits: seq<Bit>, off: nat, s: string)
    requires SixBitText(s) && Sits(bits, off, TextBits(s))
    ensures Chars(bits, off, |s|) == s
  {
    if s != [] {
      var n := |s| - 1;
      SitsConcat(bits, off, TextBits(s[..n]), BitsOf(CodeOf(s[n]), 6));
      CharsBack(bits, off, s[..n]);
      PowSix();
      ReadBack(bits, off + 6 * n, CodeOf(s[n]), 6);
    }
  }

  lemma PowSix()
    ensures Pow2(6) == 64
  {
    assert Pow2(3) == 2 * Pow2(2) && Pow2(2) == 2 * Pow2(1) && Pow2(1) == 2;
    assert Pow2(6) == 2 * Pow2(5) && Pow2(5) == 2 * Pow2(4) && Pow2(4) == 2 * Pow2(3);
  }

  // Text that does not itself end in padding or a space.
  predicate Trimmed(s: string) { s == [] || (s[|s| - 1] != '@' && s[|s| - 1] != ' ') }

  lemma {:induction false} TrimPad(s: string, n: nat)
    ensures Trim(s + seq(n, _ => '@')) == Trim(s)
  {
    if n == 0 {
      assert s + seq(0, _ => '@') == s;
    } else {
      var t := s + seq(n, _ => '@');
      assert t[..|t| - 1] == s + seq(n - 1, _ => '@');
      TrimPad(s, n - 1);
    }
  }

  lemma {:induction false} TrimShortens(s: string)
    ensures |Trim(s)| <= |s|
  {
    if !Trimmed(s) { TrimShortens(s[..|s| - 1]); }
  }

  // Six-bit text survives padding and trimming exactly when it is trimmed.
  lemma {:induction false} TextSurvives(bits: seq<Bit>, off: nat, s: string, n: nat)
    requires |s| <= n && SixBitText(s) && Sits(bits, off, TextBits(Pad(s, n)))
    ensures Trim(Chars(bits, off, n)) == Trim(s)
    ensures Trim(Chars(bits, off, n)) == s <==> Trimmed(s)
  {
    CharsBack(bits, off, Pad(s, n));
    TrimPad(s, n - |s|);
    if !Trimmed(s) { TrimShortens(s[..|s| - 1]); }
  }

  // ---- the messages

  datatype Message =
    | PositionReport(kind: nat, repeatInd: nat, mmsi: nat, nav: nat, turn: nat, sog: nat, accuracy: nat, lon: int,
                     lat: int, cog: nat, hdg: nat, second: nat, maneuver: nat, spare: nat, raim: nat, radio: nat)
    | StaticReport(repeatInd: nat, mmsi: nat, version: nat, imo: nat, callsign: string, name: string, shipType: nat,
                   dims: nat, epfd: nat, eta: nat, draught: nat, destination: string, dte: nat, spare: nat)

  // Every field fits its place.
  predicate Encodable(m: Message) {
    if m.PositionReport? then PositionFits(m) else StaticFits(m)
  }

  predicate PositionFits(m: Message)
    requires m.PositionReport?
  {
    match m
    case PositionReport(kind, rep, mmsi, nav, turn, sog, acc, lon, lat, cog, hdg, second, man, spare, raim, radio) =>
      && 1 <= kind <= 3 && rep < Pow2(2) && mmsi < Pow2(30) && nav < Pow2(4) && turn < Pow2(8) && sog < Pow2(10)
      && acc < Pow2(1) && FitsSigned(lon, 28) && FitsSigned(lat, 27) && cog < Pow2(12) && hdg < Pow2(9)
      && second < Pow2(6) && man < Pow2(2) && spare < Pow2(3) && raim < Pow2(1) && radio < Pow2(19)
  }

  predicate StaticFits(m: Message)
    requires m.StaticReport?
  {
    match m
    case StaticReport(rep, mmsi, version, imo, callsign, name, shipType, dims, epfd, eta, draught, destination, dte, spare) =>
      && rep < Pow2(2) && mmsi < Pow2(30) && version < Pow2(2) && imo < Pow2(30)
      && SixBitText(callsign) && |callsign| <= 7 && SixBitText(name) && |name| <= 20
      && shipType < Pow2(8) && dims < Pow2(30) && epfd < Pow2(4) && eta < Pow2(20) && draught < Pow2(8)
      && SixBitText(destination) && |destination| <= 20 && dte < Pow2(1) && spare < Pow2(1)
  }

  // The vessel the decoder must report.
  function Reported(m: Message): Vessel {
    match m
    case PositionReport(kind, _, mmsi, nav, _, sog, _, lon, lat, cog, hdg, _, _, _, _, _) =>
      Position(kind, mmsi, nav, Sog(sog), Pos(lon, lat), Cog(cog), Hdg(hdg))
    case StaticReport(_, mmsi, _, _, callsign, name, shipType, _, _, _, _, destination, _, _) =>
      Static(mmsi, Trim(callsign), Trim(name), shipType, Trim(destination))
  }

  // The tail of the position report the decoder does not read.
  function PositionTail(m: Message): (b: seq<Bit>)
    requires m.PositionReport?
    ensures |b| == 31
  {
    BitsOf(m.second, 6) + BitsOf(m.maneuver, 2) + BitsOf(m.spare, 3) + BitsOf(m.raim, 1) + BitsOf(m.radio, 19)
  }

  function PositionBits(m: Message): (b: seq<Bit>)
    requires m.PositionReport? && Encodable(m)
    ensures |b| == 168
  {
    BitsOf(m.kind, 6) + (BitsOf(m.repeatInd, 2) + (BitsOf(m.mmsi, 30) + (BitsOf(m.nav, 4) + (BitsOf(m.turn, 8) +
    (BitsOf(m.sog, 10) + (BitsOf(m.accuracy, 1) + (BitsOf(Complement(m.lon, 28), 28) + (BitsOf(Complement(m.lat, 27), 27) +
    (BitsOf(m.cog, 12) + (BitsOf(m.hdg, 9) + PositionTail(m)))))))))))
  }

  function StaticBits(m: Message): (b: seq<Bit>)
    requires m.StaticReport? && Encodable(m)
    ensures |b| == 424
  {
    BitsOf(5, 6) + (BitsOf(m.repeatInd, 2) + (BitsOf(m.mmsi, 30) + (BitsOf(m.version, 2) + (BitsOf(m.imo, 30) +
    (TextBits(Pad(m.callsign, 7)) + (TextBits(Pad(m.name, 20)) + (BitsOf(m.shipType, 8) +
    ((BitsOf(m.dims, 30) + BitsOf(m.epfd, 4) + BitsOf(m.eta, 20) + BitsOf(m.draught, 8)) +
    (TextBits(Pad(m.destination, 20)) + (BitsOf(m.dte, 1) + BitsOf(m.spare, 1)))))))))))
  }

  // The message with its padding to whole characters, and the padding's length.
  function MessageBits(m: Message): seq<Bit>
    requires Encodable(m)
  {
    if m.PositionReport? then PositionBits(m) else StaticBits(m) + [0, 0]
  }

  lemma MessageBitsWhole(m: Message)
    requires Encodable(m)
    ensures |MessageBits(m)| % 6 == 0
  {
    hide PositionBits, StaticBits, Encodable;
  }

  function FillOf(m: Message): nat { if m.PositionReport? then 0 else 2 }

  lemma PositionBack(m: Message)
    requires m.PositionReport? && Encodable(m)
    ensures DecodePosition(PositionBits(m)) == Reported(m)
  {
    var bits := PositionBits(m);
    var t10 := BitsOf(m.hdg, 9) + PositionTail(m);
    var t9 := BitsOf(m.cog, 12) + t10;
    var t8 := BitsOf(Complement(m.lat, 27), 27) + t9;
    var t7 := BitsOf(Complement(m.lon, 28), 28) + t8;
    var t6 := BitsOf(m.accuracy, 1) + t7;
    var t5 := BitsOf(m.sog, 10) + t6;
    var t4 := BitsOf(m.turn, 8) + t5;
    var t3 := BitsOf(m.nav, 4) + t4;
    var t2 := BitsOf(m.mmsi, 30) + t3;
    var t1 := BitsOf(m.repeatInd, 2) + t2;
    hide BitsOf, Value, Pow2, SBits, Complement, UBits;
    assert Sits(bits, 0, BitsOf(m.kind, 6) + t1);
    SitsConcat(bits, 0, BitsOf(m.kind, 6), t1);
    SitsConcat(bits, 6, BitsOf(m.repeatInd, 2), t2);
    SitsConcat(bits, 8, BitsOf(m.mmsi, 30), t3);
    SitsConcat(bits, 38, BitsOf(m.nav, 4), t4);
    SitsConcat(bits, 42, BitsOf(m.turn, 8), t5);
    SitsConcat(bits, 50, BitsOf(m.sog, 10), t6);
    SitsConcat(bits, 60, BitsOf(m.accuracy, 1), t7);
    SitsConcat(bits, 61, BitsOf(Complement(m.lon, 28), 28), t8);
    SitsConcat(bits, 89, BitsOf(Complement(m.lat, 27), 27), t9);
    SitsConcat(bits, 116, BitsOf(m.cog, 12), t10);
    SitsConcat(bits, 128, BitsOf(m.hdg, 9), PositionTail(m));
    KindFits(m.kind);
    ReadBack(bits, 0, m.kind, 6);
    ReadBack(bits, 8, m.mmsi, 30);
    ReadBack(bits, 38, m.nav, 4);
    ReadBack(bits, 50, m.sog, 10);
    ReadSignedBack(bits, 61, m.lon, 28);
    ReadSignedBack(bits, 89, m.lat, 27);
    ReadBack(bits, 116, m.cog, 12);
    ReadBack(bits, 128, m.hdg, 9);
  }

  lemma KindFits(kind: nat)
    requires kind <= 5
    ensures kind < Pow2(6)
  {
    PowSix();
  }

  lemma StaticBack(m: Message)
    requires m.StaticReport? && Encodable(m)
    ensures DecodeStatic(StaticBits(m) + [0, 0]) == Reported(m) && UBits(StaticBits(m) + [0, 0], 0, 6) == 5
  {
    var bits := StaticBits(m) + [0, 0];
    var call, name, dest := TextBits(Pad(m.callsign, 7)), TextBits(Pad(m.name, 20)), TextBits(Pad(m.destination, 20));
    var mid := BitsOf(m.dims, 30) + BitsOf(m.epfd, 4) + BitsOf(m.eta, 20) + BitsOf(m.draught, 8);
    var t9 := dest + (BitsOf(m.dte, 1) + BitsOf(m.spare, 1));
    var t8 := mid + t9;
    var t7 := BitsOf(m.shipType, 8) + t8;
    var t6 := name + t7;
    var t5 := call + t6;
    var t4 := BitsOf(m.imo, 30) + t5;
    var t3 := BitsOf(m.version, 2) + t4;
    var t2 := BitsOf(m.mmsi, 30) + t3;
    var t1 := BitsOf(m.repeatInd, 2) + t2;
    hide BitsOf, Value, Pow2, UBits, Trim, Chars, TextBits;
    assert Sits(bits, 0, StaticBits(m));
    SitsConcat(bits, 0, BitsOf(5, 6), t1);
    SitsConcat(bits, 6, BitsOf(m.repeatInd, 2), t2);
    SitsConcat(bits, 8, BitsOf(m.mmsi, 30), t3);
    SitsConcat(bits, 38, BitsOf(m.version, 2), t4);
    SitsConcat(bits, 40, BitsOf(m.imo, 30), t5);
    SitsConcat(bits, 70, call, t6);
    SitsConcat(bits, 112, name, t7);
    SitsConcat(bits, 232, BitsOf(m.shipType, 8), t8);
    SitsConcat(bits, 240, mid, t9);
    SitsConcat(bits, 302, dest, BitsOf(m.dte, 1) + BitsOf(m.spare, 1));
    KindFits(5);
    ReadBack(bits, 0, 5, 6);
    ReadBack(bits, 8, m.mmsi, 30);
    TextSurvives(bits, 70, m.callsign, 7);
    TextSurvives(bits, 112, m.name, 20);
    ReadBack(bits, 232, m.shipType, 8);
    TextSurvives(bits, 302, m.destination, 20);
  }

  // ---- armour

  function ArmourChar(v: int): (c: char)
    requires 0 <= v < 64
    ensures Armoured(c) && SixOf(c) == v
  {
    (if v < 40 then v + 48 else v + 56) as char
  }

  function Armour(bits: seq<Bit>): (s: string)
    requires |bits| % 6 == 0
    ensures |s| == |bits| / 6 && AllArmoured(s)
  {
    if bits == [] then []
    else
      var n := |bits| - 6;
      ValueBound(bits[n..]);
      Armour(bits[..n]) + [ArmourChar(Value(bits[n..]))]
  }

  lemma {:induction false} DearmourBack(bits: seq<Bit>)
    requires |bits| % 6 == 0
    ensures Dearmour(Armour(bits)) == bits
  {
    hide BitsOf, SixOf, Value, Armoured;
    if bits != [] {
      var n := |bits| - 6;
      DearmourBack(bits[..n]);
      BitsOfValue(bits[n..]);
      ValueBound(bits[n..]);
      var s := Armour(bits);
      assert s[..|s| - 1] == Armour(bits[..n]);
    }
  }

  function PayloadOf(m: Message): string
    requires Encodable(m)
  {
    MessageBitsWhole(m);
    Armour(MessageBits(m))
  }

  // The payload decodes to exactly the fields that were encoded.
  lemma PayloadBack(m: Message)
    requires Encodable(m)
    ensures AllArmoured(PayloadOf(m)) && DecodeMessage(PayloadOf(m), FillOf(m)) == Some(Reported(m))
  {
    var bits := MessageBits(m);
    MessageBitsWhole(m);
    DearmourBack(bits);
    if m.PositionReport? {
      PositionBack(m);
    } else {
      StaticBack(m);
    }
  }

  // ---- sentences

  // Text that can stand inside a field.
  predicate Clean(s: string) { ',' !in s && '*' !in s && '!' !in s }

  predicate TagOk(tag: string) {
    Clean(tag) && |tag| >= 5 && (tag[|tag| - 3..] == "VDM" || tag[|tag| - 3..] == "VDO")
  }

  function DigitChar(d: nat): (c: char)
    requires d <= 9
    ensures '0' <= c <= '9' && DigitOf(c) == d
  {
    (d + '0' as int) as char
  }

  function HexChar(v: int): (c: char)
    requires 0 <= v < 16
    ensures Hex(c) == v && c != ','
  {
    if v < 10 then (v + '0' as int) as char else (v - 10 + 'A' as int) as char
  }

  // The fields between the exclamation mark and the star.
  function FieldsOf(tag: string, f: Fragment, seqId: string, channel: string): seq<string>
    requires f.count <= 9 && f.num <= 9 && f.fill <= 9
  {
    [tag, [DigitChar(f.count)], [DigitChar(f.num)], seqId, channel, f.payload, [DigitChar(f.fill)]]
  }

  function Join(fields: seq<string>): string
    requires fields != []
  {
    if |fields| == 1 then fields[0] else Join(fields[..|fields| - 1]) + [','] + fields[|fields| - 1]
  }

  function CheckDigits(body: string): (s: string)
    ensures |s| == 2
  {
    [HexChar(Xor(body) as int / 16), HexChar(Xor(body) as int % 16)]
  }

  function Sentence(tag: string, f: Fragment, seqId: string, channel: string): string
    requires f.count <= 9 && f.num <= 9 && f.fill <= 9
  {
    var body := Join(FieldsOf(tag, f, seqId, channel));
    ['!'] + body + ['*'] + CheckDigits(body)
  }

  lemma {:induction false} FindAfter(a: string, c: char, rest: string)
    requires c !in a
    ensures Find(a + [c] + rest, c) == |a|
  {
    var s := a + [c] + rest;
    assert s[|a|] == c;
    assert forall k :: 0 <= k < |a| ==> s[k] == a[k];
  }

  lemma {:induction false} JoinClean(fields: seq<string>, c: char)
    requires fields != [] && c != ',' && forall i :: 0 <= i < |fields| ==> c !in fields[i]
    ensures c !in Join(fields)
  {
    if |fields| > 1 {
      JoinClean(fields[..|fields| - 1], c);
    }
  }

  lemma {:induction false} SplitLast(a: string, b: string)
    requires ',' !in b
    ensures Split(a + [','] + b, ',') == Split(a, ',') + [b]
  {
    var s := a + [','] + b;
    if b == [] {
      assert s[..|s| - 1] == a;
    } else {
      var b' := b[..|b| - 1];
      assert s[..|s| - 1] == a + [','] + b';
      SplitLast(a, b');
      var r := Split(a, ',');
      assert (r + [b'])[..|r|] == r && b == b' + [b[|b| - 1]];
    }
  }

  lemma {:induction false} SplitWhole(b: string)
    requires ',' !in b
    ensures Split(b, ',') == [b]
  {
    hide Split;
    if b == [] {
      SplitNothing();
    } else {
      var n := |b| - 1;
      assert forall c :: c in b[..n] ==> c in b;
      SplitWhole(b[..n]);
      SplitGrows(b[..n], b[n]);
      assert b == b[..n] + [b[n]];
    }
  }

  lemma SplitNothing()
    ensures Split([], ',') == [[]]
  {}

  lemma SplitGrows(b: string, c: char)
    requires c != ',' && Split(b, ',') == [b]
    ensures Split(b + [c], ',') == [b + [c]]
  {
    assert (b + [c])[..|b|] == b;
  }

  // Splitting a joined line gives its fields back.
  lemma {:induction false} SplitJoin(fields: seq<string>)
    requires fields != [] && forall i :: 0 <= i < |fields| ==> ',' !in fields[i]
    ensures Split(Join(fields), ',') == fields
  {
    hide Split;
    var n := |fields| - 1;
    if n == 0 {
      SplitWhole(fields[0]);
    } else {
      SplitJoin(fields[..n]);
      SplitLast(Join(fields[..n]), fields[n]);
    }
  }

  lemma {:induction false} JoinEnds(fields: seq<string>, pre: string, post: string)
    requires |fields| >= 2
    ensures pre + Join(fields) + post == Join([pre + fields[0]] + fields[1..|fields| - 1] + [fields[|fields| - 1] + post])
  {
    var n := |fields| - 1;
    var out := [pre + fields[0]] + fields[1..n] + [fields[n] + post];
    assert out[..n] == [pre + fields[0]] + fields[1..n];
    JoinPre(fields[..n], pre);
    assert fields[..n][1..] == fields[1..n];
  }

  lemma {:induction false} JoinPre(fields: seq<string>, pre: string)
    requires fields != []
    ensures pre + Join(fields) == Join([pre + fields[0]] + fields[1..])
  {
    var n := |fields| - 1;
    var out := [pre + fields[0]] + fields[1..];
    if n > 0 {
      JoinPre(fields[..n], pre);
      assert out[..n] == [pre + fields[0]] + fields[..n][1..];
    }
  }

  // A fragment that a sentence can carry.
  predicate Sendable(tag: string, f: Fragment, seqId: string, channel: string) {
    && TagOk(tag) && Clean(seqId) && Clean(channel) && AllArmoured(f.payload)
    && 1 <= f.num <= f.count <= 9 && f.fill <= 5 && f.key == channel + "|" + seqId
  }

  lemma BodyClean(tag: string, f: Fragment, seqId: string, channel: string)
    requires Sendable(tag, f, seqId, channel)
    ensures var body := Join(FieldsOf(tag, f, seqId, channel)); '!' !in body && '*' !in body
    ensures forall i :: 0 <= i < 7 ==> ',' !in FieldsOf(tag, f, seqId, channel)[i]
  {
    var fields := FieldsOf(tag, f, seqId, channel);
    JoinClean(fields, '!');
    JoinClean(fields, '*');
  }

  lemma SentenceShape(body: string)
    requires '!' !in body && '*' !in body
    ensures var s := ['!'] + body + ['*'] + CheckDigits(body); Find(s, '!') == 0 && Find(s, '*') == |body| + 1
    ensures var s := ['!'] + body + ['*'] + CheckDigits(body); s[1..|body| + 1] == body && |s| == |body| + 4
  {
    var s := ['!'] + body + ['*'] + CheckDigits(body);
    var a := ['!'] + body;
    assert '*' !in a;
    FindAfter(a, '*', CheckDigits(body));
    assert s == [] + ['!'] + (body + ['*'] + CheckDigits(body));
    FindAfter([], '!', body + ['*'] + CheckDigits(body));
  }

  lemma SentenceChecks(body: string)
    requires '!' !in body && '*' !in body && body != []
    ensures ChecksumOk(['!'] + body + ['*'] + CheckDigits(body))
  {
    var s := ['!'] + body + ['*'] + CheckDigits(body);
    hide Xor, Find;
    SentenceShape(body);
    assert s[|body| + 2] == CheckDigits(body)[0] && s[|body| + 3] == CheckDigits(body)[1];
  }

  lemma SentenceSplits(tag: string, f: Fragment, seqId: string, channel: string)
    requires Sendable(tag, f, seqId, channel)
    ensures var fields := FieldsOf(tag, f, seqId, channel);
            Split(Sentence(tag, f, seqId, channel), ',') ==
            [['!'] + tag] + fields[1..6] + [fields[6] + (['*'] + CheckDigits(Join(fields)))]
  {
    var fields := FieldsOf(tag, f, seqId, channel);
    var body := Join(fields);
    var post := ['*'] + CheckDigits(body);
    BodyClean(tag, f, seqId, channel);
    hide Join, Split, CheckDigits, DigitChar;
    JoinEnds(fields, ['!'], post);
    assert Sentence(tag, f, seqId, channel) == ['!'] + body + post;
    var out := [['!'] + tag] + fields[1..6] + [fields[6] + post];
    assert ',' !in post by { CheckDigitsClean(body); }
    SplitJoin(out);
  }

  lemma CheckDigitsClean(body: string)
    ensures ',' !in ['*'] + CheckDigits(body)
  {}

  // A sentence parses back to the fragment it carries.
  lemma EnvelopeBack(tag: string, f: Fragment, seqId: string, channel: string)
    requires Sendable(tag, f, seqId, channel)
    ensures ParseEnvelope(Sentence(tag, f, seqId, channel)) == Some(f)
  {
    var fields := FieldsOf(tag, f, seqId, channel);
    var body := Join(fields);
    BodyClean(tag, f, seqId, channel);
    assert body != [] by { JoinNotEmpty(fields); }
    hide Join, Split, Xor, Find, ChecksumOk;
    SentenceChecks(body);
    SentenceSplits(tag, f, seqId, channel);
    var head := ['!'] + tag;
    assert head[|head| - 3..] == tag[|tag| - 3..];
  }

  lemma JoinNotEmpty(fields: seq<string>)
    requires |fields| >= 2
    ensures Join(fields) != []
  {}

  // ---- messages cut into fragments

  // Fragment i (from 1) of a payload cut into pieces; the last one carries the fill.
  function Piece(key: string, pieces: seq<string>, i: nat, fill: nat): Fragment
    requires 1 <= i <= |pieces|
  {
    Fragment(key, |pieces|, i, pieces[i - 1], if i == |pieces| then fill else 0)
  }

  // A message and one way to send it: its payload cut anywhere into 1 to 9 pieces.
  datatype Transmission = Transmission(m: Message, tag: string, seqId: string, channel: string, pieces: seq<string>) {
    predicate Valid() {
      && Encodable(m) && TagOk(tag) && Clean(seqId) && Clean(channel)
      && 1 <= |pieces| <= 9 && Concat(pieces) == PayloadOf(m)
    }

    function Key(): string { channel + "|" + seqId }

    function Part(i: nat): Fragment
      requires Valid() && 1 <= i <= |pieces|
    {
      Piece(Key(), pieces, i, FillOf(m))
    }

    // Line i, from 1, and the first n lines.
    function Line(i: nat): string
      requires Valid() && 1 <= i <= |pieces|
    {
      Sentence(tag, Part(i), seqId, channel)
    }

    function Lines(n: nat): (s: seq<string>)
      requires Valid() && n <= |pieces|
      ensures |s| == n
    {
      if n == 0 then [] else Lines(n - 1) + [Line(n)]
    }
  }

  // Every message can be sent whole, and cut at any point in two.
  lemma EveryMessageSends(m: Message, cut: nat)
    requires Encodable(m) && cut <= |PayloadOf(m)|
    ensures Transmission(m, "AIVDM", "1", "A", [PayloadOf(m)]).Valid()
    ensures Transmission(m, "AIVDM", "1", "A", [PayloadOf(m)[..cut], PayloadOf(m)[cut..]]).Valid()
  {
    hide Encodable, PayloadOf;
    var s := PayloadOf(m);
    assert Concat([s]) == s by { ConcatOne(s); }
    var two := [s[..cut], s[cut..]];
    assert Concat(two) == s by {
      ConcatOne(s[..cut]);
      assert two[..1] == [s[..cut]] && s[..cut] + s[cut..] == s;
    }
    assert TagOk("AIVDM") by { assert "AIVDM"[2..] == "VDM"; }
  }

  lemma {:induction false} PiecesArmoured(pieces: seq<string>, i: nat)
    requires i < |pieces| && AllArmoured(Concat(pieces))
    ensures AllArmoured(pieces[i])
  {
    var n := |pieces| - 1;
    forall c | c in Concat(pieces[..n]) || c in pieces[n] ensures Armoured(c) { assert c in Concat(pieces); }
    if i < n {
      PiecesArmoured(pieces[..n], i);
    }
  }

  // Every line of a transmission parses back to its fragment.
  lemma LineBack(x: Transmission, i: nat)
    requires x.Valid() && 1 <= i <= |x.pieces|
    ensures ParseEnvelope(x.Line(i)) == Some(x.Part(i))
  {
    hide Encodable, Reported, Sentence, ParseEnvelope, DecodeMessage, PayloadOf;
    PayloadBack(x.m);
    PiecesArmoured(x.pieces, i - 1);
    EnvelopeBack(x.tag, x.Part(i), x.seqId, x.channel);
  }

  // After i < n lines of a message of n fragments, from any table, the entry of its
  // key holds their payloads and waits for the next.
  lemma {:induction false} Collecting(x: Transmission, t: Table, i: nat)
    requires x.Valid() && 1 <= i < |x.pieces|
    ensures Lookup(FeedAll(t, x.Lines(i)), x.Key()) == Some(Partial(|x.pieces|, i + 1, Concat(x.pieces[..i])))
  {
    hide Encodable, Reported, Sentence, ParseEnvelope, DecodeMessage, PayloadOf;
    LineBack(x, i);
    assert x.Lines(i)[..i - 1] == x.Lines(i - 1);
    assert x.pieces[..i][..i - 1] == x.pieces[..i - 1];
    if i == 1 {
      assert Concat(x.pieces[..0]) == [] && [] + x.pieces[0] == x.pieces[0];
    } else {
      Collecting(x, t, i - 1);
    }
  }

  // Round trip: whatever the reassembler heard before, feeding the lines of a
  // message in order reports nothing before the last line, and then exactly the
  // fields that were encoded.
  lemma {:induction false} TransmissionBack(x: Transmission, t: Table, i: nat)
    requires x.Valid() && i < |x.pieces|
    ensures FeedStep(FeedAll(t, x.Lines(i)), x.Line(i + 1)).1 ==
            if i + 1 == |x.pieces| then Some(Reported(x.m)) else None
  {
    hide Encodable, Reported, Sentence, ParseEnvelope, DecodeMessage, PayloadOf, FeedAll;
    LineBack(x, i + 1);
    PayloadBack(x.m);
    var n := |x.pieces|;
    assert x.pieces[..n] == x.pieces && x.pieces[..n][..n - 1] == x.pieces[..n - 1];
    if n == 1 {
      assert Concat(x.pieces[..0]) == [] && [] + x.pieces[0] == x.pieces[0];
    } else if i > 0 {
      Collecting(x, t, i);
    }
  }

  // The same through any interleaving: in any run in which the fragments of the
  // message are the last ones of its key and no flood clear came after the first of
  // them, the last line reports the message.
  lemma {:induction false} InterleavedBack(x: Transmission, before: seq<string>, between: seq<string>)
    requires x.Valid() && |x.pieces| >= 2
    requires Run(Fragments(before + between)).1 <= |Fragments(before)|
    requires OfKey(Fragments(between), x.Key()) == Parts(x, |x.pieces| - 1)
    ensures FeedStep(FeedAll(map[], before + between), x.Line(|x.pieces|)).1 == Some(Reported(x.m))
  {
    hide Encodable, Reported, Sentence, ParseEnvelope, DecodeMessage, PayloadOf, Run, OfKey, Accept;
    var n := |x.pieces|;
    LineBack(x, n);
    PayloadBack(x.m);
    TableOfSentences(before + between);
    FragmentsConcat(before, between);
    PartsEnd(x, n - 1);
    CompleteWithoutFlood(Fragments(before), Fragments(between), x.Part(n));
    JoinedSnoc(Parts(x, n - 1), x.Part(n), n - 1);
    assert x.pieces[..n] == x.pieces && x.pieces[..n][..n - 1] == x.pieces[..n - 1];
  }

  // The first n fragments of a transmission.
  function Parts(x: Transmission, n: nat): (h: seq<Fragment>)
    requires x.Valid() && n <= |x.pieces|
    ensures |h| == n
  {
    if n == 0 then [] else Parts(x, n - 1) + [x.Part(n)]
  }

  lemma {:induction false} PartsEnd(x: Transmission, n: nat)
    requires x.Valid() && n <= |x.pieces|
    ensures EndsWith(Parts(x, n), |x.pieces|, n) && Joined(Parts(x, n), n) == Concat(x.pieces[..n])
  {
    hide Encodable, PayloadOf;
    if n > 0 {
      PartsEnd(x, n - 1);
      EndsWithSnoc(Parts(x, n - 1), x.Part(n), |x.pieces|, n);
      JoinedSnoc(Parts(x, n - 1), x.Part(n), n - 1);
      assert x.pieces[..n][..n - 1] == x.pieces[..n - 1];
    }
  }

  lemma {:induction false} FragmentsConcat(a: seq<string>, b: seq<string>)
    ensures Fragments(a + b) == Fragments(a) + Fragments(b)
  {
    hide ParseEnvelope;
    if b == [] {
      assert a + b == a;
    } else {
      FragmentsConcat(a, b[..|b| - 1]);
      assert (a + b)[..|a + b| - 1] == a + b[..|b| - 1];
    }
  }
}
