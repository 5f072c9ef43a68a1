// What the AIS receiver takes and what it refuses, said about every sentence and
// every payload (apps/ais/src/decoder/ais_decoder.cpp). The conditions are spelled
// out here, with the numbers of the format, and not by the decoder's own tests.
module AisLaws {
  import opened AisCodec
  import opened AisDecoder
  import opened AisReassembler
  import opened Options

  // ---- payloads

  lemma {:induction false} FirstSix(s: string)
    requires s != [] && AllArmoured(s)
    ensures Dearmour(s)[..6] == BitsOf(SixOf(s[0]), 6)
  {
    var n := |s| - 1;
    assert s[n] in s;
    if n > 0 {
      FirstSix(s[..n]);
      assert Dearmour(s)[..6] == Dearmour(s[..n])[..6];
    } else {
      assert Dearmour(s[..0]) == [];
    }
  }

  // The message type is what the first character stands for.
  lemma TypeIs(s: string)
    requires s != [] && AllArmoured(s)
    ensures UBits(Dearmour(s), 0, 6) == SixOf(s[0])
  {
    FirstSix(s);
    PowSix();
    ValueOfBits(SixOf(s[0]), 6);
  }

  // A character that stands for six bits.
  predicate SixBits(c: char) { 48 <= c as int <= 87 || 96 <= c as int <= 119 }

  // Every payload: a message is decoded exactly when all its characters stand for six
  // bits and it is of type 1, 2 or 3 with 168 bits or of type 5 with at least 424, the
  // fill bits not counted. Nothing else is a message; a base station report is not.
  lemma DecodedIff(payload: string, fill: nat)
    ensures DecodeMessage(payload, fill).Some? <==>
            && (forall i :: 0 <= i < |payload| ==> SixBits(payload[i]))
            && 6 * |payload| - fill >= 38
            && ((payload[0] in "123" && 6 * |payload| - fill == 168) || (payload[0] == '5' && 6 * |payload| - fill >= 424))
    ensures DecodeMessage(payload, fill).Some? ==>
              var v := DecodeMessage(payload, fill).value;
              if payload[0] == '5' then v.Static? else v.Position? && v.msgType == payload[0] as int - 48
  {
    ArmouredIff(payload);
    if AllArmoured(payload) && payload != [] {
      hide Dearmour, UBits, Chars, SBits;
      assert payload[0] in payload;
      TypeIs(payload);
    }
  }

  lemma ArmouredIff(s: string)
    ensures AllArmoured(s) <==> forall i :: 0 <= i < |s| ==> SixBits(s[i])
  {
    if AllArmoured(s) {
      forall i | 0 <= i < |s| ensures SixBits(s[i]) { assert s[i] in s && Armoured(s[i]); }
    }
  }

  // t is s without the padding and spaces at its end.
  predicate TrimOf(s: string, t: string) {
    && t <= s && (forall i :: |t| <= i < |s| ==> s[i] == '@' || s[i] == ' ')
    && (t != [] ==> t[|t| - 1] != '@' && t[|t| - 1] != ' ')
  }

  lemma {:induction false} TrimIs(s: string)
    ensures TrimOf(s, Trim(s))
  {
    if !Trimmed(s) { TrimIs(s[..|s| - 1]); }
  }

  // The value of a field, unless the message marks it as not available.
  function Unless(gone: bool, raw: int): Option<int> { if gone then None else Some(raw) }

  // What the decoder reports of every message, field by field.
  lemma ReportIs(m: Message)
    requires Encodable(m)
    ensures DecodeMessage(PayloadOf(m), if m.PositionReport? then 0 else 2) == Some(Reported(m))
    ensures m.PositionReport? ==>
              var v := Reported(m);
              && v.Position? && v.msgType == m.kind && v.mmsi == m.mmsi && v.navStatus == m.nav
              && v.sog == Unless(m.sog == 1023, m.sog) && v.cog == Unless(m.cog >= 3600, m.cog)
              && v.hdg == Unless(m.hdg >= 360, m.hdg)
              && v.pos == (if m.lon == 108600000 || m.lat == 54600000 then None else Some((m.lon, m.lat)))
    ensures m.StaticReport? ==>
              var v := Reported(m);
              && v.Static? && v.mmsi == m.mmsi && v.shipType == m.shipType
              && TrimOf(m.callsign, v.callsign) && TrimOf(m.name, v.name) && TrimOf(m.destination, v.destination)
  {
    PayloadBack(m);
    hide DecodeMessage, PayloadOf, Encodable;
    if m.StaticReport? {
      TrimIs(m.callsign);
      TrimIs(m.name);
      TrimIs(m.destination);
    }
  }

  // ---- checksums

  // The exclusive or of bytes, as it is of pieces.
  lemma {:induction false} XorLaws(a: string, b: string, c: char)
    ensures Xor([]) == 0
    ensures c as int < 256 ==> Xor([c]) as int == c as int
    ensures Xor(a + b) == Xor(a) ^ Xor(b)
  {
    XorOne(c);
    if b == [] {
      assert a + b == a;
    } else {
      var n := |b| - 1;
      XorLaws(a, b[..n], c);
      assert (a + b)[..|a + b| - 1] == a + b[..n];
      hide ByteOf;
    }
  }

  lemma XorOne(c: char)
    ensures Xor([c]) == ByteOf(c)
    ensures c as int < 256 ==> ByteOf(c) as int == c as int
  {
    ByteIs(c);
    hide ByteOf;
    assert Xor([c][..0]) == 0;
  }

  lemma ByteIs(c: char)
    ensures c as int < 256 ==> ByteOf(c) as int == c as int
  {
    assert c as int < 256 ==> c as int % 256 == c as int;
  }

  predicate HexDigit(c: char, v: int) {
    0 <= v < 16 && (c == "0123456789ABCDEF"[v] || c == "0123456789abcdef"[v])
  }

  lemma HexIff(c: char, v: int)
    ensures Hex(c) == v && v >= 0 <==> HexDigit(c, v)
  {
    if 0 <= v < 10 {
      assert "0123456789ABCDEF"[v] as int == 48 + v && "0123456789abcdef"[v] as int == 48 + v;
    } else if 10 <= v < 16 {
      assert "0123456789ABCDEF"[v] as int == 55 + v && "0123456789abcdef"[v] as int == 87 + v;
    }
  }

  // The sentence is pre ! body * two digits of the sum of the body, then anything; the
  // exclamation mark and the star are its first.
  predicate Sums(s: string, pre: string, body: string, hi: int, lo: int) {
    var at := |pre| + 1 + |body|;
    && |s| >= at + 3 && s[..at + 1] == pre + ['!'] + body + ['*']
    && '!' !in pre && '*' !in pre && '*' !in body && body != []
    && HexDigit(s[at + 1], hi) && HexDigit(s[at + 2], lo) && Xor(body) as int == 16 * hi + lo
  }

  lemma FindIs(s: string, i: nat, c: char)
    requires i < |s| && s[i] == c && c !in s[..i]
    ensures Find(s, c) == i
  {
    assert forall k :: 0 <= k < i ==> s[k] == s[..i][k];
  }

  lemma ChecksumIff(s: string)
    ensures ChecksumOk(s) <==> exists pre, body, hi, lo :: Sums(s, pre, body, hi, lo)
  {
    hide ChecksumOk, Sums;
    if ChecksumOk(s) { OkSums(s); }
    if pre, body, hi, lo :| Sums(s, pre, body, hi, lo) { SumsOk(s, pre, body, hi, lo); }
  }

  lemma OkSums(s: string)
    requires ChecksumOk(s)
    ensures exists pre, body, hi, lo :: Sums(s, pre, body, hi, lo)
  {
    hide Find, Xor, Hex, HexDigit;
    var bang, star := Find(s, '!'), Find(s, '*');
    var pre, body := s[..bang], s[bang + 1..star];
    assert s[..star + 1] == pre + ['!'] + body + ['*'];
    HexIff(s[star + 1], Hex(s[star + 1]));
    HexIff(s[star + 2], Hex(s[star + 2]));
    assert Sums(s, pre, body, Hex(s[star + 1]), Hex(s[star + 2]));
  }

  lemma SumsOk(s: string, pre: string, body: string, hi: int, lo: int)
    requires Sums(s, pre, body, hi, lo)
    ensures ChecksumOk(s)
  {
    var at := |pre| + 1 + |body|;
    var t := pre + ['!'] + body + ['*'];
    hide Find, Xor, Hex, HexDigit;
    assert s[|pre|] == t[|pre|] && s[at] == t[at] && s[..|pre|] == t[..|pre|] && s[..at] == t[..at];
    assert t[..|pre|] == pre && t[..at] == pre + ['!'] + body;
    FindIs(s, |pre|, '!');
    FindIs(s, at, '*');
    assert s[|pre| + 1..at] == t[|pre| + 1..at] == body;
    HexIff(s[at + 1], hi);
    HexIff(s[at + 2], lo);
  }

  // The two digits c and d write the sum x.
  predicate Writes(x: bv8, c: char, d: char) {
    Hex(c) >= 0 && Hex(d) >= 0 && x as int == Hex(c) * 16 + Hex(d)
  }

  lemma ChecksumParts(s: string)
    ensures var bang, star := Find(s, '!'), Find(s, '*');
            ChecksumOk(s) <==> bang + 1 < star && star + 3 <= |s| && Writes(Xor(s[bang + 1..star]), s[star + 1], s[star + 2])
  {
    hide Find, Xor, Hex;
  }

  lemma WritesOne(x: bv8, y: bv8, c: char, d: char)
    requires Writes(x, c, d) && x != y
    ensures !Writes(y, c, d)
  {
    hide Hex;
    assert (x as int) as bv8 == x && (y as int) as bv8 == y;
  }

  // One changed byte of the body of a good sentence, and the sentence is refused.
  lemma CorruptedRefused(s: string, k: nat, c: char)
    requires ChecksumOk(s) && k < |s| && '!' in s[..k] && '*' !in s[..k + 1] && c != '*'
    requires Xor([c]) != Xor([s[k]])
    ensures !ChecksumOk(s[k := c])
  {
    hide Find, Xor, Writes;
    ChecksumParts(s);
    SameMarks(s, k, c);
    ChangedRefused(s, k, c, Find(s, '!'), Find(s, '*'));
  }

  lemma ChangedRefused(s: string, k: nat, c: char, bang: nat, star: nat)
    requires bang < k < star && star + 3 <= |s| && Xor([c]) != Xor([s[k]])
    requires Writes(Xor(s[bang + 1..star]), s[star + 1], s[star + 2])
    requires Find(s[k := c], '!') == bang && Find(s[k := c], '*') == star
    ensures !ChecksumOk(s[k := c])
  {
    hide ChecksumOk, Find, Xor, Writes;
    var t := s[k := c];
    ChecksumParts(t);
    ChangedSum(s, k, c, bang + 1, star);
    WritesOne(Xor(s[bang + 1..star]), Xor(t[bang + 1..star]), s[star + 1], s[star + 2]);
  }

  lemma ChangedSum(s: string, k: nat, c: char, lo: nat, hi: nat)
    requires lo <= k < hi <= |s| && Xor([c]) != Xor([s[k]])
    ensures Xor(s[lo..hi]) != Xor(s[k := c][lo..hi])
  {
    hide Xor;
    var a, b := s[lo..k], s[k + 1..hi];
    assert s[lo..hi] == a + [s[k]] + b && s[k := c][lo..hi] == a + [c] + b;
    OneByte(a, b, s[k], c);
  }

  lemma SameMarks(s: string, k: nat, c: char)
    requires k < |s| && '!' in s[..k] && '*' !in s[..k + 1] && c != '*' && '*' in s
    ensures Find(s, '!') < k < Find(s, '*') < |s|
    ensures Find(s[k := c], '!') == Find(s, '!') && Find(s[k := c], '*') == Find(s, '*')
  {
    hide Find;
    var t, bang, star := s[k := c], Find(s, '!'), Find(s, '*');
    var i :| 0 <= i < k && s[..k][i] == '!';
    assert s[i] == '!';
    var j :| 0 <= j < |s| && s[j] == '*';
    assert forall m :: 0 <= m <= k ==> s[..k + 1][m] == s[m];
    FindIs(t, bang, '!');
    assert '*' !in t[..star];
    FindIs(t, star, '*');
  }

  lemma OneByte(a: string, b: string, c: char, d: char)
    requires Xor([c]) != Xor([d])
    ensures Xor(a + [c] + b) != Xor(a + [d] + b)
  {
    hide Xor, ByteOf;
    XorLaws(a + [c], b, 'A');
    XorLaws(a, [c], 'A');
    XorLaws(a + [d], b, 'A');
    XorLaws(a, [d], 'A');
    Differ(Xor(a), Xor([c]), Xor([d]), Xor(b));
  }

  lemma Differ(a: bv8, x: bv8, y: bv8, b: bv8)
    requires x != y
    ensures (a ^ x) ^ b != (a ^ y) ^ b
  {}

  // ---- envelopes

  // Splitting takes a text apart at every comma and loses nothing.
  lemma {:induction false} SplitIs(s: string)
    ensures Join(Split(s, ',')) == s
    ensures forall i :: 0 <= i < |Split(s, ',')| ==> ',' !in Split(s, ',')[i]
  {
    if s != [] {
      var n := |s| - 1;
      SplitIs(s[..n]);
      var r, rest := Split(s, ','), Split(s[..n], ',');
      var k := |rest| - 1;
      if s[n] == ',' {
        assert r[..|r| - 1] == rest;
        assert Join(r) == s[..n] + [','] + [];
      } else {
        assert r[..k] == rest[..k];
        assert s == s[..n] + [s[n]];
      }
    }
  }

  predicate DigitIs(f: string, d: int) { 1 <= d <= 9 && f == ["0123456789"[d]] }

  // The fields carry this fragment.
  predicate Carries(fields: seq<string>, f: Fragment) {
    && |fields| >= 7 && |fields[0]| >= 6
    && (fields[0][|fields[0]| - 3..] == "VDM" || fields[0][|fields[0]| - 3..] == "VDO")
    && DigitIs(fields[1], f.count) && DigitIs(fields[2], f.num) && f.num <= f.count
    && fields[6] != [] && f.fill <= 5 && fields[6][0] == "012345"[f.fill]
    && f.payload == fields[5] && f.key == fields[4] + "|" + fields[3]
  }

  predicate Fields(s: string, fields: seq<string>) {
    fields != [] && (forall i :: 0 <= i < |fields| ==> ',' !in fields[i]) && Join(fields) == s
  }

  // Every sentence: it gives this fragment exactly when its checksum is right and its
  // comma-separated fields carry it.
  lemma EnvelopeIff(s: string, f: Fragment)
    ensures ParseEnvelope(s) == Some(f) <==> ChecksumOk(s) && exists fields :: Fields(s, fields) && Carries(fields, f)
  {
    hide ChecksumOk, Join, Split;
    SplitIs(s);
    var split := Split(s, ',');
    if ParseEnvelope(s) == Some(f) {
      CarriesParsed(split, f);
      assert Fields(s, split);
    }
    if ChecksumOk(s) {
      forall fields | Fields(s, fields) && Carries(fields, f) ensures ParseEnvelope(s) == Some(f) {
        SplitJoin(fields);
        CarriesParsed(fields, f);
      }
    }
  }

  lemma CarriesParsed(p: seq<string>, f: Fragment)
    ensures Carries(p, f) <==>
            EnvelopeOk(p) && f == Fragment(p[4] + "|" + p[3], DigitOf(p[1][0]), DigitOf(p[2][0]), p[5], DigitOf(p[6][0]))
  {
    assert forall d :: 0 <= d <= 9 ==> "0123456789"[d] as int == 48 + d;
    assert forall d :: 0 <= d <= 5 ==> "012345"[d] as int == 48 + d;
  }

  // ---- floods

  // After any run the table is cleared exactly when 32 messages are open and the
  // first fragment of a 33rd comes.
  lemma FloodIff(h: seq<Fragment>, f: Fragment)
    requires AllMulti(h)
    ensures Floods(Run(h).0, f) <==> f.num == 1 && f.key !in Run(h).0 && |Run(h).0| == 32
  {
    TableBounded(h);
    hide Run;
    var t := Run(h).0;
    if f.key in t {
      UpdateKeeps(t, f.key, Partial(f.count, 2, f.payload));
    } else {
      assert Opened(t, f).Keys == t.Keys + {f.key};
      assert |Opened(t, f).Keys| == |t.Keys| + 1;
    }
  }

  function KeysOf(h: seq<Fragment>): set<string> { set i | 0 <= i < |h| :: h[i].key }

  // Up to 32 keys, however many fragments: the table is never cleared.
  lemma {:induction false} FewKeysNeverFlood(h: seq<Fragment>)
    requires |KeysOf(h)| <= 32
    ensures Run(h).1 == 0 && Run(h).0.Keys <= KeysOf(h)
  {
    if h != [] {
      var n := |h| - 1;
      var f, t := h[n], Run(h[..n]).0;
      assert KeysOf(h) == KeysOf(h[..n]) + {f.key};
      SetGrows(KeysOf(h[..n]), KeysOf(h));
      FewKeysNeverFlood(h[..n]);
      assert Opened(t, f).Keys <= KeysOf(h);
      SetGrows(Opened(t, f).Keys, KeysOf(h));
      assert |Opened(t, f).Keys| == |Opened(t, f)|;
      assert !Floods(t, f);
    }
  }

  lemma {:induction false} SetGrows(a: set<string>, b: set<string>)
    requires a <= b
    ensures |a| <= |b|
  {
    assert b == a + (b - a);
  }
}
