// Decoding one AIVDM sentence (apps/ais/src/decoder/ais_decoder.cpp): armour, bit
// fields, checksum, envelope and message layouts. The message fields stay the raw
// integers of the message (tables for types 1, 2, 3 and 5 of Annex 8 of
// Recommendation ITU-R M.1371-5); scaling them to degrees and knots is left out.
module AisDecoder {
  import opened Ints
  import opened Options

  newtype Bit = b: int | 0 <= b <= 1

  // ---- bits

  function Pow2(n: nat): (p: nat)
    ensures p > 0
  {
    if n == 0 then 1 else 2 * Pow2(n - 1)
  }

  // v >> b
  function Shift(v: nat, b: nat): nat {
    QuotientNonNegative(v, Pow2(b));
    v / Pow2(b)
  }

  lemma QuotientNonNegative(n: nat, d: nat)
    requires d > 0
    ensures n / d >= 0
  {
    QuotientBounds(n, d);
    if n / d < 0 { ProductMonotone(n / d, -1, d); }
  }

  // The number a bit string spells, most significant bit first.
  function Value(bits: seq<Bit>): nat {
    if bits == [] then 0 else 2 * Value(bits[..|bits| - 1]) + bits[|bits| - 1] as int
  }

  function UBits(bits: seq<Bit>, start: nat, len: nat): nat
    requires start + len <= |bits|
  {
    Value(bits[start..start + len])
  }

  // Two's complement.
  function SBits(bits: seq<Bit>, start: nat, len: nat): int
    requires start + len <= |bits|
  {
    var v := UBits(bits, start, len);
    if len > 0 && Shift(v, len - 1) % 2 == 1 then v - Pow2(len) else v
  }

  // ---- armour

  predicate Armoured(c: char) {
    48 <= c as int <= 87 || 96 <= c as int <= 119
  }

  function SixOf(c: char): (v: int)
    requires Armoured(c)
    ensures 0 <= v < 64
  {
    var v := c as int - 48;
    if v > 40 then v - 8 else v
  }

  // The low n bits of v, most significant first.
  function BitsOf(v: nat, n: nat): (bits: seq<Bit>)
    ensures |bits| == n
  {
    if n == 0 then [] else BitsOf(v / 2, n - 1) + [(v % 2) as Bit]
  }

  predicate AllArmoured(s: string) {
    forall c :: c in s ==> Armoured(c)
  }

  function Dearmour(s: string): (bits: seq<Bit>)
    requires AllArmoured(s)
    ensures |bits| == 6 * |s|
  {
    if s == [] then []
    else
      assert s[|s| - 1] in s;
      Dearmour(s[..|s| - 1]) + BitsOf(SixOf(s[|s| - 1]), 6)
  }

  // ---- six-bit text

  function CharOf(v: int): char
    requires 0 <= v < 64
  {
    (if v < 32 then v + 64 else v) as char
  }

  function Chars(bits: seq<Bit>, start: nat, n: nat): (s: string)
    requires start + 6 * n <= |bits|
    ensures |s| == n
  {
    if n == 0 then []
    else
      ValueBound(bits[start + 6 * (n - 1)..start + 6 * n]);
      Chars(bits, start, n - 1) + [CharOf(UBits(bits, start + 6 * (n - 1), 6))]
  }

  // Trailing padding and spaces are dropped.
  function Trim(s: string): string {
    if s != [] && (s[|s| - 1] == '@' || s[|s| - 1] == ' ') then Trim(s[..|s| - 1]) else s
  }

  lemma {:induction false} ValueBound(bits: seq<Bit>)
    ensures Value(bits) < Pow2(|bits|)
    ensures |bits| == 6 ==> Value(bits) < 64
  {
    if bits != [] {
      ValueBound(bits[..|bits| - 1]);
    }
    if |bits| == 6 {
      assert Pow2(6) == 2 * Pow2(5) && Pow2(5) == 2 * Pow2(4) && Pow2(4) == 2 * Pow2(3);
      assert Pow2(3) == 2 * Pow2(2) && Pow2(2) == 2 * Pow2(1) && Pow2(1) == 2;
    }
  }

  // ---- the bit reader

  /** The dearmoured payload and its bit-field reads. */
  class BitReader {
    var bits: seq<Bit>
    var valid: bool

    constructor (armoured: string)
      ensures valid == AllArmoured(armoured)
      ensures valid ==> bits == Dearmour(armoured)
    {
      bits := [];
      valid := true;
      new;
      var i := 0;
      while i < |armoured|
        invariant 0 <= i <= |armoured| && valid
        invariant AllArmoured(armoured[..i]) && bits == Dearmour(armoured[..i])
      {
        var c := armoured[i];
        if !(48 <= c as int <= 87 || 96 <= c as int <= 119) {
          valid := false;
          assert c in armoured;
          return;
        }
        var v := c as int - 48;
        if v > 40 {
          v := v - 8;
        }
        assert armoured[..i + 1] == armoured[..i] + [c];
        PushSix(v);
        i := i + 1;
      }
      assert armoured[..i] == armoured;
    }

    /** The inner loop: six bits, from the most significant. */
    method PushSix(v: nat)
      modifies this`bits
      ensures bits == old(bits) + BitsOf(v, 6)
    {
      hide Pow2, Shift;
      var b := 5;
      ShiftSix(v);
      while b >= 0
        invariant -1 <= b <= 5
        invariant bits == old(bits) + BitsOf(Shift(v, b + 1), 5 - b)
      {
        ShiftOnce(v, b);
        bits := bits + [(Shift(v, b) % 2) as Bit];
        b := b - 1;
      }
    }

    method Ubits(start: nat, len: nat) returns (result: nat)
      requires start + len <= |bits|
      ensures result == UBits(bits, start, len)
    {
      result := 0;
      for i := 0 to len
        invariant result == Value(bits[start..start + i])
      {
        assert bits[start..start + i + 1][..i] == bits[start..start + i];
        result := 2 * result + bits[start + i] as int;
      }
    }

    method Sbits(start: nat, len: nat) returns (result: int)
      requires start + len <= |bits|
      ensures result == SBits(bits, start, len)
    {
      result := Ubits(start, len);
      if len > 0 && Shift(result, len - 1) % 2 == 1 {
        result := result - Pow2(len);
      }
    }

    method Text(start: nat, nchars: nat) returns (s: string)
      requires start + 6 * nchars <= |bits|
      ensures s == Trim(Chars(bits, start, nchars))
    {
      s := [];
      for i := 0 to nchars
        invariant s == Chars(bits, start, i)
      {
        var v := Ubits(start + i * 6, 6);
        ValueBound(bits[start + i * 6..start + i * 6 + 6]);
        s := s + [CharOf(v)];
      }
      ghost var all := s;
      while s != [] && (s[|s| - 1] == '@' || s[|s| - 1] == ' ')
        invariant Trim(s) == Trim(all)
        decreases |s|
      {
        s := s[..|s| - 1];
      }
    }
  }

  lemma ShiftSix(v: nat)
    ensures Shift(v, 0) == v
  {}

  lemma ShiftOnce(v: nat, b: nat)
    ensures Shift(v, b + 1) == Shift(v, b) / 2
  {
    var p, q := Pow2(b), Shift(v, b);
    QuotientBounds(v, p);
    QuotientBounds(q, 2);
    var h := q / 2;
    assert h * (2 * p) == (2 * h) * p;
    ProductMonotone(2 * h, q, p);
    ProductMonotone(q, 2 * h + 1, p);
    Distribute(2 * h, 1, p);
    QuotientIs(v, 2 * p, h);
  }

  // ---- the message layouts

  const LON_NA: int := 181 * 600000
  const LAT_NA: int := 91 * 600000
  const SOG_NA: int := 1023
  const COG_NA: int := 3600
  const POSITION_BITS: int := 168
  const STATIC_BITS: int := 424

  // One decoded message. A value the message marks as not available is None.
  datatype Vessel =
    | Position(msgType: int, mmsi: int, navStatus: int, sog: Option<int>, pos: Option<(int, int)>,
               cog: Option<int>, hdg: Option<int>)
    | Static(mmsi: int, callsign: string, name: string, shipType: int, destination: string)

  function Sog(raw: int): Option<int> { if raw != SOG_NA then Some(raw) else None }

  function Pos(lon: int, lat: int): Option<(int, int)> {
    if lon != LON_NA && lat != LAT_NA then Some((lon, lat)) else None
  }

  function Cog(raw: int): Option<int> { if raw < COG_NA then Some(raw) else None }

  function Hdg(raw: int): Option<int> { if raw <= 359 then Some(raw) else None }

  function DecodePosition(bits: seq<Bit>): Vessel
    requires |bits| >= 168
  {
    Position(UBits(bits, 0, 6), UBits(bits, 8, 30), UBits(bits, 38, 4), Sog(UBits(bits, 50, 10)),
             Pos(SBits(bits, 61, 28), SBits(bits, 89, 27)), Cog(UBits(bits, 116, 12)), Hdg(UBits(bits, 128, 9)))
  }

  function DecodeStatic(bits: seq<Bit>): Vessel
    requires |bits| >= 424
  {
    Static(UBits(bits, 8, 30), Trim(Chars(bits, 70, 7)), Trim(Chars(bits, 112, 20)), UBits(bits, 232, 8),
           Trim(Chars(bits, 302, 20)))
  }

  function DecodeMessage(payload: string, fill: nat): Option<Vessel> {
    if !AllArmoured(payload) then None
    else
      var bits := Dearmour(payload);
      var effective := |bits| - fill;
      if effective < 38 then None
      else
        var kind := UBits(bits, 0, 6);
        if 1 <= kind <= 3 then (if effective != POSITION_BITS then None else Some(DecodePosition(bits)))
        else if kind == 5 then (if effective < STATIC_BITS then None else Some(DecodeStatic(bits)))
        else None
  }

  /** Every bit read is inside the payload: the preconditions of the reads hold. */
  method DecodePositionBits(bits: BitReader) returns (v: Vessel)
    requires |bits.bits| >= 168
    ensures v == DecodePosition(bits.bits)
  {
    var kind := bits.Ubits(0, 6);
    var mmsi := bits.Ubits(8, 30);
    var nav := bits.Ubits(38, 4);
    var sogRaw := bits.Ubits(50, 10);
    var lonRaw := bits.Sbits(61, 28);
    var latRaw := bits.Sbits(89, 27);
    var cogRaw := bits.Ubits(116, 12);
    var hdg := bits.Ubits(128, 9);
    v := Position(kind, mmsi, nav, if sogRaw != SOG_NA then Some(sogRaw) else None,
      if lonRaw != LON_NA && latRaw != LAT_NA then Some((lonRaw, latRaw)) else None,
      if cogRaw < COG_NA then Some(cogRaw) else None, if hdg <= 359 then Some(hdg) else None);
  }

  method DecodeStaticBits(bits: BitReader) returns (v: Vessel)
    requires |bits.bits| >= 424
    ensures v == DecodeStatic(bits.bits)
  {
    var mmsi := bits.Ubits(8, 30);
    var callsign := bits.Text(70, 7);
    var name := bits.Text(112, 20);
    var shipType := bits.Ubits(232, 8);
    var destination := bits.Text(302, 20);
    v := Static(mmsi, callsign, name, shipType, destination);
  }

  method Decode(payload: string, fill: nat) returns (r: Option<Vessel>)
    ensures r == DecodeMessage(payload, fill)
  {
    var bits := new BitReader(payload);
    if !bits.valid {
      return None;
    }
    var effective := |bits.bits| - fill;
    if effective < 38 {
      return None;
    }
    var kind := bits.Ubits(0, 6);
    if 1 <= kind <= 3 {
      if effective != POSITION_BITS {
        return None;
      }
      var v := DecodePositionBits(bits);
      return Some(v);
    }
    if kind == 5 {
      if effective < STATIC_BITS {
        return None;
      }
      var v := DecodeStaticBits(bits);
      return Some(v);
    }
    return None;
  }

  // ---- the sentence

  // The position of the first c, or the length when there is none.
  function Find(s: string, c: char): (i: nat)
    ensures i <= |s| && (forall k :: 0 <= k < i ==> s[k] != c)
    ensures i < |s| ==> s[i] == c
  {
    if s == [] || s[0] == c then 0
    else
      var i := Find(s[1..], c);
      assert forall k :: 1 <= k < i + 1 ==> s[k] == s[1..][k - 1];
      i + 1
  }

  function ByteOf(c: char): bv8 { (c as int % 256) as bv8 }

  function Xor(s: string): bv8 {
    if s == [] then 0 else Xor(s[..|s| - 1]) ^ ByteOf(s[|s| - 1])
  }

  // The value of a hexadecimal digit, or -1.
  function Hex(c: char): int {
    if '0' <= c <= '9' then c as int - '0' as int
    else if 'A' <= c <= 'F' then c as int - 'A' as int + 10
    else if 'a' <= c <= 'f' then c as int - 'a' as int + 10
    else -1
  }

  predicate ChecksumOk(s: string) {
    var bang, star := Find(s, '!'), Find(s, '*');
    && bang < |s| && star < |s| && star > bang + 1 && star + 3 <= |s|
    && Hex(s[star + 1]) >= 0 && Hex(s[star + 2]) >= 0
    && Xor(s[bang + 1..star]) as int == Hex(s[star + 1]) * 16 + Hex(s[star + 2])
  }

  lemma XorSnoc(s: string, c: char)
    ensures Xor(s + [c]) == Xor(s) ^ ByteOf(c)
  {
    hide ByteOf;
    assert (s + [c])[..|s|] == s;
  }

  method XorBytes(s: string, lo: nat, hi: nat) returns (sum: bv8)
    requires lo <= hi <= |s|
    ensures sum == Xor(s[lo..hi])
  {
    sum := 0;
    assert Xor(s[lo..lo]) == 0;
    hide ByteOf, Xor;
    for i := lo to hi
      invariant sum == Xor(s[lo..i])
    {
      assert s[lo..i + 1] == s[lo..i] + [s[i]];
      XorSnoc(s[lo..i], s[i]);
      sum := sum ^ ByteOf(s[i]);
    }
  }

  method CheckSum(s: string) returns (ok: bool)
    ensures ok == ChecksumOk(s)
  {
    var bang, star := Find(s, '!'), Find(s, '*');
    if bang >= |s| || star >= |s| || star <= bang + 1 || star + 3 > |s| {
      return false;
    }
    var sum := XorBytes(s, bang + 1, star);
    var hi, lo := Hex(s[star + 1]), Hex(s[star + 2]);
    if hi < 0 || lo < 0 {
      return false;
    }
    ok := sum as int == hi * 16 + lo;
  }

  // The fields between separators; one more than there are separators.
  function Split(s: string, sep: char): (r: seq<string>)
    ensures |r| >= 1
  {
    if s == [] then [[]]
    else
      var rest := Split(s[..|s| - 1], sep);
      var c := s[|s| - 1];
      if c == sep then rest + [[]] else rest[..|rest| - 1] + [rest[|rest| - 1] + [c]]
  }

  method SplitFields(s: string, sep: char) returns (out: seq<string>)
    ensures out == Split(s, sep)
  {
    out := [];
    var cur := [];
    for i := 0 to |s|
      invariant out + [cur] == Split(s[..i], sep)
    {
      assert s[..i + 1][..i] == s[..i];
      assert (out + [cur])[..|out|] == out;
      if s[i] == sep {
        out := out + [cur];
        cur := [];
      } else {
        cur := cur + [s[i]];
      }
    }
    assert s[..|s|] == s;
    out := out + [cur];
  }

  // The fields of an accepted sentence that matter here. key is channel|sequence.
  datatype Fragment = Fragment(key: string, count: nat, num: nat, payload: string, fill: nat)

  function DigitOf(c: char): (d: nat)
    requires '0' <= c <= '9'
    ensures d <= 9
  {
    c as int - '0' as int
  }

  predicate EnvelopeOk(f: seq<string>) {
    && |f| >= 7 && |f[0]| >= 6
    && (f[0][|f[0]| - 3..] == "VDM" || f[0][|f[0]| - 3..] == "VDO")
    && |f[1]| == 1 && '1' <= f[1][0] <= '9' && |f[2]| == 1 && '1' <= f[2][0] <= '9'
    && f[2][0] <= f[1][0]
    && f[6] != [] && '0' <= f[6][0] <= '5'
  }

  function ParseEnvelope(s: string): (r: Option<Fragment>)
    ensures r.Some? ==> 1 <= r.value.num <= r.value.count <= 9 && r.value.fill <= 5
  {
    if !ChecksumOk(s) then None
    else
      var f := Split(s, ',');
      if !EnvelopeOk(f) then None
      else Some(Fragment(f[4] + "|" + f[3], DigitOf(f[1][0]), DigitOf(f[2][0]), f[5], DigitOf(f[6][0])))
  }

  method Parse(s: string) returns (r: Option<Fragment>)
    ensures r == ParseEnvelope(s)
  {
    var ok := CheckSum(s);
    if !ok {
      return None;
    }
    var f := SplitFields(s, ',');
    if |f| < 7 {
      return None;
    }
    var tag := f[0];
    if |tag| < 6 {
      return None;
    }
    var formatter := tag[|tag| - 3..];
    if formatter != "VDM" && formatter != "VDO" {
      return None;
    }
    if |f[1]| != 1 || f[1][0] < '1' || f[1][0] > '9' || |f[2]| != 1 || f[2][0] < '1' || f[2][0] > '9' {
      return None;
    }
    var count, num := DigitOf(f[1][0]), DigitOf(f[2][0]);
    if num > count {
      return None;
    }
    if f[6] == [] || f[6][0] < '0' || f[6][0] > '5' {
      return None;
    }
    r := Some(Fragment(f[4] + "|" + f[3], count, num, f[5], DigitOf(f[6][0])));
  }
}
