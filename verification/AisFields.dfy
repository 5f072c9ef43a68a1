// Where the numbers and texts of a message stand in its payload, bit by bit
// (apps/ais/src/decoder/ais_decoder.cpp).
module AisFields {
  import opened AisDecoder
  import opened AisLaws
  import opened Ints
  import opened Options

  // n halved k times, the remainders dropped.
  function Halved(n: nat, k: nat): nat { if k == 0 then n else Halved(n / 2, k - 1) }

  // The bits from one place to another write n, most significant first.
  predicate Spells(bits: seq<Bit>, from: nat, to: nat, n: int) {
    && from <= to <= |bits| && n >= 0 && Halved(n, to - from) == 0
    && forall k :: from <= k < to ==> Halved(n, to - 1 - k) % 2 == bits[k] as int
  }

  lemma {:induction false} ValueSpells(bits: seq<Bit>)
    ensures Spells(bits, 0, |bits|, Value(bits))
  {
    if bits != [] {
      var m := |bits| - 1;
      ValueSpells(bits[..m]);
      assert Value(bits) / 2 == Value(bits[..m]) && Value(bits) % 2 == bits[m] as int;
      forall k | 0 <= k < |bits| ensures Halved(Value(bits), |bits| - 1 - k) % 2 == bits[k] as int {
        if k < m { assert bits[..m][k] == bits[k]; }
      }
    }
  }

  lemma UBitsSpell(bits: seq<Bit>, start: nat, len: nat)
    requires start + len <= |bits|
    ensures Spells(bits, start, start + len, UBits(bits, start, len))
  {
    var s := bits[start..start + len];
    ValueSpells(s);
    forall k | start <= k < start + len ensures Halved(Value(s), start + len - 1 - k) % 2 == bits[k] as int {
      assert s[k - start] == bits[k];
    }
  }

  // A number in two's complement: the first bit counts for minus the range.
  predicate SpellsSigned(bits: seq<Bit>, from: nat, to: nat, range: int, n: int) {
    from < to <= |bits| && Spells(bits, from, to, if bits[from] == 1 then n + range else n)
  }

  lemma {:induction false} HalvedIsShift(n: nat, k: nat)
    ensures Halved(n, k) == Shift(n, k)
  {
    if k > 0 {
      HalvedOnce(n, k - 1);
      HalvedIsShift(n, k - 1);
      ShiftOnce(n, k - 1);
    }
  }

  lemma {:induction false} HalvedOnce(n: nat, k: nat)
    ensures Halved(n, k + 1) == Halved(n, k) / 2
  {
    if k > 0 { HalvedOnce(n / 2, k - 1); }
  }

  lemma SBitsSpell(bits: seq<Bit>, start: nat, len: nat)
    requires start + len <= |bits| && len > 0
    ensures SpellsSigned(bits, start, start + len, Pow2(len), SBits(bits, start, len))
  {
    hide Shift;
    UBitsSpell(bits, start, len);
    HalvedIsShift(UBits(bits, start, len), len - 1);
  }

  lemma Ranges()
    ensures Pow2(27) == 134217728 && Pow2(28) == 268435456
  {
    assert Pow2(4) == 16 && Pow2(8) == 256 && Pow2(12) == 4096 && Pow2(16) == 65536;
    assert Pow2(20) == 1048576 && Pow2(24) == 16777216;
  }

  // ---- payloads

  // The six bits a character stands for.
  function Six(c: char): int { if c as int < 96 then c as int - 48 else c as int - 56 }

  // Bits 6 i to 6 i + 5 of a payload are those of its character i.
  lemma {:induction false} PayloadSpells(payload: string, i: nat)
    requires AllArmoured(payload) && i < |payload|
    ensures Spells(Dearmour(payload), 6 * i, 6 * i + 6, Six(payload[i]))
  {
    var n := |payload| - 1;
    assert payload[n] in payload;
    if i < n {
      PayloadSpells(payload[..n], i);
      SpellsLonger(Dearmour(payload[..n]), BitsOf(SixOf(payload[n]), 6), 6 * i, 6 * i + 6, Six(payload[i]));
    } else {
      BitsSpell(Dearmour(payload[..n]), SixOf(payload[n]));
    }
  }

  lemma SpellsLonger(bits: seq<Bit>, more: seq<Bit>, from: nat, to: nat, n: int)
    requires Spells(bits, from, to, n)
    ensures Spells(bits + more, from, to, n)
  {}

  lemma BitsSpell(bits: seq<Bit>, v: nat)
    requires v < 64
    ensures Spells(bits + BitsOf(v, 6), |bits|, |bits| + 6, v)
  {
    BitsOfSpell(v, 6);
    HalvedSix(v);
    var w := BitsOf(v, 6);
    forall k | |bits| <= k < |bits| + 6 ensures Halved(v, |bits| + 5 - k) % 2 == (bits + w)[k] as int {
      assert (bits + w)[k] == w[k - |bits|];
    }
  }

  lemma {:induction false} BitsOfSpell(v: nat, n: nat)
    ensures forall k :: 0 <= k < n ==> Halved(v, n - 1 - k) % 2 == BitsOf(v, n)[k] as int
  {
    if n > 0 { BitsOfSpell(v / 2, n - 1); }
  }

  lemma HalvedSix(v: nat)
    requires v < 64
    ensures Halved(v, 6) == 0
  {
    var a, b := v / 2 / 2, v / 2 / 2 / 2 / 2;
    assert Halved(v, 6) == Halved(v / 2, 5) == Halved(a, 4);
    assert Halved(a, 4) == Halved(a / 2, 3) == Halved(b, 2);
    assert Halved(b, 2) == Halved(b / 2, 1) == Halved(b / 2 / 2, 0);
  }

  // ---- reports

  // What a position report says, at its places in the 168 bits; the numbers found
  // there are the results.
  lemma PositionStands(bits: seq<Bit>) returns (sog: int, lon: int, lat: int, cog: int, hdg: int)
    requires |bits| >= 168
    ensures var v := DecodePosition(bits);
            && Spells(bits, 0, 6, v.msgType) && Spells(bits, 8, 38, v.mmsi) && Spells(bits, 38, 42, v.navStatus)
            && Spells(bits, 50, 60, sog) && v.sog == Unless(sog == 1023, sog)
            && SpellsSigned(bits, 61, 89, 268435456, lon) && SpellsSigned(bits, 89, 116, 134217728, lat)
            && v.pos == (if lon == 108600000 || lat == 54600000 then None else Some((lon, lat)))
            && Spells(bits, 116, 128, cog) && v.cog == Unless(cog >= 3600, cog)
            && Spells(bits, 128, 137, hdg) && v.hdg == Unless(hdg >= 360, hdg)
  {
    hide Spells, SpellsSigned, UBits, SBits, Pow2;
    sog, cog, hdg := UBits(bits, 50, 10), UBits(bits, 116, 12), UBits(bits, 128, 9);
    lon, lat := SBits(bits, 61, 28), SBits(bits, 89, 27);
    UBitsSpell(bits, 0, 6);
    UBitsSpell(bits, 8, 30);
    UBitsSpell(bits, 38, 4);
    UBitsSpell(bits, 50, 10);
    UBitsSpell(bits, 116, 12);
    UBitsSpell(bits, 128, 9);
    SBitsSpell(bits, 61, 28);
    SBitsSpell(bits, 89, 27);
    Ranges();
  }

  // The code of a character of six-bit text: letters from @ at 0, the rest as they are.
  function Code(c: char): int { if c as int >= 64 then c as int - 64 else c as int }

  // The bits from a place on write this text of n characters, less the padding and
  // spaces at its end.
  ghost predicate SpellsText(bits: seq<Bit>, from: nat, n: nat, t: string) {
    exists s :: |s| == n && TrimOf(s, t) && forall i :: 0 <= i < n ==> Spells(bits, from + 6 * i, from + 6 * i + 6, Code(s[i]))
  }

  lemma {:induction false} CharsSpell(bits: seq<Bit>, start: nat, n: nat, i: nat)
    requires start + 6 * n <= |bits| && i < n
    ensures Spells(bits, start + 6 * i, start + 6 * i + 6, Code(Chars(bits, start, n)[i]))
  {
    if i < n - 1 {
      CharsSpell(bits, start, n - 1, i);
    } else {
      UBitsSpell(bits, start + 6 * i, 6);
      ValueBound(bits[start + 6 * i..start + 6 * i + 6]);
    }
  }

  lemma TextSpells(bits: seq<Bit>, start: nat, n: nat)
    requires start + 6 * n <= |bits|
    ensures SpellsText(bits, start, n, Trim(Chars(bits, start, n)))
  {
    hide Spells, Chars, Trim, TrimOf;
    var s := Chars(bits, start, n);
    TrimIs(s);
    forall i | 0 <= i < n ensures Spells(bits, start + 6 * i, start + 6 * i + 6, Code(s[i])) {
      CharsSpell(bits, start, n, i);
    }
  }

  // What a static report says, at its places.
  lemma StaticStands(bits: seq<Bit>)
    requires |bits| >= 424
    ensures var v := DecodeStatic(bits);
            && Spells(bits, 8, 38, v.mmsi) && SpellsText(bits, 70, 7, v.callsign) && SpellsText(bits, 112, 20, v.name)
            && Spells(bits, 232, 240, v.shipType) && SpellsText(bits, 302, 20, v.destination)
  {
    hide Spells, SpellsText, UBits, Chars, Trim;
    UBitsSpell(bits, 8, 30);
    UBitsSpell(bits, 232, 8);
    TextSpells(bits, 70, 7);
    TextSpells(bits, 112, 20);
    TextSpells(bits, 302, 20);
  }
}
