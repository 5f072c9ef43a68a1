// Pieces of sequences.
module Sequences {

  // The pieces one after the other.
  function Concat<T>(pieces: seq<seq<T>>): seq<T> {
    if pieces == [] then [] else Concat(pieces[..|pieces| - 1]) + pieces[|pieces| - 1]
  }

  lemma ConcatSnoc<T>(pieces: seq<seq<T>>, piece: seq<T>)
    ensures Concat(pieces + [piece]) == Concat(pieces) + piece
  {
    assert (pieces + [piece])[..|pieces|] == pieces;
  }

  lemma ConcatOne<T>(piece: seq<T>)
    ensures Concat([piece]) == piece
  {
    assert [] + piece == piece;
  }

  // piece stands at offset off of s.
  predicate Sits<T(==)>(s: seq<T>, off: nat, piece: seq<T>) {
    off + |piece| <= |s| && s[off..off + |piece|] == piece
  }

  lemma SitsConcat<T>(s: seq<T>, off: nat, a: seq<T>, b: seq<T>)
    requires Sits(s, off, a + b)
    ensures Sits(s, off, a) && Sits(s, off + |a|, b)
  {
    var all := a + b;
    assert all[..|a|] == a && all[|a|..] == b;
    assert s[off..off + |a|] == s[off..off + |all|][..|a|];
    assert s[off + |a|..off + |all|] == s[off..off + |all|][|a|..];
  }
}
