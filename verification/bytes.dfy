/**
 Byte strings, the slices Python takes of them, and fixed-width little-endian
 numbers as `struct.pack("<H" / "<I" / "<Q")` writes them.
 */
module Bytes {
  type byte = x: int | 0 <= x < 256
  type Bytes = seq<byte>

  /** `b"\x00" * n` */
  function Zeros(n: nat): (z: Bytes)
    ensures |z| == n && forall i | 0 <= i < n :: z[i] == 0
  {
    seq(n, i => 0)
  }

  predicate AllZero(s: Bytes) {
    forall i | 0 <= i < |s| :: s[i] == 0
  }

  /** `s[lo:hi]` for non-negative bounds: both ends are clamped to the length. */
  function Slice<T>(s: seq<T>, lo: nat, hi: nat): (r: seq<T>)
    ensures lo <= hi <= |s| ==> r == s[lo..hi]
    ensures |r| <= hi - lo || r == []
  {
    var top := if hi < |s| then hi else |s|;
    if lo < top then s[lo..top] else []
  }

  lemma Assoc<T>(a: seq<T>, b: seq<T>, c: seq<T>)
    ensures (a + b) + c == a + (b + c)
  {
  }

  /** `piece` stands in `s` at position i. */
  predicate At<T(==)>(s: seq<T>, i: nat, piece: seq<T>) {
    i + |piece| <= |s| && s[i..i + |piece|] == piece
  }

  lemma AtSplit<T>(s: seq<T>, i: nat, a: seq<T>, b: seq<T>)
    requires At(s, i, a + b)
    ensures At(s, i, a) && At(s, i + |a|, b)
  {
    var both := s[i..i + |a + b|];
    assert both[..|a|] == a && both[|a|..] == b;
    assert s[i..i + |a|] == both[..|a|];
    assert s[i + |a|..i + |a| + |b|] == both[|a|..];
  }

  lemma AtJoin<T>(s: seq<T>, i: nat, a: seq<T>, b: seq<T>)
    requires At(s, i, a) && At(s, i + |a|, b)
    ensures At(s, i, a + b)
  {
    assert s[i..i + |a + b|] == s[i..i + |a|] + s[i + |a|..i + |a| + |b|];
  }

  lemma AtPrefix<T>(s: seq<T>, i: nat, piece: seq<T>, front: seq<T>)
    requires At(s, i, piece) && front <= piece
    ensures At(s, i, front)
  {
    assert piece == front + piece[|front|..];
    AtSplit(s, i, front, piece[|front|..]);
  }

  lemma AtMiddle<T>(p: seq<T>, piece: seq<T>, rest: seq<T>)
    ensures At(p + piece + rest, |p|, piece)
  {
  }

  lemma AtDrop<T>(s: seq<T>, n: nat, i: nat, piece: seq<T>)
    requires n <= |s|
    ensures At(s, n + i, piece) <==> At(s[n..], i, piece)
  {
    assert i + |piece| <= |s| - n ==> s[n + i..n + i + |piece|] == s[n..][i..i + |piece|];
  }

  lemma AtHead<T>(s: seq<T>, i: nat, piece: seq<T>)
    requires At(s, i, piece) && piece != []
    ensures i < |s| && s[i] == piece[0] && At(s, i + 1, piece[1..])
  {
    assert s[i..i + |piece|][0] == piece[0];
    assert s[i + 1..i + |piece|] == s[i..i + |piece|][1..];
  }

  lemma AtSub<T>(s: seq<T>, i: nat, piece: seq<T>, a: nat, b: nat)
    requires At(s, i, piece) && a <= b <= |piece|
    ensures s[i + a..i + b] == piece[a..b]
  {
    var whole := s[i..i + |piece|];
    forall k | 0 <= k < b - a
      ensures s[i + a..i + b][k] == piece[a..b][k]
    {
      assert s[i + (a + k)] == whole[a + k];
    }
  }

  lemma AtSlice<T>(s: seq<T>, i: nat, piece: seq<T>)
    requires At(s, i, piece)
    ensures Slice(s, i, i + |piece|) == piece
  {
  }

  // ---------------------------------------------------------------------
  // Little-endian numbers
  // ---------------------------------------------------------------------

  function Pow256(k: nat): (p: nat)
    ensures p > 0
  {
    if k == 0 then 1 else 256 * Pow256(k - 1)
  }

  function Le(v: nat, k: nat): (s: Bytes)
    ensures |s| == k
  {
    if k == 0 then [] else [v % 256] + Le(v / 256, k - 1)
  }

  function UnLe(s: Bytes): nat {
    if s == [] then 0 else s[0] + 256 * UnLe(s[1..])
  }

  lemma {:induction false} UnLeOfLe(v: nat, k: nat)
    requires v < Pow256(k)
    ensures UnLe(Le(v, k)) == v
  {
    if k > 0 {
      assert v / 256 < Pow256(k - 1);
      UnLeOfLe(v / 256, k - 1);
      assert Le(v, k)[1..] == Le(v / 256, k - 1);
    }
  }

  lemma {:induction false} UnLeBound(s: Bytes)
    ensures UnLe(s) < Pow256(|s|)
  {
    if s != [] {
      UnLeBound(s[1..]);
    }
  }

  lemma Powers()
    ensures Pow256(2) == 0x1_0000 && Pow256(4) == 0x1_0000_0000
    ensures Pow256(8) == 0x1_0000_0000_0000_0000
  {
    assert Pow256(3) == 0x100_0000;
    assert Pow256(5) == 0x100_0000_0000;
    assert Pow256(6) == 0x1_0000_0000_0000;
    assert Pow256(7) == 0x100_0000_0000_0000;
  }
}
