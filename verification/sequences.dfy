/** Searching and splitting sequences, as Python's `find` and `split` and C++'s Split do. */
module Sequences {
  import opened Bytes
  import opened Wrappers

  /** The first position of c at or after the start, |s| when there is none. */
  function IndexOf<T(==)>(s: seq<T>, c: T): (i: nat)
    ensures i <= |s| && c !in s[..i] && (i < |s| ==> s[i] == c)
  {
    if s == [] || s[0] == c then 0 else 1 + IndexOf(s[1..], c)
  }

  /** `s.split(c)`: the pieces between the separators, one piece when there is no separator. */
  function Split<T(==)>(s: seq<T>, c: T): (ps: seq<seq<T>>)
    ensures |ps| >= 1
  {
    var i := IndexOf(s, c);
    if i == |s| then [s] else [s[..i]] + Split(s[i + 1..], c)
  }

  lemma SplitStep<T>(s: seq<T>, c: T)
    ensures var i := IndexOf(s, c);
            Split(s, c) == if i == |s| then [s[..i]] else [s[..i]] + Split(s[i + 1..], c)
  {
    hide IndexOf;
    var i := IndexOf(s, c);
    assert i == |s| ==> s[..i] == s;
  }

  /** `s.find(p)` from position i on. */
  function FindFrom<T(==)>(s: seq<T>, p: seq<T>, i: nat): (r: Option<nat>)
    ensures r.Some? ==> i <= r.value && At(s, r.value, p)
    decreases |s| - i
  {
    if i + |p| > |s| then None
    else if At(s, i, p) then Some(i)
    else FindFrom(s, p, i + 1)
  }

  lemma AtStarts<T>(s: seq<T>, i: nat, p: seq<T>)
    requires p != [] && i < |s|
    ensures At(s, i, p) ==> s[i] == p[0]
  {
    if At(s, i, p) {
      AtHead(s, i, p);
    }
  }

  lemma {:induction false} FindSkips<T>(s: seq<T>, p: seq<T>, i: nat, k: nat)
    requires p != [] && i <= k && At(s, k, p) && p[0] !in s[i..k]
    ensures FindFrom(s, p, i) == Some(k)
    decreases k - i
  {
    if i < k {
      assert s[i] in s[i..k] && s[i + 1..k] == s[i..k][1..];
      AtStarts(s, i, p);
      FindSkips(s, p, i + 1, k);
    }
  }

  lemma {:induction false} FindIsFirst<T>(s: seq<T>, p: seq<T>, i: nat, k: nat)
    requires i <= k && At(s, k, p)
    ensures var r := FindFrom(s, p, i); r.Some? && r.value <= k
    decreases k - i
  {
    if !At(s, i, p) {
      FindIsFirst(s, p, i + 1, k);
    }
  }

  // ---------------------------------------------------------------------
  // Where a text can stand in two joined sequences
  // ---------------------------------------------------------------------

  ghost predicate Holds<T>(s: seq<T>, p: seq<T>) {
    exists i: nat :: At(s, i, p)
  }

  lemma NotBegun<T>(s: seq<T>, p: seq<T>)
    requires p != [] && p[0] !in s
    ensures !Holds(s, p)
  {
    if Holds(s, p) {
      var i: nat :| At(s, i, p);
      AtHead(s, i, p);
    }
  }

  lemma InFront<T>(a: seq<T>, b: seq<T>, p: seq<T>, i: nat)
    requires i + |p| <= |a|
    ensures At(a + b, i, p) <==> At(a, i, p)
  {
    assert (a + b)[i..i + |p|] == a[i..i + |p|];
  }

  lemma Behind<T>(a: seq<T>, b: seq<T>, p: seq<T>, i: nat)
    requires |a| <= i
    ensures At(a + b, i, p) <==> At(b, i - |a|, p)
  {
    assert (a + b)[|a|..] == b;
    AtDrop(a + b, |a|, i - |a|, p);
  }

  /** The last element of the one or the first of the other is foreign to p. */
  predicate SafeSeam<T(==)>(a: seq<T>, b: seq<T>, p: seq<T>) {
    a == [] || b == [] || a[|a| - 1] !in p || b[0] !in p
  }

  lemma Straddles<T>(a: seq<T>, b: seq<T>, p: seq<T>, i: nat)
    requires At(a + b, i, p) && i < |a| < i + |p|
    ensures !SafeSeam(a, b, p)
  {
    var s, k := a + b, |a| - i;
    assert s[i..i + |p|][k - 1] == s[i + (k - 1)] && s[i..i + |p|][k] == s[i + k];
    assert a[|a| - 1] == p[k - 1] && b[0] == p[k];
  }

  lemma PastFront<T>(a: seq<T>, b: seq<T>, p: seq<T>, i: nat)
    requires At(a + b, i, p) && SafeSeam(a, b, p) && !Holds(a, p)
    ensures |a| <= i && At(b, i - |a|, p)
  {
    hide At, SafeSeam;
    if |a| <= i {
      Behind(a, b, p, i);
    } else if i + |p| <= |a| {
      InFront(a, b, p, i);
    } else {
      Straddles(a, b, p, i);
    }
  }

  lemma StartsIn<T>(a: seq<T>, b: seq<T>, p: seq<T>, i: nat)
    requires p != [] && At(a + b, i, p) && i < |a|
    ensures p[0] in a
  {
    AtHead(a + b, i, p);
    assert (a + b)[i] == a[i];
  }

  lemma PastForeign<T>(a: seq<T>, b: seq<T>, p: seq<T>, i: nat)
    requires p != [] && At(a + b, i, p) && p[0] !in a
    ensures |a| <= i && At(b, i - |a|, p)
  {
    hide At;
    if i < |a| {
      StartsIn(a, b, p, i);
    } else {
      Behind(a, b, p, i);
    }
  }

  lemma HoldsJoin<T>(a: seq<T>, b: seq<T>, p: seq<T>)
    requires SafeSeam(a, b, p) && !Holds(a, p) && !Holds(b, p)
    ensures !Holds(a + b, p)
  {
    if Holds(a + b, p) {
      hide At, SafeSeam;
      var i: nat :| At(a + b, i, p);
      PastFront(a, b, p, i);
    }
  }

  lemma HoldsBehind<T>(a: seq<T>, b: seq<T>, p: seq<T>)
    requires p != [] && p[0] !in a && !Holds(b, p)
    ensures !Holds(a + b, p)
  {
    if Holds(a + b, p) {
      hide At;
      var i: nat :| At(a + b, i, p);
      PastForeign(a, b, p, i);
    }
  }
}
