/** Words, lines and separated lists, as the Python script and android::base handle them. */
module Text {
  import opened Sequences

  /** No character of s satisfies p. */
  ghost predicate Free(s: string, p: char -> bool) {
    forall i | 0 <= i < |s| :: !p(s[i])
  }

  /** The first position whose character satisfies p, |s| when there is none. */
  function WordEnd(s: string, p: char -> bool): (k: nat)
    ensures k <= |s| && (k < |s| ==> p(s[k])) && forall i | 0 <= i < k :: !p(s[i])
  {
    if s == "" || p(s[0]) then 0 else 1 + WordEnd(s[1..], p)
  }

  /** The maximal runs of characters that do not satisfy p: `str.split()`, `Tokenize`. */
  function Tokens(s: string, p: char -> bool): seq<string>
    decreases |s|
  {
    if s == "" then []
    else if p(s[0]) then Tokens(s[1..], p)
    else
      var k := WordEnd(s, p);
      [s[..k]] + Tokens(s[k..], p)
  }

  lemma {:induction false} TokensAreWords(s: string, p: char -> bool, i: nat)
    requires i < |Tokens(s, p)|
    ensures Tokens(s, p)[i] != "" && Free(Tokens(s, p)[i], p)
    ensures forall c | c in Tokens(s, p)[i] :: c in s
    decreases |s|
  {
    if p(s[0]) {
      TokensAreWords(s[1..], p, i);
    } else {
      var k := WordEnd(s, p);
      if i > 0 {
        TokensAreWords(s[k..], p, i - 1);
      }
    }
  }

  /** Which characters separate matters only for the characters that occur. */
  lemma {:induction false} TokensAgree(s: string, p: char -> bool, q: char -> bool)
    requires forall c | c in s :: p(c) <==> q(c)
    ensures Tokens(s, p) == Tokens(s, q)
    decreases |s|
  {
    if s != "" {
      assert s[0] in s;
      if p(s[0]) {
        TokensAgree(s[1..], p, q);
      } else {
        WordEndsAgree(s, p, q);
        TokensAgree(s[WordEnd(s, p)..], p, q);
      }
    }
  }

  lemma {:induction false} WordEndsAgree(s: string, p: char -> bool, q: char -> bool)
    requires forall c | c in s :: p(c) <==> q(c)
    ensures WordEnd(s, p) == WordEnd(s, q)
  {
    if s != "" {
      assert s[0] in s;
      WordEndsAgree(s[1..], p, q);
    }
  }

  lemma {:induction false} WordEndOf(w: string, t: string, p: char -> bool)
    requires Free(w, p) && (t == "" || p(t[0]))
    ensures WordEnd(w + t, p) == |w|
  {
    if w == "" {
      assert w + t == t;
    } else {
      assert (w + t)[1..] == w[1..] + t;
      WordEndOf(w[1..], t, p);
    }
  }

  lemma TokensOfWord(w: string, t: string, p: char -> bool)
    requires Free(w, p) && (t == "" || p(t[0]))
    ensures Tokens(w + t, p) == (if w == "" then [] else [w]) + Tokens(t, p)
  {
    if w == "" {
      assert w + t == t && [] + Tokens(t, p) == Tokens(t, p);
    } else {
      WordEndOf(w, t, p);
      assert (w + t)[..|w|] == w && (w + t)[|w|..] == t;
    }
  }

  predicate EndsWith(s: string, suffix: string) {
    |suffix| <= |s| && s[|s| - |suffix|..] == suffix
  }

  /** `c.join(fs)` */
  function Join(fs: seq<string>, c: char): string {
    if fs == [] then "" else if |fs| == 1 then fs[0] else fs[0] + [c] + Join(fs[1..], c)
  }

  function NonEmpty(fs: seq<string>): seq<string> {
    if fs == [] then [] else (if fs[0] == "" then [] else [fs[0]]) + NonEmpty(fs[1..])
  }

  ghost predicate AllFree(fs: seq<string>, p: char -> bool) {
    forall i | 0 <= i < |fs| :: Free(fs[i], p)
  }

  /** Splitting joined words at the separator gives back the words that are not empty. */
  lemma {:induction false} TokensOfJoin(fs: seq<string>, c: char, p: char -> bool)
    requires AllFree(fs, p) && p(c)
    ensures Tokens(Join(fs, c), p) == NonEmpty(fs)
    decreases |fs|
  {
    if |fs| == 1 {
      TokensOfWord(fs[0], "", p);
      assert fs[0] + "" == fs[0];
    } else if |fs| > 1 {
      var rest := Join(fs[1..], c);
      TokensOfWord(fs[0], [c] + rest, p);
      assert fs[0] + [c] + rest == fs[0] + ([c] + rest);
      assert Tokens([c] + rest, p) == Tokens(rest, p) by {
        assert ([c] + rest)[1..] == rest;
      }
      TokensOfJoin(fs[1..], c, p);
    }
  }

  lemma {:induction false} NonEmptyOfWords(fs: seq<string>)
    requires forall i | 0 <= i < |fs| :: fs[i] != ""
    ensures NonEmpty(fs) == fs
  {
    if fs != [] {
      NonEmptyOfWords(fs[1..]);
    }
  }

  lemma {:induction false} NonEmptyOfConcat(a: seq<string>, b: seq<string>)
    ensures NonEmpty(a + b) == NonEmpty(a) + NonEmpty(b)
  {
    if a == [] {
      assert a + b == b && [] + NonEmpty(b) == NonEmpty(b);
    } else {
      assert (a + b)[1..] == a[1..] + b;
      NonEmptyOfConcat(a[1..], b);
    }
  }

  lemma NonEmptyWithHole(fs: seq<string>, k: nat)
    requires k < |fs| && fs[k] == "" && forall i | 0 <= i < |fs| && i != k :: fs[i] != ""
    ensures NonEmpty(fs) == fs[..k] + fs[k + 1..]
  {
    assert NonEmpty([""]) == [];
    hide NonEmpty;
    var front, back := fs[..k], fs[k + 1..];
    assert fs == front + ([""] + back);
    NonEmptyOfConcat(front, [""] + back);
    NonEmptyOfConcat([""], back);
    NonEmptyOfWords(front);
    NonEmptyOfWords(back);
    assert [] + back == back;
  }

  lemma {:induction false} IndexOfFirst(w: string, t: string, c: char)
    requires c !in w && (t == "" || t[0] == c)
    ensures IndexOf(w + t, c) == |w|
  {
    if w == "" {
      assert w + t == t;
    } else {
      assert (w + t)[1..] == w[1..] + t;
      IndexOfFirst(w[1..], t, c);
    }
  }

  /** `c.join(fs).split(c) == fs` when no piece holds the separator. */
  lemma {:induction false} SplitOfJoin(fs: seq<string>, c: char)
    requires fs != [] && forall i | 0 <= i < |fs| :: c !in fs[i]
    ensures Split(Join(fs, c), c) == fs
    decreases |fs|
  {
    if |fs| == 1 {
      IndexOfFirst(fs[0], "", c);
      assert fs[0] + "" == fs[0];
    } else {
      var rest := Join(fs[1..], c);
      assert fs[0] + [c] + rest == fs[0] + ([c] + rest);
      IndexOfFirst(fs[0], [c] + rest, c);
      SplitOfJoin(fs[1..], c);
      assert (fs[0] + ([c] + rest))[|fs[0]| + 1..] == rest;
      assert (fs[0] + ([c] + rest))[..|fs[0]|] == fs[0];
    }
  }

  lemma {:induction false} SplitPieces(s: string, c: char, i: nat)
    requires i < |Split(s, c)|
    ensures c !in Split(s, c)[i] && forall x | x in Split(s, c)[i] :: x in s
    decreases |s|
  {
    hide IndexOf;
    SplitStep(s, c);
    var k := IndexOf(s, c);
    if i > 0 {
      SplitPieces(s[k + 1..], c, i - 1);
    }
  }

  lemma {:induction false} JoinChars(fs: seq<string>, c: char, x: char)
    requires x in Join(fs, c) && x != c
    ensures exists i | 0 <= i < |fs| :: x in fs[i]
    decreases |fs|
  {
    if |fs| > 1 && x !in fs[0] {
      JoinChars(fs[1..], c, x);
      var i :| 0 <= i < |fs[1..]| && x in fs[1..][i];
      assert x in fs[i + 1];
    }
  }

  lemma {:induction false} JoinSnoc(fs: seq<string>, w: string, c: char)
    requires fs != []
    ensures Join(fs + [w], c) == Join(fs, c) + [c] + w
    decreases |fs|
  {
    if |fs| == 1 {
      assert (fs + [w])[1..] == [w];
    } else {
      assert (fs + [w])[1..] == fs[1..] + [w];
      JoinSnoc(fs[1..], w, c);
    }
  }

  lemma {:induction false} JoinSnocEmpty(fs: seq<string>, c: char)
    requires fs != []
    ensures Join(fs + [""], c) == Join(fs, c) + [c]
    decreases |fs|
  {
    if |fs| == 1 {
      assert (fs + [""])[1..] == [""];
    } else {
      assert (fs + [""])[1..] == fs[1..] + [""];
      JoinSnocEmpty(fs[1..], c);
    }
  }
}
