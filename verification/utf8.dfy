/** UTF-8 as Python encodes it, and decodes it with errors="replace". */
module Utf8 {
  import opened Bytes

  /** Code points that can be encoded: all but the surrogates. */
  type CodePoint = x: int | 0 <= x < 0xD800 || 0xE000 <= x < 0x11_0000
  type Text = seq<CodePoint>

  /** The replacement character. */
  const REPLACEMENT: CodePoint := 0xFFFD

  function EncodeOne(c: CodePoint): (s: Bytes)
    ensures 1 <= |s| <= 4 && (|s| == 1 <==> c < 0x80)
  {
    if c < 0x80 then [c]
    else if c < 0x800 then [0xC0 + c / 0x40, 0x80 + c % 0x40]
    else if c < 0x1_0000 then [0xE0 + c / 0x1000, 0x80 + c / 0x40 % 0x40, 0x80 + c % 0x40]
    else [0xF0 + c / 0x4_0000, 0x80 + c / 0x1000 % 0x40, 0x80 + c / 0x40 % 0x40, 0x80 + c % 0x40]
  }

  function Encode(t: Text): Bytes {
    if t == [] then [] else EncodeOne(t[0]) + Encode(t[1..])
  }

  predicate Ascii(t: Text) {
    forall i | 0 <= i < |t| :: t[i] < 0x80
  }

  // ---------------------------------------------------------------------
  // Decoding
  // ---------------------------------------------------------------------

  /** How many bytes a sequence with this first byte has; 0 for a byte that begins none. */
  function Length(first: byte): (n: nat)
    ensures n <= 4
  {
    if first < 0x80 then 1
    else if 0xC2 <= first <= 0xDF then 2
    else if 0xE0 <= first <= 0xEF then 3
    else if 0xF0 <= first <= 0xF4 then 4
    else 0
  }

  /** The second byte: no overlong forms, no surrogates, nothing above the last code point. */
  predicate IsSecond(first: byte, b: byte) {
    && (if first == 0xE0 then 0xA0 else if first == 0xF0 then 0x90 else 0x80) <= b
    && b <= (if first == 0xED then 0x9F else if first == 0xF4 then 0x8F else 0xBF)
  }

  predicate IsNext(b: byte) {
    0x80 <= b <= 0xBF
  }

  /** How many of the first n bytes belong to one sequence. */
  function Valid(s: Bytes, n: nat): (k: nat)
    requires s != [] && 1 <= n <= 4
    ensures 1 <= k <= n && k <= |s|
  {
    if n == 1 || |s| == 1 || !IsSecond(s[0], s[1]) then 1
    else if n == 2 || |s| == 2 || !IsNext(s[2]) then 2
    else if n == 3 || |s| == 3 || !IsNext(s[3]) then 3
    else 4
  }

  /** The number the bytes of a sequence spell. */
  function Spelled(s: Bytes, n: nat): int
    requires 1 <= n <= 4 && n <= |s|
  {
    if n == 1 then s[0] as int
    else if n == 2 then (s[0] as int - 0xC0) * 0x40 + (s[1] as int - 0x80)
    else if n == 3 then ((s[0] as int - 0xE0) * 0x40 + (s[1] as int - 0x80)) * 0x40 + (s[2] as int - 0x80)
    else (((s[0] as int - 0xF0) * 0x40 + (s[1] as int - 0x80)) * 0x40 + (s[2] as int - 0x80)) * 0x40
         + (s[3] as int - 0x80)
  }

  lemma SpelledIsCodePoint(s: Bytes, n: nat)
    requires s != [] && n == Length(s[0]) && n > 0 && Valid(s, n) == n
    ensures n <= |s| && var c := Spelled(s, n); 0 <= c < 0xD800 || 0xE000 <= c < 0x11_0000
    ensures n == 1 <==> Spelled(s, n) < 0x80
  {
    if n == 2 {
      assert 0x80 <= s[1] <= 0xBF;
    } else if n == 3 {
      assert 0x80 <= s[1] <= 0xBF && 0x80 <= s[2] <= 0xBF;
    } else if n == 4 {
      assert 0x80 <= s[1] <= 0xBF && 0x80 <= s[2] <= 0xBF && 0x80 <= s[3] <= 0xBF;
    }
  }

  /** The first character and how many bytes it takes; a broken sequence is one replacement character. */
  function First(s: Bytes): (r: (CodePoint, nat))
    requires s != []
    ensures 1 <= r.1 <= |s|
  {
    var n := Length(s[0]);
    if n == 0 then (REPLACEMENT, 1)
    else if Valid(s, n) < n then (REPLACEMENT, Valid(s, n))
    else
      SpelledIsCodePoint(s, n);
      (Spelled(s, n), n)
  }

  function Decode(s: Bytes): Text
    decreases |s|
  {
    if s == [] then [] else [First(s).0] + Decode(s[First(s).1..])
  }

  // ---------------------------------------------------------------------
  // Round trip
  // ---------------------------------------------------------------------

  lemma Digits(c: CodePoint)
    ensures var a, b, d := c / 0x40, c / 0x1000, c / 0x4_0000;
            && c == a * 0x40 + c % 0x40 && a == b * 0x40 + a % 0x40 && b == d * 0x40 + b % 0x40
  {
    assert c / 0x1000 == c / 0x40 / 0x40;
    assert c / 0x4_0000 == c / 0x1000 / 0x40;
  }

  lemma EncodedIsValid(c: CodePoint, s: Bytes)
    requires EncodeOne(c) <= s
    ensures s != [] && var n := |EncodeOne(c)|; Length(s[0]) == n && Valid(s, n) == n && Spelled(s, n) == c
  {
    var one := EncodeOne(c);
    assert forall i | 0 <= i < |one| :: s[i] == one[i];
    Digits(c);
    ThreeBytes(c);
    FourBytes(c);
  }

  lemma ThreeBytes(c: CodePoint)
    ensures 0x800 <= c < 0x1_0000 ==> IsSecond(0xE0 + c / 0x1000, 0x80 + c / 0x40 % 0x40)
  {
  }

  lemma FourBytes(c: CodePoint)
    ensures 0x1_0000 <= c ==> IsSecond(0xF0 + c / 0x4_0000, 0x80 + c / 0x1000 % 0x40)
  {
  }

  lemma FirstOfEncoded(c: CodePoint, rest: Bytes)
    ensures First(EncodeOne(c) + rest) == (c, |EncodeOne(c)|)
  {
    EncodedIsValid(c, EncodeOne(c) + rest);
    hide EncodeOne, Length, Valid, Spelled;
  }

  lemma DecodeStep(c: CodePoint, rest: Bytes)
    ensures Decode(EncodeOne(c) + rest) == [c] + Decode(rest)
  {
    FirstOfEncoded(c, rest);
    hide First, EncodeOne;
    assert (EncodeOne(c) + rest)[|EncodeOne(c)|..] == rest;
  }

  lemma {:induction false} DecodeOfEncode(t: Text)
    ensures Decode(Encode(t)) == t
  {
    if t != [] {
      hide EncodeOne, First;
      DecodeStep(t[0], Encode(t[1..]));
      DecodeOfEncode(t[1..]);
    }
  }

  lemma {:induction false} AsciiEncode(t: Text)
    requires Ascii(t)
    ensures Encode(t) == t
  {
    if t != [] {
      AsciiEncode(t[1..]);
    }
  }

  lemma AsciiDecode(t: Text)
    requires Ascii(t)
    ensures Decode(Encode(t)) == t && Encode(t) == t
  {
    DecodeOfEncode(t);
    AsciiEncode(t);
  }

  lemma {:induction false} EncodeJoin(a: Text, b: Text)
    ensures Encode(a + b) == Encode(a) + Encode(b)
  {
    hide EncodeOne;
    if a == [] {
      assert a + b == b;
    } else {
      assert (a + b)[1..] == a[1..] + b;
      EncodeJoin(a[1..], b);
    }
  }

  lemma {:induction false} EncodeLength(t: Text)
    ensures |Encode(t)| >= |t| && (|Encode(t)| == |t| <==> Ascii(t))
  {
    if t != [] {
      hide EncodeOne;
      EncodeLength(t[1..]);
    }
  }

  lemma {:induction false} DecodeLength(s: Bytes)
    ensures |Decode(s)| <= |s|
    decreases |s|
  {
    hide First;
    if s != [] {
      DecodeLength(s[First(s).1..]);
    }
  }

  // ---------------------------------------------------------------------
  // Text cut short
  // ---------------------------------------------------------------------

  /** A character whose encoding is cut decodes as one replacement character. */
  lemma DecodeOfCut(c: CodePoint, n: nat)
    requires 0 < n < |EncodeOne(c)|
    ensures Decode(EncodeOne(c)[..n]) == [REPLACEMENT]
  {
    var s := EncodeOne(c)[..n];
    CutIsBroken(c, n);
    hide First, EncodeOne;
    assert s[n..] == [];
  }

  lemma CutIsBroken(c: CodePoint, n: nat)
    requires 0 < n < |EncodeOne(c)|
    ensures First(EncodeOne(c)[..n]) == (REPLACEMENT, n)
  {
    var s := EncodeOne(c)[..n];
    if c < 0x800 {
      assert s[0] == 0xC0 + c / 0x40;
    } else if c < 0x1_0000 {
      assert s[0] == 0xE0 + c / 0x1000 && (n > 1 ==> s[1] == 0x80 + c / 0x40 % 0x40);
    } else {
      assert s[0] == 0xF0 + c / 0x4_0000 && (n > 1 ==> s[1] == 0x80 + c / 0x1000 % 0x40);
      assert n > 2 ==> s[2] == 0x80 + c / 0x40 % 0x40;
    }
  }

  /** ASCII up to one final replacement character. */
  predicate EndsReplaced(t: Text) {
    t != [] && Ascii(t[..|t| - 1]) && t[|t| - 1] == REPLACEMENT
  }

  /** The bytes the header lets the reader take: as many as the text has characters. */
  function Counted(t: Text): Bytes {
    EncodeLength(t);
    Encode(t)[..|t|]
  }

  lemma CountedIs(t: Text)
    ensures |t| <= |Encode(t)| && Counted(t) == Encode(t)[..|t|]
  {
    EncodeLength(t);
  }

  lemma CountedAscii(t: Text)
    requires t != [] && t[0] < 0x80
    ensures Decode(Counted(t)) == [t[0]] + Decode(Counted(t[1..]))
  {
    hide First, Decode;
    EncodeLength(t[1..]);
    assert Counted(t) == EncodeOne(t[0]) + Counted(t[1..]);
    DecodeStep(t[0], Counted(t[1..]));
  }

  lemma CountedCut(t: Text)
    requires t != [] && |t| < |EncodeOne(t[0])|
    ensures Decode(Counted(t)) == [REPLACEMENT]
  {
    hide First, EncodeOne, Decode;
    EncodeLength(t);
    assert Counted(t) == EncodeOne(t[0])[..|t|];
    DecodeOfCut(t[0], |t|);
  }

  lemma CountedWide(t: Text)
    requires t != [] && 1 < |EncodeOne(t[0])| <= |t|
    ensures |Decode(Counted(t))| < |t|
  {
    hide First, EncodeOne, Decode;
    EncodeLength(t);
    EncodeLength(t[1..]);
    var one := EncodeOne(t[0]);
    var tail := Encode(t[1..])[..|t| - |one|];
    assert Counted(t) == one + tail;
    DecodeStep(t[0], tail);
    DecodeLength(tail);
  }

  /**
   Taking as many bytes of the encoding as the text has characters gives the text
   back exactly when it is ASCII, or ASCII and one replacement character.
   */
  lemma {:induction false} CountedInCharacters(t: Text)
    ensures Decode(Counted(t)) == t <==> Ascii(t) || EndsReplaced(t)
  {
    if t != [] {
      hide *;
      TailConditions(t);
      WidthOne(t[0]);
      if t[0] < 0x80 {
        CountedInCharacters(t[1..]);
        CountedAscii(t);
        assert ([t[0]] + Decode(Counted(t[1..])))[1..] == Decode(Counted(t[1..]));
        assert t == [t[0]] + t[1..];
      } else if |t| < |EncodeOne(t[0])| {
        CountedCut(t);
      } else {
        CountedWide(t);
      }
    }
  }

  lemma WidthOne(c: CodePoint)
    ensures |EncodeOne(c)| > 1 <==> c >= 0x80
  {
  }

  lemma TailConditions(t: Text)
    requires t != []
    ensures t[0] < 0x80 ==> (Ascii(t) <==> Ascii(t[1..]))
    ensures t[0] < 0x80 ==> (EndsReplaced(t) <==> EndsReplaced(t[1..]))
    ensures t[0] >= 0x80 ==> !Ascii(t) && (EndsReplaced(t) <==> t == [REPLACEMENT])
  {
    var rest := t[1..];
    if rest != [] {
      assert rest[..|rest| - 1] == t[..|t| - 1][1..];
      assert t[..|t| - 1][0] == t[0];
    }
  }

  // ---------------------------------------------------------------------
  // ASCII text inside decoded text
  // ---------------------------------------------------------------------

  /** ASCII characters at the start of the decoded text are the bytes at the start. */
  lemma {:induction false} DecodedStart(s: Bytes, w: Text)
    requires Ascii(w) && w <= Decode(s)
    ensures w <= s
    decreases |w|
  {
    if w != [] {
      assert First(s).0 == Decode(s)[0] == w[0];
      AsciiFirst(s);
      hide First;
      assert w[1..] <= Decode(s[1..]);
      DecodedStart(s[1..], w[1..]);
      assert s == [s[0]] + s[1..] && w == [w[0]] + w[1..];
    }
  }

  lemma AsciiFirst(s: Bytes)
    requires s != [] && First(s).0 < 0x80
    ensures First(s) == (s[0], 1)
  {
  }

  /** ASCII text that stands in the decoded text stands in the bytes. */
  lemma {:induction false} DecodedHolds(s: Bytes, k: nat, w: Text) returns (i: nat)
    requires Ascii(w) && At(Decode(s), k, w)
    ensures At(s, i, w)
    decreases |s|
  {
    if k == 0 {
      assert Decode(s)[0..|w|] == w;
      hide Decode;
      DecodedStart(s, w);
      i := 0;
    } else {
      var n := First(s).1;
      hide First, At, Ascii;
      assert Decode(s)[1..] == Decode(s[n..]);
      AtDrop(Decode(s), 1, k - 1, w);
      i := DecodedHolds(s[n..], k - 1, w);
      AtDrop(s, n, i, w);
      i := n + i;
    }
  }
}
