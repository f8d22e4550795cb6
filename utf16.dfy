/**
 * UTF-16 text as Java holds it, and the code-point stepping of
 * String.codePointAt and Character.charCount that the text renderer uses
 * to walk a string one code point at a time.
 */
module Utf16 {

  /** One UTF-16 code unit: the value range of a Java `char`. Lone surrogates are allowed. */
  type CodeUnit = c: int | 0 <= c < 0x1_0000

  const MinSupplementaryCodePoint := 0x1_0000
  const MaxCodePoint := 0x10_FFFF

  predicate IsHighSurrogate(c: CodeUnit) { 0xD800 <= c <= 0xDBFF }

  predicate IsLowSurrogate(c: CodeUnit) { 0xDC00 <= c <= 0xDFFF }

  /** s[i] and s[i + 1] form a surrogate pair, so codePointAt(i) decodes both units. */
  predicate PairAt(s: seq<CodeUnit>, i: nat) {
    i + 1 < |s| && IsHighSurrogate(s[i]) && IsLowSurrogate(s[i + 1])
  }

  /**
   * String.codePointAt: a high surrogate followed by a low surrogate decodes
   * to a supplementary code point (Character.toCodePoint); any other unit,
   * an unpaired surrogate included, stands for itself.
   */
  function CodePointAt(s: seq<CodeUnit>, i: nat): (cp: int)
    requires i < |s|
    ensures 0 <= cp <= MaxCodePoint
    ensures cp >= MinSupplementaryCodePoint <==> PairAt(s, i)
    ensures !PairAt(s, i) ==> cp == s[i]
  {
    if PairAt(s, i) then
      (s[i] * 0x400 + s[i + 1]) + (MinSupplementaryCodePoint - 0xD800 * 0x400 - 0xDC00)
    else
      s[i]
  }

  /** Character.charCount: the number of code units of a code point. */
  function CharCount(cp: int): nat {
    if cp >= MinSupplementaryCodePoint then 2 else 1
  }

  /** The index just after the code point that starts at i: i + charCount(codePointAt(i)). */
  function Next(s: seq<CodeUnit>, i: nat): (j: nat)
    requires i < |s|
    ensures i < j <= |s|
    ensures j == i + 2 <==> PairAt(s, i)
    ensures j == i + 1 <==> !PairAt(s, i)
  {
    i + CharCount(CodePointAt(s, i))
  }

  /** Character.toChars: the UTF-16 encoding of a code point. */
  function ToChars(cp: int): (units: seq<CodeUnit>)
    requires 0 <= cp <= MaxCodePoint
    ensures |units| == CharCount(cp)
  {
    if cp < MinSupplementaryCodePoint then [cp]
    else [cp / 0x400 + (0xD800 - MinSupplementaryCodePoint / 0x400), cp % 0x400 + 0xDC00]
  }

  /** Decoding undoes encoding: codePointAt reads back any scalar value written by toChars, and steps over it. */
  lemma DecodeToChars(cp: int, rest: seq<CodeUnit>)
    requires 0 <= cp <= MaxCodePoint && !(0xD800 <= cp <= 0xDFFF)
    ensures CodePointAt(ToChars(cp) + rest, 0) == cp
    ensures Next(ToChars(cp) + rest, 0) == |ToChars(cp)|
  {
    var s := ToChars(cp) + rest;
    if cp >= MinSupplementaryCodePoint {
      assert s[0] == cp / 0x400 + 0xD7C0 && s[1] == cp % 0x400 + 0xDC00;
      assert PairAt(s, 0);
    } else {
      assert s[0] == cp && !IsHighSurrogate(s[0]);
    }
  }

  /** At a surrogate pair, codePointAt gives the code point whose UTF-16 form is exactly that pair. */
  lemma EncodeDecode(s: seq<CodeUnit>, i: nat)
    requires PairAt(s, i)
    ensures ToChars(CodePointAt(s, i)) == s[i..i + 2]
  {
  }

  /**
   * The indices a loop `for (i = start; i < s.length(); i += charCount(codePointAt(i)))`
   * visits: the starts of the code points from `start` to the end of s.
   */
  function Walk(s: seq<CodeUnit>, start: nat): (w: seq<nat>)
    requires start <= |s|
    ensures forall k :: 0 <= k < |w| ==> start <= w[k] < |s|
    ensures start < |s| <==> |w| > 0
    ensures |w| > 0 ==> w[0] == start && Next(s, w[|w| - 1]) == |s|
    decreases |s| - start
  {
    if start == |s| then [] else [start] + Walk(s, Next(s, start))
  }

  /** The walk from 0 passes through i and then through the end of its code point. */
  lemma WalkThrough(s: seq<CodeUnit>, i: nat, done: seq<nat>)
    requires i < |s| && Walk(s, 0) == done + Walk(s, i)
    ensures Walk(s, 0) == (done + [i]) + Walk(s, Next(s, i))
  {
    var rest := Walk(s, Next(s, i));
    assert Walk(s, i) == [i] + rest;
    assert done + ([i] + rest) == (done + [i]) + rest;
  }

  /** A code-point boundary of s: the start of a code point the walk from 0 visits, or the end of s. */
  ghost predicate IsBoundary(s: seq<CodeUnit>, p: int) {
    p == |s| || p in Walk(s, 0)
  }

  /** Each start after the first is where the code point before it ends. */
  lemma {:induction false} WalkSucc(s: seq<CodeUnit>, start: nat, k: nat)
    requires start <= |s| && k + 1 < |Walk(s, start)|
    ensures Walk(s, start)[k + 1] == Next(s, Walk(s, start)[k])
    decreases |s| - start
  {
    var w := Walk(s, start);
    var rest := Walk(s, Next(s, start));
    assert w[k + 1] == rest[k];
    if k > 0 {
      assert w[k] == rest[k - 1];
      WalkSucc(s, Next(s, start), k - 1);
    }
  }

  /** The starts strictly increase along the walk. */
  lemma {:induction false} WalkIncreasing(s: seq<CodeUnit>, start: nat, a: nat, b: nat)
    requires start <= |s| && a < b < |Walk(s, start)|
    ensures Walk(s, start)[a] < Walk(s, start)[b]
    decreases b - a
  {
    WalkSucc(s, start, a);
    if a + 1 < b {
      WalkIncreasing(s, start, a + 1, b);
    }
  }

  /** Two distinct code-point starts are at least one whole code point apart. */
  lemma {:induction false} WalkGap(s: seq<CodeUnit>, start: nat, p: nat, q: nat)
    requires start <= |s|
    requires p in Walk(s, start) && q in Walk(s, start) && p < q
    ensures Next(s, p) <= q
  {
    var w := Walk(s, start);
    var a :| 0 <= a < |w| && w[a] == p;
    var b :| 0 <= b < |w| && w[b] == q;
    if b < a {
      WalkIncreasing(s, start, b, a);
      assert false;
    } else if b == a {
      assert false;
    }
    WalkSucc(s, start, a);
    assert w[a + 1] == Next(s, p);
    if a + 1 < b {
      WalkIncreasing(s, start, a + 1, b);
    }
  }

  /** No boundary falls strictly inside a code point: the two halves of a decoded pair are never separated. */
  lemma NoBoundaryInsideCodePoint(s: seq<CodeUnit>, p: nat, q: int)
    requires p in Walk(s, 0) && p < q < Next(s, p)
    ensures !IsBoundary(s, q)
    ensures PairAt(s, p) && q == p + 1
  {
    if q in Walk(s, 0) {
      WalkGap(s, 0, p, q);
    }
  }

  /** Every index of s lies in the code point of exactly one start that the walk visits. */
  lemma {:induction false} CodePointContaining(s: seq<CodeUnit>, start: nat, j: nat)
    requires start <= j < |s|
    ensures exists p :: p in Walk(s, start) && p <= j < Next(s, p)
    ensures forall p, q :: p in Walk(s, start) && p <= j < Next(s, p) && q in Walk(s, start) && q <= j < Next(s, q) ==> p == q
    decreases |s| - start
  {
    var w := Walk(s, start);
    assert w == [start] + Walk(s, Next(s, start));
    if j < Next(s, start) {
      assert start in w;
    } else {
      CodePointContaining(s, Next(s, start), j);
      var p :| p in Walk(s, Next(s, start)) && p <= j < Next(s, p);
      assert p in w;
    }
    forall p, q | p in w && p <= j < Next(s, p) && q in w && q <= j < Next(s, q)
      ensures p == q
    {
      if p < q {
        WalkGap(s, start, p, q);
      } else if q < p {
        WalkGap(s, start, q, p);
      }
    }
  }

  /** A boundary below the end of a code point is at or before its start. */
  lemma BoundaryNotInside(s: seq<CodeUnit>, p: nat, b: int)
    requires p in Walk(s, 0) && IsBoundary(s, b) && b < Next(s, p)
    ensures b <= p
  {
    if p < b {
      NoBoundaryInsideCodePoint(s, p, b);
    }
  }

  /** A boundary after the start of a code point is at or after its end. */
  lemma BoundaryAfter(s: seq<CodeUnit>, p: nat, b: int)
    requires p in Walk(s, 0) && IsBoundary(s, b) && p < b
    ensures Next(s, p) <= b
  {
    if b < |s| {
      WalkGap(s, 0, p, b);
    }
  }

  /** The end of a code point other than the last is the start of the next one. */
  lemma NextInWalk(s: seq<CodeUnit>, p: nat)
    requires p in Walk(s, 0) && Next(s, p) < |s|
    ensures Next(s, p) in Walk(s, 0)
  {
    var w := Walk(s, 0);
    var a :| 0 <= a < |w| && w[a] == p;
    assert a + 1 < |w|;
    WalkSucc(s, 0, a);
  }

  /** The start of the text is a code-point boundary. */
  lemma StartIsBoundary(s: seq<CodeUnit>)
    ensures IsBoundary(s, 0)
  {
  }

  /**
   * Stepping from boundary i by charCount(codePointAt(i)) reaches the next
   * boundary, and no code point starts strictly between the two.
   */
  lemma StepToNextBoundary(s: seq<CodeUnit>, i: nat)
    requires i < |s| && IsBoundary(s, i)
    ensures i in Walk(s, 0) && i + CharCount(CodePointAt(s, i)) == Next(s, i) && IsBoundary(s, Next(s, i))
    ensures forall p :: p in Walk(s, 0) && p < Next(s, i) ==> p <= i
  {
    if Next(s, i) < |s| {
      NextInWalk(s, i);
    }
    forall p | p in Walk(s, 0) && p < Next(s, i)
      ensures p <= i
    {
      BoundaryNotInside(s, i, p);
    }
  }
}
