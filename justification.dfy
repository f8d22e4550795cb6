/**
 * The arithmetic of justified text: how far adjustGlyphPositions moves
 * each glyph to the right, given the per-character adjustments of a
 * JustificationInfo.
 */
module Justification {
  import opened Utf16

  /** A glyph position (Point2D): x and y in user space. */
  datatype Point = Point(x: real, y: real)

  /** The two adjustments of a JustificationInfo: after a space and after any other character. */
  datatype JustificationInfo = JustificationInfo(spaceAdjust: real, nonSpaceAdjust: real)

  const Space: CodeUnit := 0x20
  const NoBreakSpace: CodeUnit := 0xA0
  const IdeographicSpace: CodeUnit := 0x3000

  /** The three characters adjustGlyphPositions treats as spaces. */
  predicate IsSpace(c: CodeUnit) {
    c == Space || c == NoBreakSpace || c == IdeographicSpace
  }

  /** What character c adds to the running adjustment of the glyphs after it. */
  function Adjustment(c: CodeUnit, info: JustificationInfo): real {
    if IsSpace(c) then info.spaceAdjust else info.nonSpaceAdjust
  }

  /** The shift of glyph i: the adjustments of the characters before it, s[0] to s[i - 1]. */
  function Offset(s: seq<CodeUnit>, info: JustificationInfo, i: nat): real
    requires i <= |s|
  {
    if i == 0 then 0.0 else Offset(s, info, i - 1) + Adjustment(s[i - 1], info)
  }

  /**
   * after is before with glyphs 0 < j < n moved right by their shift,
   * every other position (glyph 0, glyphs from n on, y) as it was.
   */
  predicate Shifted(s: seq<CodeUnit>, info: JustificationInfo, before: seq<Point>, after: seq<Point>, n: nat)
    requires n <= |s|
  {
    |after| == |before|
    && forall j :: 0 <= j < |after| ==>
         after[j] == if 0 < j < n then Point(before[j].x + Offset(s, info, j), before[j].y) else before[j]
  }

  /** Nothing is moved yet: glyph 0 keeps its position, so positions before 1 are as they were. */
  lemma ShiftedStart(s: seq<CodeUnit>, info: JustificationInfo, before: seq<Point>, n: nat)
    requires n <= 1 && n <= |s|
    ensures Shifted(s, info, before, before, n)
  {
  }

  /** Moving glyph n by its shift extends the moved stretch by one. */
  lemma ShiftedStep(s: seq<CodeUnit>, info: JustificationInfo, before: seq<Point>, after: seq<Point>, n: nat)
    requires 0 < n < |s| && n < |after| && Shifted(s, info, before, after, n)
    ensures Shifted(s, info, before, after[n := Point(after[n].x + Offset(s, info, n), after[n].y)], n + 1)
  {
  }

  /** Once the moved stretch reaches the last position, no later glyph can be moved. */
  lemma ShiftedToEnd(s: seq<CodeUnit>, info: JustificationInfo, before: seq<Point>, after: seq<Point>, n: nat, m: nat)
    requires n <= m <= |s| && |after| <= n && Shifted(s, info, before, after, n)
    ensures Shifted(s, info, before, after, m)
  {
  }

  /** The number of spaces among s[0] to s[i - 1]. */
  function SpacesBefore(s: seq<CodeUnit>, i: nat): (n: nat)
    requires i <= |s|
  {
    var m := multiset(s[..i]);
    m[Space] + m[NoBreakSpace] + m[IdeographicSpace]
  }

  /** Counting one more character adds one to the space count exactly when it is a space. */
  lemma SpacesBeforeStep(s: seq<CodeUnit>, i: nat)
    requires i < |s|
    ensures SpacesBefore(s, i + 1) == SpacesBefore(s, i) + (if IsSpace(s[i]) then 1 else 0)
  {
    assert s[..i + 1] == s[..i] + [s[i]];
  }

  /** Among i characters there are at most i spaces. */
  lemma {:induction false} SpacesBeforeBound(s: seq<CodeUnit>, i: nat)
    requires i <= |s|
    ensures SpacesBefore(s, i) <= i
  {
    if i > 0 {
      SpacesBeforeBound(s, i - 1);
      SpacesBeforeStep(s, i - 1);
    }
  }

  /** n copies of a, added up. */
  function Repeat(n: nat, a: real): real {
    if n == 0 then 0.0 else Repeat(n - 1, a) + a
  }

  /** Adding up n copies of a is multiplying a by n. */
  lemma {:induction false} RepeatIsProduct(n: nat, a: real)
    ensures Repeat(n, a) == n as real * a
  {
    if n > 0 {
      RepeatIsProduct(n - 1, a);
      assert (n - 1) as real * a + a == n as real * a;
    }
  }

  /**
   * The shift of glyph i as repeated additions counted by SpacesBefore:
   * spaceAdjust once per space before it plus nonSpaceAdjust once per other
   * character before it.
   */
  lemma {:induction false} OffsetCounts(s: seq<CodeUnit>, info: JustificationInfo, i: nat)
    requires i <= |s|
    ensures SpacesBefore(s, i) <= i
    ensures Offset(s, info, i)
            == Repeat(SpacesBefore(s, i), info.spaceAdjust) + Repeat(i - SpacesBefore(s, i), info.nonSpaceAdjust)
  {
    SpacesBeforeBound(s, i);
    if i > 0 {
      OffsetCounts(s, info, i - 1);
      SpacesBeforeStep(s, i - 1);
    } else {
      assert s[..i] == [];
    }
  }

  /** A sum of two repeated additions, as two products. */
  lemma {:induction false} RepeatsAsProducts(o: real, n: nat, m: nat, a: real, b: real)
    requires o == Repeat(n, a) + Repeat(m, b)
    ensures o == (n as real) * a + (m as real) * b
  {
    RepeatIsProduct(n, a);
    RepeatIsProduct(m, b);
  }

  /**
   * The shift of glyph i in closed form: the number n of spaces before it
   * times spaceAdjust, plus the number of other characters before it times
   * nonSpaceAdjust.
   */
  lemma {:induction false} OffsetClosedForm(s: seq<CodeUnit>, info: JustificationInfo, i: nat, n: nat)
    requires i <= |s| && n == SpacesBefore(s, i)
    ensures n <= i
    ensures Offset(s, info, i) == (n as real) * info.spaceAdjust + ((i - n) as real) * info.nonSpaceAdjust
  {
    OffsetCounts(s, info, i);
    var o := Offset(s, info, i);
    var m: nat := i - n;
    assert o == Repeat(n, info.spaceAdjust) + Repeat(m, info.nonSpaceAdjust);
    RepeatsAsProducts(o, n, m, info.spaceAdjust, info.nonSpaceAdjust);
  }

  /** Shifts depend only on the characters before the glyph: text appended later does not change them. */
  lemma {:induction false} OffsetPrefix(s: seq<CodeUnit>, t: seq<CodeUnit>, info: JustificationInfo, i: nat)
    requires i <= |s|
    ensures Offset(s + t, info, i) == Offset(s, info, i)
  {
    if i > 0 {
      OffsetPrefix(s, t, info, i - 1);
      assert (s + t)[i - 1] == s[i - 1];
    }
  }

  /** With non-negative adjustments, glyphs further right are shifted at least as far. */
  lemma {:induction false} OffsetMonotone(s: seq<CodeUnit>, info: JustificationInfo, i: nat, j: nat)
    requires i <= j <= |s| && info.spaceAdjust >= 0.0 && info.nonSpaceAdjust >= 0.0
    ensures Offset(s, info, i) <= Offset(s, info, j)
  {
    if i < j {
      OffsetMonotone(s, info, i, j - 1);
    }
  }
}
