/**
 * The three text operations of Java2DTextRenderer that decide what a
 * string looks like before AWT draws it: whether the simple paint path
 * may be used, the fallback-font AttributedString, and the shifting of
 * glyphs for justified text.
 */
module TextRenderer {
  import opened Wrappers
  import opened Utf16
  import opened AttributedText
  import opened FontFallback
  import opened Justification

  /**
   * The walk over the code points of s that the simple paint path would
   * need: true iff font displays every one of them.
   */
  method AllCodePointsDisplayable<F>(s: seq<CodeUnit>, font: F, ops: FontOps<F>) returns (b: bool)
    ensures b <==> forall p :: p in Walk(s, 0) ==> ops.canDisplay(font, CodePointAt(s, p))
  {
    var i: nat := 0;
    StartIsBoundary(s);
    while i < |s|
      invariant i <= |s| && IsBoundary(s, i)
      invariant forall p :: p in Walk(s, 0) && p < i ==> ops.canDisplay(font, CodePointAt(s, p))
      decreases |s| - i
    {
      var codePoint := CodePointAt(s, i);
      StepToNextBoundary(s, i);
      if !ops.canDisplay(font, codePoint) {
        return false;
      }
      i := i + CharCount(codePoint);
    }
    return true;
  }

  /**
   * determineCanUseSimplePaint: a non-empty string always goes through the
   * AttributedString, so only the empty string may be painted simply.
   */
  method DetermineCanUseSimplePaint<F>(s: seq<CodeUnit>, font: F, ops: FontOps<F>) returns (b: bool)
    ensures b <==> |s| == 0
  {
    if |s| > 0 {
      return false;
    }
    b := AllCodePointsDisplayable(s, font, ops);
  }

  /** The scan of dejaVuBlacklistCodePoints in createFallbackString: whether codePoint is one of them. */
  method DejaVuBlacklisted(codePoint: int) returns (listed: bool)
    ensures listed <==> codePoint in DejaVuBlacklist
    ensures listed <==> codePoint == 8222 || codePoint == 8220
  {
    var dejaVuBlacklistCodePoints := DejaVuBlacklist;
    listed := false;
    var k := 0;
    while k < |dejaVuBlacklistCodePoints|
      invariant 0 <= k <= |dejaVuBlacklistCodePoints|
      invariant listed <==> codePoint in dejaVuBlacklistCodePoints[..k]
    {
      if codePoint == dejaVuBlacklistCodePoints[k] {
        listed := true;
      }
      assert dejaVuBlacklistCodePoints[..k + 1] == dejaVuBlacklistCodePoints[..k] + [dejaVuBlacklistCodePoints[k]];
      k := k + 1;
    }
    assert dejaVuBlacklistCodePoints[..k] == DejaVuBlacklist;
  }

  /**
   * needsFallback and curFallback of createFallbackString for the code point
   * at index i: the strategy is asked only when the main font cannot display
   * it, or when it is blacklisted and the main font is DejaVu Sans.
   */
  method CurrentFallback<F>(text: seq<CodeUnit>, mainFont: F, fontFallbackStrategy: Strategy<F>, fontSize: real,
                            ops: FontOps<F>, isDejaVu: bool, i: nat, codePoint: int)
    returns (curFallback: Option<F>)
    requires isDejaVu <==> ops.name(mainFont) == DejaVuName
    requires i < |text| && codePoint == CodePointAt(text, i)
    ensures curFallback == Want(Env(mainFont, ops, fontFallbackStrategy, fontSize), text, i)
  {
    var needsFallback := !ops.canDisplay(mainFont, codePoint);
    if isDejaVu {
      var listed := DejaVuBlacklisted(codePoint);
      if listed {
        needsFallback := true;
      }
    }
    curFallback := None;
    if needsFallback {
      curFallback := fontFallbackStrategy(i, codePoint, fontSize);
    }
  }

  /**
   * createFallbackString: the main font over the whole text, then one FONT
   * application per maximal stretch of code points that want the same
   * fallback font. An empty text fails where addAttribute rejects the
   * empty range [0, 0).
   */
  method CreateFallbackString<F(==)>(text: seq<CodeUnit>, mainFont: F, fontFallbackStrategy: Strategy<F>,
                                     fontSize: real, ops: FontOps<F>)
    returns (r: Result<AttributedString<F>, RangeError>)
    ensures r.Failure? <==> |text| == 0
    ensures r.Failure? ==> r.error == InvalidSubstringRange(0, 0)
    ensures r.Success? ==> fresh(r.value) && r.value.text == text
                           && r.value.fonts == FontLog(Env(mainFont, ops, fontFallbackStrategy, fontSize), text)
                           && r.value.fonts[0] == Span(mainFont, 0, |text|)
  {
    ghost var env := Env(mainFont, ops, fontFallbackStrategy, fontSize);
    var result := new AttributedString(text);
    var textLength := |text|;
    var ok := result.AddFont(mainFont, 0, textLength);
    if !ok {
      return Failure(InvalidSubstringRange(0, textLength));
    }

    var isDejaVu := ops.name(mainFont) == DejaVuName;

    var fallbackFont: Option<F> := None;
    var fallbackBegin := 0;
    assert result.fonts == [Span(mainFont, 0, |text|)];
    // The applications made so far, with the open fallback run, are the walk's
    // state at i: walking on from there ends where the walk of the whole text does.
    ghost var final := ScanFrom(env, text, 0, Scan(result.fonts, fallbackFont, fallbackBegin));
    var i: nat := 0;
    while i < |text|
      invariant i <= |text|
      invariant fallbackFont.Some? ==> 0 <= fallbackBegin < i
      invariant ScanFrom(env, text, i, Scan(result.fonts, fallbackFont, fallbackBegin)) == final
      decreases |text| - i
    {
      var codePoint := CodePointAt(text, i);
      var curFallback := CurrentFallback(text, mainFont, fontFallbackStrategy, fontSize, ops, isDejaVu, i, codePoint);
      ghost var before := Scan(result.fonts, fallbackFont, fallbackBegin);

      if curFallback != fallbackFont {
        if fallbackFont.Some? {
          ok := result.AddFont(fallbackFont.value, fallbackBegin, i);
          assert ok;
        }
        fallbackFont := curFallback;
        if fallbackFont.Some? {
          fallbackBegin := i;
        }
      }

      ghost var at := i;
      i := i + CharCount(codePoint);
      ScanFromStep(env, text, at, before, curFallback, i, Scan(result.fonts, fallbackFont, fallbackBegin));
    }
    ghost var st := Scan(result.fonts, fallbackFont, fallbackBegin);
    if fallbackFont.Some? {
      // The run still open when the walk ends is closed at the text's length.
      ok := result.AddFont(fallbackFont.value, fallbackBegin, |text|);
      assert ok;
    }
    FontLogOfFinalScan(env, text, st);
    return Success(result);
  }

  /**
   * adjustGlyphPositions: glyph i, for 0 < i < |s|, moves right by the
   * adjustments of the characters before it and keeps its y; glyph 0 and
   * the positions from |s| on are not touched. positions holds the glyph
   * positions of the GlyphVector, indices 0 to getNumGlyphs() (the last one
   * being the position after the last glyph); reaching an index outside it
   * is the IndexOutOfBoundsException of getGlyphPosition, reported as false
   * after the positions before it have been moved.
   */
  method AdjustGlyphPositions(s: seq<CodeUnit>, info: JustificationInfo, positions: array<Point>) returns (ok: bool)
    modifies positions
    ensures ok <==> |s| <= 1 || |s| <= positions.Length
    ensures Shifted(s, info, old(positions[..]), positions[..], |s|)
  {
    var adjust := 0.0;
    var i: nat := 0;
    ShiftedStart(s, info, positions[..], 0);
    while i < |s|
      invariant 0 <= i <= |s|
      invariant i > 1 ==> i <= positions.Length
      invariant adjust == Offset(s, info, i)
      invariant Shifted(s, info, old(positions[..]), positions[..], i)
    {
      var c := s[i];
      if i != 0 {
        if i >= positions.Length {
          ShiftedToEnd(s, info, old(positions[..]), positions[..], i, |s|);
          return false;
        }
        var point := positions[i];
        ShiftedStep(s, info, old(positions[..]), positions[..], i);
        positions[i] := Point(point.x + adjust, point.y);
      } else {
        ShiftedStart(s, info, positions[..], 1);
      }
      if c == Space || c == NoBreakSpace || c == IdeographicSpace {
        adjust := adjust + info.spaceAdjust;
      } else {
        adjust := adjust + info.nonSpaceAdjust;
      }
      i := i + 1;
    }
    return true;
  }
}
