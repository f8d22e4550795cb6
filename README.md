# Java2DTextRenderer: font fallback and justification, in Dafny

This project models the text-preparation logic of Flying Saucer's
`Java2DTextRenderer`. That is the part that decides what a string looks like
before AWT paints it:

- **Simple paint.** `determineCanUseSimplePaint` decides whether a string may
  go straight to `Graphics2D.drawString`. Because of its early return, only
  the empty string may.
- **Fallback string.** `createFallbackString` builds an `AttributedString`.
  It first applies the main font over the whole text. It then walks the text
  one code point at a time, using `codePointAt` and `Character.charCount`.
  A code point needs a fallback when the main font cannot display it. When
  the main font is "DejaVu Sans", the code points 8222 and 8220 need one in
  any case. For each such code point the fallback strategy is asked for a
  font. Maximal stretches of code points that get the identical font object
  are applied as FONT runs `[begin, end)`. Any change of identity, including
  a return to null, closes the open run. The last open run is closed at the
  text's length.
- **Justification.** `adjustGlyphPositions` moves glyph `i`, for `0 < i < n`,
  right by the running sum of the adjustments of the characters before it.
  A space (U+0020, U+00A0, U+3000) adds `spaceAdjust`; any other character
  adds `nonSpaceAdjust`.

Modules (line numbers are those of
`flying-saucer-core/src/main/java/org/xhtmlrenderer/swing/Java2DTextRenderer.java`):

- `Utf16` (utf16.dfy): Java `char` values and the code-point walk.
  `CodeUnit` allows lone surrogates.
  - `CodePointAt` is `codePointAt` (line 178).
  - `CharCount` is `Character.charCount`, and `Next` is the index step
    `i += charCount(codePoint)` (line 197).
  - `Walk(s, 0)` is the sequence of indices the loop visits (lines 177-198).
- `AttributedText` (attributed_text.dfy): `AttributedString` as a class.
  It holds the text and the log of FONT applications, with `addAttribute`'s
  range check (lines 164, 191, 201). `FontAt` gives the font an index ends
  up with: the latest application covering it.
- `FontFallback` (font_fallback.dfy): the specification of
  `createFallbackString` as functions of its inputs.
  - `NeedsFallback` and `Want` are `needsFallback` and the `curFallback` of
    a code point (lines 179-187).
  - `Switch` is the run bookkeeping of one step (lines 189-195).
  - `ScanFrom` is the walk as a fold over the states `(runs, fallbackFont,
    fallbackBegin)` (lines 177-198).
  - `Close` is the closing of the open run at the end (lines 199-202).
  - `FallbackRuns` and `FontLog` are the applications the method makes
    (lines 164-202).
  - The lemmas state what those runs satisfy.
- `Justification` (justification.dfy):
  - `Adjustment` is what one character adds (lines 245-249).
  - `Offset` is the shift of each glyph, the running `adjust` (lines 237-249).
  - `Shifted` relates the positions before and after the adjustment
    (lines 240-244).
  - `OffsetClosedForm` proves the closed form of `Offset`: spaces before
    the glyph times `spaceAdjust` plus other characters times
    `nonSpaceAdjust`.
- `TextRenderer` (text_renderer.dfy): the three operations as imperative
  methods with the source's loops. Each is proved against the functions
  above.

Fonts are a type parameter compared by identity (`==`), as the source
compares `Font` references with `!=`. `Font.getName` and `Font.canDisplay`
are the two functions of a `FontOps` value.

A fallback strategy is a function of the query it answers:

- the string index it is asked at;
- the code point;
- the font size.

`None` stands for null. The walk asks at most once per index, so the answers
of any strategy, stateful or not, form such a function. This includes the
default strategy, which derives a new `Font` object on every call.

## Model

Source paths are relative to the repository root. All rows cite
`flying-saucer-core/src/main/java/org/xhtmlrenderer/swing/Java2DTextRenderer.java`.

| member | source | states |
|---|---|---|
| TextRenderer.DetermineCanUseSimplePaint | flying-saucer-core/src/main/java/org/xhtmlrenderer/swing/Java2DTextRenderer.java:143-157 | The result is true exactly when the string is empty. Any non-empty string returns false before any canDisplay query. |
| TextRenderer.AllCodePointsDisplayable | flying-saucer-core/src/main/java/org/xhtmlrenderer/swing/Java2DTextRenderer.java:150-156 | The code-point loop returns true exactly when the font can display every code point the walk visits. A surrogate pair counts as one code point. |
| TextRenderer.DejaVuBlacklisted | flying-saucer-core/src/main/java/org/xhtmlrenderer/swing/Java2DTextRenderer.java:173-184 | The scan of the blacklist array answers true exactly when the code point is 8222 or 8220. |
| TextRenderer.CurrentFallback | flying-saucer-core/src/main/java/org/xhtmlrenderer/swing/Java2DTextRenderer.java:179-187 | curFallback is the strategy's answer when the main font cannot display the code point, or when the font is DejaVu Sans and the code point is blacklisted. Otherwise it is null. |
| TextRenderer.CreateFallbackString | flying-saucer-core/src/main/java/org/xhtmlrenderer/swing/Java2DTextRenderer.java:160-204 | An empty text fails with the range error of addAttribute(0, 0). Otherwise the result holds the text. Its FONT applications are exactly FontLog: the main font over [0, length) first, then the fallback runs in the order the loop closes them. |
| TextRenderer.AdjustGlyphPositions | flying-saucer-core/src/main/java/org/xhtmlrenderer/swing/Java2DTextRenderer.java:235-251 | Each glyph 0 < i < length moves right by Offset(i), with its y unchanged. Glyph 0 and every position from the string's length on are left as they were. The result is false exactly when a glyph index the loop reaches is past the vector (getGlyphPosition's IndexOutOfBoundsException). |
| AttributedText.AttributedString.constructor | flying-saucer-core/src/main/java/org/xhtmlrenderer/swing/Java2DTextRenderer.java:161 | The new AttributedString holds the text and no attribute. |
| AttributedText.AttributedString.AddFont | flying-saucer-core/src/main/java/org/xhtmlrenderer/swing/Java2DTextRenderer.java:164 | addAttribute succeeds exactly when 0 <= begin < end <= length. On success it appends the application to the log; otherwise the log is unchanged. |
| AttributedText.FontAt | flying-saucer-core/src/main/java/org/xhtmlrenderer/swing/Java2DTextRenderer.java:164-202 | An index has no font exactly when no application covers it. Otherwise its font is that of an application covering it. |
| AttributedText.FontAtLatest | flying-saucer-core/src/main/java/org/xhtmlrenderer/swing/Java2DTextRenderer.java:164-202 | An application covering i that no later application covers decides the font at i: later attributes override earlier ones. |
| Utf16.CodePointAt | flying-saucer-core/src/main/java/org/xhtmlrenderer/swing/Java2DTextRenderer.java:178 | codePointAt gives a supplementary code point exactly at a high-low surrogate pair. Any other unit, a lone surrogate included, stands for itself. |
| Utf16.Next | flying-saucer-core/src/main/java/org/xhtmlrenderer/swing/Java2DTextRenderer.java:197 | The index advances by 2 exactly at a surrogate pair and by 1 otherwise. It never passes the end of the text. |
| Utf16.EncodeDecode | flying-saucer-core/src/main/java/org/xhtmlrenderer/swing/Java2DTextRenderer.java:178 | At a surrogate pair, codePointAt gives the code point whose UTF-16 form, by Character.toChars, is exactly that pair. |
| Utf16.DecodeToChars | flying-saucer-core/src/main/java/org/xhtmlrenderer/swing/Java2DTextRenderer.java:178 | codePointAt reads back any Unicode scalar value written as UTF-16 by Character.toChars, and steps over exactly its units. |
| Utf16.Walk | flying-saucer-core/src/main/java/org/xhtmlrenderer/swing/Java2DTextRenderer.java:177-198 | The indices the loop visits lie within the text. The first is the start, and the last code point ends at the text's length. |
| Utf16.WalkGap | flying-saucer-core/src/main/java/org/xhtmlrenderer/swing/Java2DTextRenderer.java:177-197 | Two distinct visited indices are at least one whole code point apart. |
| Utf16.CodePointContaining | flying-saucer-core/src/main/java/org/xhtmlrenderer/swing/Java2DTextRenderer.java:177-197 | Every index of the text lies inside the code point of exactly one visited index. |
| Utf16.NoBoundaryInsideCodePoint | flying-saucer-core/src/main/java/org/xhtmlrenderer/swing/Java2DTextRenderer.java:177-197 | No code-point boundary lies strictly inside a code point. Such an index is always the low half of a surrogate pair. |
| Utf16.StepToNextBoundary | flying-saucer-core/src/main/java/org/xhtmlrenderer/swing/Java2DTextRenderer.java:150-154 | Stepping from a boundary by charCount(codePointAt(i)) reaches the next boundary. No visited index lies strictly in between. |
| FontFallback.RunsWithinText | flying-saucer-core/src/main/java/org/xhtmlrenderer/swing/Java2DTextRenderer.java:189-202 | Every fallback run satisfies 0 <= begin < end <= length. |
| FontFallback.RunsInOrder | flying-saucer-core/src/main/java/org/xhtmlrenderer/swing/Java2DTextRenderer.java:177-202 | Runs are applied in increasing order and never overlap. |
| FontFallback.RunsOnCodePointBoundaries | flying-saucer-core/src/main/java/org/xhtmlrenderer/swing/Java2DTextRenderer.java:177-197 | Every run begins and ends on a code-point boundary. |
| FontFallback.RunsKeepPairsWhole | flying-saucer-core/src/main/java/org/xhtmlrenderer/swing/Java2DTextRenderer.java:178-197 | No run begins or ends between the two halves of a surrogate pair. |
| FontFallback.TouchingRunsDiffer | flying-saucer-core/src/main/java/org/xhtmlrenderer/swing/Java2DTextRenderer.java:189-195 | Two runs that touch carry different font objects: a run is closed on a change of identity. |
| FontFallback.CoveredWantsRunFont | flying-saucer-core/src/main/java/org/xhtmlrenderer/swing/Java2DTextRenderer.java:185-195 | A code point inside a run wanted exactly that run's font from the strategy. |
| FontFallback.FallbackIsCovered | flying-saucer-core/src/main/java/org/xhtmlrenderer/swing/Java2DTextRenderer.java:185-202 | A code point for which the strategy returned a font lies, with all its units, in a run of that font. This includes a run still open at the end. |
| FontFallback.NoFallbackNoRuns | flying-saucer-core/src/main/java/org/xhtmlrenderer/swing/Java2DTextRenderer.java:189-202 | No attribute besides the main font's is added exactly when no code point gets a fallback font. |
| FontFallback.SameFontSharesRun | flying-saucer-core/src/main/java/org/xhtmlrenderer/swing/Java2DTextRenderer.java:189-195 | Two consecutive code points that get the identical fallback font lie in one run. |
| FontFallback.FontChangeSplitsRun | flying-saucer-core/src/main/java/org/xhtmlrenderer/swing/Java2DTextRenderer.java:189-195 | Two consecutive code points that get different fonts, by identity or because one is null, never share a run. |
| FontFallback.FinalFont | flying-saucer-core/src/main/java/org/xhtmlrenderer/swing/Java2DTextRenderer.java:164-202 | Every unit of a code point ends up with the strategy's font for it, or with the main font when it got none. |
| FontFallback.DisplayableKeepsMainFont | flying-saucer-core/src/main/java/org/xhtmlrenderer/swing/Java2DTextRenderer.java:179-195 | A code point the main font displays, and that is not blacklisted, is in no run and keeps the main font. |
| FontFallback.DejaVuBlacklistForcesFallback | flying-saucer-core/src/main/java/org/xhtmlrenderer/swing/Java2DTextRenderer.java:172-187 | With DejaVu Sans as the main font, 8222 and 8220 get the strategy's font whatever canDisplay says. The main font is kept only if the strategy returns null. |
| FontFallback.BlacklistOnlyForDejaVu | flying-saucer-core/src/main/java/org/xhtmlrenderer/swing/Java2DTextRenderer.java:172-187 | For any other main font, only canDisplay decides whether a code point gets a fallback font. |
| Justification.ShiftedStep | flying-saucer-core/src/main/java/org/xhtmlrenderer/swing/Java2DTextRenderer.java:240-244 | Writing glyph i's position moved by its offset, with y kept, extends the adjusted prefix by one glyph and changes nothing else. |
| Justification.OffsetCounts | flying-saucer-core/src/main/java/org/xhtmlrenderer/swing/Java2DTextRenderer.java:237-249 | The shift of glyph i is spaceAdjust once per space before it, plus nonSpaceAdjust once per other character before it. |
| Justification.OffsetClosedForm | flying-saucer-core/src/main/java/org/xhtmlrenderer/swing/Java2DTextRenderer.java:237-249 | The shift of glyph i is (spaces before it) * spaceAdjust + (other characters before it) * nonSpaceAdjust, with at most i spaces. |
| Justification.RepeatIsProduct | flying-saucer-core/src/main/java/org/xhtmlrenderer/swing/Java2DTextRenderer.java:245-249 | Adding n copies of an adjustment is multiplying it by n. OffsetClosedForm uses it to turn OffsetCounts into products. |
| Justification.OffsetPrefix | flying-saucer-core/src/main/java/org/xhtmlrenderer/swing/Java2DTextRenderer.java:238-249 | A glyph's shift depends only on the characters before it. |
| Justification.OffsetMonotone | flying-saucer-core/src/main/java/org/xhtmlrenderer/swing/Java2DTextRenderer.java:237-249 | With non-negative adjustments, glyphs further right are shifted at least as far. |

## Left out

- Painting and measuring through AWT is not modelled. This covers both
  `drawString` methods, `drawGlyphVector`, `TextLayout`, `GlyphVector`
  creation, `getGlyphPositions`, `getGlyphBounds`, `getFSFontMetrics` and
  `getWidth`. These are calls into a toolkit whose behaviour is not part of
  this model.
- The save, set and restore of rendering hints around each draw is left
  out, because it is pure toolkit state.
- The constructor and `loadFontFallbackStrategy` are left out. They are
  reflection-based class loading and configuration lookups.
- The trivial setters and getters are left out.
- `DefaultTextRendererFontFallbackStrategy` is not a separate member. It is
  one instance of the abstract strategy, a function of the query.
- `src/java/org/xhtmlrenderer/forms/InputRadio.java` is not part of this
  model. It builds Swing widgets and has no logic of its own to verify.
- TextRenderer.CreateFallbackString: the empty text is reported as a
  `Failure` result. Java throws `IllegalArgumentException` from
  `addAttribute(FONT, mainFont, 0, 0)`, and the model does not unwind an
  exception.
- TextRenderer.CreateFallbackString: the model's strategy also receives the
  string index of the query. This lets one function describe strategies
  that answer differently on every call. The source's strategy sees only
  the code point and the font size.
- TextRenderer.AdjustGlyphPositions: `float` and `double` arithmetic is
  modelled with exact reals, so rounding is not captured.
- TextRenderer.AdjustGlyphPositions: the number of glyphs is taken as given
  by the positions array. How a ligature-forming font makes it differ from
  the string's length is outside the model. The model covers only where
  that difference ends in an out-of-bounds index.
- TextRenderer.AdjustGlyphPositions: the `IndexOutOfBoundsException` is
  reported as a `false` result. The positions moved before it stay moved,
  as they do in Java.
