/**
 * The part of java.text.AttributedString the text renderer uses: a text and
 * the log of the FONT attribute applications made on it with addAttribute.
 * A later application overrides every earlier one on the indices it covers.
 */
module AttributedText {
  import opened Wrappers
  import opened Utf16

  /** One FONT application over the half-open index range [begin, end). */
  datatype Span<F> = Span(font: F, begin: int, end: int)

  predicate Covers<F>(sp: Span<F>, i: int) {
    sp.begin <= i < sp.end
  }

  /** The IllegalArgumentException addAttribute throws for a range that is not a non-empty substring. */
  datatype RangeError = InvalidSubstringRange(begin: int, end: int)

  /** The font at index i after the applications in `log`, oldest first: the latest one covering i wins. */
  function FontAt<F>(log: seq<Span<F>>, i: int): (f: Option<F>)
    ensures f.None? <==> forall k :: 0 <= k < |log| ==> !Covers(log[k], i)
    ensures f.Some? ==> exists k :: 0 <= k < |log| && Covers(log[k], i) && log[k].font == f.value
  {
    if |log| == 0 then None
    else
      var n := |log| - 1;
      if Covers(log[n], i) then Some(log[n].font)
      else
        var earlier := log[..n];
        assert forall k :: 0 <= k < n ==> earlier[k] == log[k];
        FontAt(earlier, i)
  }

  /** A span covering i that no later span covers decides the font at i. */
  lemma {:induction false} FontAtLatest<F>(log: seq<Span<F>>, i: int, k: nat)
    requires k < |log| && Covers(log[k], i)
    requires forall l :: k < l < |log| ==> !Covers(log[l], i)
    ensures FontAt(log, i) == Some(log[k].font)
  {
    var n := |log| - 1;
    if k < n {
      var earlier := log[..n];
      assert !Covers(log[n], i);
      assert forall l :: 0 <= l < n ==> earlier[l] == log[l];
      FontAtLatest(earlier, i, k);
    }
  }

  class AttributedString<F> {
    const text: seq<CodeUnit>
    /** The FONT applications made so far, oldest first. */
    var fonts: seq<Span<F>>

    /** new AttributedString(text): no attribute yet. */
    constructor (text: seq<CodeUnit>)
      ensures this.text == text && fonts == []
    {
      this.text := text;
      fonts := [];
    }

    /**
     * addAttribute(TextAttribute.FONT, font, begin, end). Returns false, with
     * nothing applied, where Java throws IllegalArgumentException.
     */
    method AddFont(font: F, begin: int, end: int) returns (ok: bool)
      modifies this
      ensures ok <==> 0 <= begin < end <= |text|
      ensures fonts == if ok then old(fonts) + [Span(font, begin, end)] else old(fonts)
    {
      if begin < 0 || end > |text| || begin >= end {
        return false;
      }
      fonts := fonts + [Span(font, begin, end)];
      return true;
    }
  }
}
