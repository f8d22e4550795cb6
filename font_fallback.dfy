/**
 * What createFallbackString computes, as functions of its inputs: the code
 * points that need a fallback font, the fallback runs built from them, and
 * the properties those runs have.
 */
module FontFallback {
  import opened Wrappers
  import opened Utf16
  import opened AttributedText

  /** The two queries the fallback logic makes of a java.awt.Font: getName and canDisplay. */
  datatype FontOps<!F> = FontOps(name: F -> string, canDisplay: (F, int) -> bool)

  /**
   * ITextRendererFontFallbackStrategy.decideFallBackFor. A strategy is opaque
   * and may keep state (the default one derives a new Font object on every
   * call), so it is given by its answer to the query made at string index i
   * for code point cp at the font size; None stands for null. The walk asks
   * at most once per index, so every run of any strategy is such a function.
   */
  type Strategy<F> = (nat, int, real) -> Option<F>

  /** The fixed inputs of one createFallbackString call besides the text. */
  datatype Env<!F> = Env(mainFont: F, ops: FontOps<F>, strategy: Strategy<F>, fontSize: real)

  const DejaVuName := "DejaVu Sans"
  const DejaVuBlacklist: seq<int> := [8222, 8220]

  predicate IsDejaVu<F>(env: Env<F>) {
    env.ops.name(env.mainFont) == DejaVuName
  }

  /** needsFallback: the main font cannot display cp, or cp is blacklisted for DejaVu Sans. */
  predicate NeedsFallback<F>(env: Env<F>, cp: int) {
    !env.ops.canDisplay(env.mainFont, cp) || (IsDejaVu(env) && cp in DejaVuBlacklist)
  }

  /** curFallback for the code point starting at p: the strategy's answer if it needs a fallback, null otherwise. */
  function Want<F>(env: Env<F>, s: seq<CodeUnit>, p: nat): Option<F>
    requires p < |s|
  {
    var cp := CodePointAt(s, p);
    if NeedsFallback(env, cp) then env.strategy(p, cp, env.fontSize) else None
  }

  /** The walk's state: the runs emitted so far, the open fallback font (fallbackFont) and fallbackBegin. */
  datatype Scan<F> = Scan(runs: seq<Span<F>>, open: Option<F>, begin: int)

  /** The walk's new state once the code point at i wants `cur`: a change of identity closes the open run. */
  function Switch<F(==)>(st: Scan<F>, cur: Option<F>, i: nat): Scan<F> {
    if cur != st.open then
      Scan(if st.open.Some? then st.runs + [Span(st.open.value, st.begin, i)] else st.runs,
           cur,
           if cur.Some? then i else st.begin)
    else
      st
  }

  /** One step of the walk at the code point starting at i. */
  function Advance<F(==)>(env: Env<F>, s: seq<CodeUnit>, st: Scan<F>, i: nat): Scan<F>
    requires i < |s|
  {
    Switch(st, Want(env, s, i), i)
  }

  /** The walk's state once it has gone from index i to the end of s. */
  function ScanFrom<F(==)>(env: Env<F>, s: seq<CodeUnit>, i: nat, st: Scan<F>): Scan<F>
    requires i <= |s|
    decreases |s| - i
  {
    if i == |s| then st else ScanFrom(env, s, Next(s, i), Advance(env, s, st, i))
  }

  /**
   * Unfolding the walk by one code point: from i, it goes on from the next
   * code point, next, in the state st' that the code point's wanted font
   * cur leads to.
   */
  lemma ScanFromStep<F>(env: Env<F>, s: seq<CodeUnit>, i: nat, st: Scan<F>, cur: Option<F>, next: nat, st': Scan<F>)
    requires i < |s| && cur == Want(env, s, i)
    requires next == i + CharCount(CodePointAt(s, i)) && st' == Switch(st, cur, i)
    ensures next <= |s| && ScanFrom(env, s, next, st') == ScanFrom(env, s, i, st)
  {
    assert next == Next(s, i);
  }

  /** The runs of a state with its open run, if any, closed at `end`. */
  function Close<F>(st: Scan<F>, end: int): seq<Span<F>> {
    if st.open.Some? then st.runs + [Span(st.open.value, st.begin, end)] else st.runs
  }

  /** The fallback runs createFallbackString applies over the main font, in the order it applies them. */
  function FallbackRuns<F(==)>(env: Env<F>, s: seq<CodeUnit>): seq<Span<F>> {
    Close(ScanFrom(env, s, 0, Scan([], None, 0)), |s|)
  }

  /** The whole FONT log: the main font over all of s, then the fallback runs. */
  function FontLog<F(==)>(env: Env<F>, s: seq<CodeUnit>): seq<Span<F>> {
    [Span(env.mainFont, 0, |s|)] + FallbackRuns(env, s)
  }

  /** The walk only appends to the runs it starts from: runs already there stay in front. */
  lemma {:induction false} ScanFromKeepsPrefix<F>(env: Env<F>, s: seq<CodeUnit>, i: nat, p: seq<Span<F>>, st: Scan<F>)
    requires i <= |s|
    ensures ScanFrom(env, s, i, Scan(p + st.runs, st.open, st.begin))
            == var t := ScanFrom(env, s, i, st); Scan(p + t.runs, t.open, t.begin)
    decreases |s| - i
  {
    if i < |s| {
      var st' := Advance(env, s, st, i);
      if Want(env, s, i) != st.open && st.open.Some? {
        assert (p + st.runs) + [Span(st.open.value, st.begin, i)] == p + (st.runs + [Span(st.open.value, st.begin, i)]);
      }
      assert Advance(env, s, Scan(p + st.runs, st.open, st.begin), i) == Scan(p + st'.runs, st'.open, st'.begin);
      ScanFromKeepsPrefix(env, s, Next(s, i), p, st');
    }
  }

  /**
   * A walk that starts from the main font's span and has nothing left to
   * scan yields the whole FONT log once its open run is closed.
   */
  lemma FontLogOfFinalScan<F>(env: Env<F>, s: seq<CodeUnit>, st: Scan<F>)
    requires ScanFrom(env, s, |s|, st) == ScanFrom(env, s, 0, Scan([Span(env.mainFont, 0, |s|)], None, 0))
    ensures FontLog(env, s) == Close(st, |s|)
  {
    var main := Span(env.mainFont, 0, |s|);
    var t := ScanFrom(env, s, 0, Scan([], None, 0));
    assert [main] == [main] + [];
    ScanFromKeepsPrefix(env, s, 0, [main], Scan([], None, 0));
    if t.open.Some? {
      assert ([main] + t.runs) + [Span(t.open.value, t.begin, |s|)] == [main] + (t.runs + [Span(t.open.value, t.begin, |s|)]);
    }
  }

  // ---------------------------------------------------------------------
  // The invariant of the walk

  /** Every run lies in [0, i) and is not empty. */
  ghost predicate Bounded<F>(c: seq<Span<F>>, i: int) {
    forall k :: 0 <= k < |c| ==> 0 <= c[k].begin < c[k].end <= i
  }

  /** Runs come in increasing order and do not overlap. */
  ghost predicate Ordered<F>(c: seq<Span<F>>) {
    forall k, l :: 0 <= k < l < |c| ==> c[k].end <= c[l].begin
  }

  /** Runs begin and end on code-point boundaries. */
  ghost predicate OnBoundaries<F>(s: seq<CodeUnit>, c: seq<Span<F>>) {
    forall k :: 0 <= k < |c| ==> IsBoundary(s, c[k].begin) && IsBoundary(s, c[k].end)
  }

  /** Two runs that touch have different fonts. */
  ghost predicate Maximal<F>(c: seq<Span<F>>) {
    forall k :: 0 < k < |c| && c[k - 1].end == c[k].begin ==> c[k - 1].font != c[k].font
  }

  /** A covered code point of `done` wants the font of the run covering it. */
  ghost predicate Sound<F>(env: Env<F>, s: seq<CodeUnit>, c: seq<Span<F>>, done: seq<nat>)
    requires forall p :: p in done ==> p < |s|
  {
    forall p, k :: p in done && 0 <= k < |c| && Covers(c[k], p) ==> Want(env, s, p) == Some(c[k].font)
  }

  /** A code point of `done` that wants a fallback font is covered by a run. */
  ghost predicate Complete<F>(env: Env<F>, s: seq<CodeUnit>, c: seq<Span<F>>, done: seq<nat>)
    requires forall p :: p in done ==> p < |s|
  {
    forall p :: p in done && Want(env, s, p).Some? ==> exists k :: 0 <= k < |c| && Covers(c[k], p)
  }

  /**
   * The runs c describe the code points `done` (all before i) correctly:
   * they lie in [0, i) in increasing order on code-point boundaries, two
   * touching runs differ in font, and a done code point is covered exactly
   * when it wants a fallback font, by a run of that font.
   */
  ghost predicate Good<F>(env: Env<F>, s: seq<CodeUnit>, c: seq<Span<F>>, i: nat, done: seq<nat>) {
    && i <= |s|
    && (forall p :: p in done ==> p < i)
    && Bounded(c, i)
    && Ordered(c)
    && OnBoundaries(s, c)
    && Maximal(c)
    && Sound(env, s, c, done)
    && Complete(env, s, c, done)
  }

  ghost predicate Inv<F>(env: Env<F>, s: seq<CodeUnit>, st: Scan<F>, i: nat, done: seq<nat>) {
    && i <= |s|
    && Walk(s, 0) == done + Walk(s, i)
    && Good(env, s, Close(st, i), i, done)
    && (st.open.None? ==> forall k :: 0 <= k < |st.runs| ==> st.runs[k].end < i)
  }

  /** The runs with the last one stretched to end at `end`. */
  function Stretch<F>(c: seq<Span<F>>, end: int): seq<Span<F>>
    requires |c| > 0
  {
    c[|c| - 1 := c[|c| - 1].(end := end)]
  }

  /** A code point that wants no fallback, with every run ending at or before it, adds nothing. */
  lemma GoodSkip<F>(env: Env<F>, s: seq<CodeUnit>, c: seq<Span<F>>, i: nat, done: seq<nat>)
    requires i < |s| && Good(env, s, c, i, done)
    requires Want(env, s, i).None?
    requires forall k :: 0 <= k < |c| ==> c[k].end <= i
    ensures Good(env, s, c, Next(s, i), done + [i])
  {
    var d := done + [i];
    forall p, k | p in d && 0 <= k < |c| && Covers(c[k], p)
      ensures Want(env, s, p) == Some(c[k].font)
    {
      assert p in done;
    }
    forall p | p in d && Want(env, s, p).Some?
      ensures exists k :: 0 <= k < |c| && Covers(c[k], p)
    {
      assert p in done;
    }
  }

  lemma ExtendShape<F>(c: seq<Span<F>>, i: nat, i': nat)
    requires |c| > 0 && Bounded(c, i) && Ordered(c) && Maximal(c)
    requires c[|c| - 1].end == i <= i'
    ensures Bounded(Stretch(c, i'), i') && Ordered(Stretch(c, i')) && Maximal(Stretch(c, i'))
  {
  }

  lemma ExtendBoundaries<F>(s: seq<CodeUnit>, c: seq<Span<F>>, i': nat)
    requires |c| > 0 && OnBoundaries(s, c) && IsBoundary(s, i')
    ensures OnBoundaries(s, Stretch(c, i'))
  {
  }

  lemma ExtendCoverage<F>(env: Env<F>, s: seq<CodeUnit>, c: seq<Span<F>>, i: nat, done: seq<nat>)
    requires i < |s| && Good(env, s, c, i, done)
    requires |c| > 0 && c[|c| - 1].end == i && Want(env, s, i) == Some(c[|c| - 1].font)
    ensures Sound(env, s, Stretch(c, Next(s, i)), done + [i])
    ensures Complete(env, s, Stretch(c, Next(s, i)), done + [i])
  {
    var n := |c| - 1;
    var c' := Stretch(c, Next(s, i));
    var d := done + [i];
    forall p, k | p in d && 0 <= k < |c'| && Covers(c'[k], p)
      ensures Want(env, s, p) == Some(c'[k].font)
    {
      if p != i {
        assert p in done && Covers(c[k], p);
      }
    }
    forall p | p in d && Want(env, s, p).Some?
      ensures exists k :: 0 <= k < |c'| && Covers(c'[k], p)
    {
      if p == i {
        assert Covers(c'[n], p);
      } else {
        assert p in done;
        var k :| 0 <= k < |c| && Covers(c[k], p);
        assert Covers(c'[k], p);
      }
    }
  }

  /** A code point that wants the font of the last run, which ends at it, stretches that run over it. */
  lemma GoodExtend<F>(env: Env<F>, s: seq<CodeUnit>, c: seq<Span<F>>, i: nat, done: seq<nat>)
    requires i < |s| && Good(env, s, c, i, done)
    requires |c| > 0 && c[|c| - 1].end == i && Want(env, s, i) == Some(c[|c| - 1].font)
    requires IsBoundary(s, Next(s, i))
    ensures Good(env, s, Stretch(c, Next(s, i)), Next(s, i), done + [i])
  {
    ExtendShape(c, i, Next(s, i));
    ExtendBoundaries(s, c, Next(s, i));
    ExtendCoverage(env, s, c, i, done);
  }

  lemma AppendShape<F>(c: seq<Span<F>>, g: F, i: nat, i': nat)
    requires Bounded(c, i) && Ordered(c) && Maximal(c) && i < i'
    requires |c| > 0 && c[|c| - 1].end == i ==> c[|c| - 1].font != g
    ensures Bounded(c + [Span(g, i, i')], i') && Ordered(c + [Span(g, i, i')]) && Maximal(c + [Span(g, i, i')])
  {
  }

  lemma AppendBoundaries<F>(s: seq<CodeUnit>, c: seq<Span<F>>, g: F, i: nat, i': nat)
    requires OnBoundaries(s, c) && IsBoundary(s, i) && IsBoundary(s, i')
    ensures OnBoundaries(s, c + [Span(g, i, i')])
  {
  }

  lemma AppendCoverage<F>(env: Env<F>, s: seq<CodeUnit>, c: seq<Span<F>>, i: nat, done: seq<nat>, g: F)
    requires i < |s| && Good(env, s, c, i, done)
    requires Want(env, s, i) == Some(g)
    requires forall k :: 0 <= k < |c| ==> c[k].end <= i
    ensures Sound(env, s, c + [Span(g, i, Next(s, i))], done + [i])
    ensures Complete(env, s, c + [Span(g, i, Next(s, i))], done + [i])
  {
    var c' := c + [Span(g, i, Next(s, i))];
    var d := done + [i];
    forall p, k | p in d && 0 <= k < |c'| && Covers(c'[k], p)
      ensures Want(env, s, p) == Some(c'[k].font)
    {
      if p != i {
        assert p in done;
        assert k < |c| && c'[k] == c[k];
      }
    }
    forall p | p in d && Want(env, s, p).Some?
      ensures exists k :: 0 <= k < |c'| && Covers(c'[k], p)
    {
      if p == i {
        assert Covers(c'[|c|], p);
      } else {
        assert p in done;
        var k :| 0 <= k < |c| && Covers(c[k], p);
        assert Covers(c'[k], p);
      }
    }
  }

  /** A code point that wants a font g opens a new run [i, next), which differs from a run touching it. */
  lemma GoodAppend<F>(env: Env<F>, s: seq<CodeUnit>, c: seq<Span<F>>, i: nat, done: seq<nat>, g: F)
    requires i < |s| && Good(env, s, c, i, done)
    requires IsBoundary(s, i) && IsBoundary(s, Next(s, i))
    requires Want(env, s, i) == Some(g)
    requires forall k :: 0 <= k < |c| ==> c[k].end <= i
    requires |c| > 0 && c[|c| - 1].end == i ==> c[|c| - 1].font != g
    ensures Good(env, s, c + [Span(g, i, Next(s, i))], Next(s, i), done + [i])
  {
    AppendShape(c, g, i, Next(s, i));
    AppendBoundaries(s, c, g, i, Next(s, i));
    AppendCoverage(env, s, c, i, done, g);
  }

  lemma BoundariesThrough(s: seq<CodeUnit>, i: nat, done: seq<nat>)
    requires i < |s| && Walk(s, 0) == done + Walk(s, i)
    ensures IsBoundary(s, i) && IsBoundary(s, Next(s, i))
  {
    var rest := Walk(s, Next(s, i));
    assert Walk(s, i) == [i] + rest;
    assert Walk(s, 0)[|done|] == i;
    if Next(s, i) < |s| {
      assert Walk(s, 0)[|done| + 1] == rest[0] == Next(s, i);
    }
  }

  /** A step at a code point that wants the open font stretches the open run. */
  lemma InvKeep<F>(env: Env<F>, s: seq<CodeUnit>, st: Scan<F>, i: nat, done: seq<nat>)
    requires i < |s| && Inv(env, s, st, i, done)
    requires Want(env, s, i) == st.open && st.open.Some?
    ensures Inv(env, s, Advance(env, s, st, i), Next(s, i), done + [i])
  {
    WalkThrough(s, i, done);
    BoundariesThrough(s, i, done);
    var c := Close(st, i);
    assert Close(Advance(env, s, st, i), Next(s, i)) == Stretch(c, Next(s, i));
    GoodExtend(env, s, c, i, done);
  }

  /** A step at a code point that wants no fallback closes the open run, if any, and opens none. */
  lemma InvPlain<F>(env: Env<F>, s: seq<CodeUnit>, st: Scan<F>, i: nat, done: seq<nat>)
    requires i < |s| && Inv(env, s, st, i, done)
    requires Want(env, s, i).None?
    ensures Inv(env, s, Advance(env, s, st, i), Next(s, i), done + [i])
  {
    WalkThrough(s, i, done);
    var c := Close(st, i);
    var st' := Advance(env, s, st, i);
    assert st'.open.None? && st'.runs == c && Close(st', Next(s, i)) == c;
    GoodSkip(env, s, c, i, done);
  }

  /** A step at a code point that wants a font other than the open one closes the open run and opens a new one. */
  lemma InvSwitch<F>(env: Env<F>, s: seq<CodeUnit>, st: Scan<F>, i: nat, done: seq<nat>)
    requires i < |s| && Inv(env, s, st, i, done)
    requires Want(env, s, i).Some? && Want(env, s, i) != st.open
    ensures Inv(env, s, Advance(env, s, st, i), Next(s, i), done + [i])
  {
    WalkThrough(s, i, done);
    BoundariesThrough(s, i, done);
    var c := Close(st, i);
    var g := Want(env, s, i).value;
    assert Close(Advance(env, s, st, i), Next(s, i)) == c + [Span(g, i, Next(s, i))];
    GoodAppend(env, s, c, i, done, g);
  }

  /** One step of the walk keeps the invariant. */
  lemma InvAdvance<F>(env: Env<F>, s: seq<CodeUnit>, st: Scan<F>, i: nat, done: seq<nat>)
    requires i < |s| && Inv(env, s, st, i, done)
    ensures Inv(env, s, Advance(env, s, st, i), Next(s, i), done + [i])
  {
    var cur := Want(env, s, i);
    if cur.None? {
      InvPlain(env, s, st, i, done);
    } else if cur == st.open {
      InvKeep(env, s, st, i, done);
    } else {
      InvSwitch(env, s, st, i, done);
    }
  }

  lemma {:induction false} InvScanFrom<F>(env: Env<F>, s: seq<CodeUnit>, st: Scan<F>, i: nat, done: seq<nat>)
    requires Inv(env, s, st, i, done)
    ensures Inv(env, s, ScanFrom(env, s, i, st), |s|, Walk(s, 0))
    decreases |s| - i
  {
    if i < |s| {
      InvAdvance(env, s, st, i, done);
      InvScanFrom(env, s, Advance(env, s, st, i), Next(s, i), done + [i]);
    } else {
      assert done == Walk(s, 0);
    }
  }

  lemma InvInit<F>(env: Env<F>, s: seq<CodeUnit>)
    ensures Inv(env, s, Scan([], None, 0), 0, [])
  {
    assert Walk(s, 0) == [] + Walk(s, 0);
  }

  /** The fallback runs describe every code point of s correctly. */
  lemma FallbackRunsGood<F>(env: Env<F>, s: seq<CodeUnit>)
    ensures Good(env, s, FallbackRuns(env, s), |s|, Walk(s, 0))
  {
    InvInit(env, s);
    InvScanFrom(env, s, Scan([], None, 0), 0, []);
  }

  // ---------------------------------------------------------------------
  // What the fallback runs satisfy

  /** Every run is a non-empty range of the text: 0 <= begin < end <= length. */
  lemma RunsWithinText<F>(env: Env<F>, s: seq<CodeUnit>)
    ensures var r := FallbackRuns(env, s);
            forall k :: 0 <= k < |r| ==> 0 <= r[k].begin < r[k].end <= |s|
  {
    FallbackRunsGood(env, s);
  }

  /** Runs are emitted in increasing order and never overlap. */
  lemma RunsInOrder<F>(env: Env<F>, s: seq<CodeUnit>)
    ensures var r := FallbackRuns(env, s);
            forall k, l :: 0 <= k < l < |r| ==> r[k].end <= r[l].begin
  {
    FallbackRunsGood(env, s);
  }

  /** Runs begin and end on code-point boundaries. */
  lemma RunsOnCodePointBoundaries<F>(env: Env<F>, s: seq<CodeUnit>)
    ensures var r := FallbackRuns(env, s);
            forall k :: 0 <= k < |r| ==> IsBoundary(s, r[k].begin) && IsBoundary(s, r[k].end)
  {
    FallbackRunsGood(env, s);
  }

  /** No run begins or ends between the two halves of a surrogate pair. */
  lemma RunsKeepPairsWhole<F>(env: Env<F>, s: seq<CodeUnit>, p: nat, k: nat)
    requires p in Walk(s, 0) && PairAt(s, p) && k < |FallbackRuns(env, s)|
    ensures FallbackRuns(env, s)[k].begin != p + 1 && FallbackRuns(env, s)[k].end != p + 1
  {
    var r := FallbackRuns(env, s);
    RunsOnCodePointBoundaries(env, s);
    assert IsBoundary(s, r[k].begin) && IsBoundary(s, r[k].end);
    NoBoundaryInsideCodePoint(s, p, p + 1);
  }

  /** A run is closed whenever the font changes identity: two runs that touch have different fonts. */
  lemma TouchingRunsDiffer<F>(env: Env<F>, s: seq<CodeUnit>)
    ensures var r := FallbackRuns(env, s);
            forall k :: 0 < k < |r| && r[k - 1].end == r[k].begin ==> r[k - 1].font != r[k].font
  {
    FallbackRunsGood(env, s);
  }

  /** A code point covered by a run wants exactly that run's font. */
  lemma CoveredWantsRunFont<F>(env: Env<F>, s: seq<CodeUnit>, p: nat, k: nat)
    requires p in Walk(s, 0) && k < |FallbackRuns(env, s)| && Covers(FallbackRuns(env, s)[k], p)
    ensures Want(env, s, p) == Some(FallbackRuns(env, s)[k].font)
  {
    FallbackRunsGood(env, s);
  }

  /** A code point that wants a fallback font lies, both its units, in a run of that font. */
  lemma FallbackIsCovered<F>(env: Env<F>, s: seq<CodeUnit>, p: nat)
    requires p in Walk(s, 0) && Want(env, s, p).Some?
    ensures var r := FallbackRuns(env, s);
            exists k :: 0 <= k < |r| && r[k].begin <= p && Next(s, p) <= r[k].end && r[k].font == Want(env, s, p).value
  {
    var r := FallbackRuns(env, s);
    FallbackRunsGood(env, s);
    var k :| 0 <= k < |r| && Covers(r[k], p);
    BoundaryAfter(s, p, r[k].end);
  }

  /** No run is added exactly when no code point wants a fallback font. */
  lemma NoFallbackNoRuns<F>(env: Env<F>, s: seq<CodeUnit>)
    ensures (forall p :: p in Walk(s, 0) ==> Want(env, s, p).None?) <==> FallbackRuns(env, s) == []
  {
    var r := FallbackRuns(env, s);
    FallbackRunsGood(env, s);
    if r != [] {
      var b := r[0].begin;
      assert b in Walk(s, 0) && Covers(r[0], b);
      assert Want(env, s, b).Some?;
    }
  }

  /** When the run covering p ends at q, the run covering q is the very next one and begins at q. */
  lemma RunAfter<F>(r: seq<Span<F>>, n: int, p: int, q: int, k: nat, l: nat)
    requires Bounded(r, n) && Ordered(r)
    requires k < |r| && l < |r| && Covers(r[k], p) && Covers(r[l], q) && r[k].end == q
    ensures l == k + 1 && r[l].begin == q
  {
    assert k < l;
    assert r[k].end <= r[k + 1].begin;
    assert l == k + 1;
  }

  /** Two consecutive code points that want the identical font share one run. */
  lemma SameFontSharesRun<F>(env: Env<F>, s: seq<CodeUnit>, p: nat)
    requires p in Walk(s, 0) && Next(s, p) < |s|
    requires Want(env, s, p).Some? && Want(env, s, Next(s, p)) == Want(env, s, p)
    ensures var r := FallbackRuns(env, s);
            exists k :: 0 <= k < |r| && Covers(r[k], p) && Covers(r[k], Next(s, p))
  {
    var r := FallbackRuns(env, s);
    var q := Next(s, p);
    FallbackRunsGood(env, s);
    NextInWalk(s, p);
    var k :| 0 <= k < |r| && Covers(r[k], p);
    var l :| 0 <= l < |r| && Covers(r[l], q);
    BoundaryAfter(s, p, r[k].end);
    if r[k].end == q {
      // Run l would touch run k although both have the font p and q want.
      RunAfter(r, |s|, p, q, k, l);
    }
  }

  /** Two consecutive code points that want different fonts (identity or null) never share a run. */
  lemma FontChangeSplitsRun<F>(env: Env<F>, s: seq<CodeUnit>, p: nat, k: nat)
    requires p in Walk(s, 0) && Next(s, p) < |s| && Want(env, s, p) != Want(env, s, Next(s, p))
    requires k < |FallbackRuns(env, s)|
    ensures !(Covers(FallbackRuns(env, s)[k], p) && Covers(FallbackRuns(env, s)[k], Next(s, p)))
  {
    FallbackRunsGood(env, s);
    NextInWalk(s, p);
  }

  /**
   * The font each code unit finally has after createFallbackString: the
   * fallback its code point wants, or the main font when it wants none.
   */
  lemma FinalFont<F>(env: Env<F>, s: seq<CodeUnit>, p: nat, j: int)
    requires p in Walk(s, 0) && p <= j < Next(s, p)
    ensures FontAt(FontLog(env, s), j) == Some(Want(env, s, p).GetOr(env.mainFont))
  {
    var r := FallbackRuns(env, s);
    var log := FontLog(env, s);
    assert forall l :: 0 < l < |log| ==> log[l] == r[l - 1];
    if Want(env, s, p).Some? {
      FallbackIsCovered(env, s, p);
      var k :| 0 <= k < |r| && r[k].begin <= p && Next(s, p) <= r[k].end && r[k].font == Want(env, s, p).value;
      assert Covers(log[k + 1], j);
      RunsInOrder(env, s);
      forall l | k + 1 < l < |log|
        ensures !Covers(log[l], j)
      {
        assert r[k].end <= r[l - 1].begin;
      }
      FontAtLatest(log, j, k + 1);
    } else {
      RunsOnCodePointBoundaries(env, s);
      forall l | 0 < l < |log|
        ensures !Covers(log[l], j)
      {
        if Covers(r[l - 1], j) {
          BoundaryNotInside(s, p, r[l - 1].begin);
          CoveredWantsRunFont(env, s, p, l - 1);
          assert false;
        }
      }
      FontAtLatest(log, j, 0);
    }
  }

  /** A code point the main font displays, and that is not blacklisted, is in no run and keeps the main font. */
  lemma DisplayableKeepsMainFont<F>(env: Env<F>, s: seq<CodeUnit>, p: nat)
    requires p in Walk(s, 0) && !NeedsFallback(env, CodePointAt(s, p))
    ensures forall k :: 0 <= k < |FallbackRuns(env, s)| ==> !Covers(FallbackRuns(env, s)[k], p)
    ensures FontAt(FontLog(env, s), p) == Some(env.mainFont)
  {
    FallbackRunsGood(env, s);
    FinalFont(env, s, p, p);
  }

  /** With DejaVu Sans as main font, code points 8222 and 8220 take the strategy's font whatever canDisplay says. */
  lemma DejaVuBlacklistForcesFallback<F>(env: Env<F>, s: seq<CodeUnit>, p: nat)
    requires p in Walk(s, 0) && IsDejaVu(env)
    requires CodePointAt(s, p) == 8222 || CodePointAt(s, p) == 8220
    ensures FontAt(FontLog(env, s), p) == Some(env.strategy(p, CodePointAt(s, p), env.fontSize).GetOr(env.mainFont))
  {
    assert CodePointAt(s, p) in DejaVuBlacklist;
    FinalFont(env, s, p, p);
  }

  /** With any other main font the blacklist has no effect: only canDisplay decides. */
  lemma BlacklistOnlyForDejaVu<F>(env: Env<F>, s: seq<CodeUnit>, p: nat)
    requires p in Walk(s, 0) && !IsDejaVu(env)
    ensures var cp := CodePointAt(s, p);
            FontAt(FontLog(env, s), p)
            == Some(if env.ops.canDisplay(env.mainFont, cp) then env.mainFont
                    else env.strategy(p, cp, env.fontSize).GetOr(env.mainFont))
  {
    FinalFont(env, s, p, p);
  }
}
