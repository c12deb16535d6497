/**
 * What `hideElements` computes, as functions: the test applied to each
 * marked target, and how far from the end the countdown loop gets.
 * Readmore.Page.HideElements is proved against `Cut`.
 */
module Hiding {
  import opened Seqs
  import opened Dom

  /**
   * Everything the hide loop reads besides its list of targets: the page
   * after marking, the container's `outerHeight` as a function of what is
   * hidden, and the two height bounds.
   */
  datatype Scene = Scene(
    doc: Document,
    split: map<nat, seq<string>>,
    measure: set<Target> -> int,
    minHeight: int,
    maxHeight: int)

  /**
   * The test that decides whether the loop hides the current target or
   * stops: never at or below minHeight; above maxHeight always; otherwise
   * only at height zero (which needs a negative minHeight) or when the
   * target's element descendants are all hidden already.
   */
  function HideCondition(height: int, minHeight: int, maxHeight: int, allDescendantsHidden: bool): (r: bool)
    ensures r ==> height > minHeight
    ensures r && height == 0 ==> minHeight < 0
    ensures (r && height <= maxHeight && height != 0) ==> allDescendantsHidden
    ensures height > minHeight && (height > maxHeight || allDescendantsHidden) ==> r
    ensures height > minHeight && height == 0 ==> r
  {
    height > minHeight && (height > maxHeight || height == 0 || allDescendantsHidden)
  }

  /** The target has at least one element below it, and every one of them is `:hidden`. */
  ghost predicate AllDescendantsHidden(d: Document, split: map<nat, seq<string>>, hidden: set<Target>, t: Target)
  {
    var below := Descendants(d, split, t);
    |below| > 0 && forall x :: x in below ==> IsHidden(d, hidden, x)
  }

  /**
   * `all_descendants_hidden` as the loop computes it: the target has
   * element descendants and counting the `:hidden` ones gives them all.
   */
  function CountsAllHidden(d: Document, split: map<nat, seq<string>>, hidden: set<Target>, t: Target): (r: bool)
    ensures r <==> AllDescendantsHidden(d, split, hidden, t)
  {
    var below := Descendants(d, split, t);
    var allDescendants := |below|;
    FilterKeepsAll(below, (x: Target) => IsHidden(d, hidden, x));
    allDescendants != 0 && |Filter(below, (x: Target) => IsHidden(d, hidden, x))| == allDescendants
  }

  /** A chunk span has no element below it, so only the height clauses can hide it. */
  lemma SpanNeverFullyCollapsed(d: Document, split: map<nat, seq<string>>, hidden: set<Target>, c: nat, k: nat)
    ensures !AllDescendantsHidden(d, split, hidden, Span(c, k))
  {
  }

  /** The loop hides t when `hidden` is what is hidden so far (the height is measured afresh). */
  ghost predicate Hides(sc: Scene, hidden: set<Target>, t: Target)
  {
    HideCondition(sc.measure(hidden), sc.minHeight, sc.maxHeight, AllDescendantsHidden(sc.doc, sc.split, hidden, t))
  }

  /** Whatever the loop hides, it hides at a measured height above minHeight. */
  lemma HidesAboveMinHeight(sc: Scene, hidden: set<Target>, t: Target)
    requires Hides(sc, hidden, t)
    ensures sc.measure(hidden) > sc.minHeight
  {
  }

  /** The test of the scene as a value, for the countdown below. */
  ghost function HidesIn(sc: Scene): (set<Target>, Target) -> bool
  {
    (h: set<Target>, t: Target) => Hides(sc, h, t)
  }

  /**
   * Where the countdown over chunks[..i] stops, starting with `hidden`: the
   * loop hides chunks[i - 1], chunks[i - 2], ... while `hides` holds, and
   * chunks[Cut..i] are the ones it hid.
   */
  ghost function Cut(hides: (set<Target>, Target) -> bool, chunks: seq<Target>, i: nat, hidden: set<Target>): (k: nat)
    requires i <= |chunks|
    ensures k <= i
    decreases i
  {
    if i > 0 && hides(hidden, chunks[i - 1]) then Cut(hides, chunks, i - 1, hidden + {chunks[i - 1]})
    else i
  }

  /** Hiding the last of chunks[j..i] first, then the rest, hides all of them. */
  lemma SuffixStep(hidden: set<Target>, chunks: seq<Target>, j: nat, i: nat)
    requires j < i <= |chunks|
    ensures hidden + SetOf(chunks[j..i]) == (hidden + {chunks[i - 1]}) + SetOf(chunks[j..i - 1])
  {
    assert chunks[j..i] == chunks[j..i - 1] + [chunks[i - 1]];
  }

  /**
   * One step of the countdown in the loop's own terms: the test on the
   * current height and the counted descendants decides whether the loop
   * hides chunks[i - 1] and goes on, or stops at i.
   */
  lemma CutStep(sc: Scene, chunks: seq<Target>, i: nat, hidden: set<Target>)
    requires 0 < i <= |chunks|
    ensures Cut(HidesIn(sc), chunks, i, hidden) ==
      if HideCondition(sc.measure(hidden), sc.minHeight, sc.maxHeight, CountsAllHidden(sc.doc, sc.split, hidden, chunks[i - 1]))
      then Cut(HidesIn(sc), chunks, i - 1, hidden + {chunks[i - 1]})
      else i
  {
    assert HidesIn(sc)(hidden, chunks[i - 1]) == Hides(sc, hidden, chunks[i - 1]);
  }

  /** Hiding chunks[i - 1] on top of the suffix chunks[i..] hides the suffix chunks[i - 1..]. */
  lemma SuffixGrows(hidden: set<Target>, chunks: seq<Target>, i: nat)
    requires 0 < i <= |chunks|
    ensures hidden + SetOf(chunks[i - 1..]) == (hidden + SetOf(chunks[i..])) + {chunks[i - 1]}
  {
    assert chunks[i - 1..] == [chunks[i - 1]] + chunks[i..];
  }

  /** Each target from Cut on was hidden because it passed the test against everything hidden after it. */
  lemma {:induction false} CutHidesSuffix(hides: (set<Target>, Target) -> bool, chunks: seq<Target>, i: nat, hidden: set<Target>, j: nat)
    requires i <= |chunks| && Cut(hides, chunks, i, hidden) <= j < i
    ensures hides(hidden + SetOf(chunks[j + 1..i]), chunks[j])
  {
    if j == i - 1 {
      assert hidden + SetOf(chunks[i..i]) == hidden;
    } else {
      CutHidesSuffix(hides, chunks, i - 1, hidden + {chunks[i - 1]}, j);
      SuffixStep(hidden, chunks, j + 1, i);
    }
  }

  /** The target just before Cut, if any, failed the test against everything hidden after it. */
  lemma {:induction false} CutStopsAtFailure(hides: (set<Target>, Target) -> bool, chunks: seq<Target>, i: nat, hidden: set<Target>)
    requires i <= |chunks|
    ensures var k := Cut(hides, chunks, i, hidden);
      k > 0 ==> !hides(hidden + SetOf(chunks[k..i]), chunks[k - 1])
  {
    if i > 0 && hides(hidden, chunks[i - 1]) {
      var h' := hidden + {chunks[i - 1]};
      var k := Cut(hides, chunks, i - 1, h');
      CutStopsAtFailure(hides, chunks, i - 1, h');
      if k > 0 {
        SuffixStep(hidden, chunks, k, i);
      }
    } else {
      assert hidden + SetOf(chunks[i..i]) == hidden;
    }
  }

  /**
   * The loop hides a suffix of the marked targets, last first: each hidden
   * target passed the test against the height measured with every later one
   * hidden (so that height was above minHeight), and the first one kept, if
   * any, failed it.
   */
  lemma CutCharacterized(sc: Scene, chunks: seq<Target>, i: nat, hidden: set<Target>)
    requires i <= |chunks|
    ensures var k := Cut(HidesIn(sc), chunks, i, hidden);
      && (forall j :: k <= j < i ==>
            && Hides(sc, hidden + SetOf(chunks[j + 1..i]), chunks[j])
            && sc.measure(hidden + SetOf(chunks[j + 1..i])) > sc.minHeight)
      && (k > 0 ==> !Hides(sc, hidden + SetOf(chunks[k..i]), chunks[k - 1]))
  {
    var hides := HidesIn(sc);
    var k := Cut(hides, chunks, i, hidden);
    forall j | k <= j < i
      ensures Hides(sc, hidden + SetOf(chunks[j + 1..i]), chunks[j])
      ensures sc.measure(hidden + SetOf(chunks[j + 1..i])) > sc.minHeight
    {
      var h := hidden + SetOf(chunks[j + 1..i]);
      CutHidesSuffix(hides, chunks, i, hidden, j);
      HidesAboveMinHeight(sc, h, chunks[j]);
    }
    CutStopsAtFailure(hides, chunks, i, hidden);
  }

  /** Once the measured height is at or below minHeight, nothing more is hidden. */
  lemma StopsAtMinHeight(sc: Scene, chunks: seq<Target>, i: nat, hidden: set<Target>)
    requires i <= |chunks| && sc.measure(hidden) <= sc.minHeight
    ensures Cut(HidesIn(sc), chunks, i, hidden) == i
  {
  }

  /**
   * Showing every marked target again undoes the loop: when none of them was
   * hidden before, what stays hidden is what was hidden before.
   */
  lemma ShowingChunksUndoesCut(hidden: set<Target>, chunks: seq<Target>, k: nat)
    requires k <= |chunks|
    requires forall t :: t in chunks ==> t !in hidden
    ensures (hidden + SetOf(chunks[k..])) - SetOf(chunks) == hidden
  {
  }

  /**
   * Five chunk spans, a container of height 300 that loses 60 per hidden
   * span, maxHeight 200, minHeight 50: the loop hides the last two (300, 240)
   * and stops at 180, which is within the bounds, and no span is fully
   * collapsed.
   */
  lemma FiveChunkExample(d: Document, split: map<nat, seq<string>>, c: nat)
    ensures var chunks := [Span(c, 0), Span(c, 1), Span(c, 2), Span(c, 3), Span(c, 4)];
      var sc := Scene(d, split, (h: set<Target>) => 300 - 60 * |h|, 50, 200);
      Cut(HidesIn(sc), chunks, 5, {}) == 3
  {
    var chunks := [Span(c, 0), Span(c, 1), Span(c, 2), Span(c, 3), Span(c, 4)];
    var sc := Scene(d, split, (h: set<Target>) => 300 - 60 * |h|, 50, 200);
    assert |{Span(c, 4)} + {Span(c, 3)}| == 2;
    assert !Hides(sc, {Span(c, 4), Span(c, 3)}, Span(c, 2));
    assert Cut(HidesIn(sc), chunks, 3, {Span(c, 4), Span(c, 3)}) == 3;
    assert {} + {Span(c, 4)} + {Span(c, 3)} == {Span(c, 4), Span(c, 3)};
  }
}
