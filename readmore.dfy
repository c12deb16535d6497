/**
 * The plugin's effect on a page: `markForHiding`, `hideElements`,
 * `createReadMoreLink`, the click handler and the per-root pipeline, as
 * methods that change the page state step by step.
 */
module Readmore {
  import opened Seqs
  import opened Dom
  import opened Settings
  import opened TextChunks
  import opened Filters
  import opened Marking
  import opened Hiding

  /** Updating a union is updating its right operand. */
  lemma UpdateUnion<K, V>(a: map<K, V>, b: map<K, V>, k: K, v: V)
    ensures (a + b)[k := v] == a + b[k := v]
  {
  }

  /** One callback call keeps the loop's account of what the callbacks so far did. */
  lemma CallbackStep(d: Document, opt: Options, base: map<nat, seq<string>>, done: seq<nat>, c: nat,
                     replaced: bool, before: map<nat, seq<string>>, after: map<nat, seq<string>>)
    requires before == base + ChunksFor(d, opt, done)
    requires replaced <==> Replaces(d, opt, c)
    requires after == if replaced then before[c := Split(d[c].text, opt.delimiters)] else before
    ensures after == base + ChunksFor(d, opt, done + [c])
    ensures AnyReplaces(d, opt, done + [c]) <==> AnyReplaces(d, opt, done) || replaced
  {
    ChunksForSnoc(d, opt, done, c);
    AnyReplacesSnoc(d, opt, done, c);
    if replaced {
      UpdateUnion(base, ChunksFor(d, opt, done), c, Split(d[c].text, opt.delimiters));
    }
  }

  /**
   * A page the plugin works on. The node structure `doc` is fixed; the
   * plugin's changes are the four fields:
   *   - markedElements: elements that carry the marker class;
   *   - split: text nodes replaced by chunk spans, with the spans' texts;
   *   - hidden: targets whose own display was set to none;
   *   - controls: roots with a "read more" link attached.
   */
  class Page {
    const doc: Document
    var markedElements: set<nat>
    var split: map<nat, seq<string>>
    var hidden: set<Target>
    var controls: set<nat>

    constructor (d: Document)
      ensures doc == d && markedElements == {} && split == map[] && hidden == {} && controls == {}
    {
      doc := d;
      markedElements := {};
      split := map[];
      hidden := {};
      controls := {};
    }

    /** The targets `$root.find('.' + classname)` returns now. */
    function Chunks(root: nat): (r: seq<Target>)
      reads this
      ensures forall t :: t in r ==> IsAncestor(doc, root, t.node) && (t.Span? || t.node in markedElements)
      ensures forall t :: t in r <==> IsMarkedTarget(doc, markedElements, split, root, t)
      ensures InDocumentOrder(r)
    {
      MarkedTargetsExact(doc, markedElements, split, root);
      MarkedTargets(doc, markedElements, split, root)
    }

    /**
     * `markForHiding`: marks the elements inside root that pass the filters,
     * replaces every non-blank text child of a marked element (whose tag is
     * not in `ignore_children`) by its chunk spans, and answers whether any
     * text was replaced.
     */
    method MarkForHiding(root: nat, opt: Options) returns (marked: bool)
      requires root < |doc|
      modifies this
      ensures markedElements == old(markedElements) + MarkSet(doc, opt, root)
      ensures split == old(split) + NewChunks(doc, opt, root)
      ensures hidden == old(hidden) && controls == old(controls)
      ensures marked <==> SplitsSomething(doc, opt, root)
    {
      var d := doc;
      var all := FilteredElements(d, opt, root);
      markedElements := markedElements + SetOf(all);
      var contents := ContentsOf(d, all);
      ContentsPassSplitsTexts(d, opt, root, all);
      marked := ReplaceTexts(contents, opt);
    }

    /**
     * The `all.contents().each` callback over contents: every non-blank text
     * whose parent's tag is not in `ignore_children` is replaced by its chunk
     * spans; the answer is whether any was.
     */
    method ReplaceTexts(contents: seq<nat>, opt: Options) returns (marked: bool)
      modifies this
      ensures split == old(split) + ChunksFor(doc, opt, contents)
      ensures marked <==> AnyReplaces(doc, opt, contents)
      ensures markedElements == old(markedElements) && hidden == old(hidden) && controls == old(controls)
    {
      var d := doc;
      marked := false;
      var j := 0;
      assert contents[..0] == [];
      while j < |contents|
        invariant 0 <= j <= |contents|
        invariant split == old(split) + ChunksFor(d, opt, contents[..j])
        invariant marked <==> AnyReplaces(d, opt, contents[..j])
        invariant markedElements == old(markedElements) && hidden == old(hidden) && controls == old(controls)
      {
        var c := contents[j];
        ghost var done := contents[..j];
        ghost var before := split;
        var replaced := ReplaceText(c, opt);
        CallbackStep(d, opt, old(split), done, c, replaced, before, split);
        marked := marked || replaced;
        assert contents[..j + 1] == done + [c];
        j := j + 1;
      }
      assert contents[..j] == contents;
    }

    /**
     * One call of the `contents().each` callback, on node c: a non-blank
     * text whose parent's tag is not in `ignore_children` is replaced by
     * its chunk spans, and the answer is whether it was.
     */
    method ReplaceText(c: nat, opt: Options) returns (replaced: bool)
      modifies this
      ensures replaced <==> Replaces(doc, opt, c)
      ensures split == if replaced then old(split)[c := Split(doc[c].text, opt.delimiters)] else old(split)
      ensures markedElements == old(markedElements) && hidden == old(hidden) && controls == old(controls)
    {
      var d := doc;
      var isText := c < |d| && d[c].Text?;
      var isEmpty := isText && Trim(d[c].text) == "";
      var isOffLimits := c < |d| && Tag(d, d[c].parent) in opt.ignoreChildren;
      replaced := isText && !isEmpty && !isOffLimits;
      if replaced {
        split := split[c := Split(d[c].text, opt.delimiters)];
      }
    }

    /**
     * `hideElements`: walks the marked targets from the last one back,
     * hiding each while the hide test holds against the container's current
     * height, and stops at the first one that fails it. The targets hidden
     * are exactly the suffix that Hiding.Cut describes; the answer is whether
     * any was hidden.
     */
    method HideElements(root: nat, minHeight: int, maxHeight: int, measure: set<Target> -> int) returns (didHide: bool)
      modifies this
      ensures markedElements == old(markedElements) && split == old(split) && controls == old(controls)
      ensures var chunks := Chunks(root);
        var k := Cut(HidesIn(Scene(doc, split, measure, minHeight, maxHeight)), chunks, |chunks|, old(hidden));
        && hidden == old(hidden) + SetOf(chunks[k..])
        && (didHide <==> k < |chunks|)
    {
      var d, sp := doc, split;
      var chunks := MarkedTargets(d, markedElements, sp, root);
      ghost var sc := Scene(d, sp, measure, minHeight, maxHeight);
      ghost var hides := HidesIn(sc);
      var height := measure(hidden);
      didHide := false;
      var i := |chunks|;
      assert chunks[i..] == [];
      while i > 0
        invariant 0 <= i <= |chunks|
        invariant hidden == old(hidden) + SetOf(chunks[i..])
        invariant height == measure(hidden)
        invariant didHide <==> i < |chunks|
        invariant Cut(hides, chunks, |chunks|, old(hidden)) == Cut(hides, chunks, i, hidden)
        invariant markedElements == old(markedElements) && split == old(split) && controls == old(controls)
      {
        var chunk := chunks[i - 1];
        var allDescendantsHidden := CountsAllHidden(d, sp, hidden, chunk);
        CutStep(sc, chunks, i, hidden);
        if HideCondition(height, minHeight, maxHeight, allDescendantsHidden) {
          SuffixGrows(old(hidden), chunks, i);
          hidden := hidden + {chunk};
          height := measure(hidden);
          didHide := true;
          i := i - 1;
        } else {
          break;
        }
      }
    }

    /** `createReadMoreLink`: a "read more" link is appended to root. */
    method CreateReadMoreLink(root: nat)
      modifies this
      ensures controls == old(controls) + {root}
      ensures markedElements == old(markedElements) && split == old(split) && hidden == old(hidden)
    {
      controls := controls + {root};
    }

    /**
     * The link's click handler: the link is removed, and every marked target
     * inside root that is `:hidden` is shown again. Every target in `hidden`
     * is `:hidden`, so none of root's marked targets stays hidden.
     */
    method ClickReadMore(root: nat)
      requires root in controls
      modifies this
      ensures controls == old(controls) - {root}
      ensures hidden == old(hidden) - SetOf(Chunks(root))
      ensures markedElements == old(markedElements) && split == old(split)
    {
      controls := controls - {root};
      var d, h := doc, hidden;
      var shown := Filter(Chunks(root), (t: Target) => IsHidden(d, h, t));
      hidden := hidden - SetOf(shown);
    }

    /**
     * What the plugin does to one root: mark; when some text was split, run
     * the hide loop; when that hid something, attach the link. The link is
     * attached exactly when both happened.
     */
    method Readmore(root: nat, opt: Options, measure: set<Target> -> int)
      requires root < |doc|
      modifies this
      ensures markedElements == old(markedElements) + MarkSet(doc, opt, root)
      ensures split == old(split) + NewChunks(doc, opt, root)
      ensures var chunks := Chunks(root);
        var k := Cut(HidesIn(Scene(doc, split, measure, opt.minHeight, opt.maxHeight)), chunks, |chunks|, old(hidden));
        && hidden == (if SplitsSomething(doc, opt, root) then old(hidden) + SetOf(chunks[k..]) else old(hidden))
        && controls == (if SplitsSomething(doc, opt, root) && k < |chunks| then old(controls) + {root} else old(controls))
    {
      var marked := false;
      var didHide := false;
      if !marked {
        marked := MarkForHiding(root, opt);
      }
      if !didHide && marked {
        didHide := HideElements(root, opt.minHeight, opt.maxHeight, measure);
      }
      if didHide && marked {
        CreateReadMoreLink(root);
      }
    }

    /**
     * The plugin on one root followed by a click on its link, if it got one:
     * when nothing inside the root was hidden beforehand, the click shows
     * everything the hide loop hid, and the hidden set is as it was.
     */
    method ReadmoreThenClick(root: nat, opt: Options, measure: set<Target> -> int)
      requires root < |doc|
      requires forall t :: t in hidden ==> !IsAncestor(doc, root, t.node)
      modifies this
      ensures hidden == old(hidden)
      ensures markedElements == old(markedElements) + MarkSet(doc, opt, root)
      ensures split == old(split) + NewChunks(doc, opt, root)
      ensures controls == old(controls) - {root}
    {
      Readmore(root, opt, measure);
      if root in controls {
        ClickReadMore(root);
      }
    }
  }
}
