/**
 * What `markForHiding` does to one root, stated declaratively: which
 * elements receive the marker class and which text nodes are replaced by
 * chunk spans. Readmore.Page.MarkForHiding is proved against these.
 */
module Marking {
  import opened Seqs
  import opened Dom
  import opened Filters
  import opened TextChunks
  import opened Settings

  /**
   * Element e inside root receives the marker class: it survives the
   * `skip_elements` filter (when that list is not empty) and the ancestor
   * filter (when `ignore_children` is not empty).
   */
  ghost predicate Marks(d: Document, opt: Options, root: nat, e: nat)
  {
    && IsDescendantElement(d, root, e)
    && (|opt.skipElements| > 0 ==> !IsImportant(d, opt.skipElements, e))
    && (|opt.ignoreChildren| > 0 ==> !HasIgnoredAncestor(d, Join(opt.ignoreChildren), e))
  }

  ghost function MarkSet(d: Document, opt: Options, root: nat): set<nat>
  {
    set e: nat | e < |d| && Marks(d, opt, root, e)
  }

  /**
   * `all` as it stands when `addClass` runs: the elements inside root,
   * narrowed by `skipElement` when `skip_elements` is not empty and by
   * `skipElementByParents` when `ignore_children` is not empty.
   */
  function FilteredElements(d: Document, opt: Options, root: nat): (all: seq<nat>)
    ensures forall e: nat :: e in all <==> e < |d| && Marks(d, opt, root, e)
    ensures SetOf(all) == MarkSet(d, opt, root)
  {
    var all := Filter(Range(0, |d|), (e: nat) => IsDescendantElement(d, root, e));
    var all := if |opt.skipElements| > 0 then Filter(all, (e: nat) => SkipElement(d, opt.skipElements, e)) else all;
    if |opt.ignoreChildren| > 0 then Filter(all, (e: nat) => SkipElementByParents(d, opt.ignoreChildren, e)) else all
  }

  /** Text node c, a child of a marked element, is replaced by chunk spans. */
  ghost predicate SplitsText(d: Document, opt: Options, root: nat, c: nat)
  {
    && c < |d| && d[c].Text?
    && d[c].parent >= 0 && Marks(d, opt, root, d[c].parent)
    && !IsBlank(d[c].text)
    && Tag(d, d[c].parent) !in opt.ignoreChildren
  }

  ghost predicate SplitsSomething(d: Document, opt: Options, root: nat)
  {
    exists c: nat :: SplitsText(d, opt, root, c)
  }

  /** The chunk texts of every text node the pass replaces. */
  ghost function NewChunks(d: Document, opt: Options, root: nat): map<nat, seq<string>>
  {
    map c: nat | c < |d| && SplitsText(d, opt, root, c) :: Split(d[c].text, opt.delimiters)
  }

  /** The test of the `contents().each` callback: a non-blank text whose parent is not an `ignore_children` tag. */
  predicate Replaces(d: Document, opt: Options, c: nat): (r: bool)
    ensures r <==> c < |d| && d[c].Text? && !IsBlank(d[c].text) && Tag(d, d[c].parent) !in opt.ignoreChildren
  {
    if c < |d| && d[c].Text? then
      TrimEmptyIffBlank(d[c].text);
      Trim(d[c].text) != "" && Tag(d, d[c].parent) !in opt.ignoreChildren
    else false
  }

  /** `all.contents()`: the child nodes of each element of es, element after element. */
  function ContentsOf(d: Document, es: seq<nat>): (r: seq<nat>)
    ensures forall c: nat :: c in r <==> c < |d| && d[c].parent >= 0 && d[c].parent as nat in es
  {
    if es == [] then [] else Children(d, es[0]) + ContentsOf(d, es[1..])
  }

  /** The chunk texts of the nodes of cs that the callback replaces, visiting cs in order. */
  ghost function ChunksFor(d: Document, opt: Options, cs: seq<nat>): map<nat, seq<string>>
  {
    if cs == [] then map[]
    else
      var c := cs[|cs| - 1];
      var m := ChunksFor(d, opt, cs[..|cs| - 1]);
      if Replaces(d, opt, c) then m[c := Split(d[c].text, opt.delimiters)] else m
  }

  lemma ChunksForSnoc(d: Document, opt: Options, cs: seq<nat>, c: nat)
    ensures ChunksFor(d, opt, cs + [c]) ==
      if Replaces(d, opt, c) then ChunksFor(d, opt, cs)[c := Split(d[c].text, opt.delimiters)]
      else ChunksFor(d, opt, cs)
  {
    assert (cs + [c])[..|cs|] == cs;
  }

  /** The callback's chunks are keyed by exactly the replaced nodes of cs, each with the split of its own text. */
  lemma {:induction false} ChunksForKeys(d: Document, opt: Options, cs: seq<nat>)
    ensures forall x :: x in ChunksFor(d, opt, cs) <==> x in cs && Replaces(d, opt, x)
    ensures forall x :: x in cs && Replaces(d, opt, x) ==> ChunksFor(d, opt, cs)[x] == Split(d[x].text, opt.delimiters)
  {
    if cs != [] {
      var init, c := cs[..|cs| - 1], cs[|cs| - 1];
      ChunksForKeys(d, opt, init);
      assert cs == init + [c];
      assert forall x :: x in cs <==> x in init || x == c;
    }
  }

  /** The callback's flag after visiting cs in order: some node of cs was replaced. */
  ghost predicate AnyReplaces(d: Document, opt: Options, cs: seq<nat>)
  {
    cs != [] && (AnyReplaces(d, opt, cs[..|cs| - 1]) || Replaces(d, opt, cs[|cs| - 1]))
  }

  lemma AnyReplacesSnoc(d: Document, opt: Options, cs: seq<nat>, c: nat)
    ensures AnyReplaces(d, opt, cs + [c]) <==> AnyReplaces(d, opt, cs) || Replaces(d, opt, c)
  {
    assert (cs + [c])[..|cs|] == cs;
  }

  /** The flag is set exactly when some node of cs is replaced. */
  lemma {:induction false} AnyReplacesWitness(d: Document, opt: Options, cs: seq<nat>)
    ensures AnyReplaces(d, opt, cs) <==> exists c :: c in cs && Replaces(d, opt, c)
  {
    if cs != [] {
      var init, c := cs[..|cs| - 1], cs[|cs| - 1];
      AnyReplacesWitness(d, opt, init);
      assert forall x :: x in cs <==> x in init || x == c by {
        assert cs == init + [c];
      }
    }
  }

  /**
   * Walking the contents of exactly the marked elements, the callback
   * replaces exactly the texts SplitsText names, with the same chunks.
   */
  lemma ContentsPassSplitsTexts(d: Document, opt: Options, root: nat, es: seq<nat>)
    requires forall e: nat :: e in es <==> e < |d| && Marks(d, opt, root, e)
    ensures forall c: nat :: (c in ContentsOf(d, es) && Replaces(d, opt, c)) <==> SplitsText(d, opt, root, c)
    ensures ChunksFor(d, opt, ContentsOf(d, es)) == NewChunks(d, opt, root)
    ensures AnyReplaces(d, opt, ContentsOf(d, es)) <==> SplitsSomething(d, opt, root)
  {
    var cs := ContentsOf(d, es);
    forall c: nat ensures (c in cs && Replaces(d, opt, c)) <==> SplitsText(d, opt, root, c) {
      AcceptedIffSplit(d, opt, root, es, c);
    }
    ChunksForKeys(d, opt, cs);
    var m, n := ChunksFor(d, opt, cs), NewChunks(d, opt, root);
    assert m.Keys == n.Keys;
    forall x | x in m.Keys ensures m[x] == n[x] {
    }
    MapsEqual(m, n);
    AnyReplacesWitness(d, opt, cs);
    if AnyReplaces(d, opt, cs) {
      var c :| c in cs && Replaces(d, opt, c);
      assert SplitsText(d, opt, root, c);
    }
    if SplitsSomething(d, opt, root) {
      var c: nat :| SplitsText(d, opt, root, c);
      assert c in cs && Replaces(d, opt, c);
    }
  }

  lemma MapsEqual<K, V>(m: map<K, V>, n: map<K, V>)
    requires m.Keys == n.Keys
    requires forall k :: k in m.Keys ==> m[k] == n[k]
    ensures m == n
  {
  }

  /** One content node: the callback accepts it exactly when SplitsText names it. */
  lemma AcceptedIffSplit(d: Document, opt: Options, root: nat, es: seq<nat>, c: nat)
    requires forall e: nat :: e in es <==> e < |d| && Marks(d, opt, root, e)
    ensures (c in ContentsOf(d, es) && Replaces(d, opt, c)) <==> SplitsText(d, opt, root, c)
  {
    if c < |d| && d[c].Text? {
      TrimEmptyIffBlank(d[c].text);
    }
  }

  /**
   * No element strictly inside an element whose tag is in `ignore_children`
   * is marked, and no text below it is split: such a subtree can only be
   * hidden as a whole. This holds for any such element in the document,
   * inside the root or above it.
   */
  lemma IgnoredSubtreeKeptWhole(d: Document, opt: Options, root: nat, a: nat, j: nat)
    requires a < |d| && d[a].Element? && d[a].tag in opt.ignoreChildren
    requires IsAncestor(d, a, j)
    ensures !Marks(d, opt, root, j)
    ensures !SplitsText(d, opt, root, j)
  {
    MemberOccursInJoin(opt.ignoreChildren, d[a].tag);
    assert Occurs(Tag(d, a), Join(opt.ignoreChildren));
    var p := d[j].parent;
    if p != a {
      assert IsAncestor(d, a, p);
      assert HasIgnoredAncestor(d, Join(opt.ignoreChildren), p);
    }
  }

  /**
   * The ancestor walk is not bounded by the root: when the root's own tag
   * occurs in the joined `ignore_children`, nothing inside it is marked or
   * split.
   */
  lemma IgnoredRootMarksNothing(d: Document, opt: Options, root: nat)
    requires |opt.ignoreChildren| > 0 && Occurs(Tag(d, root), Join(opt.ignoreChildren))
    ensures MarkSet(d, opt, root) == {}
    ensures !SplitsSomething(d, opt, root)
  {
    forall e: nat | e < |d| ensures !Marks(d, opt, root, e) {
      if IsAncestor(d, root, e) {
        assert HasIgnoredAncestor(d, Join(opt.ignoreChildren), e);
      }
    }
  }

  /** With the default options, nothing below a `tr` element is ever marked. */
  lemma TableRowQuirk(d: Document, root: nat, a: nat, e: nat)
    requires Tag(d, a) == "tr" && IsAncestor(d, a, e)
    ensures !Marks(d, Defaults, root, e)
  {
    DefaultIgnoreMatchesSubstrings();
    assert HasIgnoredAncestor(d, Join(Defaults.ignoreChildren), e);
  }

  /** Only text children of marked elements are split; never a direct child of the root. */
  lemma SplitsBelowMarkedElement(d: Document, opt: Options, root: nat, c: nat)
    requires SplitsText(d, opt, root, c)
    ensures d[c].parent in MarkSet(d, opt, root)
    ensures d[c].parent != root
  {
    AncestorBefore(d, root, d[c].parent);
  }
}
