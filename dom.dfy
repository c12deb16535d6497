/**
 * The page as the plugin sees it: nodes in document order, the elements and
 * chunk spans that `find` returns, and jQuery's `:hidden`.
 *
 * The node structure never changes. What the plugin changes is kept beside
 * it (see Readmore.Page): which elements carry the marker class, which text
 * nodes were replaced by chunk spans, and which targets were hidden.
 */
module Dom {
  import opened Seqs

  /**
   * A node at its position in document order. `parent` is the index of the
   * parent element, or -1 for a child of the document node itself. Element
   * tags are kept lower case, as `tagName.toLowerCase()` gives them.
   */
  datatype Node = Element(tag: string, parent: int) | Text(text: string, parent: int) | Comment(parent: int)

  /**
   * Every node comes after its parent, and every parent is an element.
   * A page numbered in preorder (document order) satisfies this; the
   * predicate does not demand preorder, so "document order" below means
   * index order, and every lemma holds for any such arena.
   */
  predicate WellFormed(nodes: seq<Node>)
  {
    forall j :: 0 <= j < |nodes| ==>
      -1 <= nodes[j].parent < j && (nodes[j].parent >= 0 ==> nodes[nodes[j].parent].Element?)
  }

  type Document = nodes: seq<Node> | WellFormed(nodes)

  /**
   * Something `find` can return and `.hide()` can hide: an element, or the
   * index-th chunk span that replaced text node `node`.
   */
  datatype Target = Elem(node: nat) | Span(node: nat, index: nat)

  /** `prop('tagName') || ''`, lower case. */
  function Tag(d: Document, j: int): string
  {
    if 0 <= j < |d| && d[j].Element? then d[j].tag else ""
  }

  /** a is a proper ancestor of node j. */
  predicate IsAncestor(d: Document, a: int, j: nat)
    decreases j
  {
    j < |d| && var p := d[j].parent; p >= 0 && (p == a || IsAncestor(d, a, p))
  }

  /** Ancestors come earlier in document order and are elements. */
  lemma {:induction false} AncestorBefore(d: Document, a: int, j: nat)
    requires IsAncestor(d, a, j)
    ensures 0 <= a < j && d[a].Element?
  {
    var p := d[j].parent;
    if p != a {
      AncestorBefore(d, a, p);
    }
  }

  /** Everything inside a comes after a. */
  lemma DescendantsAfter(d: Document, a: int)
    ensures forall j: nat :: IsAncestor(d, a, j) ==> a < j
  {
    forall j: nat | IsAncestor(d, a, j) ensures a < j {
      AncestorBefore(d, a, j);
    }
  }

  /** e is an element strictly inside root: one of `$root.find("*")` before any split. */
  predicate IsDescendantElement(d: Document, root: nat, e: nat)
  {
    e < |d| && d[e].Element? && IsAncestor(d, root, e)
  }

  /** `.contents()` of element e: its child nodes in document order. */
  function Children(d: Document, e: nat): (r: seq<nat>)
    ensures forall c: nat :: c in r <==> c < |d| && d[c].parent == e
  {
    Filter(Range(0, |d|), (c: nat) => c < |d| && d[c].parent == e)
  }

  /** t comes before u in document order: an earlier node, or an earlier chunk span of the same text. */
  predicate Precedes(t: Target, u: Target)
  {
    t.node < u.node || (t.node == u.node && t.Span? && u.Span? && t.index < u.index)
  }

  predicate InDocumentOrder(r: seq<Target>)
  {
    forall i, j :: 0 <= i < j < |r| ==> Precedes(r[i], r[j])
  }

  /** Target t stands for a node of d once texts are split: an element, or an existing chunk span. */
  predicate IsRendered(d: Document, split: map<nat, seq<string>>, t: Target)
  {
    t.node < |d| &&
    match t
    case Elem(e) => d[e].Element?
    case Span(c, k) => d[c].Text? && c in split && k < |split[c]|
  }

  /** What node j stands for once texts are split: itself, its chunk spans, or nothing. */
  function Rendered(d: Document, split: map<nat, seq<string>>, j: nat): (r: seq<Target>)
    requires j < |d|
    ensures forall t :: t in r <==> t.node == j && IsRendered(d, split, t)
    ensures InDocumentOrder(r)
  {
    match d[j]
    case Element(_, _) => [Elem(j)]
    case Text(_, _) =>
      if j in split then
        var r := seq(|split[j]|, k requires 0 <= k < |split[j]| => Span(j, k));
        assert forall t :: t in r ==> t == Span(j, t.index) && t.index < |r|;
        assert forall k :: 0 <= k < |r| ==> r[k] == Span(j, k);
        r
      else []
    case Comment(_) => []
  }

  /** The targets rendered by nodes j, j + 1, ... that lie inside a. */
  function TargetsFrom(d: Document, split: map<nat, seq<string>>, a: nat, j: nat): (r: seq<Target>)
    ensures forall t :: t in r ==> j <= t.node < |d| && IsAncestor(d, a, t.node)
    decreases |d| - j
  {
    if j >= |d| then []
    else (if IsAncestor(d, a, j) then Rendered(d, split, j) else []) + TargetsFrom(d, split, a, j + 1)
  }

  /** `$a.find('*')` once texts are split: every element and chunk span inside a, in document order. */
  function DescendantTargets(d: Document, split: map<nat, seq<string>>, a: nat): (r: seq<Target>)
    ensures forall t :: t in r ==> a < t.node < |d| && IsAncestor(d, a, t.node)
  {
    TargetsFrom(d, split, a, a + 1)
  }

  /** `find` misses nothing: every rendered target inside a from node j on is returned. */
  lemma {:induction false} TargetsFromExact(d: Document, split: map<nat, seq<string>>, a: nat, j: nat)
    ensures forall t :: t in TargetsFrom(d, split, a, j) <==> j <= t.node && IsAncestor(d, a, t.node) && IsRendered(d, split, t)
    decreases |d| - j
  {
    if j < |d| {
      TargetsFromExact(d, split, a, j + 1);
    }
  }

  /** The targets below a are exactly the rendered targets inside a. */
  lemma DescendantTargetsExact(d: Document, split: map<nat, seq<string>>, a: nat)
    ensures forall t :: t in DescendantTargets(d, split, a) <==> IsAncestor(d, a, t.node) && IsRendered(d, split, t)
  {
    DescendantsAfter(d, a);
    TargetsFromExact(d, split, a, a + 1);
  }

  /** A list made of one node's targets in order, then later nodes' targets in order, is in order. */
  lemma ConcatInOrder(head: seq<Target>, tail: seq<Target>, j: nat)
    requires InDocumentOrder(head) && InDocumentOrder(tail)
    requires forall t :: t in head ==> t.node == j
    requires forall t :: t in tail ==> j < t.node
    ensures InDocumentOrder(head + tail)
  {
    assert forall x :: 0 <= x < |head| ==> head[x] in head;
    assert forall y :: 0 <= y < |tail| ==> tail[y] in tail;
    var r := head + tail;
    forall x, y | 0 <= x < y < |r| ensures Precedes(r[x], r[y]) {
      if y < |head| {
        assert r[x] == head[x] && r[y] == head[y];
      } else if x < |head| {
        assert r[x] == head[x] && r[y] == tail[y - |head|];
      } else {
        assert r[x] == tail[x - |head|] && r[y] == tail[y - |head|];
      }
    }
  }

  /** `find` walks the nodes in document order. */
  lemma {:induction false} TargetsFromInOrder(d: Document, split: map<nat, seq<string>>, a: nat, j: nat)
    ensures InDocumentOrder(TargetsFrom(d, split, a, j))
    decreases |d| - j
  {
    if j < |d| {
      TargetsFromInOrder(d, split, a, j + 1);
      var tail := TargetsFrom(d, split, a, j + 1);
      if IsAncestor(d, a, j) {
        var head := Rendered(d, split, j);
        ConcatInOrder(head, tail, j);
        assert TargetsFrom(d, split, a, j) == head + tail;
      } else {
        assert TargetsFrom(d, split, a, j) == [] + tail;
      }
    }
  }

  /** `$chunk.find('*')`: a chunk span holds only its text, so it has no element below it. */
  function Descendants(d: Document, split: map<nat, seq<string>>, t: Target): (r: seq<Target>)
    ensures forall u :: u in r ==> IsAncestor(d, t.node, u.node) && u.node != t.node
  {
    match t
    case Elem(e) => DescendantTargets(d, split, e)
    case Span(_, _) => []
  }

  /** Filtering a list of targets keeps it in document order. */
  lemma FilterInDocumentOrder(s: seq<Target>, p: Target -> bool)
    requires InDocumentOrder(s)
    ensures InDocumentOrder(Filter(s, p))
  {
    FilterKeepsOrder(s, p, Precedes);
    var r := Filter(s, p);
    assert forall i, j :: 0 <= i < j < |r| ==> Precedes(r[i], r[j]);
  }

  /** t lies inside root and carries the marker class: a marked element or a chunk span. */
  predicate IsMarkedTarget(d: Document, marked: set<nat>, split: map<nat, seq<string>>, root: nat, t: Target)
  {
    IsAncestor(d, root, t.node) && IsRendered(d, split, t) && (t.Span? || t.node in marked)
  }

  /** `$root.find('.' + classname)`: the targets inside root that carry the marker class, in document order. */
  function MarkedTargets(d: Document, marked: set<nat>, split: map<nat, seq<string>>, root: nat): (r: seq<Target>)
    ensures forall t :: t in r ==> root < t.node < |d| && IsAncestor(d, root, t.node)
    ensures forall t :: t in r ==> t.Span? || t.node in marked
  {
    Filter(DescendantTargets(d, split, root), (t: Target) => t.Span? || t.node in marked)
  }

  /**
   * `find` returns every marked target inside root, not just some: each
   * marked element and each chunk span below root, in document order.
   */
  lemma MarkedTargetsExact(d: Document, marked: set<nat>, split: map<nat, seq<string>>, root: nat)
    ensures forall t :: t in MarkedTargets(d, marked, split, root) <==> IsMarkedTarget(d, marked, split, root, t)
    ensures InDocumentOrder(MarkedTargets(d, marked, split, root))
  {
    DescendantTargetsExact(d, split, root);
    TargetsFromInOrder(d, split, root, root + 1);
    FilterInDocumentOrder(DescendantTargets(d, split, root), (t: Target) => t.Span? || t.node in marked);
  }

  /** Some proper ancestor of node j has been hidden. */
  predicate AncestorHidden(d: Document, hidden: set<Target>, j: nat)
    decreases j
  {
    j < |d| && var p := d[j].parent; p >= 0 && (Elem(p) in hidden || AncestorHidden(d, hidden, p))
  }

  /** A hidden ancestor is exactly a proper ancestor whose element was hidden. */
  lemma {:induction false} AncestorHiddenIffHiddenAncestor(d: Document, hidden: set<Target>, j: nat)
    ensures AncestorHidden(d, hidden, j) <==> exists a: nat :: IsAncestor(d, a, j) && Elem(a) in hidden
  {
    if j < |d| && d[j].parent >= 0 {
      var p := d[j].parent;
      AncestorHiddenIffHiddenAncestor(d, hidden, p);
      if AncestorHidden(d, hidden, j) {
        if Elem(p) in hidden {
          assert IsAncestor(d, p, j);
        } else {
          var a: nat :| IsAncestor(d, a, p) && Elem(a) in hidden;
          assert IsAncestor(d, a, j);
        }
      }
    }
  }

  /** jQuery's `:hidden`: the target was hidden itself, or sits inside a hidden element. */
  predicate IsHidden(d: Document, hidden: set<Target>, t: Target): (r: bool)
    ensures r <==> t in hidden || exists a: nat :: IsAncestor(d, a, t.node) && Elem(a) in hidden
  {
    AncestorHiddenIffHiddenAncestor(d, hidden, t.node);
    t in hidden || AncestorHidden(d, hidden, t.node)
  }
}
