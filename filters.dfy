/**
 * The two element filters of the marking pass, `skipElement` and
 * `skipElementByParents`, with the string operations they use.
 * Each filter callback returns true to KEEP the element, as jQuery's
 * `.filter` expects.
 */
module Filters {
  import opened Seqs
  import opened Dom
  import opened Settings

  /** `Array.prototype.join()` with its default separator ",". */
  function Join(xs: seq<string>): (r: string)
    ensures |xs| > 0 ==> |xs[0]| <= |r| && r[..|xs[0]|] == xs[0]
  {
    if |xs| == 0 then "" else if |xs| == 1 then xs[0] else xs[0] + "," + Join(xs[1..])
  }

  /** t occurs in s starting at position i. */
  predicate OccursAt(t: string, s: string, i: nat)
  {
    i + |t| <= |s| && s[i..i + |t|] == t
  }

  /** t is a substring of s. */
  ghost predicate Occurs(t: string, s: string)
  {
    exists i: nat :: OccursAt(t, s, i)
  }

  function IndexFrom(s: string, t: string, from: nat): (r: int)
    ensures r == -1 || (from <= r && OccursAt(t, s, r))
    ensures r == -1 ==> forall i: nat :: from <= i ==> !OccursAt(t, s, i)
    ensures r >= 0 ==> forall i: nat :: from <= i < r ==> !OccursAt(t, s, i)
    decreases |s| - from
  {
    if from + |t| > |s| then -1
    else if s[from..from + |t|] == t then from
    else IndexFrom(s, t, from + 1)
  }

  /** `String.prototype.indexOf`: the first position of t in s, or -1 when t does not occur. */
  function IndexOf(s: string, t: string): (r: int)
    ensures r > -1 <==> Occurs(t, s)
    ensures r > -1 ==> OccursAt(t, s, r) && forall i: nat :: i < r ==> !OccursAt(t, s, i)
  {
    IndexFrom(s, t, 0)
  }

  lemma OccursAfterPrefix(t: string, a: string, b: string, i: nat)
    requires OccursAt(t, b, i)
    ensures OccursAt(t, a + b, |a| + i)
  {
    assert (a + b)[|a| + i..|a| + i + |t|] == b[i..i + |t|];
  }

  lemma OccursBeforeSuffix(t: string, a: string, b: string)
    ensures OccursAt(t, t + a + b, 0)
  {
    assert (t + a + b)[0..|t|] == t;
  }

  /** Every member of the list occurs in the joined list. */
  lemma {:induction false} MemberOccursInJoin(xs: seq<string>, t: string)
    requires t in xs
    ensures Occurs(t, Join(xs))
  {
    if |xs| == 1 {
      assert OccursAt(t, Join(xs), 0);
    } else if xs[0] == t {
      OccursBeforeSuffix(t, ",", Join(xs[1..]));
    } else {
      assert t in xs[1..];
      MemberOccursInJoin(xs[1..], t);
      var i: nat :| OccursAt(t, Join(xs[1..]), i);
      OccursAfterPrefix(t, xs[0] + ",", Join(xs[1..]), i);
      assert Join(xs) == xs[0] + "," + Join(xs[1..]);
    }
  }

  /** Element e is one of `skip_elements`, or has a child element that is. */
  predicate IsImportant(d: Document, skip: seq<string>, e: nat)
  {
    || Tag(d, e) in skip
    || exists c: nat :: c < |d| && d[c].parent == e && d[c].Element? && d[c].tag in skip
  }

  /** The `skipElement` callback: keeps e unless it or one of its child elements is a skip element. */
  function SkipElement(d: Document, skip: seq<string>, e: nat): (keep: bool)
    ensures keep <==> !IsImportant(d, skip, e)
  {
    var important := (c: nat) => c < |d| && d[c].Element? && d[c].tag in skip;
    FilterNonEmpty(Children(d, e), important);
    var hasImportantChildren := |Filter(Children(d, e), important)| > 0;
    var isImportant := Tag(d, e) in skip;
    !(isImportant || hasImportantChildren)
  }

  /** Some proper ancestor of e, up to the top of the document, has a tag that occurs in `ignored`. */
  ghost predicate HasIgnoredAncestor(d: Document, ignored: string, e: nat)
  {
    exists a: nat :: IsAncestor(d, a, e) && Occurs(Tag(d, a), ignored)
  }

  /**
   * The walk of `parentsUntil` with an undefined bound: every ancestor up to
   * the document node is tested with `indexOf` on the joined list.
   */
  predicate ParentsWalk(d: Document, ignored: string, j: nat)
    decreases j
  {
    j < |d| && var p := d[j].parent;
      p >= 0 && (IndexOf(ignored, Tag(d, p)) > -1 || ParentsWalk(d, ignored, p))
  }

  lemma {:induction false} ParentsWalkFindsIgnoredAncestor(d: Document, ignored: string, j: nat)
    ensures ParentsWalk(d, ignored, j) <==> HasIgnoredAncestor(d, ignored, j)
  {
    if j < |d| && d[j].parent >= 0 {
      var p := d[j].parent;
      ParentsWalkFindsIgnoredAncestor(d, ignored, p);
      if ParentsWalk(d, ignored, j) {
        if IndexOf(ignored, Tag(d, p)) > -1 {
          assert IsAncestor(d, p, j);
        } else {
          var a: nat :| IsAncestor(d, a, p) && Occurs(Tag(d, a), ignored);
          assert IsAncestor(d, a, j);
        }
      }
      if HasIgnoredAncestor(d, ignored, j) {
        var a: nat :| IsAncestor(d, a, j) && Occurs(Tag(d, a), ignored);
        if a != p {
          assert IsAncestor(d, a, p);
        }
      }
    }
  }

  /** The `skipElementByParents` callback: keeps e unless an ancestor's tag is a substring of `ignore_children.join()`. */
  function SkipElementByParents(d: Document, ignoreChildren: seq<string>, e: nat): (keep: bool)
    ensures keep <==> !HasIgnoredAncestor(d, Join(ignoreChildren), e)
  {
    ParentsWalkFindsIgnoredAncestor(d, Join(ignoreChildren), e);
    !ParentsWalk(d, Join(ignoreChildren), e)
  }

  /**
   * The ancestor test matches substrings of "a,i,strong,h1,h2,h3": with the
   * default options a `tr` or an `s` ancestor counts as ignored, through "strong".
   */
  lemma DefaultIgnoreMatchesSubstrings()
    ensures Occurs("tr", Join(Defaults.ignoreChildren))
    ensures Occurs("s", Join(Defaults.ignoreChildren))
  {
    var xs := Defaults.ignoreChildren;
    assert Join(xs[5..]) == "h3";
    assert Join(xs[4..]) == "h2" + "," + Join(xs[5..]) by { assert xs[4..][1..] == xs[5..]; }
    assert Join(xs[3..]) == "h1" + "," + Join(xs[4..]) by { assert xs[3..][1..] == xs[4..]; }
    assert Join(xs[2..]) == "strong" + "," + Join(xs[3..]) by { assert xs[2..][1..] == xs[3..]; }
    assert Join(xs[1..]) == "i" + "," + Join(xs[2..]) by { assert xs[1..][1..] == xs[2..]; }
    var joined := Join(xs);
    assert joined == "a" + "," + Join(xs[1..]);
    assert joined[4..6] == "st";
    assert joined[5..7] == "tr";
    assert OccursAt("tr", joined, 5);
    assert OccursAt("s", joined, 4);
  }
}
