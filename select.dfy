/**
 * How `highlight` cuts one selection range into ranges that each lie in a
 * single text leaf (the `ranges` it later wraps one by one).
 *
 * Nodes are positions in document order. The walk from the first leaf to
 * the end node uses `#nextTextNode`; every highlightable leaf it meets is
 * taken whole, except the start leaf, which is taken from the start offset.
 * The end leaf is taken up to the end offset.
 */
module Select {
  import opened Wrappers
  import opened Dom
  import opened Walk
  import opened Highlightability

  /**
   * A browser `Range`: its start container and offset, its end container
   * and offset, and its common ancestor, containers named by position.
   */
  datatype Span = Span(start: nat, startOffset: nat, finish: nat, endOffset: nat, common: nat)

  /** The characters `[s, e)` of the text leaf at position `leaf`. */
  datatype LeafRange = LeafRange(leaf: nat, s: nat, e: nat)

  /** `parent.childNodes[k]`: the position whose parent is `p` and whose index is `k`, if any. */
  function ChildAt(P: seq<Entry>, p: nat, k: nat): (r: Option<nat>)
    ensures r.Some? ==> p < r.value < |P| && P[r.value].parent == p && P[r.value].index == k
    ensures r.None? ==> forall q :: p < q < |P| ==> P[q].parent != p || P[q].index != k
  {
    ChildFrom(P, p, k, p + 1)
  }

  function ChildFrom(P: seq<Entry>, p: nat, k: nat, j: nat): (r: Option<nat>)
    ensures r.Some? ==> j <= r.value < |P| && P[r.value].parent == p && P[r.value].index == k
    ensures r.Some? ==> forall q :: j <= q < r.value ==> P[q].parent != p || P[q].index != k
    ensures r.None? ==> forall q :: j <= q < |P| ==> P[q].parent != p || P[q].index != k
    decreases |P| - j
  {
    if j >= |P| then None
    else if P[j].parent == p && P[j].index == k then Some(j)
    else ChildFrom(P, p, k, j + 1)
  }

  /**
   * What a `Range` guarantees: its containers exist, an offset into a text
   * container lies within the text, and the start boundary is not after the
   * end boundary (on one container, the start offset is not past the end
   * offset; a start inside the child just past an end boundary at the
   * common ancestor cannot happen).
   */
  predicate ValidSpan(P: seq<Entry>, sp: Span)
  {
    sp.start < |P| && sp.finish < |P| && sp.common < |P| &&
    (P[sp.start].node.Text? ==> sp.startOffset <= |P[sp.start].node.data|) &&
    (P[sp.finish].node.Text? ==> sp.endOffset <= |P[sp.finish].node.data|) &&
    (sp.start == sp.finish ==> sp.startOffset <= sp.endOffset) &&
    (sp.finish == sp.common && P[sp.finish].node.Element? ==> ChildAt(P, sp.common, sp.endOffset) != Some(sp.start))
  }

  /** `range.collapsed`. */
  predicate Collapsed(sp: Span)
  {
    sp.start == sp.finish && sp.startOffset == sp.endOffset
  }

  /**
   * `end`: the end container when it is a text leaf or not the common
   * ancestor; otherwise the common ancestor's child at the end offset, the
   * first node past the range.
   */
  function EndNode(P: seq<Entry>, sp: Span): (r: Option<nat>)
    requires ValidSpan(P, sp)
    ensures r.Some? ==> r.value < |P|
  {
    if P[sp.finish].node.Text? || sp.finish != sp.common then Some(sp.finish)
    else ChildAt(P, sp.common, sp.endOffset)
  }

  /**
   * What `end`, fixed before the boundary merges, may be on the page being
   * cut: a node of the page, if any; the end container itself when that is
   * a text leaf or not the common ancestor; and, with the end boundary at
   * an element, never the start container.
   */
  predicate EndOk(P: seq<Entry>, sp: Span, endNode: Option<nat>)
    requires ValidSpan(P, sp)
  {
    (endNode.Some? ==> endNode.value < |P|) &&
    (P[sp.finish].node.Text? || sp.finish != sp.common ==> endNode == Some(sp.finish)) &&
    (sp.finish == sp.common && P[sp.finish].node.Element? ==> endNode != Some(sp.start))
  }

  /**
   * The first leaf of the walk: the start container when it is a text leaf;
   * the first text leaf down from the start container's child at the start
   * offset when it is an HTML element; else the next text leaf after it.
   */
  function FirstLeaf(P: seq<Entry>, sp: Span, endNode: Option<nat>): (r: Option<nat>)
    requires WellFormed(P) && ValidSpan(P, sp)
    ensures r.Some? ==> r.value < |P| && P[r.value].node.Text?
  {
    if P[sp.start].node.Text? then Some(sp.start)
    else if P[sp.start].node.Element? && P[sp.start].node.kind == Html then
      FindFirstTextChild(P, ChildAt(P, sp.start, sp.startOffset))
    else NextTextNode(P, sp.start, endNode, sp.start)
  }

  /** `#setRange(node, s, e)`: the leaf range, kept only when it is not collapsed. */
  function SetRange(leaf: nat, s: nat, e: nat): (r: seq<LeafRange>)
  {
    if s < e then [LeafRange(leaf, s, e)] else []
  }

  /** The range a leaf of the walk gives: to its end, from the start offset on the start leaf and from 0 elsewhere. */
  function OwnRange(P: seq<Entry>, sp: Span, c: nat): seq<LeafRange>
    requires c < |P| && P[c].node.Text?
  {
    SetRange(c, if c == sp.start then sp.startOffset else 0, |P[c].node.data|)
  }

  /**
   * The `do ... while` loop from `curr`: each highlightable leaf gives a
   * range to its end, from the start offset for the start leaf and from 0
   * otherwise; the flag says whether any leaf was highlightable.
   */
  function WalkRanges(P: seq<Entry>, sp: Span, ignore: seq<string>, curr: Option<nat>, endNode: Option<nat>): (r: (seq<LeafRange>, bool))
    requires WellFormed(P) && ValidSpan(P, sp)
    requires curr.Some? ==> curr.value < |P| && P[curr.value].node.Text?
    decreases if curr.Some? then |P| - curr.value else 0
  {
    match curr
    case None => ([], false)
    case Some(c) =>
      WellFormedAt(P, c);
      var rest := WalkRanges(P, sp, ignore, NextTextNode(P, c, endNode, c), endNode);
      if NodeIsHighlightable(P, c, ignore) then
        (OwnRange(P, sp, c) + rest.0, true)
      else rest
  }

  /**
   * The leaf ranges of one selection range and whether any leaf was
   * highlightable; the walk stops before the end node, and the end leaf is
   * cut at the end offset only when it is the end container.
   */
  function Decomposition(P: seq<Entry>, sp: Span, ignore: seq<string>, endNode: Option<nat>): (r: (seq<LeafRange>, bool))
    requires WellFormed(P) && ValidSpan(P, sp) && EndOk(P, sp, endNode)
  {
    if Collapsed(sp) then ([], false)
    else if OneLeaf(P, sp, endNode) then
      if NodeIsHighlightable(P, sp.start, ignore) then ([LeafRange(sp.start, sp.startOffset, sp.endOffset)], true)
      else ([], false)
    else
      var walk := WalkRanges(P, sp, ignore, WalkStart(P, sp, endNode), endNode);
      (walk.0 + LastRange(P, sp, ignore), walk.1)
  }

  /** Where the loop starts: the first leaf, unless that is already the end node. */
  function WalkStart(P: seq<Entry>, sp: Span, endNode: Option<nat>): (r: Option<nat>)
    requires WellFormed(P) && ValidSpan(P, sp)
    ensures r.Some? ==> r.value < |P| && P[r.value].node.Text? && Some(r.value) != endNode
  {
    if FirstLeaf(P, sp, endNode) == endNode then None else FirstLeaf(P, sp, endNode)
  }

  /** The one-leaf case: the start container is a text leaf and the end node. */
  predicate OneLeaf(P: seq<Entry>, sp: Span, endNode: Option<nat>)
    requires ValidSpan(P, sp)
  {
    P[sp.start].node.Text? && endNode == Some(sp.start)
  }

  /** The range on the end leaf: up to the end offset, when the end container is a highlightable leaf. */
  function LastRange(P: seq<Entry>, sp: Span, ignore: seq<string>): (r: seq<LeafRange>)
    requires WellFormed(P) && ValidSpan(P, sp)
  {
    if P[sp.finish].node.Text? && NodeIsHighlightable(P, sp.finish, ignore) then SetRange(sp.finish, 0, sp.endOffset)
    else []
  }

  /**
   * The decomposition of `highlight` for one selection range, with the
   * walk stopping before the end node.
   */
  method Decompose(P: seq<Entry>, sp: Span, ignore: seq<string>, endNode: Option<nat>) returns (ranges: seq<LeafRange>, highlighted: bool)
    requires WellFormed(P) && ValidSpan(P, sp) && EndOk(P, sp, endNode)
    ensures ranges == Decomposition(P, sp, ignore, endNode).0 && highlighted == Decomposition(P, sp, ignore, endNode).1
  {
    ranges, highlighted := [], false;
    if Collapsed(sp) {
      return;
    }
    var start := sp.start;
    if P[start].node.Text? && endNode == Some(start) {
      if NodeIsHighlightable(P, start, ignore) {
        ranges := [LeafRange(start, sp.startOffset, sp.endOffset)];
        highlighted := true;
      }
      return;
    }
    var curr := WalkStart(P, sp, endNode);
    ranges, highlighted := WalkLeaves(P, sp, ignore, curr, endNode);
    if P[sp.finish].node.Text? && NodeIsHighlightable(P, sp.finish, ignore) {
      ranges := ranges + SetRange(sp.finish, 0, sp.endOffset);
    }
  }

  /** The `do ... while` loop over the leaves from `curr` to the end node. */
  method WalkLeaves(P: seq<Entry>, sp: Span, ignore: seq<string>, curr: Option<nat>, endNode: Option<nat>)
    returns (ranges: seq<LeafRange>, highlighted: bool)
    requires WellFormed(P) && ValidSpan(P, sp)
    requires curr.Some? ==> curr.value < |P| && P[curr.value].node.Text?
    ensures ranges == WalkRanges(P, sp, ignore, curr, endNode).0 && highlighted == WalkRanges(P, sp, ignore, curr, endNode).1
  {
    ranges, highlighted := [], false;
    var leaf := curr;
    while leaf.Some?
      invariant leaf.Some? ==> leaf.value < |P| && P[leaf.value].node.Text?
      invariant WalkRanges(P, sp, ignore, curr, endNode).0 == ranges + WalkRanges(P, sp, ignore, leaf, endNode).0
      invariant WalkRanges(P, sp, ignore, curr, endNode).1 == (highlighted || WalkRanges(P, sp, ignore, leaf, endNode).1)
      decreases if leaf.Some? then |P| - leaf.value else 0
    {
      var c := leaf.value;
      WalkStep(P, sp, ignore, c, endNode);
      ghost var rest := WalkRanges(P, sp, ignore, NextTextNode(P, c, endNode, c), endNode).0;
      if NodeIsHighlightable(P, c, ignore) {
        highlighted := true;
        var offsetStart := if c == sp.start then sp.startOffset else 0;
        var here := SetRange(c, offsetStart, |P[c].node.data|);
        AppendAssoc(ranges, here, rest);
        ranges := ranges + here;
      }
      leaf := NextTextNode(P, c, endNode, c);
    }
    assert WalkRanges(P, sp, ignore, leaf, endNode) == ([], false);
  }

  lemma AppendAssoc(a: seq<LeafRange>, b: seq<LeafRange>, c: seq<LeafRange>)
    ensures a + (b + c) == (a + b) + c
  {
  }

  /** One turn of the loop: the leaf's own range, then the walk from the next leaf. */
  lemma WalkStep(P: seq<Entry>, sp: Span, ignore: seq<string>, c: nat, endNode: Option<nat>)
    requires WellFormed(P) && ValidSpan(P, sp) && c < |P| && P[c].node.Text?
    ensures NextTextNode(P, c, endNode, c).Some? ==> c < NextTextNode(P, c, endNode, c).value
    ensures NodeIsHighlightable(P, c, ignore) ==>
      WalkRanges(P, sp, ignore, Some(c), endNode).0 ==
        OwnRange(P, sp, c) +
        WalkRanges(P, sp, ignore, NextTextNode(P, c, endNode, c), endNode).0 &&
      WalkRanges(P, sp, ignore, Some(c), endNode).1
    ensures !NodeIsHighlightable(P, c, ignore) ==>
      WalkRanges(P, sp, ignore, Some(c), endNode) == WalkRanges(P, sp, ignore, NextTextNode(P, c, endNode, c), endNode)
  {
    WellFormedAt(P, c);
  }

  // ---------------------------------------------------------------------
  // What the decomposition promises
  // ---------------------------------------------------------------------

  /** A range within a highlightable text leaf that is not empty. */
  predicate GoodRange(P: seq<Entry>, r: LeafRange, ignore: seq<string>)
    requires WellFormed(P)
  {
    r.leaf < |P| && P[r.leaf].node.Text? && NodeIsHighlightable(P, r.leaf, ignore) &&
    r.s < r.e <= |P[r.leaf].node.data|
  }

  /**
   * A range of the walk: good, not on the end node, and whole except on the
   * start leaf, where it begins at the start offset.
   */
  predicate WalkRangeOk(P: seq<Entry>, sp: Span, ignore: seq<string>, r: LeafRange, endNode: Option<nat>)
    requires WellFormed(P)
  {
    GoodRange(P, r, ignore) && Some(r.leaf) != endNode &&
    (r.leaf == sp.start ==> r.s == sp.startOffset) &&
    (r.leaf != sp.start ==> r.s == 0 && r.e == |P[r.leaf].node.data|)
  }

  /** Leaves in strictly increasing document order: no leaf twice. */
  predicate Increasing(rs: seq<LeafRange>)
  {
    forall i, j :: 0 <= i < j < |rs| ==> rs[i].leaf < rs[j].leaf
  }

  /** The range a highlightable leaf gives, if any, is such a range. */
  lemma WalkHere(P: seq<Entry>, sp: Span, ignore: seq<string>, c: nat, endNode: Option<nat>)
    requires WellFormed(P) && ValidSpan(P, sp)
    requires c < |P| && P[c].node.Text? && Some(c) != endNode && NodeIsHighlightable(P, c, ignore)
    ensures forall r :: r in OwnRange(P, sp, c) ==>
      WalkRangeOk(P, sp, ignore, r, endNode) && r.leaf == c
  {
  }

  /** The walk sets the flag when it gives any range. */
  lemma {:induction false} WalkFlag(P: seq<Entry>, sp: Span, ignore: seq<string>, curr: Option<nat>, endNode: Option<nat>)
    requires WellFormed(P) && ValidSpan(P, sp)
    requires curr.Some? ==> curr.value < |P| && P[curr.value].node.Text?
    ensures WalkRanges(P, sp, ignore, curr, endNode).0 != [] ==> WalkRanges(P, sp, ignore, curr, endNode).1
    decreases if curr.Some? then |P| - curr.value else 0
  {
    if curr.Some? {
      WalkStep(P, sp, ignore, curr.value, endNode);
      WalkFlag(P, sp, ignore, NextTextNode(P, curr.value, endNode, curr.value), endNode);
    }
  }

  /** The walk from `curr` (at or after `lo`) gives such ranges. */
  lemma {:induction false} WalkOk(P: seq<Entry>, sp: Span, ignore: seq<string>, curr: Option<nat>, endNode: Option<nat>, lo: nat)
    requires WellFormed(P) && ValidSpan(P, sp)
    requires curr.Some? ==> lo <= curr.value < |P| && P[curr.value].node.Text? && Some(curr.value) != endNode
    ensures forall r :: r in WalkRanges(P, sp, ignore, curr, endNode).0 ==> WalkRangeOk(P, sp, ignore, r, endNode) && lo <= r.leaf
    decreases if curr.Some? then |P| - curr.value else 0
  {
    if curr.Some? {
      var c := curr.value;
      WalkStep(P, sp, ignore, c, endNode);
      var next := NextTextNode(P, c, endNode, c);
      WalkOk(P, sp, ignore, next, endNode, c + 1);
      if NodeIsHighlightable(P, c, ignore) {
        var here := OwnRange(P, sp, c);
        var rest := WalkRanges(P, sp, ignore, next, endNode).0;
        WalkHere(P, sp, ignore, c, endNode);
        forall r | r in here + rest
          ensures WalkRangeOk(P, sp, ignore, r, endNode) && lo <= r.leaf
        {
          if r !in rest {
            assert r in here;
          }
        }
      }
    }
  }

  /** The walk gives its ranges in increasing leaf order. */
  lemma {:induction false} WalkIncreasing(P: seq<Entry>, sp: Span, ignore: seq<string>, curr: Option<nat>, endNode: Option<nat>)
    requires WellFormed(P) && ValidSpan(P, sp)
    requires curr.Some? ==> curr.value < |P| && P[curr.value].node.Text? && Some(curr.value) != endNode
    ensures Increasing(WalkRanges(P, sp, ignore, curr, endNode).0)
    decreases if curr.Some? then |P| - curr.value else 0
  {
    if curr.Some? {
      var c := curr.value;
      WellFormedAt(P, c);
      WalkStep(P, sp, ignore, c, endNode);
      var next := NextTextNode(P, c, endNode, c);
      WalkOk(P, sp, ignore, next, endNode, c + 1);
      WalkIncreasing(P, sp, ignore, next, endNode);
      if NodeIsHighlightable(P, c, ignore) {
        var here := OwnRange(P, sp, c);
        IncreasingPrepend(here, WalkRanges(P, sp, ignore, next, endNode).0, c);
      }
    }
  }

  /** The walk from `curr` (at or after `lo`) gives such ranges, in increasing order, and sets the flag when it gives any. */
  lemma WalkFacts(P: seq<Entry>, sp: Span, ignore: seq<string>, curr: Option<nat>, endNode: Option<nat>, lo: nat)
    requires WellFormed(P) && ValidSpan(P, sp)
    requires curr.Some? ==> lo <= curr.value < |P| && P[curr.value].node.Text? && Some(curr.value) != endNode
    ensures forall r :: r in WalkRanges(P, sp, ignore, curr, endNode).0 ==> WalkRangeOk(P, sp, ignore, r, endNode) && lo <= r.leaf
    ensures Increasing(WalkRanges(P, sp, ignore, curr, endNode).0)
    ensures WalkRanges(P, sp, ignore, curr, endNode).0 != [] ==> WalkRanges(P, sp, ignore, curr, endNode).1
  {
    WalkOk(P, sp, ignore, curr, endNode, lo);
    WalkFlag(P, sp, ignore, curr, endNode);
    WalkIncreasing(P, sp, ignore, curr, endNode);
  }

  lemma IncreasingPrepend(here: seq<LeafRange>, rest: seq<LeafRange>, c: nat)
    requires |here| <= 1 && (forall r :: r in here ==> r.leaf == c)
    requires Increasing(rest) && forall r :: r in rest ==> c + 1 <= r.leaf
    ensures Increasing(here + rest)
  {
    if here != [] {
      forall i, j | 0 <= i < j < |here + rest| ensures (here + rest)[i].leaf < (here + rest)[j].leaf {
        if i == 0 {
          assert (here + rest)[j] in rest;
        } else {
          assert (here + rest)[i] == rest[i - 1] && (here + rest)[j] == rest[j - 1];
        }
      }
    }
  }

  /**
   * What one selection range gives: good ranges, no leaf twice; the start
   * leaf is cut at the start offset, the end leaf at the end offset, every
   * other leaf is taken whole, and the node just past an end boundary at an
   * element is never touched. The flag is set when a leaf other than the
   * end leaf gave a range.
   */
  lemma DecompositionFacts(P: seq<Entry>, sp: Span, ignore: seq<string>, endNode: Option<nat>)
    requires WellFormed(P) && ValidSpan(P, sp) && EndOk(P, sp, endNode)
    ensures forall r :: r in Decomposition(P, sp, ignore, endNode).0 ==> GoodRange(P, r, ignore)
    ensures forall r :: r in Decomposition(P, sp, ignore, endNode).0 && r.leaf == sp.start ==> sp.startOffset <= r.s
    ensures forall r :: r in Decomposition(P, sp, ignore, endNode).0 && r.leaf == sp.finish ==> r.e <= sp.endOffset
    ensures forall r :: r in Decomposition(P, sp, ignore, endNode).0 && r.leaf != sp.start && r.leaf != sp.finish ==>
      r.leaf < |P| && P[r.leaf].node.Text? && r.s == 0 && r.e == |P[r.leaf].node.data|
    ensures forall r :: r in Decomposition(P, sp, ignore, endNode).0 && Some(r.leaf) == endNode ==> r.leaf == sp.finish
    ensures forall r :: r in Decomposition(P, sp, ignore, endNode).0 && r.leaf != sp.finish ==> Decomposition(P, sp, ignore, endNode).1
  {
    DecompositionRanges(P, sp, ignore, endNode);
  }

  /** The facts of `DecompositionFacts` about one range. */
  predicate RangeOk(P: seq<Entry>, sp: Span, ignore: seq<string>, endNode: Option<nat>, r: LeafRange, flag: bool)
    requires WellFormed(P) && ValidSpan(P, sp) && EndOk(P, sp, endNode)
  {
    GoodRange(P, r, ignore) &&
    (r.leaf == sp.start ==> sp.startOffset <= r.s) &&
    (r.leaf == sp.finish ==> r.e <= sp.endOffset) &&
    (r.leaf != sp.start && r.leaf != sp.finish ==> r.s == 0 && r.e == |P[r.leaf].node.data|) &&
    (Some(r.leaf) == endNode ==> r.leaf == sp.finish) &&
    (r.leaf != sp.finish ==> flag)
  }

  lemma DecompositionRanges(P: seq<Entry>, sp: Span, ignore: seq<string>, endNode: Option<nat>)
    requires WellFormed(P) && ValidSpan(P, sp) && EndOk(P, sp, endNode)
    ensures forall r :: r in Decomposition(P, sp, ignore, endNode).0 ==> RangeOk(P, sp, ignore, endNode, r, Decomposition(P, sp, ignore, endNode).1)
  {
    if !Collapsed(sp) && !OneLeaf(P, sp, endNode) {
      WalkFacts(P, sp, ignore, WalkStart(P, sp, endNode), endNode, 0);
      var w := WalkRanges(P, sp, ignore, WalkStart(P, sp, endNode), endNode);
      var last := LastRange(P, sp, ignore);
      assert Decomposition(P, sp, ignore, endNode) == (w.0 + last, w.1);
      forall r | r in w.0 + last
        ensures RangeOk(P, sp, ignore, endNode, r, w.1)
      {
        if r in w.0 {
          assert WalkRangeOk(P, sp, ignore, r, endNode);
        } else {
          assert r in last;
        }
      }
    }
  }

  /** No leaf is cut twice. */
  lemma DecompositionDistinct(P: seq<Entry>, sp: Span, ignore: seq<string>, endNode: Option<nat>)
    requires WellFormed(P) && ValidSpan(P, sp) && EndOk(P, sp, endNode)
    ensures forall i, j :: 0 <= i < j < |Decomposition(P, sp, ignore, endNode).0| ==>
      Decomposition(P, sp, ignore, endNode).0[i].leaf != Decomposition(P, sp, ignore, endNode).0[j].leaf
  {
    if !Collapsed(sp) && !OneLeaf(P, sp, endNode) {
      WalkFacts(P, sp, ignore, WalkStart(P, sp, endNode), endNode, 0);
      var walk := WalkRanges(P, sp, ignore, WalkStart(P, sp, endNode), endNode).0;
      var last := LastRange(P, sp, ignore);
      assert Decomposition(P, sp, ignore, endNode).0 == walk + last;
      assert forall r :: r in last ==> Some(r.leaf) == endNode;
      forall i, j | 0 <= i < j < |walk + last|
        ensures (walk + last)[i].leaf != (walk + last)[j].leaf
      {
        if j < |walk| {
          assert (walk + last)[i] == walk[i] && (walk + last)[j] == walk[j];
        } else {
          assert (walk + last)[j] in last;
          if i < |walk| {
            assert (walk + last)[i] in walk;
          }
        }
      }
    }
  }

  /**
   * The walk from the leaf `c` gives the range of every highlightable leaf
   * it visits (the leaves a chain of `#nextTextNode` calls reports before
   * the end node), and ranges on no other leaves.
   */
  lemma {:induction false} WalkComplete(P: seq<Entry>, sp: Span, ignore: seq<string>, c: nat, endNode: Option<nat>)
    requires WellFormed(P) && Nested(P) && ValidSpan(P, sp)
    requires 0 < c < |P| && P[c].node.Text? && Some(c) != endNode
    ensures forall t :: (t == c || Visits(P, c, endNode, t)) && NodeIsHighlightable(P, t, ignore) ==>
      forall r :: r in OwnRange(P, sp, t) ==> r in WalkRanges(P, sp, ignore, Some(c), endNode).0
    ensures forall r :: r in WalkRanges(P, sp, ignore, Some(c), endNode).0 ==> r.leaf == c || Visits(P, c, endNode, r.leaf)
    decreases |P| - c
  {
    var next := NextTextNode(P, c, endNode, c);
    WalkStep(P, sp, ignore, c, endNode);
    var rest := WalkRanges(P, sp, ignore, next, endNode).0;
    if next.Some? {
      var m := next.value;
      VisitsChain(P, c, endNode, m);
      WalkComplete(P, sp, ignore, m, endNode);
      var here := if NodeIsHighlightable(P, c, ignore) then OwnRange(P, sp, c) else [];
      assert WalkRanges(P, sp, ignore, Some(c), endNode).0 == here + rest;
      ChainCovers(P, sp, ignore, c, m, endNode, here, rest);
    } else {
      forall t
        ensures !Visits(P, c, endNode, t)
      {
        FirstVisit(P, c, endNode, t);
      }
      assert rest == [];
    }
  }

  /** The ranges of a walk from `c` are those of `c` and those of the walk from the next leaf `m`. */
  lemma ChainCovers(P: seq<Entry>, sp: Span, ignore: seq<string>, c: nat, m: nat, endNode: Option<nat>,
                    here: seq<LeafRange>, rest: seq<LeafRange>)
    requires WellFormed(P) && c < |P| && P[c].node.Text?
    requires here == if NodeIsHighlightable(P, c, ignore) then OwnRange(P, sp, c) else []
    requires Visits(P, c, endNode, m)
    requires forall t :: c < t < m ==> !Visits(P, c, endNode, t)
    requires forall t :: m < t ==> (Visits(P, c, endNode, t) <==> Visits(P, m, endNode, t))
    requires forall t :: (t == m || Visits(P, m, endNode, t)) && NodeIsHighlightable(P, t, ignore) ==>
      forall r :: r in OwnRange(P, sp, t) ==> r in rest
    requires forall r :: r in rest ==> r.leaf == m || Visits(P, m, endNode, r.leaf)
    ensures forall t :: (t == c || Visits(P, c, endNode, t)) && NodeIsHighlightable(P, t, ignore) ==>
      forall r :: r in OwnRange(P, sp, t) ==> r in here + rest
    ensures forall r :: r in here + rest ==> r.leaf == c || Visits(P, c, endNode, r.leaf)
  {
    forall t | (t == c || Visits(P, c, endNode, t)) && NodeIsHighlightable(P, t, ignore)
      ensures forall r :: r in OwnRange(P, sp, t) ==> r in here + rest
    {
      if t != c {
        assert t == m || Visits(P, m, endNode, t);
      }
    }
    forall r | r in here + rest
      ensures r.leaf == c || Visits(P, c, endNode, r.leaf)
    {
      if r in rest && r.leaf != m {
        assert Visits(P, m, endNode, r.leaf);
      }
    }
  }

  /** The walk of one selection range, from its start leaf up to the end node, visits `t`. */
  ghost predicate Walked(P: seq<Entry>, sp: Span, endNode: Option<nat>, t: nat)
    requires WellFormed(P) && ValidSpan(P, sp) && EndOk(P, sp, endNode)
  {
    !Collapsed(sp) && !OneLeaf(P, sp, endNode) && WalkStart(P, sp, endNode).Some? &&
    (t == WalkStart(P, sp, endNode).value || Visits(P, WalkStart(P, sp, endNode).value, endNode, t))
  }

  /**
   * The decomposition leaves nothing out: every highlightable leaf the walk
   * visits gives its range (whole, or from the start offset on the start
   * leaf), the end leaf gives its range up to the end offset, and there are
   * no ranges on other leaves.
   */
  lemma DecompositionComplete(P: seq<Entry>, sp: Span, ignore: seq<string>, endNode: Option<nat>)
    requires WellFormed(P) && Nested(P) && ValidSpan(P, sp) && P[0].node.Element? && EndOk(P, sp, endNode)
    ensures forall t :: Walked(P, sp, endNode, t) && NodeIsHighlightable(P, t, ignore) ==>
      forall r :: r in OwnRange(P, sp, t) ==> r in Decomposition(P, sp, ignore, endNode).0
    ensures !Collapsed(sp) && P[sp.finish].node.Text? && NodeIsHighlightable(P, sp.finish, ignore) && 0 < sp.endOffset ==>
      (if OneLeaf(P, sp, endNode) then LeafRange(sp.finish, sp.startOffset, sp.endOffset) else LeafRange(sp.finish, 0, sp.endOffset))
        in Decomposition(P, sp, ignore, endNode).0
    ensures forall r :: r in Decomposition(P, sp, ignore, endNode).0 ==> Walked(P, sp, endNode, r.leaf) || r.leaf == sp.finish
  {
    if !Collapsed(sp) && !OneLeaf(P, sp, endNode) {
      var w := WalkRanges(P, sp, ignore, WalkStart(P, sp, endNode), endNode).0;
      var last := LastRange(P, sp, ignore);
      assert Decomposition(P, sp, ignore, endNode).0 == w + last;
      if WalkStart(P, sp, endNode).Some? {
        var c := WalkStart(P, sp, endNode).value;
        assert c != 0;
        WalkComplete(P, sp, ignore, c, endNode);
      }
    } else if !Collapsed(sp) && P[sp.finish].node.Text? {
      assert endNode == Some(sp.finish);
    }
  }

  // ---------------------------------------------------------------------
  // A walk that stays inside the common ancestor
  // ---------------------------------------------------------------------

  /** The common ancestor's subtree holds both containers, as a browser `Range`'s does. */
  predicate Contained(P: seq<Entry>, sp: Span)
    requires ValidSpan(P, sp)
  {
    sp.common <= sp.start < P[sp.common].end && sp.common <= sp.finish < P[sp.common].end
  }

  /**
   * Where the walk stops, as intended: at `end` when there is one; with
   * none (an end boundary after the common ancestor's last child), at the
   * first node past the common ancestor's subtree.
   */
  function WalkEnd(P: seq<Entry>, sp: Span, endNode: Option<nat>): (r: Option<nat>)
    requires ValidSpan(P, sp)
    ensures endNode.Some? ==> r == endNode
    ensures r.Some? && endNode.None? ==> r.value == P[sp.common].end < |P|
  {
    if endNode.None? && P[sp.common].end < |P| then Some(P[sp.common].end) else endNode
  }

  /** The bounded stop is still an `end` the decomposition accepts. */
  lemma WalkEndOk(P: seq<Entry>, sp: Span, endNode: Option<nat>)
    requires WellFormed(P) && ValidSpan(P, sp) && Contained(P, sp) && EndOk(P, sp, endNode)
    ensures EndOk(P, sp, WalkEnd(P, sp, endNode))
  {
  }

  /** Every subtree starting in `[i, B)` ends by `B`. */
  ghost predicate SubtreesBefore(P: seq<Entry>, i: nat, B: nat)
  {
    forall v :: i <= v < B && v < |P| ==> P[v].end <= B
  }

  /** Inside a subtree ending at `B`, with the walk stopping at `B`, the next text leaf comes before `B`. */
  lemma {:induction false} NextTextBefore(P: seq<Entry>, i: nat, endNode: Option<nat>, start: nat, B: nat)
    requires WellFormed(P) && i < B <= |P| && (B < |P| ==> endNode == Some(B)) && SubtreesBefore(P, i, B)
    ensures NextTextNode(P, i, endNode, start).Some? ==> NextTextNode(P, i, endNode, start).value < B
    decreases |P| - i
  {
    if Some(i) != endNode && i != 0 {
      WellFormedAt(P, i);
      var next := Step(P, i, start);
      if next.Some? && next != Some(i) && next != endNode {
        assert i < next.value < B;
        NextTextBefore(P, next.value, endNode, start, B);
      }
    }
  }

  /** The walk from a leaf before `B`, stopping at `B`, gives ranges only on leaves before `B`. */
  lemma {:induction false} WalkBefore(P: seq<Entry>, sp: Span, ignore: seq<string>, curr: Option<nat>, endNode: Option<nat>, B: nat)
    requires WellFormed(P) && ValidSpan(P, sp) && B <= |P| && (B < |P| ==> endNode == Some(B))
    requires curr.Some? ==> curr.value < B && P[curr.value].node.Text? && SubtreesBefore(P, curr.value, B)
    ensures forall r :: r in WalkRanges(P, sp, ignore, curr, endNode).0 ==> r.leaf < B
    decreases if curr.Some? then |P| - curr.value else 0
  {
    if curr.Some? {
      var c := curr.value;
      WalkStep(P, sp, ignore, c, endNode);
      var next := NextTextNode(P, c, endNode, c);
      NextTextBefore(P, c, endNode, c, B);
      WalkBefore(P, sp, ignore, next, endNode, B);
    }
  }

  /**
   * With no `end`, the walk bounded by `WalkEnd` cuts only leaves of the
   * common ancestor's subtree, none past the range.
   */
  lemma BoundedWalkInside(P: seq<Entry>, sp: Span, ignore: seq<string>)
    requires WellFormed(P) && Nested(P) && ValidSpan(P, sp) && Contained(P, sp) && EndOk(P, sp, None)
    ensures EndOk(P, sp, WalkEnd(P, sp, None))
    ensures forall r :: r in Decomposition(P, sp, ignore, WalkEnd(P, sp, None)).0 ==>
      sp.common <= r.leaf < P[sp.common].end
  {
    var B, e := P[sp.common].end, WalkEnd(P, sp, None);
    var curr := WalkStart(P, sp, e);
    FirstLeafInside(P, sp, e);
    WalkOk(P, sp, ignore, curr, e, sp.start);
    WalkBefore(P, sp, ignore, curr, e, B);
  }

  /** With no `end`, the walk bounded by `WalkEnd` starts inside the common ancestor's subtree. */
  lemma FirstLeafInside(P: seq<Entry>, sp: Span, e: Option<nat>)
    requires WellFormed(P) && Nested(P) && ValidSpan(P, sp) && Contained(P, sp) && EndOk(P, sp, None)
    requires e == WalkEnd(P, sp, None)
    ensures P[sp.common].end <= |P| && (P[sp.common].end < |P| ==> e == Some(P[sp.common].end))
    ensures WalkStart(P, sp, e).Some? ==>
      sp.start <= WalkStart(P, sp, e).value < P[sp.common].end &&
      SubtreesBefore(P, WalkStart(P, sp, e).value, P[sp.common].end)
  {
    var B := P[sp.common].end;
    WellFormedAt(P, sp.common);
    assert SubtreesBefore(P, sp.common, B);
    var first := FirstLeaf(P, sp, e);
    assert WalkStart(P, sp, e).Some? ==> WalkStart(P, sp, e) == first;
    if first.Some? {
      FirstLeafBefore(P, sp, e, B);
      assert SubtreesBefore(P, first.value, B);
    }
  }

  /** The first leaf lies from the start container on and before a stop `B` that ends the start container's enclosing subtree. */
  lemma FirstLeafBefore(P: seq<Entry>, sp: Span, e: Option<nat>, B: nat)
    requires WellFormed(P) && ValidSpan(P, sp) && sp.start < B <= |P| && (B < |P| ==> e == Some(B))
    requires SubtreesBefore(P, sp.start, B)
    ensures FirstLeaf(P, sp, e).Some? ==> sp.start <= FirstLeaf(P, sp, e).value < B
  {
    if P[sp.start].node.Element? && P[sp.start].node.kind == Html {
      var j := ChildAt(P, sp.start, sp.startOffset);
      if j.Some? {
        WellFormedAt(P, j.value);
        assert P[j.value].end <= P[sp.start].end <= B;
      }
    } else if P[sp.start].node.Element? {
      NextTextBefore(P, sp.start, e, sp.start, B);
    }
  }

  // ---------------------------------------------------------------------
  // The decomposition as written
  // ---------------------------------------------------------------------

  /**
   * The decomposition exactly as the source has it: the loop body runs for
   * the first leaf even when that leaf is the end node, and the end node is
   * cut at the end offset whenever it is a highlightable text leaf, also
   * when it is the child just past an end boundary at an element; an end
   * offset past that leaf's text throws.
   */
  function DecompositionAsWritten(P: seq<Entry>, sp: Span, ignore: seq<string>): (r: Result<(seq<LeafRange>, bool), string>)
    requires WellFormed(P) && ValidSpan(P, sp)
  {
    if Collapsed(sp) then Ok(([], false))
    else if OneLeaf(P, sp, EndNode(P, sp)) then
      if NodeIsHighlightable(P, sp.start, ignore) then Ok(([LeafRange(sp.start, sp.startOffset, sp.endOffset)], true))
      else Ok(([], false))
    else
      var endNode := EndNode(P, sp);
      var walk := WalkRanges(P, sp, ignore, FirstLeaf(P, sp, EndNode(P, sp)), endNode);
      if endNode.Some? && P[endNode.value].node.Text? && NodeIsHighlightable(P, endNode.value, ignore) then
        if sp.endOffset > |P[endNode.value].node.data| then Err("IndexSizeError")
        else Ok((walk.0 + SetRange(endNode.value, 0, sp.endOffset), walk.1))
      else Ok(walk)
  }

  /**
   * A selection ending at an element boundary, with a text leaf as the
   * next child: as written, that leaf, which lies wholly past the range,
   * loses its first `endOffset` characters to the highlight.
   */
  lemma PastEndBoundary(P: seq<Entry>, sp: Span, ignore: seq<string>, t: nat)
    requires WellFormed(P) && ValidSpan(P, sp) && !Collapsed(sp)
    requires sp.finish == sp.common && P[sp.finish].node.Element?
    requires ChildAt(P, sp.common, sp.endOffset) == Some(t) && P[t].node.Text? && NodeIsHighlightable(P, t, ignore)
    requires 0 < sp.endOffset <= |P[t].node.data|
    ensures t != sp.finish && P[t].parent == sp.finish && P[t].index == sp.endOffset
    ensures DecompositionAsWritten(P, sp, ignore).Ok?
    ensures LeafRange(t, 0, sp.endOffset) in DecompositionAsWritten(P, sp, ignore).value.0
  {
  }

  /**
   * A selection whose walk starts at the end leaf (the start container is
   * an element just before it): as written, the loop takes the end leaf
   * whole, past the end offset.
   */
  lemma PastEndOffset(P: seq<Entry>, sp: Span, ignore: seq<string>)
    requires WellFormed(P) && ValidSpan(P, sp) && !Collapsed(sp) && sp.start != sp.finish
    requires P[sp.finish].node.Text? && FirstLeaf(P, sp, EndNode(P, sp)) == Some(sp.finish) && NodeIsHighlightable(P, sp.finish, ignore)
    requires sp.endOffset < |P[sp.finish].node.data|
    ensures DecompositionAsWritten(P, sp, ignore).Ok?
    ensures LeafRange(sp.finish, 0, |P[sp.finish].node.data|) in DecompositionAsWritten(P, sp, ignore).value.0
  {
    WalkStep(P, sp, ignore, sp.finish, Some(sp.finish));
  }

  /** `<body><p>ab</p>cd</body>`, the body marked highlightable. */
  function ParagraphThenText(): Node
  {
    var a := Attrs(None, None, false, false, true, {});
    Element(0, "body", Html, a.(highlightable := true), [Element(1, "p", Html, a, [Text(2, "ab")]), Text(3, "cd")])
  }

  /** The page of `ParagraphThenText` in document order. */
  lemma ParagraphThenTextOrder()
    ensures var doc, cs := ParagraphThenText(), ParagraphThenText().children;
      Order(doc) == [
        Entry(doc, -1, 0, 4, [doc]),
        Entry(cs[0], 0, 0, 3, cs),
        Entry(Text(2, "ab"), 1, 0, 3, [Text(2, "ab")]),
        Entry(cs[1], 0, 1, 4, cs)]
  {
    var doc := ParagraphThenText();
    var cs := doc.children;
    var t2 := Text(2, "ab");
    assert OrderAt(cs[0], 1, 0, 0, cs) == [Entry(cs[0], 0, 0, 3, cs), Entry(t2, 1, 0, 3, [t2])] by {
      assert OrderSeq([t2], 2, 1, 0, [t2]) == OrderAt(t2, 2, 1, 0, [t2]) + OrderSeq([], 3, 1, 1, [t2]);
    }
    assert OrderSeq(cs, 1, 0, 0, cs) == OrderAt(cs[0], 1, 0, 0, cs) + [Entry(cs[1], 0, 1, 4, cs)] by {
      assert Size(cs[0]) == 2 && cs[1..][0] == cs[1] && cs[1..][1..] == [];
      assert OrderSeq(cs[1..], 3, 0, 1, cs) == OrderAt(cs[1], 3, 0, 1, cs) + OrderSeq([], 4, 0, 2, cs);
    }
  }

  /** The range over the paragraph's contents: no `end`, and the walk starts at the paragraph's text. */
  lemma ParagraphSpan()
    ensures WellFormed(Order(ParagraphThenText())) && ValidSpan(Order(ParagraphThenText()), Span(1, 0, 1, 1, 1))
    ensures var P, sp := Order(ParagraphThenText()), Span(1, 0, 1, 1, 1);
      |P| == 4 && P[1].end == 3 && Contained(P, sp) && EndNode(P, sp).None? && !Collapsed(sp) &&
      FirstLeaf(P, sp, None) == Some(2) && FirstLeaf(P, sp, Some(3)) == Some(2) &&
      P[2].node == Text(2, "ab") && P[3].node == Text(3, "cd") &&
      NodeIsHighlightable(P, 2, []) && NodeIsHighlightable(P, 3, [])
  {
    OrderWellFormed(ParagraphThenText());
    ParagraphThenTextOrder();
    var P := Order(ParagraphThenText());
    assert ChildAt(P, 1, 0) == Some(2) && ChildAt(P, 1, 1).None?;
  }

  /** From the paragraph's text, a walk with no `end` reports the text after the paragraph, and then nothing. */
  lemma ParagraphSteps()
    ensures WellFormed(Order(ParagraphThenText())) && |Order(ParagraphThenText())| == 4
    ensures var P := Order(ParagraphThenText());
      NextTextNode(P, 2, None, 2) == Some(3) && NextTextNode(P, 3, None, 3).None? &&
      NextTextNode(P, 2, Some(3), 2).None?
  {
    OrderWellFormed(ParagraphThenText());
    ParagraphThenTextOrder();
    var P := Order(ParagraphThenText());
    assert !Blank("cd") by { assert !IsSpace("cd"[0]); }
    assert Step(P, 2, 2) == Some(3) && Step(P, 3, 2) == Some(3) && Step(P, 3, 3) == None;
    StepsOn(P, 2, None, 2);
    StepsOn(P, 3, None, 2);
    StepsOn(P, 3, None, 3);
    StepsOn(P, 2, Some(3), 2);
  }

  /** The walk from the paragraph's text: on into the text after it with no `end`, only the paragraph's text when stopped at 3. */
  lemma ParagraphWalks()
    ensures WellFormed(Order(ParagraphThenText())) && ValidSpan(Order(ParagraphThenText()), Span(1, 0, 1, 1, 1))
    ensures var P, sp := Order(ParagraphThenText()), Span(1, 0, 1, 1, 1);
      |P| == 4 && P[2].node.Text? &&
      WalkRanges(P, sp, [], Some(2), None).0 == [LeafRange(2, 0, 2), LeafRange(3, 0, 2)] &&
      WalkRanges(P, sp, [], Some(2), Some(3)).0 == [LeafRange(2, 0, 2)]
  {
    ParagraphSpan();
    ParagraphSteps();
    var P, sp := Order(ParagraphThenText()), Span(1, 0, 1, 1, 1);
    WalkOfTwo(P, sp, [], 2, 3, None);
    WalkOfOne(P, sp, [], 2, Some(3));
  }

  /** A walk over two highlightable leaves gives their two ranges. */
  lemma WalkOfTwo(P: seq<Entry>, sp: Span, ignore: seq<string>, a: nat, b: nat, endNode: Option<nat>)
    requires WellFormed(P) && ValidSpan(P, sp) && a < |P| && P[a].node.Text? && b < |P| && P[b].node.Text?
    requires NodeIsHighlightable(P, a, ignore) && NodeIsHighlightable(P, b, ignore)
    requires NextTextNode(P, a, endNode, a) == Some(b) && NextTextNode(P, b, endNode, b).None?
    ensures WalkRanges(P, sp, ignore, Some(a), endNode).0 == OwnRange(P, sp, a) + OwnRange(P, sp, b)
  {
    WalkStep(P, sp, ignore, b, endNode);
    WalkStep(P, sp, ignore, a, endNode);
  }

  /** A walk over one highlightable leaf gives its range. */
  lemma WalkOfOne(P: seq<Entry>, sp: Span, ignore: seq<string>, a: nat, endNode: Option<nat>)
    requires WellFormed(P) && ValidSpan(P, sp) && a < |P| && P[a].node.Text? && NodeIsHighlightable(P, a, ignore)
    requires NextTextNode(P, a, endNode, a).None?
    ensures WalkRanges(P, sp, ignore, Some(a), endNode).0 == OwnRange(P, sp, a)
  {
    WalkStep(P, sp, ignore, a, endNode);
  }

  /**
   * A range over the contents of the paragraph of `ParagraphThenText` (what
   * `selectNodeContents` gives): its end boundary is after the paragraph's
   * last child, so there is no `end`. As written, the walk goes on past the
   * paragraph and cuts the text after it; stopped at `WalkEnd`, it cuts the
   * paragraph's text only.
   */
  lemma PastCommonAncestor()
    ensures WellFormed(Order(ParagraphThenText())) && ValidSpan(Order(ParagraphThenText()), Span(1, 0, 1, 1, 1))
    ensures var P, sp := Order(ParagraphThenText()), Span(1, 0, 1, 1, 1);
      Contained(P, sp) && EndNode(P, sp).None? &&
      DecompositionAsWritten(P, sp, []).Ok? &&
      LeafRange(3, 0, 2) in DecompositionAsWritten(P, sp, []).value.0 &&
      EndOk(P, sp, WalkEnd(P, sp, None)) &&
      Decomposition(P, sp, [], WalkEnd(P, sp, None)).0 == [LeafRange(2, 0, 2)]
  {
    ParagraphSpan();
    ParagraphWalks();
    var P, sp := Order(ParagraphThenText()), Span(1, 0, 1, 1, 1);
    assert WalkEnd(P, sp, None) == Some(3) && WalkStart(P, sp, Some(3)) == Some(2);
    assert !OneLeaf(P, sp, None) && !OneLeaf(P, sp, Some(3)) && LastRange(P, sp, []) == [];
  }

  /** One step of `#nextTextNode` from `i`: stop, report `i`, or go on from the next node. */
  lemma StepsOn(P: seq<Entry>, i: nat, end: Option<nat>, start: nat)
    requires WellFormed(P) && 0 < i < |P| && Some(i) != end
    ensures Step(P, i, start) == Some(i) ==> NextTextNode(P, i, end, start) == Some(i)
    ensures Step(P, i, start).None? || Step(P, i, start) == end ==> NextTextNode(P, i, end, start).None?
    ensures Step(P, i, start).Some? && Step(P, i, start) != Some(i) && Step(P, i, start) != end ==>
      NextTextNode(P, i, end, start) == NextTextNode(P, Step(P, i, start).value, end, start)
  {
  }
}
