/**
 * `#mergeAdjacentById`: a highlight absorbs the neighbouring highlights
 * that carry the same id, then is cleaned and its text leaves coalesced.
 * The node is given as its index `k` in its parent's child list.
 */
module Merge {
  import opened Wrappers
  import opened Dom
  import opened Regions
  import opened Coalesce

  /** Two highlights carrying the same region id. */
  predicate SameRegion(a: Node, b: Node)
  {
    IsHighlight(a) && IsHighlight(b) && a.attrs.hlId == b.attrs.hlId
  }

  /** The next sibling is absorbed: merging forward is on and it is the same region. */
  predicate TakesNext(cs: seq<Node>, k: nat, mergeNext: bool)
    requires k < |cs|
  {
    mergeNext && k + 1 < |cs| && SameRegion(cs[k], cs[k + 1])
  }

  /** The previous sibling is absorbed. */
  predicate TakesPrev(cs: seq<Node>, k: nat)
    requires k < |cs|
  {
    0 < k && SameRegion(cs[k], cs[k - 1])
  }

  /** First index of the run of siblings the merge replaces. */
  function Lo(cs: seq<Node>, k: nat): (lo: nat)
    requires k < |cs|
    ensures lo <= k && (lo < k <==> TakesPrev(cs, k))
  {
    if TakesPrev(cs, k) then k - 1 else k
  }

  /** First index past the run of siblings the merge replaces. */
  function Hi(cs: seq<Node>, k: nat, mergeNext: bool): (hi: nat)
    requires k < |cs|
    ensures k < hi <= |cs| && (hi == k + 2 <==> TakesNext(cs, k, mergeNext))
  {
    if TakesNext(cs, k, mergeNext) then k + 2 else k + 1
  }

  /** The children the merged node ends up holding, before cleaning, in document order. */
  function Joined(cs: seq<Node>, k: nat, mergeNext: bool): (r: seq<Node>)
    requires k < |cs| && cs[k].Element?
    ensures ContentSeq(r) ==
      (if TakesPrev(cs, k) then Content(cs[k - 1]) else "") + Content(cs[k]) +
      (if TakesNext(cs, k, mergeNext) then Content(cs[k + 1]) else "")
  {
    var before := if TakesPrev(cs, k) then cs[k - 1].children else [];
    var after := if TakesNext(cs, k, mergeNext) then cs[k + 1].children else [];
    ContentSeqAppend(before + cs[k].children, after);
    ContentSeqAppend(before, cs[k].children);
    before + cs[k].children + after
  }

  /** Content of a list cut into three consecutive parts. */
  lemma {:induction false} ContentThree(cs: seq<Node>, lo: nat, hi: nat)
    requires lo <= hi <= |cs|
    ensures ContentSeq(cs) == ContentSeq(cs[..lo]) + ContentSeq(cs[lo..hi]) + ContentSeq(cs[hi..])
  {
    var a, b, c := cs[..lo], cs[lo..hi], cs[hi..];
    assert cs == a + b + c;
    ContentSeqAppend(a + b, c);
    ContentSeqAppend(a, b);
  }

  /** Replacing a run of siblings by one node with the same text keeps the text of the list. */
  lemma {:induction false} ReplaceRun(cs: seq<Node>, lo: nat, hi: nat, n: Node)
    requires lo <= hi <= |cs| && Content(n) == ContentSeq(cs[lo..hi])
    ensures ContentSeq(cs[..lo] + [n] + cs[hi..]) == ContentSeq(cs)
  {
    ContentThree(cs, lo, hi);
    ContentSeqAppend(cs[..lo] + [n], cs[hi..]);
    ContentSeqAppend(cs[..lo], [n]);
    ContentSeqSingle(n);
  }

  /** Text of a run of one, two or three siblings. */
  lemma {:induction false} RunContent(cs: seq<Node>, lo: nat, hi: nat)
    requires lo < hi <= |cs| && hi <= lo + 3
    ensures ContentSeq(cs[lo..hi]) ==
      Content(cs[lo]) + (if lo + 1 < hi then Content(cs[lo + 1]) else "") +
      (if lo + 2 < hi then Content(cs[lo + 2]) else "")
  {
    var run := cs[lo..hi];
    ContentSeqSingle(cs[lo]);
    if lo + 2 < hi {
      assert run == [cs[lo]] + ([cs[lo + 1]] + [cs[lo + 2]]);
      ContentSeqAppend([cs[lo]], [cs[lo + 1]] + [cs[lo + 2]]);
      ContentSeqAppend([cs[lo + 1]], [cs[lo + 2]]);
      ContentSeqSingle(cs[lo + 1]);
      ContentSeqSingle(cs[lo + 2]);
    } else if lo + 1 < hi {
      assert run == [cs[lo]] + [cs[lo + 1]];
      ContentSeqAppend([cs[lo]], [cs[lo + 1]]);
      ContentSeqSingle(cs[lo + 1]);
    } else {
      assert run == [cs[lo]];
    }
  }

  /** The run the merge replaces holds the text of the merged children. */
  lemma RunIsJoined(cs: seq<Node>, k: nat, mergeNext: bool)
    requires k < |cs| && cs[k].Element?
    ensures ContentSeq(cs[Lo(cs, k)..Hi(cs, k, mergeNext)]) == ContentSeq(Joined(cs, k, mergeNext))
  {
    var lo, hi := Lo(cs, k), Hi(cs, k, mergeNext);
    RunContent(cs, lo, hi);
    var a, b := TakesPrev(cs, k), TakesNext(cs, k, mergeNext);
    if a && b {
      assert lo == k - 1 && hi == k + 2;
      assert ContentSeq(cs[lo..hi]) == Content(cs[k - 1]) + Content(cs[k]) + Content(cs[k + 1]);
    } else if a {
      assert lo == k - 1 && hi == k + 1;
      assert ContentSeq(cs[lo..hi]) == Content(cs[k - 1]) + Content(cs[k]) + "";
    } else if b {
      assert lo == k && hi == k + 2;
      assert ContentSeq(cs[lo..hi]) == "" + Content(cs[k]) + Content(cs[k + 1]);
    } else {
      assert lo == k && hi == k + 1;
      assert ContentSeq(cs[lo..hi]) == "" + Content(cs[k]) + "";
    }
  }

  /** Replacing the absorbed siblings and the node by the joined node keeps the text. */
  lemma {:induction false} MergedContent(cs: seq<Node>, k: nat, mergeNext: bool)
    requires k < |cs| && cs[k].Element?
    ensures ContentSeq(cs[..Lo(cs, k)] + [cs[k].(children := Joined(cs, k, mergeNext))] + cs[Hi(cs, k, mergeNext)..])
         == ContentSeq(cs)
  {
    var lo, hi := Lo(cs, k), Hi(cs, k, mergeNext);
    var node := cs[k].(children := Joined(cs, k, mergeNext));
    RunIsJoined(cs, k, mergeNext);
    ReplaceRun(cs, lo, hi, node);
  }

  /** `while ((child = from.firstChild)) node.append(child)`: the children of `from` move to the end of `node`. */
  method AppendChildren(node: Node, from: Node) returns (r: Node)
    requires node.Element? && from.Element?
    ensures r == node.(children := node.children + from.children)
  {
    var own := node.children;
    var moving := from.children;
    while moving != []
      invariant own + moving == node.children + from.children
      decreases |moving|
    {
      own := own + [moving[0]];
      moving := moving[1..];
    }
    r := node.(children := own);
  }

  /** `while ((child = from.lastChild)) node.prepend(child)`: the children of `from` move to the front of `node`, in order. */
  method PrependChildren(node: Node, from: Node) returns (r: Node)
    requires node.Element? && from.Element?
    ensures r == node.(children := from.children + node.children)
  {
    var own := node.children;
    var moving := from.children;
    while moving != []
      invariant moving + own == from.children + node.children
      decreases |moving|
    {
      own := [moving[|moving| - 1]] + own;
      moving := moving[..|moving| - 1];
    }
    r := node.(children := own);
  }

  /**
   * The first half of `#mergeAdjacentById` on a highlight: the same-id
   * neighbours hand their children over and are removed. Answers the new
   * list and the node's new index.
   */
  method AbsorbSameId(cs: seq<Node>, k: nat, mergeNext: bool) returns (kids: seq<Node>, at: nat)
    requires k < |cs| && IsHighlight(cs[k])
    ensures at == Lo(cs, k)
    ensures kids == cs[..Lo(cs, k)] + [cs[k].(children := Joined(cs, k, mergeNext))] + cs[Hi(cs, k, mergeNext)..]
  {
    var node := cs[k];
    var takePrev := TakesPrev(cs, k);
    ghost var rest := cs[Hi(cs, k, mergeNext)..];
    kids, at := cs, k;
    if TakesNext(cs, k, mergeNext) {
      node := AppendChildren(node, cs[k + 1]);
      kids := kids[..k] + [node] + kids[k + 2..];
    } else {
      assert cs == cs[..k] + [cs[k]] + cs[k + 1..];
    }
    assert kids == cs[..k] + [node] + rest;
    if takePrev {
      SpliceParts(cs[..k], node, rest);
      assert kids[..k - 1] == cs[..k - 1];
      node := PrependChildren(node, cs[k - 1]);
      kids := kids[..k - 1] + [node] + kids[k + 1..];
      at := k - 1;
    }
    assert node.children == Joined(cs, k, mergeNext);
  }

  /** Dropping an empty end leaf only removes a node. */
  lemma DropEmptyUids(cs: seq<Node>)
    ensures UidsOf(DropFirstEmpty(cs)) <= UidsOf(cs)
    ensures UidsOf(DropLastEmpty(cs)) <= UidsOf(cs)
  {
    if cs != [] {
      UidsSlice(cs, 1, |cs|);
      UidsSlice(cs, 0, |cs| - 1);
    }
  }

  /**
   * The merge keeps no node but those of the run it replaces and the
   * siblings around it: the nodes up to the merged one come from the list
   * up to `cs[k]`, the nodes after it from the list past the run.
   */
  lemma MergeUids(cs: seq<Node>, k: nat, mergeNext: bool, r: seq<Node>, at: nat)
    requires k < |cs| && at < |r|
    requires r[..at] == DropLastEmpty(cs[..Lo(cs, k)])
    requires r[at + 1..] == DropFirstEmpty(cs[Hi(cs, k, mergeNext)..])
    requires r[at].uid == cs[k].uid
    ensures UidsOf(r[..at + 1]) <= UidsOf(cs[..k + 1])
    ensures UidsOf(r[at + 1..]) <= UidsOf(cs[Hi(cs, k, mergeNext)..])
    ensures UidsOf(r) <= UidsOf(cs)
  {
    var lo, hi := Lo(cs, k), Hi(cs, k, mergeNext);
    DropEmptyUids(cs[..lo]);
    DropEmptyUids(cs[hi..]);
    UidsPrefix(cs, lo, k);
    UidsSplit(r, at);
    UidsWithin(cs, k, hi, r, at);
  }

  lemma UidsWithin(cs: seq<Node>, k: nat, hi: nat, r: seq<Node>, at: nat)
    requires k < hi <= |cs| && at < |r|
    requires UidsOf(r[..at + 1]) <= UidsOf(cs[..k + 1]) && UidsOf(r[at + 1..]) <= UidsOf(cs[hi..])
    ensures UidsOf(r) <= UidsOf(cs)
  {
    UidsSplit(r, at);
    UidsSlice(cs, 0, k + 1);
    UidsSlice(cs, hi, |cs|);
    assert cs[hi..|cs|] == cs[hi..];
  }

  /** The uids of a prefix up to `lo` and the uid at `k`, for `lo <= k`, are uids of the prefix through `k`. */
  lemma UidsPrefix(cs: seq<Node>, lo: nat, k: nat)
    requires lo <= k < |cs|
    ensures UidsOf(cs[..lo]) <= UidsOf(cs[..k + 1]) && cs[k].uid in UidsOf(cs[..k + 1])
  {
    assert cs[..lo] == cs[..k + 1][..lo];
    UidsSlice(cs[..k + 1], 0, lo);
    assert cs[..k + 1][k] == cs[k];
  }

  /** The uids of a list cut at `at`. */
  lemma UidsSplit(r: seq<Node>, at: nat)
    requires at < |r|
    ensures UidsOf(r[..at + 1]) == UidsOf(r[..at]) + {r[at].uid}
    ensures UidsOf(r) == UidsOf(r[..at + 1]) + UidsOf(r[at + 1..])
  {
    assert r[..at + 1] == r[..at] + [r[at]];
    UidsAppend(r[..at], [r[at]]);
    assert UidsOf([r[at]]) == {r[at].uid};
    assert r == r[..at + 1] + r[at + 1..];
    UidsAppend(r[..at + 1], r[at + 1..]);
  }

  /**
   * The list `#mergeAdjacentById` leaves, as `MergeAdjacentById` ensures:
   * a node that is not a highlight changes nothing; otherwise the run
   * around it is replaced by the node, which keeps its tag and attributes.
   */
  ghost predicate MergeShape(cs: seq<Node>, k: nat, mergeNext: bool, r: seq<Node>, at: nat)
    requires k < |cs|
  {
    at < |r| &&
    (!IsHighlight(cs[k]) ==> r == cs) &&
    (IsHighlight(cs[k]) ==>
      r[..at] == DropLastEmpty(cs[..Lo(cs, k)]) &&
      r[at + 1..] == DropFirstEmpty(cs[Hi(cs, k, mergeNext)..]) &&
      r[at].Element? && r[at] == cs[k].(children := r[at].children))
  }

  /**
   * `#mergeAdjacentById(node, mergeNext)`. A node that is not a highlight
   * is left alone. Otherwise the next sibling (when `mergeNext`) and the
   * previous sibling, when each is a highlight with the node's id, hand
   * their children over in document order and are removed; then the empty
   * text leaves around and at the ends of the node are dropped and its text
   * leaves coalesced. Every other sibling keeps its place.
   */
  method MergeAdjacentById(cs: seq<Node>, k: nat, mergeNext: bool) returns (r: seq<Node>, at: nat)
    requires k < |cs|
    ensures at < |r|
    ensures !IsHighlight(cs[k]) ==> r == cs && at == k
    ensures IsHighlight(cs[k]) ==>
      r[..at] == DropLastEmpty(cs[..Lo(cs, k)]) &&
      r[at + 1..] == DropFirstEmpty(cs[Hi(cs, k, mergeNext)..]) &&
      r[at] == cs[k].(children := FixedText(DropLastEmpty(DropFirstEmpty(Joined(cs, k, mergeNext)))))
    ensures MergeShape(cs, k, mergeNext, r, at)
    ensures ContentSeq(r) == ContentSeq(cs)
    ensures LabelsOf(r) == LabelsOf(cs)
    ensures UidsOf(r) <= UidsOf(cs)
    ensures FlatSeq(cs) ==> FlatSeq(r)
  {
    if !IsHighlight(cs[k]) {
      return cs, k;
    }
    var kids;
    kids, at := AbsorbSameId(cs, k, mergeNext);
    ghost var lo, hi := Lo(cs, k), Hi(cs, k, mergeNext);
    ghost var node := cs[k].(children := Joined(cs, k, mergeNext));
    assert ContentSeq(kids) == ContentSeq(cs) by {
      MergedContent(cs, k, mergeNext);
    }
    // #cleanNode(node)
    var cleaned := CleanNode(kids, at);
    var before, after := cleaned.0[..cleaned.1], cleaned.0[cleaned.1 + 1..];
    var merged := cleaned.0[cleaned.1];
    assert before == DropLastEmpty(cs[..lo]) && after == DropFirstEmpty(cs[hi..]) && merged == CleanEnds(node) by {
      SpliceParts(cs[..lo], node, cs[hi..]);
    }
    assert ContentSeq(before + [merged] + after) == ContentSeq(cs) by {
      assert cleaned.0 == before + [merged] + after;
    }
    // #fixTextContent(node)
    var fixed := FixTextContent(merged.children);
    r, at := before + [merged.(children := fixed)] + after, |before|;
    assert ContentSeq(r) == ContentSeq(cs) by {
      FixedTextContent(merged.children);
      ContentSeqSingle(merged);
      ContentSeqSingle(merged.(children := fixed));
      ContentSeqAppend(before + [merged], after);
      ContentSeqAppend(before, [merged]);
      ContentSeqAppend(before + [merged.(children := fixed)], after);
      ContentSeqAppend(before, [merged.(children := fixed)]);
    }
    SpliceParts(before, merged.(children := fixed), after);
    if FlatSeq(cs) {
      MergedListFlat(cs, k, mergeNext, r, at);
    }
    MergeLabels(cs, k, mergeNext, r, at);
    MergeUids(cs, k, mergeNext, r, at);
  }

  /** Dropping an empty first leaf leaves every character in its region. */
  lemma DropFirstLabels(cs: seq<Node>)
    ensures LabelsOf(DropFirstEmpty(cs)) == LabelsOf(cs)
  {
    if cs != [] && IsEmpty(cs[0]) {
      assert cs == [cs[0]] + cs[1..];
      LabelsAppend([cs[0]], cs[1..]);
      LabelsSingle(cs[0]);
    }
  }

  /** Dropping an empty last leaf leaves every character in its region. */
  lemma DropLastLabels(cs: seq<Node>)
    ensures LabelsOf(DropLastEmpty(cs)) == LabelsOf(cs)
  {
    if cs != [] && IsEmpty(cs[|cs| - 1]) {
      var n := |cs| - 1;
      assert cs == cs[..n] + [cs[n]];
      LabelsAppend(cs[..n], [cs[n]]);
      LabelsSingle(cs[n]);
    }
  }

  /** Dropping an empty leaf at either end leaves every character in its region. */
  lemma DropEmptyLabels(cs: seq<Node>)
    ensures LabelsOf(DropFirstEmpty(cs)) == LabelsOf(cs)
    ensures LabelsOf(DropLastEmpty(cs)) == LabelsOf(cs)
  {
    DropFirstLabels(cs);
    DropLastLabels(cs);
  }

  /** The labels of a list around its node at `at`. */
  lemma LabelsAt(r: seq<Node>, at: nat)
    requires at < |r|
    ensures LabelsOf(r) == LabelsOf(r[..at]) + Repeat(Label(r[at]), |Content(r[at])|) + LabelsOf(r[at + 1..])
  {
    assert r == r[..at] + [r[at]] + r[at + 1..];
    LabelsAppend(r[..at] + [r[at]], r[at + 1..]);
    LabelsAppend(r[..at], [r[at]]);
    LabelsSingle(r[at]);
  }

  /** The labels of a list cut into three consecutive parts. */
  lemma LabelsThree(cs: seq<Node>, lo: nat, hi: nat)
    requires lo <= hi <= |cs|
    ensures LabelsOf(cs) == LabelsOf(cs[..lo]) + LabelsOf(cs[lo..hi]) + LabelsOf(cs[hi..])
  {
    assert cs == cs[..lo] + cs[lo..hi] + cs[hi..];
    LabelsAppend(cs[..lo] + cs[lo..hi], cs[hi..]);
    LabelsAppend(cs[..lo], cs[lo..hi]);
  }

  /**
   * The merged node holds its same-id neighbours' text, so every character
   * stays in the region it was in.
   */
  lemma MergeLabels(cs: seq<Node>, k: nat, mergeNext: bool, r: seq<Node>, at: nat)
    requires k < |cs| && IsHighlight(cs[k]) && at < |r|
    requires r[..at] == DropLastEmpty(cs[..Lo(cs, k)])
    requires r[at + 1..] == DropFirstEmpty(cs[Hi(cs, k, mergeNext)..])
    requires Label(r[at]) == Label(cs[k])
    requires ContentSeq(r) == ContentSeq(cs)
    ensures LabelsOf(r) == LabelsOf(cs)
  {
    var lo, hi := Lo(cs, k), Hi(cs, k, mergeNext);
    var l := Label(cs[k]);
    RunLabels(cs, k, mergeNext);
    DropEmptyLabels(cs[..lo]);
    DropEmptyLabels(cs[hi..]);
    LabelsThree(cs, lo, hi);
    LabelsAt(r, at);
    var A, B := LabelsOf(cs[..lo]), LabelsOf(cs[hi..]);
    var x, y := |Content(r[at])|, |ContentSeq(cs[lo..hi])|;
    assert LabelsOf(r) == A + Repeat(l, x) + B;
    assert LabelsOf(cs) == A + Repeat(l, y) + B;
    assert |LabelsOf(r)| == |LabelsOf(cs)|;
    assert x == y;
  }

  /** The nodes a merge joins all put their text in the merged node's region. */
  lemma RunLabels(cs: seq<Node>, k: nat, mergeNext: bool)
    requires k < |cs| && IsHighlight(cs[k])
    ensures LabelsOf(cs[Lo(cs, k)..Hi(cs, k, mergeNext)]) ==
      Repeat(Label(cs[k]), |ContentSeq(cs[Lo(cs, k)..Hi(cs, k, mergeNext)])|)
  {
    var run := cs[Lo(cs, k)..Hi(cs, k, mergeNext)];
    forall i | 0 <= i < |run| ensures Label(run[i]) == Label(cs[k]) {
      assert run[i] == cs[Lo(cs, k) + i];
    }
    UniformLabels(run, Label(cs[k]));
  }

  // ---------------------------------------------------------------------
  // Merging keeps regions flat
  // ---------------------------------------------------------------------

  /** Coalescing keeps a list flat and adds no highlight to it. */
  lemma FixedTextFlat(cs: seq<Node>)
    ensures FlatSeq(cs) ==> FlatSeq(FixedText(cs))
    ensures !HasHighlightSeq(cs) ==> !HasHighlightSeq(FixedText(cs))
  {
    var f := FixedText(cs);
    FlatSeqAll(cs);
    FlatSeqAll(f);
    HasHighlightSeqSome(cs);
    HasHighlightSeqSome(f);
    forall i | 0 <= i < |f| ensures f[i].Text? || f[i] in cs {
      FixedTextFrom(cs, i);
    }
  }

  /** Dropping an empty leaf at either end keeps a list flat and free of highlights. */
  lemma DropEmptyFlat(cs: seq<Node>)
    ensures FlatSeq(cs) ==> FlatSeq(DropFirstEmpty(cs)) && FlatSeq(DropLastEmpty(cs))
    ensures !HasHighlightSeq(cs) ==> !HasHighlightSeq(DropFirstEmpty(cs)) && !HasHighlightSeq(DropLastEmpty(cs))
  {
    if cs != [] {
      if FlatSeq(cs) {
        FlatSlice(cs, 1, |cs|);
        FlatSlice(cs, 0, |cs| - 1);
      }
      if !HasHighlightSeq(cs) {
        NoHighlightSlice(cs, 1, |cs|);
        NoHighlightSlice(cs, 0, |cs| - 1);
      }
      assert cs[1..|cs|] == cs[1..] && cs[0..|cs| - 1] == cs[..|cs| - 1];
    }
  }

  /**
   * When the siblings up to the absorbed ones are flat, so are the
   * siblings kept before the merged node, and the merged node is a flat
   * highlight: the children it gathers come from flat highlights, which
   * hold no highlight.
   */
  lemma MergedFlat(cs: seq<Node>, k: nat, mergeNext: bool)
    requires k < |cs| && IsHighlight(cs[k]) && FlatSeq(cs[..Hi(cs, k, mergeNext)])
    ensures FlatSeq(DropLastEmpty(cs[..Lo(cs, k)]))
    ensures Flat(cs[k].(children := FixedText(DropLastEmpty(DropFirstEmpty(Joined(cs, k, mergeNext))))))
  {
    var lo, hi := Lo(cs, k), Hi(cs, k, mergeNext);
    var run := cs[..hi];
    FlatSeqAll(run);
    FlatSlice(run, 0, lo);
    assert run[0..lo] == cs[..lo];
    DropEmptyFlat(cs[..lo]);
    var before := if TakesPrev(cs, k) then cs[k - 1].children else [];
    var after := if TakesNext(cs, k, mergeNext) then cs[k + 1].children else [];
    assert Flat(run[k]) && run[k] == cs[k];
    assert FlatSeq(before) && !HasHighlightSeq(before) by {
      if TakesPrev(cs, k) {
        assert Flat(run[k - 1]) && run[k - 1] == cs[k - 1];
      }
    }
    assert FlatSeq(after) && !HasHighlightSeq(after) by {
      if TakesNext(cs, k, mergeNext) {
        assert Flat(run[k + 1]) && run[k + 1] == cs[k + 1];
      }
    }
    var j := Joined(cs, k, mergeNext);
    assert j == before + cs[k].children + after;
    FlatSeqAppend(before, cs[k].children);
    FlatSeqAppend(before + cs[k].children, after);
    HasHighlightSeqAppend(before, cs[k].children);
    HasHighlightSeqAppend(before + cs[k].children, after);
    DropEmptyFlat(j);
    DropEmptyFlat(DropFirstEmpty(j));
    FixedTextFlat(DropLastEmpty(DropFirstEmpty(j)));
  }

  /** Merging a highlight with its same-id neighbours keeps a flat list flat. */
  lemma MergedListFlat(cs: seq<Node>, k: nat, mergeNext: bool, r: seq<Node>, at: nat)
    requires k < |cs| && IsHighlight(cs[k]) && FlatSeq(cs) && at < |r|
    requires r[..at] == DropLastEmpty(cs[..Lo(cs, k)])
    requires r[at + 1..] == DropFirstEmpty(cs[Hi(cs, k, mergeNext)..])
    requires r[at] == cs[k].(children := FixedText(DropLastEmpty(DropFirstEmpty(Joined(cs, k, mergeNext)))))
    ensures FlatSeq(r)
  {
    var hi := Hi(cs, k, mergeNext);
    FlatSlice(cs, 0, hi);
    assert cs[0..hi] == cs[..hi];
    MergedFlat(cs, k, mergeNext);
    FlatSlice(cs, hi, |cs|);
    assert cs[hi..|cs|] == cs[hi..];
    DropEmptyFlat(cs[hi..]);
    FlatAroundIndex(r, at);
  }
}
