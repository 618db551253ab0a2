/**
 * `#refreshId(id)`: after an edit, the regions carrying `id` may no longer
 * be one contiguous run. The walk goes from the first such region through
 * the parents of the following text leaves while they carry `id`; when it
 * meets a leaf under anything else, every region with `id` that it did not
 * visit is given one fresh id. Positions are positions in `Order(root)`;
 * the relabel itself acts on node identities.
 */
module Fork {
  import opened Wrappers
  import opened Dom
  import opened Regions
  import opened Walk

  /** Matched by `mark[data-text-highlighter="id"], s[…], u[…]`. */
  predicate Tagged(n: Node, id: string)
  {
    IsRegion(n) && n.attrs.hlId == Some(id)
  }

  /** `querySelectorAll`: the positions from `i` on whose node is tagged with `id`, in document order. */
  function TaggedFrom(P: seq<Entry>, id: string, i: nat): (r: seq<nat>)
    requires i <= |P|
    ensures forall j :: 0 <= j < |r| ==> i <= r[j] < |P| && Tagged(P[r[j]].node, id)
    decreases |P| - i
  {
    if i == |P| then []
    else if Tagged(P[i].node, id) then [i] + TaggedFrom(P, id, i + 1)
    else TaggedFrom(P, id, i + 1)
  }

  /** The tagged positions are listed in document order, each once. */
  lemma {:induction false} TaggedFromSorted(P: seq<Entry>, id: string, i: nat)
    requires i <= |P|
    ensures forall j, j' :: 0 <= j < j' < |TaggedFrom(P, id, i)| ==> TaggedFrom(P, id, i)[j] < TaggedFrom(P, id, i)[j']
    decreases |P| - i
  {
    if i < |P| {
      TaggedFromSorted(P, id, i + 1);
      if Tagged(P[i].node, id) {
        var rest := TaggedFrom(P, id, i + 1);
        var r := [i] + rest;
        assert TaggedFrom(P, id, i) == r;
        assert forall j :: 0 < j < |r| ==> r[j] == rest[j - 1];
      }
    }
  }

  /** No tagged position from `i` on is missed. */
  lemma {:induction false} TaggedFromHasAll(P: seq<Entry>, id: string, i: nat)
    requires i <= |P|
    ensures forall t :: i <= t < |P| && Tagged(P[t].node, id) ==> t in TaggedFrom(P, id, i)
    decreases |P| - i
  {
    if i < |P| {
      TaggedFromHasAll(P, id, i + 1);
    }
  }

  /** The tagged positions are listed in document order, each once, and none is missed. */
  lemma TaggedFromComplete(P: seq<Entry>, id: string, i: nat)
    requires i <= |P|
    ensures var r := TaggedFrom(P, id, i);
      (forall j, j' :: 0 <= j < j' < |r| ==> r[j] < r[j']) &&
      (forall t :: i <= t < |P| && Tagged(P[t].node, id) ==> t in r)
  {
    TaggedFromSorted(P, id, i);
    TaggedFromHasAll(P, id, i);
  }

  function Last(s: seq<nat>): nat
    requires s != []
  {
    s[|s| - 1]
  }

  /**
   * `this.#nextTextNode(curr, last)?.parentElement`: the parent of the next
   * text leaf after the subtree of `curr`, unless the walk meets `last` or
   * the root first. The parent always ends later than `curr`.
   */
  function NextParent(P: seq<Entry>, curr: nat, last: nat): (r: Option<nat>)
    requires WellFormed(P) && curr < |P|
    ensures r.Some? ==> r.value < |P| && P[curr].end < P[r.value].end
  {
    match NextTextNode(P, curr, Some(last), curr)
    case None => None
    case Some(t) =>
      WellFormedAt(P, curr);
      WellFormedAt(P, t);
      Some(P[t].parent as nat)
  }

  /**
   * The walk's `matches`: it starts at a position, each next member is the
   * parent of the next leaf after the previous one, and every member
   * carries `id`.
   */
  ghost predicate Chain(P: seq<Entry>, id: string, last: nat, ms: seq<nat>)
    requires WellFormed(P)
  {
    ms != [] &&
    (forall j :: 0 <= j < |ms| ==> ms[j] < |P| && HasId(P[ms[j]].node, id)) &&
    (forall j :: 0 <= j < |ms| - 1 ==> NextParent(P, ms[j], last) == Some(ms[j + 1]))
  }

  lemma ChainExtend(P: seq<Entry>, id: string, last: nat, ms: seq<nat>, x: nat)
    requires WellFormed(P) && Chain(P, id, last, ms)
    requires x < |P| && HasId(P[x].node, id) && NextParent(P, ms[|ms| - 1], last) == Some(x)
    ensures Chain(P, id, last, ms + [x])
  {
    var ms' := ms + [x];
    assert forall j :: 0 <= j < |ms| ==> ms'[j] == ms[j];
  }

  /**
   * Where the walk from `curr` ends: it finds no further leaf before `last`
   * (no overlap), or a leaf whose parent does not carry `id` (overlap).
   */
  ghost predicate StopsAt(P: seq<Entry>, id: string, last: nat, curr: nat, overlap: bool)
    requires WellFormed(P) && curr < |P|
  {
    var next := NextParent(P, curr, last);
    if overlap then next.Some? && !HasId(P[next.value].node, id) else next.None?
  }

  /** The identities of the tagged positions the walk did not visit. */
  function Unvisited(P: seq<Entry>, nodes: seq<nat>, matches: seq<nat>): (u: set<nat>)
    requires forall j :: 0 <= j < |nodes| ==> nodes[j] < |P|
    ensures forall j :: 0 <= j < |nodes| && nodes[j] !in matches ==> P[nodes[j]].node.uid in u
    ensures forall x :: x in u ==> exists j :: 0 <= j < |nodes| && nodes[j] !in matches && P[nodes[j]].node.uid == x
  {
    set j | 0 <= j < |nodes| && nodes[j] !in matches :: P[nodes[j]].node.uid
  }

  /** Every element whose identity is in `u` gets the region id `newid`; nothing else changes. */
  function SetIds(n: Node, u: set<nat>, newid: string): (r: Node)
    ensures r.uid == n.uid && r.Text? == n.Text?
    decreases n
  {
    match n
    case Text(_, _) => n
    case Element(uid, tag, kind, attrs, cs) =>
      Element(uid, tag, kind, if uid in u then attrs.(hlId := Some(newid)) else attrs, SetIdsSeq(cs, u, newid))
  }

  function SetIdsSeq(cs: seq<Node>, u: set<nat>, newid: string): (r: seq<Node>)
    ensures |r| == |cs|
    decreases cs
  {
    if cs == [] then [] else [SetIds(cs[0], u, newid)] + SetIdsSeq(cs[1..], u, newid)
  }

  /**
   * The loop of `#refreshId`: from `first`, collect the parents of the
   * following leaves while they carry `id`; answers the chain and whether
   * the walk stopped at an overlap.
   */
  method WalkMatches(P: seq<Entry>, id: string, first: nat, last: nat) returns (matches: seq<nat>, overlap: bool)
    requires WellFormed(P) && first < |P| && HasId(P[first].node, id)
    ensures Chain(P, id, last, matches) && matches[0] == first
    ensures StopsAt(P, id, last, Last(matches), overlap)
  {
    var curr := first;
    matches := [curr];
    var done := false;
    overlap := false;
    while !done
      invariant curr < |P| && matches != [] && matches[0] == first && matches[|matches| - 1] == curr
      invariant Chain(P, id, last, matches)
      invariant !done ==> !overlap
      invariant done ==> StopsAt(P, id, last, curr, overlap)
      decreases if done then 0 else 1, |P| - P[curr].end
    {
      var next := NextParent(P, curr, last);
      if next.None? {
        done := true;
      } else if !HasId(P[next.value].node, id) {
        overlap, done := true, true;
      } else {
        ChainExtend(P, id, last, matches, next.value);
        matches := matches + [next.value];
        curr := next.value;
      }
    }
  }

  /**
   * `#refreshId(id)` over the document `root`, with `newid` standing for
   * `crypto.randomUUID()`. Answers the new document, the walked `matches`
   * and whether the id was forked. With fewer than two tagged regions
   * nothing happens; otherwise the walk runs from the first to the last
   * tagged region, and the id is forked exactly when it stopped at a leaf
   * whose parent does not carry `id`.
   */
  method RefreshId(root: Node, id: string, newid: string) returns (r: Node, matches: seq<nat>, forked: bool)
    ensures WellFormed(Order(root))
    ensures |TaggedFrom(Order(root), id, 0)| <= 1 ==> !forked && matches == []
    ensures |TaggedFrom(Order(root), id, 0)| >= 2 ==>
      Chain(Order(root), id, Last(TaggedFrom(Order(root), id, 0)), matches) &&
      matches[0] == TaggedFrom(Order(root), id, 0)[0] &&
      StopsAt(Order(root), id, Last(TaggedFrom(Order(root), id, 0)), Last(matches), forked)
    ensures !forked ==> r == root
    ensures forked ==> r == SetIds(root, Unvisited(Order(root), TaggedFrom(Order(root), id, 0), matches), newid)
  {
    var P := Order(root);
    OrderWellFormed(root);
    var nodes := TaggedFrom(P, id, 0);
    r, matches, forked := root, [], false;
    if |nodes| <= 1 {
      return;
    }
    matches, forked := WalkMatches(P, id, nodes[0], Last(nodes));
    if forked {
      r := SetIds(root, Unvisited(P, nodes, matches), newid);
    }
  }

  // ---------------------------------------------------------------------
  // What the fork changes
  // ---------------------------------------------------------------------

  /** Relabelling keeps the text of the document. */
  lemma {:induction false} SetIdsContent(n: Node, u: set<nat>, newid: string)
    ensures Content(SetIds(n, u, newid)) == Content(n)
    decreases n, 1
  {
    if n.Element? {
      SetIdsSeqContent(n.children, u, newid);
    }
  }

  lemma {:induction false} SetIdsSeqContent(cs: seq<Node>, u: set<nat>, newid: string)
    ensures ContentSeq(SetIdsSeq(cs, u, newid)) == ContentSeq(cs)
    decreases cs, 0
  {
    if cs != [] {
      var r := SetIdsSeq(cs, u, newid);
      assert r[0] == SetIds(cs[0], u, newid) && r[1..] == SetIdsSeq(cs[1..], u, newid);
      SetIdsContent(cs[0], u, newid);
      SetIdsSeqContent(cs[1..], u, newid);
    }
  }

  lemma {:induction false} SetIdsSize(n: Node, u: set<nat>, newid: string)
    ensures Size(SetIds(n, u, newid)) == Size(n)
    decreases n, 1
  {
    if n.Element? {
      SetIdsSeqSize(n.children, u, newid);
    }
  }

  lemma {:induction false} SetIdsSeqSize(cs: seq<Node>, u: set<nat>, newid: string)
    ensures SizeSeq(SetIdsSeq(cs, u, newid)) == SizeSeq(cs)
    decreases cs, 0
  {
    if cs != [] {
      var r := SetIdsSeq(cs, u, newid);
      assert r[0] == SetIds(cs[0], u, newid) && r[1..] == SetIdsSeq(cs[1..], u, newid);
      SetIdsSize(cs[0], u, newid);
      SetIdsSeqSize(cs[1..], u, newid);
    }
  }

  /** The document order of a relabelled tree: the same entries, each node and sibling list relabelled. */
  function SetIdsEntries(E: seq<Entry>, u: set<nat>, newid: string): (r: seq<Entry>)
    ensures |r| == |E|
    ensures forall i :: 0 <= i < |E| ==>
      r[i] == E[i].(node := SetIds(E[i].node, u, newid), siblings := SetIdsSeq(E[i].siblings, u, newid))
  {
    seq(|E|, i requires 0 <= i < |E| =>
      E[i].(node := SetIds(E[i].node, u, newid), siblings := SetIdsSeq(E[i].siblings, u, newid)))
  }

  lemma {:induction false} OrderAtSetIds(n: Node, b: nat, q: int, k: nat, sibs: seq<Node>, u: set<nat>, newid: string)
    ensures OrderAt(SetIds(n, u, newid), b, q, k, SetIdsSeq(sibs, u, newid))
         == SetIdsEntries(OrderAt(n, b, q, k, sibs), u, newid)
    decreases n, 1
  {
    SetIdsSize(n, u, newid);
    var head := [Entry(n, q, k, b + Size(n), sibs)];
    if n.Element? {
      var S := OrderSeq(n.children, b + 1, b, 0, n.children);
      OrderSeqSetIds(n.children, b + 1, b, 0, n.children, u, newid);
      assert SetIdsEntries(head + S, u, newid) == SetIdsEntries(head, u, newid) + SetIdsEntries(S, u, newid);
    } else {
      assert OrderAt(n, b, q, k, sibs) == head;
    }
  }

  lemma {:induction false} OrderSeqSetIds(cs: seq<Node>, b: nat, q: int, k: nat, sibs: seq<Node>, u: set<nat>, newid: string)
    ensures OrderSeq(SetIdsSeq(cs, u, newid), b, q, k, SetIdsSeq(sibs, u, newid))
         == SetIdsEntries(OrderSeq(cs, b, q, k, sibs), u, newid)
    decreases cs, 0
  {
    if cs != [] {
      var r := SetIdsSeq(cs, u, newid);
      assert r[0] == SetIds(cs[0], u, newid) && r[1..] == SetIdsSeq(cs[1..], u, newid);
      SetIdsSize(cs[0], u, newid);
      OrderAtSetIds(cs[0], b, q, k, sibs, u, newid);
      OrderSeqSetIds(cs[1..], b + Size(cs[0]), q, k + 1, sibs, u, newid);
      var A, B := OrderAt(cs[0], b, q, k, sibs), OrderSeq(cs[1..], b + Size(cs[0]), q, k + 1, sibs);
      assert SetIdsEntries(A + B, u, newid) == SetIdsEntries(A, u, newid) + SetIdsEntries(B, u, newid);
    }
  }

  /** The region id an element carries; nothing for a text leaf. */
  function Label(n: Node): Option<string>
  {
    if n.Element? then n.attrs.hlId else None
  }

  /** No two positions hold the same node. */
  ghost predicate UniqueUids(P: seq<Entry>)
  {
    forall i, j :: 0 <= i < j < |P| ==> P[i].node.uid != P[j].node.uid
  }

  /** A relabelled document lists the same entries, relabelled. */
  lemma OrderSetIds(root: Node, u: set<nat>, newid: string)
    ensures Order(SetIds(root, u, newid)) == SetIdsEntries(Order(root), u, newid)
  {
    OrderAtSetIds(root, 0, -1, 0, [root], u, newid);
    assert SetIdsSeq([root], u, newid) == [SetIds(root, u, newid)];
  }

  /** With one node per identity, a position's identity is unvisited exactly when the position is. */
  lemma UnvisitedAt(P: seq<Entry>, nodes: seq<nat>, matches: seq<nat>, i: nat)
    requires UniqueUids(P) && i < |P|
    requires forall j :: 0 <= j < |nodes| ==> nodes[j] < |P|
    ensures P[i].node.uid in Unvisited(P, nodes, matches) <==> i in nodes && i !in matches
  {
    var u := Unvisited(P, nodes, matches);
    if i in nodes && i !in matches {
      var j :| 0 <= j < |nodes| && nodes[j] == i;
    }
    if P[i].node.uid in u {
      var j :| 0 <= j < |nodes| && nodes[j] !in matches && P[nodes[j]].node.uid == P[i].node.uid;
      assert nodes[j] == i;
    }
  }

  /**
   * After a fork, position by position: every tagged region the walk did
   * not visit carries `newid`, and every other node, the walked chain
   * included, keeps its region id. The document keeps its shape and text.
   */
  lemma ForkLabels(root: Node, id: string, newid: string, matches: seq<nat>)
    requires UniqueUids(Order(root))
    ensures var P := Order(root); var nodes := TaggedFrom(P, id, 0);
      var Q := Order(SetIds(root, Unvisited(P, nodes, matches), newid));
      |Q| == |P| &&
      (forall i :: 0 <= i < |P| ==> Q[i].parent == P[i].parent && Q[i].end == P[i].end) &&
      (forall i :: 0 <= i < |P| ==>
        Label(Q[i].node) == (if i in nodes && i !in matches then Some(newid) else Label(P[i].node))) &&
      Content(SetIds(root, Unvisited(P, nodes, matches), newid)) == Content(root)
  {
    var P := Order(root);
    var nodes := TaggedFrom(P, id, 0);
    var u := Unvisited(P, nodes, matches);
    OrderSetIds(root, u, newid);
    SetIdsContent(root, u, newid);
    var Q := Order(SetIds(root, u, newid));
    forall i | 0 <= i < |P|
      ensures Label(Q[i].node) == (if i in nodes && i !in matches then Some(newid) else Label(P[i].node))
    {
      assert Q[i].node == SetIds(P[i].node, u, newid);
      UnvisitedAt(P, nodes, matches, i);
      if i in nodes {
        var j :| 0 <= j < |nodes| && nodes[j] == i;
        assert Tagged(P[i].node, id);
      }
    }
  }

  /** Relabelling changes nothing the walk looks at. */
  lemma ForkKeepsWalk(root: Node, u: set<nat>, newid: string)
    ensures SameWalk(Order(root), Order(SetIds(root, u, newid)))
    ensures forall i :: 0 <= i < |Order(root)| ==> Order(SetIds(root, u, newid))[i].parent == Order(root)[i].parent
    ensures WellFormed(Order(SetIds(root, u, newid))) && Nested(Order(SetIds(root, u, newid)))
  {
    OrderSetIds(root, u, newid);
    OrderWellFormed(SetIds(root, u, newid));
    OrderNested(SetIds(root, u, newid));
  }

  /** One link of the walked chain survives the relabelling. */
  lemma ForkKeepsLink(root: Node, u: set<nat>, newid: string, curr: nat, last: nat)
    requires WellFormed(Order(root)) && Nested(Order(root)) && curr < |Order(root)|
    ensures ForkKeepsWalkFacts(root, u, newid)
    ensures NextParent(Order(SetIds(root, u, newid)), curr, last) == NextParent(Order(root), curr, last)
  {
    ForkKeepsWalk(root, u, newid);
    SameWalkNextTextNode(Order(root), Order(SetIds(root, u, newid)), curr, Some(last), curr);
  }

  /** The relabelled page's order is well formed, with the shape of the old one. */
  ghost predicate ForkKeepsWalkFacts(root: Node, u: set<nat>, newid: string)
  {
    WellFormed(Order(SetIds(root, u, newid))) && |Order(SetIds(root, u, newid))| == |Order(root)|
  }

  /**
   * What a fork leaves, when `newid` is new to the page (as a random UUID
   * is meant to be): the regions carrying `newid` are exactly the tagged
   * regions the walk did not visit; the regions still tagged with `id` are
   * exactly the visited ones; and the walk's chain is still a chain on the
   * new page, so each visited region is followed, as the first reportable
   * leaf after it, by a leaf of the next visited region.
   */
  lemma ForkSplits(root: Node, id: string, newid: string, matches: seq<nat>)
    requires WellFormed(Order(root)) && UniqueUids(Order(root))
    requires |TaggedFrom(Order(root), id, 0)| >= 1
    requires Chain(Order(root), id, Last(TaggedFrom(Order(root), id, 0)), matches)
    requires newid != id && forall i :: 0 <= i < |Order(root)| ==> Label(Order(root)[i].node) != Some(newid)
    ensures var P := Order(root); var nodes := TaggedFrom(P, id, 0);
      var Q := Order(SetIds(root, Unvisited(P, nodes, matches), newid));
      |Q| == |P| && WellFormed(Q) &&
      (forall i :: 0 <= i < |P| ==> (Label(Q[i].node) == Some(newid) <==> i in nodes && i !in matches)) &&
      (forall i :: 0 <= i < |P| ==> (Tagged(Q[i].node, id) <==> i in nodes && i in matches)) &&
      Chain(Q, id, Last(nodes), matches)
  {
    var P := Order(root);
    var nodes := TaggedFrom(P, id, 0);
    var u := Unvisited(P, nodes, matches);
    var Q := Order(SetIds(root, u, newid));
    OrderNested(root);
    ForkLabels(root, id, newid, matches);
    ForkKeepsWalk(root, u, newid);
    TaggedFromHasAll(P, id, 0);
    OrderSetIds(root, u, newid);
    forall i | 0 <= i < |P|
      ensures Tagged(Q[i].node, id) <==> i in nodes && i in matches
    {
      assert Q[i].node == SetIds(P[i].node, u, newid);
    }
    forall j | 0 <= j < |matches| - 1
      ensures NextParent(Q, matches[j], Last(nodes)) == Some(matches[j + 1])
    {
      ForkKeepsLink(root, u, newid, matches[j], Last(nodes));
    }
    forall j | 0 <= j < |matches|
      ensures HasId(Q[matches[j]].node, id)
    {
      assert Q[matches[j]].node == SetIds(P[matches[j]].node, u, newid);
    }
  }

  /**
   * The fork does not make the new id contiguous: on `A X A Y A`, the walk
   * from the first `A` stops at `X`, and both later `A` regions get the new
   * id with `Y` still between them. In general, two unvisited regions with a
   * region of a third id between them carry `newid` on both sides of it.
   */
  lemma ForkTailSplit(root: Node, id: string, newid: string, matches: seq<nat>, a: nat, y: nat, b: nat)
    requires UniqueUids(Order(root))
    requires a < y < b < |Order(root)|
    requires a in TaggedFrom(Order(root), id, 0) && a !in matches
    requires b in TaggedFrom(Order(root), id, 0) && b !in matches
    requires Label(Order(root)[y].node).Some? && Label(Order(root)[y].node) != Some(id) && Label(Order(root)[y].node) != Some(newid)
    ensures var P := Order(root); var Q := Order(SetIds(root, Unvisited(P, TaggedFrom(P, id, 0), matches), newid));
      |Q| == |P| && Label(Q[a].node) == Some(newid) && Label(Q[b].node) == Some(newid) &&
      Label(Q[y].node) == Label(P[y].node) && Label(Q[y].node) != Some(newid)
  {
    var P := Order(root);
    ForkLabels(root, id, newid, matches);
  }
}
