/**
 * The document tree the highlighter works on, as a value.
 *
 * A node is a text leaf or an element; `uid` stands for the identity of the
 * live DOM node (two nodes with the same data are still different nodes).
 * The root of every document is the `body` element: the walks of the engine
 * stop there.
 */
module Dom {
  import opened Wrappers

  /** The namespace an element belongs to: HTML, SVG, or anything else. */
  datatype Kind = Html | Svg | Foreign

  /**
   * The attributes the engine reads or writes:
   *  - `hlId`: the `data-text-highlighter` attribute (the region id);
   *  - `color`: the `data-color` attribute;
   *  - `highlightable`, `unhighlightable`: presence of `data-highlightable`
   *    and `data-unhighlightable`;
   *  - `rendered`: the element has an `offsetParent` (it is laid out);
   *  - `classes`: the ignore-selectors this element matches.
   */
  datatype Attrs = Attrs(
    hlId: Option<string>,
    color: Option<string>,
    highlightable: bool,
    unhighlightable: bool,
    rendered: bool,
    classes: set<string>)

  datatype Node =
    | Text(uid: nat, data: string)
    | Element(uid: nat, tag: string, kind: Kind, attrs: Attrs, children: seq<Node>)

  /** `textContent`: the concatenated data of every text leaf, in document order. */
  function Content(n: Node): string
    decreases n
  {
    match n
    case Text(_, d) => d
    case Element(_, _, _, _, cs) => ContentSeq(cs)
  }

  function ContentSeq(cs: seq<Node>): string
    decreases cs
  {
    if cs == [] then "" else Content(cs[0]) + ContentSeq(cs[1..])
  }

  lemma {:induction false} ContentSeqAppend(a: seq<Node>, b: seq<Node>)
    ensures ContentSeq(a + b) == ContentSeq(a) + ContentSeq(b)
    decreases |a|
  {
    if a == [] {
      assert a + b == b;
    } else {
      assert (a + b)[0] == a[0];
      assert (a + b)[1..] == a[1..] + b;
      ContentSeqAppend(a[1..], b);
    }
  }

  lemma ContentSeqSingle(x: Node)
    ensures ContentSeq([x]) == Content(x)
  {
    assert [x][1..] == [];
  }

  /** Content of a child list with the element at `k` replaced by `mid`. */
  lemma ContentSplice(cs: seq<Node>, k: nat, mid: seq<Node>)
    requires k < |cs|
    ensures ContentSeq(cs[..k] + mid + cs[k + 1..])
         == ContentSeq(cs[..k]) + ContentSeq(mid) + ContentSeq(cs[k + 1..])
    ensures ContentSeq(cs) == ContentSeq(cs[..k]) + Content(cs[k]) + ContentSeq(cs[k + 1..])
  {
    ContentSeqAppend(cs[..k] + mid, cs[k + 1..]);
    ContentSeqAppend(cs[..k], mid);
    assert cs == cs[..k] + [cs[k]] + cs[k + 1..];
    ContentSeqAppend(cs[..k] + [cs[k]], cs[k + 1..]);
    ContentSeqAppend(cs[..k], [cs[k]]);
    ContentSeqSingle(cs[k]);
  }

  /** Text of a list with one node spliced in. */
  lemma ContentAround(a: seq<Node>, x: Node, b: seq<Node>)
    ensures ContentSeq(a + [x] + b) == ContentSeq(a) + Content(x) + ContentSeq(b)
  {
    ContentSeqAppend(a + [x], b);
    ContentSeqAppend(a, [x]);
    ContentSeqSingle(x);
  }

  /** A string cut at two points. */
  lemma StringCut(d: string, s: nat, e: nat)
    requires s <= e <= |d|
    ensures d == d[..s] + d[s..e] + d[e..]
  {
  }

  /** The three parts of a list with one node spliced in. */
  lemma SpliceParts(a: seq<Node>, x: Node, b: seq<Node>)
    ensures (a + [x] + b)[..|a|] == a && (a + [x] + b)[|a|] == x && (a + [x] + b)[|a| + 1..] == b
  {
  }

  /** The three parts of a list with a run of nodes spliced in. */
  lemma SpliceRun(a: seq<Node>, m: seq<Node>, b: seq<Node>)
    ensures (a + m + b)[..|a|] == a && (a + m + b)[|a|..|a| + |m|] == m && (a + m + b)[|a| + |m|..] == b
  {
  }

  /** Number of nodes in a subtree (the node itself included). */
  function Size(n: Node): (r: nat)
    ensures r >= 1
    ensures n.Element? && n.children != [] ==> r >= 2
    decreases n
  {
    match n
    case Text(_, _) => 1
    case Element(_, _, _, _, cs) => 1 + SizeSeq(cs)
  }

  function SizeSeq(cs: seq<Node>): (r: nat)
    ensures cs != [] ==> r >= 1
    decreases cs
  {
    if cs == [] then 0 else Size(cs[0]) + SizeSeq(cs[1..])
  }

  /** Largest node identity in a subtree: a larger one is fresh. */
  function MaxUid(n: Node): nat
    decreases n
  {
    match n
    case Text(u, _) => u
    case Element(u, _, _, _, cs) => Max(u, MaxUidSeq(cs))
  }

  function MaxUidSeq(cs: seq<Node>): nat
    decreases cs
  {
    if cs == [] then 0 else Max(MaxUid(cs[0]), MaxUidSeq(cs[1..]))
  }

  function Max(a: nat, b: nat): nat { if a < b then b else a }

  /** No entry of a listing has an identity above the subtree's largest one. */
  lemma {:induction false} OrderAtUids(n: Node, b: nat, q: int, k: nat, sibs: seq<Node>)
    ensures forall i :: 0 <= i < |OrderAt(n, b, q, k, sibs)| ==> OrderAt(n, b, q, k, sibs)[i].node.uid <= MaxUid(n)
    decreases n
  {
    if n.Element? {
      OrderSeqUids(n.children, b + 1, b, 0, n.children);
    }
  }

  lemma {:induction false} OrderSeqUids(cs: seq<Node>, b: nat, q: int, k: nat, sibs: seq<Node>)
    ensures forall i :: 0 <= i < |OrderSeq(cs, b, q, k, sibs)| ==> OrderSeq(cs, b, q, k, sibs)[i].node.uid <= MaxUidSeq(cs)
    decreases cs
  {
    if cs != [] {
      var A: seq<Entry>, B: seq<Entry> := OrderAt(cs[0], b, q, k, sibs), OrderSeq(cs[1..], b + Size(cs[0]), q, k + 1, sibs);
      OrderAtUids(cs[0], b, q, k, sibs);
      OrderSeqUids(cs[1..], b + Size(cs[0]), q, k + 1, sibs);
      forall i | 0 <= i < |A + B| ensures (A + B)[i].node.uid <= MaxUidSeq(cs) {
        if i >= |A| {
          assert (A + B)[i] == B[i - |A|];
        }
      }
    }
  }

  /** Every node of the document order has an identity at most `MaxUid(root)`. */
  lemma OrderUids(root: Node)
    ensures forall i :: 0 <= i < |Order(root)| ==> Order(root)[i].node.uid <= MaxUid(root)
  {
    OrderAtUids(root, 0, -1, 0, [root]);
  }

  /** Is this node an element carrying the region attribute with value `id`? */
  predicate HasId(n: Node, id: string)
  {
    n.Element? && n.attrs.hlId == Some(id)
  }

  /** The same element with its region attribute set to `id`. */
  function WithId(n: Node, id: string): Node
    requires n.Element?
  {
    n.(attrs := n.attrs.(hlId := Some(id)))
  }

  // ---------------------------------------------------------------------
  // Document order
  // ---------------------------------------------------------------------

  /**
   * One node in document order: the node, the position of its parent
   * element (-1 for the root), its index among its siblings, the position
   * just past its subtree, and its parent's child list (the root alone
   * for the root).
   */
  datatype Entry = Entry(node: Node, parent: int, index: nat, end: nat, siblings: seq<Node>)

  /** Preorder listing of a subtree whose root sits at position `b`. */
  function OrderAt(n: Node, b: nat, q: int, k: nat, sibs: seq<Node>): seq<Entry>
    decreases n
  {
    [Entry(n, q, k, b + Size(n), sibs)]
    + (if n.Element? then OrderSeq(n.children, b + 1, b, 0, n.children) else [])
  }

  function OrderSeq(cs: seq<Node>, b: nat, q: int, k: nat, sibs: seq<Node>): seq<Entry>
    decreases cs
  {
    if cs == [] then []
    else OrderAt(cs[0], b, q, k, sibs) + OrderSeq(cs[1..], b + Size(cs[0]), q, k + 1, sibs)
  }

  /** The whole document in document order; position 0 is the root. */
  function Order(root: Node): seq<Entry>
  {
    OrderAt(root, 0, -1, 0, [root])
  }

  /** The facts about position `i` that the walks rely on. */
  ghost predicate PositionOk(P: seq<Entry>, i: nat)
    requires i < |P|
  {
    i < P[i].end <= |P| &&
    (P[i].node.Element? && P[i].node.children != [] ==>
      i + 1 < P[i].end && P[i + 1].parent == i && P[i + 1].node == P[i].node.children[0]) &&
    (0 < i ==> 0 <= P[i].parent < i && P[i].end <= P[P[i].parent].end) &&
    P[i].index < |P[i].siblings| && P[i].siblings[P[i].index] == P[i].node &&
    (0 < i ==> P[P[i].parent].node.Element? && P[P[i].parent].node.children == P[i].siblings)
  }

  ghost predicate WellFormed(P: seq<Entry>)
  {
    |P| > 0 && P[0].parent == -1 && forall i: nat :: i < |P| ==> PositionOk(P, i)
  }

  /** The facts of `WellFormed` about one position. */
  lemma WellFormedAt(P: seq<Entry>, i: nat)
    requires WellFormed(P) && i < |P|
    ensures i < P[i].end <= |P|
    ensures P[i].node.Element? && P[i].node.children != [] ==>
      i + 1 < P[i].end && P[i + 1].parent == i && P[i + 1].node == P[i].node.children[0]
    ensures 0 < i ==> 0 <= P[i].parent < i && P[i].end <= P[P[i].parent].end
    ensures P[i].index < |P[i].siblings| && P[i].siblings[P[i].index] == P[i].node
    ensures 0 < i ==> P[P[i].parent].node.Element? && P[P[i].parent].node.children == P[i].siblings
  {
    assert PositionOk(P, i);
  }

  /**
   * Facts about the entry at `i` of a slice of a document starting at
   * position `b`, whose top-level entries hang under position `lo` with
   * sibling list `ls`.
   */
  ghost predicate EntryOk(P: seq<Entry>, b: nat, lo: int, ls: seq<Node>, i: nat)
    requires i < |P|
  {
    b + i < P[i].end <= b + |P| &&
    (P[i].node.Element? && P[i].node.children != [] ==>
      b + i + 1 < P[i].end && i + 1 < |P| &&
      P[i + 1].parent == b + i && P[i + 1].node == P[i].node.children[0]) &&
    P[i].index < |P[i].siblings| && P[i].siblings[P[i].index] == P[i].node &&
    ((P[i].parent == lo && P[i].siblings == ls) ||
      (b <= P[i].parent < b + i && P[i].end <= P[P[i].parent - b].end &&
       P[P[i].parent - b].node.Element? && P[P[i].parent - b].node.children == P[i].siblings))
  }

  ghost predicate EntriesOk(P: seq<Entry>, b: nat, lo: int, ls: seq<Node>)
  {
    forall i: nat :: i < |P| ==> EntryOk(P, b, lo, ls, i)
  }

  lemma EntriesOkConcat(A: seq<Entry>, B: seq<Entry>, b: nat, lo: int, ls: seq<Node>)
    requires lo < b
    requires EntriesOk(A, b, lo, ls) && EntriesOk(B, b + |A|, lo, ls)
    ensures EntriesOk(A + B, b, lo, ls)
  {
    var P := A + B;
    forall i: nat | i < |P|
      ensures EntryOk(P, b, lo, ls, i)
    {
      if i >= |A| {
        var j := i - |A|;
        assert P[i] == B[j];
        assert EntryOk(B, b + |A|, lo, ls, j);
        if !(B[j].parent == lo && B[j].siblings == ls) {
          assert P[B[j].parent - b] == B[B[j].parent - (b + |A|)];
        }
      } else {
        assert P[i] == A[i];
        assert EntryOk(A, b, lo, ls, i);
        if !(A[i].parent == lo && A[i].siblings == ls) {
          assert P[A[i].parent - b] == A[A[i].parent - b];
        }
      }
    }
  }

  lemma {:induction false} OrderAtOk(n: Node, b: nat, q: int, k: nat, sibs: seq<Node>)
    requires q < b && k < |sibs| && sibs[k] == n
    ensures |OrderAt(n, b, q, k, sibs)| == Size(n)
    ensures OrderAt(n, b, q, k, sibs)[0] == Entry(n, q, k, b + Size(n), sibs)
    ensures EntriesOk(OrderAt(n, b, q, k, sibs), b, q, sibs)
    decreases n
  {
    var P := OrderAt(n, b, q, k, sibs);
    if n.Element? {
      var S := OrderSeq(n.children, b + 1, b, 0, n.children);
      assert n.children[0..] == n.children;
      OrderSeqOk(n.children, b + 1, b, 0, n.children);
      assert P == [Entry(n, q, k, b + Size(n), sibs)] + S;
      assert |P| == Size(n);
      forall i: nat | i < |P|
        ensures EntryOk(P, b, q, sibs, i)
      {
        if i > 0 {
          UnderRoot(P, S, b, q, sibs, i);
        }
      }
    }
  }

  /** An entry of the children's listing keeps its facts once the parent is put in front. */
  lemma UnderRoot(P: seq<Entry>, S: seq<Entry>, b: nat, q: int, sibs: seq<Node>, i: nat)
    requires |P| == |S| + 1 && P[1..] == S && P[0].end == b + |P| && q < b
    requires P[0].node.Element?
    requires EntriesOk(S, b + 1, b, P[0].node.children)
    requires 0 < i < |P|
    ensures EntryOk(P, b, q, sibs, i)
  {
    assert P[i] == S[i - 1];
    assert EntryOk(S, b + 1, b, P[0].node.children, i - 1);
    if !(S[i - 1].parent == b && S[i - 1].siblings == P[0].node.children) {
      assert P[S[i - 1].parent - b] == S[S[i - 1].parent - (b + 1)];
    }
  }

  lemma {:induction false} OrderSeqOk(cs: seq<Node>, b: nat, q: int, k: nat, sibs: seq<Node>)
    requires q < b && k + |cs| == |sibs| && sibs[k..] == cs
    ensures |OrderSeq(cs, b, q, k, sibs)| == SizeSeq(cs)
    ensures EntriesOk(OrderSeq(cs, b, q, k, sibs), b, q, sibs)
    ensures cs != [] ==> OrderSeq(cs, b, q, k, sibs)[0].parent == q && OrderSeq(cs, b, q, k, sibs)[0].node == cs[0]
    decreases cs
  {
    if cs != [] {
      assert sibs[k] == sibs[k..][0];
      assert sibs[k + 1..] == sibs[k..][1..];
      OrderAtOk(cs[0], b, q, k, sibs);
      OrderSeqOk(cs[1..], b + Size(cs[0]), q, k + 1, sibs);
      EntriesOkConcat(OrderAt(cs[0], b, q, k, sibs), OrderSeq(cs[1..], b + Size(cs[0]), q, k + 1, sibs), b, q, sibs);
    }
  }

  /** The document order of any tree has the shape the walks rely on. */
  lemma OrderWellFormed(root: Node)
    ensures WellFormed(Order(root))
    ensures |Order(root)| == Size(root)
  {
    OrderAtOk(root, 0, -1, 0, [root]);
    var P := Order(root);
    forall i | 0 <= i < |P|
      ensures PositionOk(P, i)
    {
      assert EntryOk(P, 0, -1, [root], i);
      if 0 < i && root.Element? {
        var S := OrderSeq(root.children, 1, 0, 0, root.children);
        assert P[i] == S[i - 1];
        assert root.children[0..] == root.children;
        OrderSeqOk(root.children, 1, 0, 0, root.children);
        assert EntryOk(S, 1, 0, root.children, i - 1);
      }
    }
  }

  // ---------------------------------------------------------------------
  // Subtrees nest; siblings follow one another
  // ---------------------------------------------------------------------

  /** A node with nothing below it. */
  predicate Childless(n: Node)
  {
    n.Text? || n.children == []
  }

  /**
   * A subtree that starts inside another one ends inside it too, and the
   * subtree of a childless node is that node alone.
   */
  ghost predicate Nested(P: seq<Entry>)
  {
    (forall a, v :: 0 <= a < v < |P| && v < P[a].end ==> P[v].end <= P[a].end) &&
    (forall i :: 0 <= i < |P| && Childless(P[i].node) ==> P[i].end == i + 1)
  }

  /** `Nested` for a slice of a document starting at position `b`. */
  ghost predicate NestedFrom(S: seq<Entry>, b: nat)
  {
    (forall a, v :: 0 <= a < v < |S| && b + v < S[a].end ==> S[v].end <= S[a].end) &&
    (forall i :: 0 <= i < |S| && Childless(S[i].node) ==> S[i].end == b + i + 1)
  }

  /** Every subtree of a slice starting at `b` ends inside the slice. */
  ghost predicate EndsWithin(S: seq<Entry>, b: nat)
  {
    forall i :: 0 <= i < |S| ==> S[i].end <= b + |S|
  }

  /** Every parent in a slice starting at `b` is `lo` or an earlier entry of the slice. */
  ghost predicate ParentsIn(S: seq<Entry>, b: nat, lo: int)
  {
    forall i :: 0 <= i < |S| ==> S[i].parent == lo || b <= S[i].parent < b + i
  }

  lemma EntriesBounds(S: seq<Entry>, b: nat, lo: int, ls: seq<Node>)
    requires EntriesOk(S, b, lo, ls)
    ensures EndsWithin(S, b) && ParentsIn(S, b, lo)
  {
    forall i | 0 <= i < |S| ensures S[i].end <= b + |S| && (S[i].parent == lo || b <= S[i].parent < b + i) {
      assert EntryOk(S, b, lo, ls, i);
    }
  }

  /** A node followed by the nested slice of its subtree nests. */
  lemma NestedCons(e: Entry, S: seq<Entry>, b: nat)
    requires NestedFrom(S, b + 1) && EndsWithin(S, b + 1)
    requires e.end == b + 1 + |S| && (Childless(e.node) ==> S == [])
    ensures NestedFrom([e] + S, b)
  {
    var A := [e] + S;
    forall a, v | 0 <= a < v < |A| && b + v < A[a].end
      ensures A[v].end <= A[a].end
    {
      assert A[v] == S[v - 1];
      if 0 < a {
        assert A[a] == S[a - 1];
      }
    }
    forall i | 0 <= i < |A| && Childless(A[i].node)
      ensures A[i].end == b + i + 1
    {
      if 0 < i {
        assert A[i] == S[i - 1];
      }
    }
  }

  /** Two nested slices side by side nest, when the first one's subtrees end inside it. */
  lemma NestedConcat(X: seq<Entry>, Y: seq<Entry>, b: nat)
    requires NestedFrom(X, b) && EndsWithin(X, b) && NestedFrom(Y, b + |X|)
    ensures NestedFrom(X + Y, b)
  {
    var S := X + Y;
    forall a, v | 0 <= a < v < |S| && b + v < S[a].end
      ensures S[v].end <= S[a].end
    {
      if a < |X| {
        assert S[a] == X[a];
        assert v < |X|;
        assert S[v] == X[v];
      } else {
        assert S[a] == Y[a - |X|] && S[v] == Y[v - |X|];
      }
    }
    forall i | 0 <= i < |S| && Childless(S[i].node)
      ensures S[i].end == b + i + 1
    {
      if i < |X| {
        assert S[i] == X[i];
      } else {
        assert S[i] == Y[i - |X|];
      }
    }
  }

  lemma {:induction false} OrderAtNested(n: Node, b: nat, q: int, k: nat, sibs: seq<Node>)
    requires q < b && k < |sibs| && sibs[k] == n
    ensures NestedFrom(OrderAt(n, b, q, k, sibs), b)
    decreases n, 1
  {
    OrderAtOk(n, b, q, k, sibs);
    var S := if n.Element? then OrderSeq(n.children, b + 1, b, 0, n.children) else [];
    if n.Element? {
      assert n.children[0..] == n.children;
      OrderSeqOk(n.children, b + 1, b, 0, n.children);
      OrderSeqNested(n.children, b + 1, b, 0, n.children);
      EntriesBounds(S, b + 1, b, n.children);
    }
    NestedCons(Entry(n, q, k, b + Size(n), sibs), S, b);
  }

  lemma {:induction false} OrderSeqNested(cs: seq<Node>, b: nat, q: int, k: nat, sibs: seq<Node>)
    requires q < b && k + |cs| == |sibs| && sibs[k..] == cs
    ensures NestedFrom(OrderSeq(cs, b, q, k, sibs), b)
    decreases cs, 0
  {
    if cs != [] {
      assert sibs[k] == sibs[k..][0];
      assert sibs[k + 1..] == sibs[k..][1..];
      var X := OrderAt(cs[0], b, q, k, sibs);
      OrderAtOk(cs[0], b, q, k, sibs);
      OrderAtNested(cs[0], b, q, k, sibs);
      OrderSeqNested(cs[1..], b + Size(cs[0]), q, k + 1, sibs);
      EntriesBounds(X, b, q, sibs);
      NestedConcat(X, OrderSeq(cs[1..], b + Size(cs[0]), q, k + 1, sibs), b);
    }
  }

  /** The document order of any tree nests. */
  lemma OrderNested(root: Node)
    ensures Nested(Order(root))
  {
    OrderAtNested(root, 0, -1, 0, [root]);
  }

  /**
   * `nextSibling` in document order: a node with a next sibling is followed,
   * just past its subtree, by that sibling; the subtree of a last child ends
   * where its parent's does, and the root's subtree is the whole document.
   */
  ghost predicate Linked(P: seq<Entry>)
    requires WellFormed(P)
  {
    P[0].end == |P| &&
    forall i :: 0 < i < |P| ==> LinkOk(P, 0, i, |P|)
  }

  /**
   * Facts about the entry at `i` of a slice starting at position `b`: its
   * next sibling starts where its subtree ends; without one, its subtree
   * ends with its parent's, or at `stop` when the parent lies before the
   * slice.
   */
  ghost predicate LinkOk(S: seq<Entry>, b: nat, i: nat, stop: nat)
    requires i < |S|
  {
    (S[i].index + 1 < |S[i].siblings| ==>
      b <= S[i].end < b + |S| && S[S[i].end - b].parent == S[i].parent && S[S[i].end - b].index == S[i].index + 1) &&
    (S[i].index + 1 >= |S[i].siblings| ==>
      S[i].end == (if b <= S[i].parent < b + i then S[S[i].parent - b].end else stop))
  }

  /** `LinkOk` at every position of a slice but its first. */
  ghost predicate LinksBelow(S: seq<Entry>, b: nat, stop: nat)
  {
    forall i :: 1 <= i < |S| ==> b <= S[i].parent < b + i && LinkOk(S, b, i, stop)
  }

  /** `LinkOk` at every position of a slice. */
  ghost predicate LinksFrom(S: seq<Entry>, b: nat, stop: nat)
  {
    forall i :: 0 <= i < |S| ==> LinkOk(S, b, i, stop)
  }

  /** A link fact about a suffix `Y` carries over to `X + Y`. */
  lemma LinkShift(X: seq<Entry>, Y: seq<Entry>, b: nat, j: nat, stop: nat, stop': nat)
    requires j < |Y| && LinkOk(Y, b + |X|, j, stop)
    requires var p := Y[j].parent;
      (b + |X| <= p < b + |X| + j) ||
      (p < b && stop' == stop) ||
      (b <= p < b + |X| && X[p - b].end == stop)
    ensures LinkOk(X + Y, b, |X| + j, stop')
  {
    var S := X + Y;
    assert S[|X| + j] == Y[j];
    if Y[j].index + 1 < |Y[j].siblings| {
      assert S[Y[j].end - b] == Y[Y[j].end - (b + |X|)];
    }
    if b + |X| <= Y[j].parent < b + |X| + j {
      assert S[Y[j].parent - b] == Y[Y[j].parent - (b + |X|)];
    } else if b <= Y[j].parent < b + |X| {
      assert S[Y[j].parent - b] == X[Y[j].parent - b];
    }
  }

  /** A link fact about a prefix `X` whose links stay inside it carries over to `X + Y`. */
  lemma LinkPrefix(X: seq<Entry>, Y: seq<Entry>, b: nat, i: nat, stop: nat)
    requires i < |X| && LinkOk(X, b, i, stop)
    requires X[i].index + 1 < |X[i].siblings| ==> X[i].end < b + |X|
    ensures LinkOk(X + Y, b, i, stop)
  {
    var S := X + Y;
    assert S[i] == X[i];
    if X[i].index + 1 < |X[i].siblings| {
      assert S[X[i].end - b] == X[X[i].end - b];
    }
    if b <= X[i].parent < b + i {
      assert S[X[i].parent - b] == X[X[i].parent - b];
    }
  }

  /** A node followed by the linked slice of its subtree. */
  lemma LinkCons(e: Entry, S: seq<Entry>, b: nat, stop: nat)
    requires LinksFrom(S, b + 1, b + 1 + |S|) && ParentsIn(S, b + 1, b)
    requires e.end == b + 1 + |S|
    ensures LinksBelow([e] + S, b, stop)
  {
    var X := [e];
    var A := X + S;
    forall i | 1 <= i < |A|
      ensures b <= A[i].parent < b + i && LinkOk(A, b, i, stop)
    {
      assert A[i] == S[i - 1];
      assert LinkOk(S, b + 1, i - 1, b + 1 + |S|);
      LinkShift(X, S, b, i - 1, b + 1 + |S|, stop);
    }
  }

  /** The subtree of one sibling followed by the linked slice of the later siblings. */
  lemma LinkConcat(X: seq<Entry>, Y: seq<Entry>, b: nat, q: int, stop: nat)
    requires |X| > 0 && q < b && stop == b + |X| + |Y|
    requires LinksBelow(X, b, stop) && EndsWithin(X, b)
    requires X[0].parent == q && X[0].end == b + |X| && X[0].index < |X[0].siblings|
    requires LinksFrom(Y, b + |X|, stop) && ParentsIn(Y, b + |X|, q)
    requires Y != [] ==> Y[0].parent == q && Y[0].index == X[0].index + 1
    requires Y == [] <==> X[0].index + 1 >= |X[0].siblings|
    ensures LinksFrom(X + Y, b, stop)
  {
    var S := X + Y;
    forall i | 0 <= i < |S|
      ensures LinkOk(S, b, i, stop)
    {
      if i == 0 {
        assert S[0] == X[0];
        if Y != [] {
          assert S[|X|] == Y[0];
        }
      } else if i < |X| {
        assert LinkOk(X, b, i, stop);
        LinkPrefix(X, Y, b, i, stop);
      } else {
        assert LinkOk(Y, b + |X|, i - |X|, stop);
        LinkShift(X, Y, b, i - |X|, stop, stop);
      }
    }
  }

  lemma {:induction false} OrderAtLinked(n: Node, b: nat, q: int, k: nat, sibs: seq<Node>, stop: nat)
    requires q < b && k < |sibs| && sibs[k] == n
    ensures LinksBelow(OrderAt(n, b, q, k, sibs), b, stop)
    decreases n, 1
  {
    if n.Element? {
      var S := OrderSeq(n.children, b + 1, b, 0, n.children);
      assert n.children[0..] == n.children;
      OrderSeqOk(n.children, b + 1, b, 0, n.children);
      OrderSeqLinked(n.children, b + 1, b, 0, n.children);
      EntriesBounds(S, b + 1, b, n.children);
      LinkCons(Entry(n, q, k, b + Size(n), sibs), S, b, stop);
    } else {
      LinkCons(Entry(n, q, k, b + Size(n), sibs), [], b, stop);
      assert OrderAt(n, b, q, k, sibs) == [Entry(n, q, k, b + Size(n), sibs)] + [];
    }
  }

  lemma {:induction false} OrderSeqLinked(cs: seq<Node>, b: nat, q: int, k: nat, sibs: seq<Node>)
    requires q < b && k + |cs| == |sibs| && sibs[k..] == cs
    ensures LinksFrom(OrderSeq(cs, b, q, k, sibs), b, b + SizeSeq(cs))
    ensures ParentsIn(OrderSeq(cs, b, q, k, sibs), b, q)
    ensures cs != [] ==> |OrderSeq(cs, b, q, k, sibs)| > 0 && OrderSeq(cs, b, q, k, sibs)[0].index == k
    decreases cs, 0
  {
    if cs != [] {
      assert sibs[k] == sibs[k..][0];
      assert sibs[k + 1..] == sibs[k..][1..];
      var X := OrderAt(cs[0], b, q, k, sibs);
      var Y := OrderSeq(cs[1..], b + Size(cs[0]), q, k + 1, sibs);
      OrderAtOk(cs[0], b, q, k, sibs);
      OrderSeqOk(cs[1..], b + Size(cs[0]), q, k + 1, sibs);
      OrderAtLinked(cs[0], b, q, k, sibs, b + |X| + |Y|);
      OrderSeqLinked(cs[1..], b + Size(cs[0]), q, k + 1, sibs);
      EntriesBounds(X, b, q, sibs);
      LinkConcat(X, Y, b, q, b + |X| + |Y|);
      ParentsConcat(X, Y, b, q);
      assert OrderSeq(cs, b, q, k, sibs) == X + Y;
    }
  }

  lemma ParentsConcat(X: seq<Entry>, Y: seq<Entry>, b: nat, q: int)
    requires ParentsIn(X, b, q) && ParentsIn(Y, b + |X|, q)
    ensures ParentsIn(X + Y, b, q)
  {
    var S := X + Y;
    forall i | 0 <= i < |S| ensures S[i].parent == q || b <= S[i].parent < b + i {
      if i < |X| {
        assert S[i] == X[i];
      } else {
        assert S[i] == Y[i - |X|];
      }
    }
  }

  /** The document order of any tree links siblings. */
  lemma OrderLinked(root: Node)
    ensures WellFormed(Order(root)) && Linked(Order(root))
  {
    OrderWellFormed(root);
    OrderAtOk(root, 0, -1, 0, [root]);
    OrderAtLinked(root, 0, -1, 0, [root], Size(root));
  }
}
