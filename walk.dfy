/**
 * Walking the document in document order (`#nextNode`, `#nextTextNode`,
 * `#findFirstTextChild`). Nodes are named by their position in `Order(root)`;
 * position 0 is the `body` element, where every walk stops.
 */
module Walk {
  import opened Wrappers
  import opened Dom

  /** The characters `String.prototype.trim` removes. */
  predicate IsSpace(c: char)
  {
    c in {' ', '\t', '\n', '\r', '\U{000B}', '\U{000C}', '\U{00A0}', '\U{FEFF}',
          '\U{1680}', '\U{2028}', '\U{2029}', '\U{202F}', '\U{205F}', '\U{3000}'} ||
    '\U{2000}' <= c <= '\U{200A}'
  }

  /** `data.trim() === ""`. */
  predicate Blank(d: string)
  {
    forall i :: 0 <= i < |d| ==> IsSpace(d[i])
  }

  /** `data.includes("\n")`. */
  predicate HasLineBreak(d: string)
  {
    '\n' in d
  }

  /**
   * `#nextNode`: the next sibling, or else the next sibling of the nearest
   * ancestor that has one; nothing from the root. In document order this is
   * the first position past the node's subtree.
   */
  function NextNode(P: seq<Entry>, i: nat): (r: Option<nat>)
    requires WellFormed(P) && i < |P|
    ensures r.Some? ==> i < r.value < |P| && r.value == P[i].end
    ensures r.None? <==> i == 0 || P[i].end == |P|
  {
    WellFormedAt(P, i);
    if i == 0 || P[i].end == |P| then None else Some(P[i].end)
  }

  /**
   * One step of `#nextTextNode` from a node other than the root: the node
   * itself when it is a text leaf to report, otherwise where the walk goes
   * next (the first child of a rendered HTML element other than `start`,
   * else the next node; an SVG element's next node; nothing for other
   * elements).
   */
  function Step(P: seq<Entry>, i: nat, start: nat): (r: Option<nat>)
    requires WellFormed(P) && 0 < i < |P|
    ensures r.Some? ==> i <= r.value < |P|
    ensures r == Some(i) ==>
      P[i].node.Text? && i != start && (!Blank(P[i].node.data) || !HasLineBreak(P[i].node.data))
    ensures r.Some? && i == start ==> P[i].end <= r.value
  {
    WellFormedAt(P, i);
    match P[i].node
    case Text(_, d) =>
      if i != start && (!Blank(d) || !HasLineBreak(d)) then Some(i) else NextNode(P, i)
    case Element(_, _, kind, attrs, cs) =>
      if kind == Svg then NextNode(P, i)
      else if kind == Html then
        (if attrs.rendered && i != start && cs != [] then Some(i + 1) else NextNode(P, i))
      else None
  }

  /**
   * `#nextTextNode(node, end, start)`: the next text leaf after `node` in
   * document order, descending only into rendered HTML elements (never into
   * `start` itself), skipping SVG subtrees, giving up at any other kind of
   * element, and passing over whitespace-only leaves that hold a line break.
   * The walk answers nothing once it reaches `end` or the root.
   */
  function NextTextNode(P: seq<Entry>, i: nat, end: Option<nat>, start: nat): (r: Option<nat>)
    requires WellFormed(P) && i < |P|
    ensures r.Some? ==> i <= r.value < |P| && P[r.value].node.Text?
    ensures r.Some? ==> r.value != start && Some(r.value) != end
    ensures r.Some? ==> !Blank(P[r.value].node.data) || !HasLineBreak(P[r.value].node.data)
    ensures r.Some? && i == start ==> P[i].end <= r.value
    decreases |P| - i
  {
    if Some(i) == end || i == 0 then None
    else
      var next := Step(P, i, start);
      if next == Some(i) then next
      else if next.None? || next == end then None
      else NextTextNode(P, next.value, end, start)
  }

  /**
   * `#findFirstTextChild`: follow first children down from `j` until a text
   * leaf; nothing if an element without children is met first.
   */
  function FindFirstTextChild(P: seq<Entry>, j: Option<nat>): (r: Option<nat>)
    requires WellFormed(P) && (j.Some? ==> j.value < |P|)
    ensures r.Some? ==> j.Some? && j.value <= r.value < |P| && P[r.value].node.Text?
    ensures r.Some? ==> r.value < P[j.value].end
    ensures j.Some? && P[j.value].node.Text? ==> r == j
    ensures r.Some? ==> forall m :: j.value <= m < r.value ==> P[m].node.Element? && P[m].node.children != []
    ensures j.Some? && r.None? ==>
      exists m :: j.value <= m < |P| && P[m].node.Element? && P[m].node.children == [] &&
        forall m' :: j.value <= m' < m ==> P[m'].node.Element? && P[m'].node.children != []
    decreases if j.Some? then |P| - j.value else 0
  {
    match j
    case None => None
    case Some(k) =>
      WellFormedAt(P, k);
      if P[k].node.Text? then j
      else if P[k].node.children != [] then
        var r := FindFirstTextChild(P, Some(k + 1));
        if r.Some? then
          WellFormedAt(P, k + 1);
          r
        else r
      else None
  }

  /**
   * `#nextNode` in terms of siblings: the next sibling when there is one;
   * otherwise the parent's next node, and nothing when the parent is the
   * root.
   */
  lemma NextNodeClimbs(P: seq<Entry>, i: nat)
    requires WellFormed(P) && Linked(P) && 0 < i < |P|
    ensures P[i].index + 1 < |P[i].siblings| ==>
      NextNode(P, i).Some? &&
      P[NextNode(P, i).value].parent == P[i].parent &&
      P[NextNode(P, i).value].index == P[i].index + 1
    ensures P[i].index + 1 >= |P[i].siblings| ==>
      0 <= P[i].parent < i &&
      NextNode(P, i) == (if P[i].parent == 0 then None else NextNode(P, P[i].parent))
  {
    WellFormedAt(P, i);
    assert LinkOk(P, 0, i, |P|);
  }

  // ---------------------------------------------------------------------
  // What the walk visits
  // ---------------------------------------------------------------------

  /** The walk goes into the children of `a`: a rendered HTML element other than `start`. */
  predicate Enters(P: seq<Entry>, start: nat, a: nat)
    requires a < |P|
  {
    P[a].node.Element? && P[a].node.kind == Html && P[a].node.attrs.rendered && a != start
  }

  /** An element of a kind the walk gives up at (neither HTML nor SVG). */
  predicate Foreign(P: seq<Entry>, a: nat)
    requires a < |P|
  {
    P[a].node.Element? && P[a].node.kind == Dom.Foreign
  }

  /**
   * A walk from `i` can reach `j`: every node from `i` on whose subtree
   * holds `j` is one the walk enters.
   */
  ghost predicate Reached(P: seq<Entry>, i: nat, start: nat, j: nat)
  {
    i <= j < |P| && forall a :: i <= a < j && j < P[a].end ==> Enters(P, start, a)
  }

  /** A text leaf the walk reports: not `start`, and not blank with a line break. */
  predicate Reportable(P: seq<Entry>, start: nat, j: nat)
    requires j < |P|
  {
    P[j].node.Text? && j != start && (!Blank(P[j].node.data) || !HasLineBreak(P[j].node.data))
  }

  /** A position where the walk ends, with or without an answer. */
  predicate Stops(P: seq<Entry>, end: Option<nat>, start: nat, f: nat)
    requires f < |P|
  {
    Some(f) == end || f == 0 || Foreign(P, f) || Reportable(P, start, f)
  }

  /**
   * `t` is the first text leaf to report from `i` on: reportable, neither
   * `end` nor the root, reachable, and no reachable position before it
   * stops the walk.
   */
  ghost predicate IsNextText(P: seq<Entry>, i: nat, end: Option<nat>, start: nat, t: nat)
  {
    Reached(P, i, start, t) && Reportable(P, start, t) && Some(t) != end && t != 0 &&
    forall f :: i <= f < t && Reached(P, i, start, f) ==> !Stops(P, end, start, f)
  }

  /** Past the subtree of a node the walk does not enter. */
  lemma SkipSubtree(P: seq<Entry>, i: nat, start: nat, f: nat)
    requires WellFormed(P) && Nested(P) && Reached(P, i, start, f)
    requires !Enters(P, start, f) || P[f].end == f + 1
    ensures forall v :: f < v < P[f].end ==> !Reached(P, i, start, v)
    ensures P[f].end < |P| ==> Reached(P, i, start, P[f].end)
  {
    WellFormedAt(P, f);
    var g := P[f].end;
    forall v | f < v < g
      ensures !Reached(P, i, start, v)
    {
      assert i <= f < v && v < P[f].end;
    }
    if g < |P| {
      forall a | f <= a < g
        ensures P[a].end <= g
      {
        if f < a {
          assert P[a].end <= P[f].end;
        }
      }
      forall a | i <= a < g && g < P[a].end
        ensures Enters(P, start, a)
      {
        assert a < f && f < P[a].end;
      }
    }
  }

  /** Into the first child of a node the walk enters. */
  lemma EnterSubtree(P: seq<Entry>, i: nat, start: nat, f: nat)
    requires WellFormed(P) && Reached(P, i, start, f)
    requires Enters(P, start, f) && P[f].node.children != []
    ensures Reached(P, i, start, f + 1)
  {
    WellFormedAt(P, f);
    forall a | i <= a < f + 1 && f + 1 < P[a].end
      ensures Enters(P, start, a)
    {
      if a < f {
        assert f < P[a].end;
      }
    }
  }

  /**
   * One step from a reachable node that does not stop the walk goes to the
   * next reachable position, or answers nothing when there is none.
   */
  lemma StepNext(P: seq<Entry>, i: nat, start: nat, f: nat)
    requires WellFormed(P) && Nested(P) && Reached(P, i, start, f) && 0 < f
    requires !Foreign(P, f) && !Reportable(P, start, f)
    ensures Step(P, f, start).Some? ==>
      f < Step(P, f, start).value && Reached(P, i, start, Step(P, f, start).value) &&
      forall v :: f < v < Step(P, f, start).value ==> !Reached(P, i, start, v)
    ensures Step(P, f, start).None? ==> forall v :: f < v < |P| ==> !Reached(P, i, start, v)
  {
    WellFormedAt(P, f);
    if Enters(P, start, f) && P[f].node.children != [] {
      EnterSubtree(P, i, start, f);
    } else {
      if P[f].node.Text? || P[f].node.children == [] {
        assert Childless(P[f].node);
      }
      SkipSubtree(P, i, start, f);
    }
  }

  /** The invariant of the walk from `i`, now at `f`. */
  ghost predicate WalkAt(P: seq<Entry>, i: nat, end: Option<nat>, start: nat, f: nat)
  {
    Reached(P, i, start, f) &&
    forall g :: i <= g < f && Reached(P, i, start, g) ==> !Stops(P, end, start, g)
  }

  lemma {:induction false} WalkFrom(P: seq<Entry>, i: nat, end: Option<nat>, start: nat, f: nat)
    requires WellFormed(P) && Nested(P) && WalkAt(P, i, end, start, f)
    ensures forall t: nat :: NextTextNode(P, f, end, start) == Some(t) <==> IsNextText(P, i, end, start, t)
    decreases |P| - f
  {
    if Some(f) == end || f == 0 || Foreign(P, f) || Reportable(P, start, f) {
      forall t: nat
        ensures IsNextText(P, i, end, start, t) ==> t == f
      {
        if t < f && Reached(P, i, start, t) {
          assert !Stops(P, end, start, t);
        } else if f < t {
          assert Reached(P, i, start, f) && Stops(P, end, start, f);
        }
      }
    } else {
      var next := Step(P, f, start);
      StepNext(P, i, start, f);
      if next.Some? && next != end {
        var g := next.value;
        forall h: nat | i <= h < g
          ensures Reached(P, i, start, h) ==> !Stops(P, end, start, h)
        {
          if f < h {
            assert !Reached(P, i, start, h);
          }
        }
        WalkFrom(P, i, end, start, g);
      } else {
        forall t: nat
          ensures !IsNextText(P, i, end, start, t)
        {
          if t < f {
            if Reached(P, i, start, t) {
              assert !Stops(P, end, start, t);
            }
          } else if f < t && next.Some? {
            var g := next.value;
            if t < g {
              assert !Reached(P, i, start, t);
            } else if g < t {
              assert Reached(P, i, start, g) && Stops(P, end, start, g);
            }
          } else if f < t {
            assert !Reached(P, i, start, t);
          }
        }
      }
    }
  }

  /**
   * `#nextTextNode` answers exactly the first reportable text leaf a walk
   * from `i` reaches before anything stops it, and nothing when there is
   * none.
   */
  lemma NextTextNodeIsFirst(P: seq<Entry>, i: nat, end: Option<nat>, start: nat)
    requires WellFormed(P) && Nested(P) && i < |P|
    ensures forall t: nat :: NextTextNode(P, i, end, start) == Some(t) <==> IsNextText(P, i, end, start, t)
  {
    WalkFrom(P, i, end, start, i);
  }

  // ---------------------------------------------------------------------
  // A chain of walks, each from the leaf the previous one reported
  // ---------------------------------------------------------------------

  /**
   * The leaf `t` is reported by a chain of `#nextTextNode` calls from the
   * leaf `c`, each call starting at the leaf the previous one gave: it lies
   * after `c`, is reachable and reportable, is not `end`, and nothing
   * reachable between them is `end` or an element the walk gives up at.
   */
  ghost predicate Visits(P: seq<Entry>, c: nat, end: Option<nat>, t: nat)
  {
    c < t && Reached(P, c, c, t) && Reportable(P, c, t) && Some(t) != end &&
    forall f :: c < f < t && Reached(P, c, c, f) ==> Some(f) != end && !Foreign(P, f)
  }

  /** What a walk from the leaf `c` reaches past the reported leaf `n` a walk from `n` reaches too, and only that. */
  lemma ReachedChain(P: seq<Entry>, c: nat, n: nat, t: nat)
    requires WellFormed(P) && Nested(P) && c < n < t < |P|
    requires P[c].node.Text? && P[n].node.Text? && Reached(P, c, c, n)
    ensures Reached(P, c, c, t) <==> Reached(P, n, n, t)
  {
    assert Childless(P[c].node) && Childless(P[n].node);
    if Reached(P, c, c, t) {
      forall a | n <= a < t && t < P[a].end
        ensures Enters(P, n, a)
      {
        assert c < a;
      }
    }
    if Reached(P, n, n, t) {
      forall a | c <= a < t && t < P[a].end
        ensures Enters(P, c, a)
      {
        if a < n {
          assert n < P[a].end;
        } else {
          assert Enters(P, n, a);
        }
      }
    }
  }

  /**
   * One call of the chain: from the leaf `c`, `#nextTextNode` gives the
   * first leaf the chain visits, and the chain from there visits the same
   * leaves beyond it.
   */
  lemma VisitsChain(P: seq<Entry>, c: nat, end: Option<nat>, n: nat)
    requires WellFormed(P) && Nested(P) && c < |P| && P[c].node.Text?
    requires NextTextNode(P, c, end, c) == Some(n)
    ensures Visits(P, c, end, n)
    ensures forall t :: c < t < n ==> !Visits(P, c, end, t)
    ensures forall t :: n < t ==> (Visits(P, c, end, t) <==> Visits(P, n, end, t))
  {
    NextTextNodeIsFirst(P, c, end, c);
    assert IsNextText(P, c, end, c, n);
    forall t | c < t < n
      ensures !Visits(P, c, end, t)
    {
      if Reached(P, c, c, t) {
        assert !Stops(P, end, c, t);
      }
    }
    forall t | n < t
      ensures Visits(P, c, end, t) <==> Visits(P, n, end, t)
    {
      VisitsShift(P, c, end, n, t);
    }
  }

  lemma VisitsShift(P: seq<Entry>, c: nat, end: Option<nat>, n: nat, t: nat)
    requires WellFormed(P) && Nested(P) && c < n < t && c < |P| && P[c].node.Text?
    requires IsNextText(P, c, end, c, n)
    ensures Visits(P, c, end, t) <==> Visits(P, n, end, t)
  {
    if t < |P| {
      ReachedChain(P, c, n, t);
      forall f | n < f < t
        ensures Reached(P, c, c, f) <==> Reached(P, n, n, f)
      {
        ReachedChain(P, c, n, f);
      }
      forall f | c < f <= n && Reached(P, c, c, f)
        ensures Some(f) != end && !Foreign(P, f)
      {
        if f < n {
          assert !Stops(P, end, c, f);
        }
      }
    }
  }

  /** A chain from `c` that visits some leaf has a first call that answers. */
  lemma {:induction false} FirstVisit(P: seq<Entry>, c: nat, end: Option<nat>, t: nat)
    requires WellFormed(P) && Nested(P) && 0 < c < |P| && P[c].node.Text? && Some(c) != end
    ensures Visits(P, c, end, t) ==> NextTextNode(P, c, end, c).Some?
    decreases t
  {
    if !Visits(P, c, end, t) {
    } else if f :| c < f < t && Reached(P, c, c, f) && Reportable(P, c, f) {
      assert Visits(P, c, end, f);
      FirstVisit(P, c, end, f);
    } else {
      NextTextNodeIsFirst(P, c, end, c);
      forall f | c <= f < t && Reached(P, c, c, f)
        ensures !Stops(P, end, c, f)
      {
      }
      assert IsNextText(P, c, end, c, t);
    }
  }

  // ---------------------------------------------------------------------
  // Pages the walk cannot tell apart
  // ---------------------------------------------------------------------

  /**
   * `Q` has the shape of `P`, and every node keeps what the walk looks at:
   * being a text leaf and its data, and an element's kind and rendering.
   * Region ids and tags may differ.
   */
  ghost predicate SameWalk(P: seq<Entry>, Q: seq<Entry>)
  {
    |Q| == |P| &&
    forall i :: 0 <= i < |P| ==>
      Q[i].end == P[i].end && Q[i].node.Text? == P[i].node.Text? &&
      (P[i].node.Text? ==> Q[i].node.data == P[i].node.data) &&
      (P[i].node.Element? ==> Q[i].node.kind == P[i].node.kind && Q[i].node.attrs.rendered == P[i].node.attrs.rendered)
  }

  /** On such pages, the same leaves are the first to report. */
  lemma SameWalkNextText(P: seq<Entry>, Q: seq<Entry>, i: nat, end: Option<nat>, start: nat, t: nat)
    requires SameWalk(P, Q)
    ensures IsNextText(Q, i, end, start, t) <==> IsNextText(P, i, end, start, t)
  {
    assert forall j :: Reached(Q, i, start, j) <==> Reached(P, i, start, j);
    assert forall f: nat :: f < |P| ==> (Stops(Q, end, start, f) <==> Stops(P, end, start, f));
  }

  /** `#nextTextNode` answers the same on pages it cannot tell apart. */
  lemma SameWalkNextTextNode(P: seq<Entry>, Q: seq<Entry>, i: nat, end: Option<nat>, start: nat)
    requires WellFormed(P) && Nested(P) && WellFormed(Q) && Nested(Q) && SameWalk(P, Q) && i < |P|
    ensures NextTextNode(Q, i, end, start) == NextTextNode(P, i, end, start)
  {
    NextTextNodeIsFirst(P, i, end, start);
    NextTextNodeIsFirst(Q, i, end, start);
    var a, b := NextTextNode(P, i, end, start), NextTextNode(Q, i, end, start);
    if a.Some? {
      SameWalkNextText(P, Q, i, end, start, a.value);
    }
    if b.Some? {
      SameWalkNextText(P, Q, i, end, start, b.value);
    }
  }
}
