/**
 * The `TextHighlighter` component: its settings, the page it edits and
 * the store it saves to, and the public operations that drive the
 * passes of the other modules (`highlight`, `removeById`, `clear`,
 * `reset`, `save`, `load`, and the attribute callback).
 *
 * Node identities (`uid`) stand for the DOM's live node references: a
 * selection range and the list of painted regions name nodes by identity
 * and find them again after the document has changed. `crypto.randomUUID`
 * is an oracle `nat -> string` that the component draws from in order.
 */
module Engine {
  import opened Wrappers
  import opened Dom
  import opened Names
  import opened Regions
  import opened Tree
  import opened Paint
  import opened Extract
  import opened Fork
  import opened Codec
  import opened Unwrap
  import opened Select

  /** `HighlightOptions`: an absent field falls back to the component's own setting. */
  datatype Options = Options(id: Option<string>, color: Option<string>, wrapper: Option<string>, ignoreSelectors: seq<string>)

  /**
   * A selection range with its containers named by identity; each
   * boundary also names the children of its container from its offset on,
   * which a live boundary at an element follows when children are removed.
   */
  datatype SpanRef = SpanRef(start: nat, startOffset: nat, startAfter: seq<nat>,
                             finish: nat, endOffset: nat, endAfter: seq<nat>, common: nat)

  /** A leaf range with its leaf named by identity: what the `ranges` list of `highlight` holds. */
  datatype LeafRef = LeafRef(uid: nat, s: nat, e: nat)

  /** The wrapper and color `clear` paints with before removing the selection's highlights. */
  const ToRemove := "text-highlight-to-remove"

  // ---------------------------------------------------------------------
  // Finding nodes again by identity
  // ---------------------------------------------------------------------

  /** The first position from `i` on holding the node with identity `uid`. */
  function PosFrom(P: seq<Entry>, uid: nat, i: nat): (r: Option<nat>)
    ensures r.Some? ==> i <= r.value < |P| && P[r.value].node.uid == uid
    ensures r.None? ==> forall j :: i <= j < |P| ==> P[j].node.uid != uid
    decreases |P| - i
  {
    if i >= |P| then None
    else if P[i].node.uid == uid then Some(i)
    else PosFrom(P, uid, i + 1)
  }

  /** When no node occurs twice, a position is found again from its node's identity. */
  lemma {:induction false} PosFromUnique(P: seq<Entry>, i: nat, q: nat)
    requires UniqueUids(P) && i <= q < |P|
    ensures PosFrom(P, P[q].node.uid, i) == Some(q)
    decreases q - i
  {
    if i < q {
      PosFromUnique(P, i + 1, q);
    }
  }

  /** The identities of the children of `n` from index `k` on. */
  function ChildUidsFrom(n: Node, k: nat): (r: seq<nat>)
    ensures n.Element? && k <= |n.children| ==> |r| == |n.children| - k
    ensures forall i :: 0 <= i < |r| ==> n.Element? && k + i < |n.children| && r[i] == n.children[k + i].uid
  {
    if n.Element? && k <= |n.children| then
      seq<nat>(|n.children| - k, i requires 0 <= i < |n.children| - k => n.children[k + i].uid)
    else []
  }

  /** The index of the first node of `cs` with identity `u`, if any. */
  function IndexOfUid(cs: seq<Node>, u: nat, j: nat): (r: Option<nat>)
    ensures r.Some? ==> j <= r.value < |cs| && cs[r.value].uid == u
    ensures r.None? ==> forall i :: j <= i < |cs| ==> cs[i].uid != u
    decreases |cs| - j
  {
    if j >= |cs| then None
    else if cs[j].uid == u then Some(j)
    else IndexOfUid(cs, u, j + 1)
  }

  /** The index among `cs` of the first of the nodes `us` that is still there. */
  function FirstChildAmong(cs: seq<Node>, us: seq<nat>): (r: Option<nat>)
    ensures r.Some? ==> r.value < |cs|
    decreases |us|
  {
    if us == [] then None
    else
      match IndexOfUid(cs, us[0], 0)
      case Some(i) => Some(i)
      case None => FirstChildAmong(cs, us[1..])
  }

  /**
   * The offset of a live boundary in the container `n` once the merges
   * are done, `after` naming the children that were at or after it. An
   * offset into a text leaf is kept: a fold only appends to a text leaf or
   * removes the one after it. A boundary at an element keeps the children
   * it had before it, so it sits before the first of `after` still there,
   * or at the end.
   */
  function LiveOffset(n: Node, k: nat, after: seq<nat>): (r: nat)
    ensures n.Text? ==> r == k
    ensures n.Element? ==> r <= |n.children|
  {
    if n.Text? then k
    else
      match FirstChildAmong(n.children, after)
      case Some(i) => i
      case None => |n.children|
  }

  /** No two children of `n` are the same node. */
  predicate DistinctChildren(n: Node)
  {
    n.Element? ==> forall i, j :: 0 <= i < j < |n.children| ==> n.children[i].uid != n.children[j].uid
  }

  /** With no child removed or added, a live boundary keeps its offset. */
  lemma LiveOffsetSame(n: Node, k: nat)
    requires DistinctChildren(n) && (n.Element? ==> k <= |n.children|)
    ensures LiveOffset(n, k, ChildUidsFrom(n, k)) == k
  {
    if n.Element? && k < |n.children| {
      var us := ChildUidsFrom(n, k);
      assert us[0] == n.children[k].uid;
      var r := IndexOfUid(n.children, us[0], 0);
      assert r == Some(k);
    }
  }

  /**
   * A boundary at an element follows the removal of one of its children
   * (`#fixTextContent` removing a folded text leaf): it moves back by one
   * when the removed child was before it, and stays otherwise.
   */
  lemma LiveOffsetAfterRemoval(n: Node, k: nat, j: nat)
    requires n.Element? && DistinctChildren(n) && j < |n.children| && k <= |n.children|
    ensures LiveOffset(n.(children := n.children[..j] + n.children[j + 1..]), k, ChildUidsFrom(n, k)) ==
      if j < k then k - 1 else k
  {
    var cs, us := n.children, ChildUidsFrom(n, k);
    var cs' := cs[..j] + cs[j + 1..];
    assert forall i :: 0 <= i < |cs'| ==> cs'[i] == if i < j then cs[i] else cs[i + 1];
    var want := if j < k then k - 1 else k;
    if k < |cs| && k != j {
      assert cs'[want] == cs[k];
      RemovedIndex(cs, j, us[0], k, want);
    } else if k == j && k + 1 < |cs| {
      assert IndexOfUid(cs', us[0], 0).None?;
      assert us[1..][0] == cs[k + 1].uid;
      assert cs'[want] == cs[k + 1];
      RemovedIndex(cs, j, us[1..][0], k + 1, want);
      assert FirstChildAmong(cs', us) == FirstChildAmong(cs', us[1..]) == Some(want);
    } else if k == j {
      assert IndexOfUid(cs', us[0], 0).None?;
      assert us[1..] == [];
      assert FirstChildAmong(cs', us) == FirstChildAmong(cs', us[1..]) == None;
    } else {
      assert us == [];
    }
  }

  /** After removing the child at `j`, the node with identity `u`, once at `k`, is found at `want`. */
  lemma RemovedIndex(cs: seq<Node>, j: nat, u: nat, k: nat, want: nat)
    requires j < |cs| && k < |cs| && k != j && cs[k].uid == u
    requires forall a, b :: 0 <= a < b < |cs| ==> cs[a].uid != cs[b].uid
    requires want == if j < k then k - 1 else k
    ensures IndexOfUid(cs[..j] + cs[j + 1..], u, 0) == Some(want)
  {
    var cs' := cs[..j] + cs[j + 1..];
    assert forall i :: 0 <= i < |cs'| ==> cs'[i] == if i < j then cs[i] else cs[i + 1];
    var r := IndexOfUid(cs', u, 0);
    assert cs'[want].uid == u;
  }

  /** The identities of a range's containers and of the children past its boundaries. */
  function Refs(P: seq<Entry>, sp: Span): SpanRef
    requires ValidSpan(P, sp)
  {
    SpanRef(P[sp.start].node.uid, sp.startOffset, ChildUidsFrom(P[sp.start].node, sp.startOffset),
            P[sp.finish].node.uid, sp.endOffset, ChildUidsFrom(P[sp.finish].node, sp.endOffset),
            P[sp.common].node.uid)
  }

  /**
   * The range a `SpanRef` names in `P`, when all its containers are there,
   * its offsets moved as the browser moves a live range's.
   */
  function Resolve(P: seq<Entry>, sr: SpanRef): (r: Option<Span>)
    ensures r.Some? ==>
      r.value.start < |P| && P[r.value.start].node.uid == sr.start &&
      r.value.finish < |P| && P[r.value.finish].node.uid == sr.finish &&
      r.value.common < |P| && P[r.value.common].node.uid == sr.common &&
      r.value.startOffset == LiveOffset(P[r.value.start].node, sr.startOffset, sr.startAfter) &&
      r.value.endOffset == LiveOffset(P[r.value.finish].node, sr.endOffset, sr.endAfter)
  {
    match (PosFrom(P, sr.start, 0), PosFrom(P, sr.finish, 0), PosFrom(P, sr.common, 0))
    case (Some(s), Some(f), Some(c)) =>
      Some(Span(s, LiveOffset(P[s].node, sr.startOffset, sr.startAfter), f, LiveOffset(P[f].node, sr.endOffset, sr.endAfter), c))
    case _ => None
  }

  /** A range whose offsets into elements are child indices (at most the number of children). */
  predicate OffsetsFit(P: seq<Entry>, sp: Span)
    requires ValidSpan(P, sp)
  {
    (P[sp.start].node.Element? ==> sp.startOffset <= |P[sp.start].node.children|) &&
    (P[sp.finish].node.Element? ==> sp.endOffset <= |P[sp.finish].node.children|)
  }

  /** Naming a range by identities and resolving it again on the same page gives the range back, when no node occurs twice. */
  lemma ResolveRefs(P: seq<Entry>, sp: Span)
    requires UniqueUids(P) && ValidSpan(P, sp) && OffsetsFit(P, sp)
    requires DistinctChildren(P[sp.start].node) && DistinctChildren(P[sp.finish].node)
    ensures Resolve(P, Refs(P, sp)) == Some(sp)
  {
    PosFromUnique(P, 0, sp.start);
    PosFromUnique(P, 0, sp.finish);
    PosFromUnique(P, 0, sp.common);
    LiveOffsetSame(P[sp.start].node, sp.startOffset);
    LiveOffsetSame(P[sp.finish].node, sp.endOffset);
  }

  /** The leaf ranges with their leaves named by identity. */
  function LeafRefs(P: seq<Entry>, rs: seq<LeafRange>): (r: seq<LeafRef>)
    requires forall i :: 0 <= i < |rs| ==> rs[i].leaf < |P|
    ensures |r| == |rs|
    ensures forall i :: 0 <= i < |rs| ==> r[i] == LeafRef(P[rs[i].leaf].node.uid, rs[i].s, rs[i].e)
  {
    seq(|rs|, i requires 0 <= i < |rs| => LeafRef(P[rs[i].leaf].node.uid, rs[i].s, rs[i].e))
  }

  /**
   * The element `#tryMergeByType` looks at for the node with identity
   * `uid`: the node itself when it is an element, else its parent; nothing
   * when there is no node (or it has left the document).
   */
  function MergeTarget(doc: Node, uid: Option<nat>): (r: Option<seq<nat>>)
    ensures r.Some? ==> ValidPath(doc, r.value) && Get(doc, r.value).Element?
  {
    if uid.None? then None
    else
      match Find(doc, uid.value)
      case None => None
      case Some(p) =>
        if Get(doc, p).Element? then Some(p)
        else if p == [] then None
        else
          GetParent(doc, p);
          Some(p[..|p| - 1])
  }

  // ---------------------------------------------------------------------
  // The passes of `highlight`
  // ---------------------------------------------------------------------

  /** The page `#tryMergeByType(node, config)` leaves, for the node with identity `uid`. */
  function MergedAround(doc: Node, uid: Option<nat>, cfg: Config): (r: Node)
    requires doc.Element?
    ensures r.Element?
    ensures Drops(doc, uid, cfg) ==> !Carries(r, TargetId(doc, uid))
  {
    match MergeTarget(doc, uid)
    case None => doc
    case Some(p) => MergedByType(doc, p, cfg)
  }

  /** Does the merge around `uid` hand a region id other than the configured one over to it? */
  predicate Drops(doc: Node, uid: Option<nat>, cfg: Config)
  {
    MergeTarget(doc, uid).Some? && SameStyle(doc, MergeTarget(doc, uid).value, cfg) &&
    RegionId(Get(doc, MergeTarget(doc, uid).value)).value != cfg.id
  }

  /** The region id of the element the merge around `uid` looks at. */
  function TargetId(doc: Node, uid: Option<nat>): string
    requires MergeTarget(doc, uid).Some? && RegionId(Get(doc, MergeTarget(doc, uid).value)).Some?
  {
    RegionId(Get(doc, MergeTarget(doc, uid).value)).value
  }

  /** A merge brings in no region id but the configured one. */
  lemma MergedAroundAbsent(doc: Node, uid: Option<nat>, cfg: Config, id: string)
    requires doc.Element? && !Carries(doc, id) && id != cfg.id
    ensures !Carries(MergedAround(doc, uid, cfg), id)
  {
    if MergeTarget(doc, uid).Some? {
      MergedByTypeAbsent(doc, MergeTarget(doc, uid).value, cfg, id);
    }
  }

  /** `#tryMergeByType(node, config)` on the node with identity `uid`. */
  method MergeAround(doc: Node, uid: Option<nat>, cfg: Config) returns (r: Node)
    requires doc.Element?
    ensures r.Element? && Content(r) == Content(doc)
    ensures MergeTarget(doc, uid).None? ==> r == doc
    ensures MergeTarget(doc, uid).Some? ==> r == MergedByType(doc, MergeTarget(doc, uid).value, cfg)
  {
    r := doc;
    var target := MergeTarget(doc, uid);
    if target.Some? {
      r := TryMergeByType(doc, target.value, cfg);
    }
  }

  /** Every text leaf of `r` with an identity below `uid0` is, or begins, a text leaf of `doc` with that identity. */
  ghost predicate LeavesFrom(doc: Node, r: Node, uid0: nat)
  {
    forall u: nat, t: string {:trigger Within(r, Text(u, t))} :: Within(r, Text(u, t)) && u < uid0 ==>
      exists d {:trigger Within(doc, Text(u, d))} :: Within(doc, Text(u, d)) && t <= d
  }

  /** The region painted with identity `u` for `cfg`: its one text leaf, with identity `u + 1`, holds `t`. */
  function PaintedRegion(cfg: Config, u: nat, t: string): Node
  {
    NewRegion(cfg, u, [Text(u + 1, t)])
  }

  /**
   * The range `ref` is painted in `r` as the region with identity `u`: its
   * leaf held `d` in `doc`, and `r` holds the region, made for `cfg`, with
   * the range's characters `d[s..e]` as its one text leaf.
   */
  ghost predicate Painted(r: Node, doc: Node, ref: LeafRef, d: string, cfg: Config, u: nat)
  {
    ref.s < ref.e <= |d| && Within(doc, Text(ref.uid, d)) && Within(r, PaintedRegion(cfg, u, d[ref.s..ref.e]))
  }

  /** The `j`-th region painted, with identity `nodes[j]`, paints range `wrapped[j]` of `refs`, whose leaf held `datas[j]`. */
  ghost predicate PaintedAt(r: Node, doc: Node, refs: seq<LeafRef>, cfg: Config,
                            wrapped: seq<nat>, datas: seq<string>, nodes: seq<nat>, j: nat)
  {
    j < |wrapped| && j < |datas| && j < |nodes| && wrapped[j] < |refs| &&
    Painted(r, doc, refs[wrapped[j]], datas[j], cfg, nodes[j])
  }

  /** Every text leaf of the page is traceable to the page itself. */
  lemma LeavesFromSelf(doc: Node, uid0: nat)
    ensures LeavesFrom(doc, doc, uid0)
  {
  }

  /** A child of the element at `path` is a subtree of the document, and so is what lies inside it. */
  lemma ChildWithin(r: Node, path: seq<nat>, j: nat, y: Node)
    requires ValidPath(r, path) && Get(r, path).Element? && j < |Get(r, path).children|
    requires Within(Get(r, path).children[j], y)
    ensures Within(r, y)
  {
    GetWithin(r, path);
    assert Within(Get(r, path), Get(r, path).children[j]);
    WithinTrans(Get(r, path), Get(r, path).children[j], y);
    WithinTrans(r, Get(r, path), y);
  }

  /** Is the range `[s, e)` of `ref` inside the text leaf at `k` of the element at `pp`? */
  predicate CanWrap(r: Node, pp: seq<nat>, k: nat, ref: LeafRef)
  {
    ValidPath(r, pp) && Get(r, pp).Element? && k < |Get(r, pp).children| &&
    Get(r, pp).children[k].Text? && ref.s <= ref.e <= |Get(r, pp).children[k].data|
  }

  /** The page with the range wrapped (`#wrapRange`), its region getting identity `uid1`. */
  function Wrapped(r: Node, pp: seq<nat>, k: nat, ref: LeafRef, cfg: Config, uid1: nat): Node
    requires CanWrap(r, pp, k, ref)
  {
    SetChildren(r, pp, WrapRange(Get(r, pp).children, k, ref.s, ref.e, cfg, uid1).0)
  }

  /** Where an entry of a list with the entry at `k` replaced by a run `m` comes from. */
  lemma SpliceIndex<T>(cs: seq<T>, k: nat, m: seq<T>, j: nat)
    requires k < |cs| && j < |cs[..k] + m + cs[k + 1..]|
    ensures j < k ==> (cs[..k] + m + cs[k + 1..])[j] == cs[j]
    ensures k <= j < k + |m| ==> (cs[..k] + m + cs[k + 1..])[j] == m[j - k]
    ensures k + |m| <= j ==> (cs[..k] + m + cs[k + 1..])[j] == cs[j - |m| + 1]
  {
  }

  /** A text leaf inside one of the pieces of a wrapped leaf is the leaf's head or has a new identity. */
  lemma PieceLeaf(t: Node, ref: LeafRef, cfg: Config, uid1: nat, i: nat, y: Node)
    requires t.Text? && ref.s <= ref.e <= |t.data| && y.Text?
    requires i < |Surround(t, ref.s, ref.e, cfg, uid1).0| && Within(Surround(t, ref.s, ref.e, cfg, uid1).0[i], y)
    ensures y == Text(t.uid, t.data[..ref.s]) || uid1 < y.uid
  {
    var m := Surround(t, ref.s, ref.e, cfg, uid1);
    if i == m.1 {
      var c :| 0 <= c < |m.0[i].children| && Within(m.0[i].children[c], y);
      assert m.0[i].children[c] == Text(uid1 + 1, t.data[ref.s..ref.e]);
    }
  }

  /**
   * A text leaf inside the children list after `#wrapRange` lies in an old
   * child (index `c`), or is the head piece of the wrapped leaf, or is new.
   */
  lemma WrapRangeLeaf(cs: seq<Node>, k: nat, ref: LeafRef, cfg: Config, uid1: nat, j: nat, y: Node) returns (c: int)
    requires k < |cs| && cs[k].Text? && ref.s <= ref.e <= |cs[k].data| && y.Text?
    requires j < |WrapRange(cs, k, ref.s, ref.e, cfg, uid1).0| && Within(WrapRange(cs, k, ref.s, ref.e, cfg, uid1).0[j], y)
    ensures c < |cs| && (0 <= c ==> Within(cs[c], y))
    ensures c < 0 ==> y == Text(cs[k].uid, cs[k].data[..ref.s]) || uid1 < y.uid
  {
    var m := Surround(cs[k], ref.s, ref.e, cfg, uid1);
    SpliceIndex(cs, k, m.0, j);
    if j < k {
      c := j;
    } else if j >= k + |m.0| {
      c := j - |m.0| + 1;
    } else {
      c := -1;
      PieceLeaf(cs[k], ref, cfg, uid1, j - k, y);
    }
  }

  /** A text leaf of the wrapped page is an old one or lies in the pieces of the wrapped leaf. */
  lemma WrappedLeaf(r: Node, pp: seq<nat>, k: nat, ref: LeafRef, cfg: Config, uid1: nat, y: Node)
    requires CanWrap(r, pp, k, ref) && y.Text? && Within(Wrapped(r, pp, k, ref, cfg, uid1), y)
    ensures Within(r, y) || y == Text(Get(r, pp).children[k].uid, Get(r, pp).children[k].data[..ref.s]) || uid1 < y.uid
  {
    var w := WrapRange(Get(r, pp).children, k, ref.s, ref.e, cfg, uid1).0;
    SetChildrenFrom(r, pp, w, y);
    if !Within(r, y) {
      var j :| 0 <= j < |w| && Within(w[j], y);
      var c := WrapRangeLeaf(Get(r, pp).children, k, ref, cfg, uid1, j, y);
      if 0 <= c {
        ChildWithin(r, pp, c, y);
      }
    }
  }

  /** Wrapping a range keeps every old text leaf traceable to the original page. */
  lemma WrapLeavesFrom(doc: Node, r: Node, pp: seq<nat>, k: nat, ref: LeafRef, cfg: Config, uid0: nat, uid1: nat)
    requires CanWrap(r, pp, k, ref) && uid0 <= uid1 && LeavesFrom(doc, r, uid0)
    ensures LeavesFrom(doc, Wrapped(r, pp, k, ref, cfg, uid1), uid0)
  {
    var leaf := Get(r, pp).children[k];
    forall u: nat, t: string | Within(Wrapped(r, pp, k, ref, cfg, uid1), Text(u, t)) && u < uid0
      ensures exists d :: Within(doc, Text(u, d)) && t <= d
    {
      var y := Text(u, t);
      WrappedLeaf(r, pp, k, ref, cfg, uid1, y);
      if !Within(r, y) {
        ChildWithin(r, pp, k, leaf);
        var d :| Within(doc, Text(leaf.uid, d)) && leaf.data <= d;
        assert y.data <= d;
      }
    }
  }

  /** Wrapping a range in another leaf keeps an earlier region whose one text leaf is new. */
  lemma WrapKeepsRegion(r: Node, pp: seq<nat>, k: nat, ref: LeafRef, cfg: Config, uid0: nat, uid1: nat, x: Node)
    requires CanWrap(r, pp, k, ref) && Get(r, pp).children[k].uid < uid0
    requires x.Element? && |x.children| == 1 && x.children[0].Text? && uid0 <= x.children[0].uid && Within(r, x)
    ensures Within(Wrapped(r, pp, k, ref, cfg, uid1), x)
  {
    var cs := Get(r, pp).children;
    var m := Surround(cs[k], ref.s, ref.e, cfg, uid1);
    var w := WrapRange(cs, k, ref.s, ref.e, cfg, uid1).0;
    assert !Within(x, Get(r, pp));
    forall i | 0 <= i < |cs| && Within(cs[i], x) ensures cs[i] in w {
      if i < k {
        SpliceIndex(cs, k, m.0, i);
      } else if i > k {
        SpliceIndex(cs, k, m.0, i + |m.0| - 1);
      }
    }
    SetChildrenKeeps(r, pp, w, x);
  }

  /** Wrapping a non-empty range of a leaf traceable to the original page paints it. */
  lemma WrapPaints(doc: Node, r: Node, pp: seq<nat>, k: nat, ref: LeafRef, cfg: Config, uid0: nat, uid1: nat)
    returns (d: string)
    requires CanWrap(r, pp, k, ref) && ref.s < ref.e && Get(r, pp).children[k].uid == ref.uid < uid0
    requires LeavesFrom(doc, r, uid0)
    ensures Painted(Wrapped(r, pp, k, ref, cfg, uid1), doc, ref, d, cfg, uid1)
  {
    var leaf := Get(r, pp).children[k];
    var w := WrapRange(Get(r, pp).children, k, ref.s, ref.e, cfg, uid1);
    ChildWithin(r, pp, k, leaf);
    d :| Within(doc, Text(leaf.uid, d)) && leaf.data <= d;
    assert leaf.data[ref.s..ref.e] == d[ref.s..ref.e];
    SetChildrenHas(r, pp, w.0, w.1);
  }

  /**
   * `#wrapRange(range, config)` for a leaf range named by its leaf's
   * identity: the new region gets identity `uid1`. Nothing is done, and
   * `ok` is false, when the leaf has left the page, no longer holds the
   * range, or the range is empty (its region would be removed again).
   */
  method WrapOne(ghost doc: Node, r: Node, ref: LeafRef, cfg: Config, ghost uid0: nat, uid1: nat)
    returns (r2: Node, ok: bool, ghost d: string)
    requires r.Element? && ref.uid < uid0 <= uid1 && LeavesFrom(doc, r, uid0)
    ensures r2.Element? && Content(r2) == Content(r)
    ensures !ok ==> r2 == r
    ensures ok ==> Painted(r2, doc, ref, d, cfg, uid1)
    ensures forall u: nat, t: string {:trigger Within(r, PaintedRegion(cfg, u, t))} ::
      uid0 <= u && Within(r, PaintedRegion(cfg, u, t)) ==> Within(r2, PaintedRegion(cfg, u, t))
    ensures LeavesFrom(doc, r2, uid0)
  {
    r2, ok, d := r, false, "";
    var found := Find(r, ref.uid);
    if found.Some? && found.value != [] && ref.s < ref.e {
      var p := found.value;
      GetParent(r, p);
      var pp, k := p[..|p| - 1], p[|p| - 1];
      var parent := Get(r, pp);
      if parent.children[k].Text? && ref.e <= |parent.children[k].data| {
        var w := WrapRange(parent.children, k, ref.s, ref.e, cfg, uid1);
        SetChildrenContent(r, pp, w.0);
        d := WrapPaints(doc, r, pp, k, ref, cfg, uid0, uid1);
        forall u: nat, t: string | uid0 <= u && Within(r, PaintedRegion(cfg, u, t))
          ensures Within(Wrapped(r, pp, k, ref, cfg, uid1), PaintedRegion(cfg, u, t))
        {
          WrapKeepsRegion(r, pp, k, ref, cfg, uid0, uid1, PaintedRegion(cfg, u, t));
        }
        WrapLeavesFrom(doc, r, pp, k, ref, cfg, uid0, uid1);
        r2, ok := Wrapped(r, pp, k, ref, cfg, uid1), true;
      }
    }
  }

  /**
   * The loop over `ranges`: each leaf range is wrapped in a new region
   * and the region's identity is kept in `nodes`. The `j`-th region
   * painted holds the characters of range `wrapped[j]`, taken from the leaf
   * of the original page that range names.
   */
  method WrapLeaves(doc: Node, refs: seq<LeafRef>, cfg: Config, uid0: nat)
    returns (r: Node, nodes: seq<nat>, uid1: nat, ghost wrapped: seq<nat>, ghost datas: seq<string>)
    requires doc.Element?
    requires forall i :: 0 <= i < |refs| ==> refs[i].uid < uid0
    ensures r.Element? && Content(r) == Content(doc)
    ensures |nodes| <= |refs| && uid0 <= uid1
    ensures forall i :: 0 <= i < |nodes| ==> uid0 <= nodes[i] < uid1
    ensures forall i, j :: 0 <= i < j < |nodes| ==> nodes[i] < nodes[j]
    ensures |wrapped| == |nodes| && |datas| == |nodes|
    ensures forall i, j :: 0 <= i < j < |wrapped| ==> wrapped[i] < wrapped[j]
    ensures forall j :: 0 <= j < |nodes| ==> PaintedAt(r, doc, refs, cfg, wrapped, datas, nodes, j)
  {
    r, nodes, uid1, wrapped, datas := doc, [], uid0, [], [];
    LeavesFromSelf(doc, uid0);
    for i: nat := 0 to |refs|
      invariant WrapProgress(doc, refs, cfg, uid0, i, r, nodes, uid1, wrapped, datas)
    {
      var r2, ok;
      ghost var d;
      r2, ok, d := WrapOne(doc, r, refs[i], cfg, uid0, uid1);
      if ok {
        WrapStep(doc, refs, cfg, uid0, i, r, nodes, uid1, wrapped, datas, r2, d);
        r, nodes, wrapped, datas := r2, nodes + [uid1], wrapped + [i], datas + [d];
        uid1 := uid1 + 3;
      } else {
        WrapSkip(doc, refs, cfg, uid0, i, r, nodes, uid1, wrapped, datas);
      }
    }
  }

  /** The loop invariant of `WrapLeaves` after the first `i` ranges. */
  ghost predicate WrapProgress(doc: Node, refs: seq<LeafRef>, cfg: Config, uid0: nat, i: nat,
                               r: Node, nodes: seq<nat>, uid1: nat, wrapped: seq<nat>, datas: seq<string>)
  {
    r.Element? && Content(r) == Content(doc) &&
    |nodes| <= i && uid0 <= uid1 &&
    (forall j :: 0 <= j < |nodes| ==> uid0 <= nodes[j] < uid1) &&
    (forall j, l :: 0 <= j < l < |nodes| ==> nodes[j] < nodes[l]) &&
    |wrapped| == |nodes| && |datas| == |nodes| &&
    (forall j, l :: 0 <= j < l < |wrapped| ==> wrapped[j] < wrapped[l]) &&
    (forall j :: 0 <= j < |wrapped| ==> wrapped[j] < i) &&
    (forall j :: 0 <= j < |nodes| ==> PaintedAt(r, doc, refs, cfg, wrapped, datas, nodes, j)) &&
    LeavesFrom(doc, r, uid0)
  }

  /** A range left alone keeps the invariant. */
  lemma WrapSkip(doc: Node, refs: seq<LeafRef>, cfg: Config, uid0: nat, i: nat,
                 r: Node, nodes: seq<nat>, uid1: nat, wrapped: seq<nat>, datas: seq<string>)
    requires WrapProgress(doc, refs, cfg, uid0, i, r, nodes, uid1, wrapped, datas)
    ensures WrapProgress(doc, refs, cfg, uid0, i + 1, r, nodes, uid1, wrapped, datas)
  {
  }

  /** A range painted as region `uid1`, keeping the earlier regions and the traceable leaves, keeps the invariant. */
  lemma WrapStep(doc: Node, refs: seq<LeafRef>, cfg: Config, uid0: nat, i: nat,
                 r: Node, nodes: seq<nat>, uid1: nat, wrapped: seq<nat>, datas: seq<string>, r2: Node, d: string)
    requires i < |refs| && WrapProgress(doc, refs, cfg, uid0, i, r, nodes, uid1, wrapped, datas)
    requires r2.Element? && Content(r2) == Content(r) && LeavesFrom(doc, r2, uid0)
    requires Painted(r2, doc, refs[i], d, cfg, uid1)
    requires forall u: nat, t: string {:trigger Within(r, PaintedRegion(cfg, u, t))} ::
      uid0 <= u && Within(r, PaintedRegion(cfg, u, t)) ==> Within(r2, PaintedRegion(cfg, u, t))
    ensures WrapProgress(doc, refs, cfg, uid0, i + 1, r2, nodes + [uid1], uid1 + 3, wrapped + [i], datas + [d])
  {
    forall j | 0 <= j < |nodes|
      ensures PaintedAt(r2, doc, refs, cfg, wrapped + [i], datas + [d], nodes + [uid1], j)
    {
      assert PaintedAt(r, doc, refs, cfg, wrapped, datas, nodes, j);
    }
    assert PaintedAt(r2, doc, refs, cfg, wrapped + [i], datas + [d], nodes + [uid1], |nodes|);
  }

  /**
   * The loop over `nodes`: `#extractOverlapped` on the parent of each
   * painted region still in the document, collecting the ids it splits
   * into `ids`, a set kept in insertion order. A region whose parent is the
   * body is left alone: the body is never a highlight.
   */
  method ExtractAll(doc: Node, nodes: seq<nat>, uid0: nat) returns (r: Node, ids: seq<string>, uid1: nat)
    requires doc.Element?
    ensures r.Element? && Content(r) == Content(doc)
    ensures uid0 <= uid1
    ensures forall i, j :: 0 <= i < j < |ids| ==> ids[i] != ids[j]
  {
    r, ids, uid1 := doc, [], uid0;
    for i := 0 to |nodes|
      invariant r.Element? && Content(r) == Content(doc)
      invariant uid0 <= uid1
      invariant forall j, l :: 0 <= j < l < |ids| ==> ids[j] != ids[l]
    {
      var found := Find(r, nodes[i]);
      if found.Some? && |found.value| >= 2 {
        var p := found.value;
        GetParent(r, p);
        var pp := p[..|p| - 1];
        GetParent(r, pp);
        var gp, idx := pp[..|pp| - 1], pp[|pp| - 1];
        var kids, id, u := ExtractOverlapped(Get(r, gp).children, Some(idx), uid1);
        SetChildrenContent(r, gp, kids);
        r := SetChildren(r, gp, kids);
        uid1 := u;
        if id.Some? && id.value !in ids {
          ids := ids + [id.value];
        }
      }
    }
  }

  /**
   * `for (const id of ids) this.#refreshId(id)`: a fresh id is drawn for
   * every id carried by at least two regions.
   */
  method RefreshAll(doc: Node, ids: seq<string>, oracle: nat -> string, drawn0: nat) returns (r: Node, drawn1: nat)
    requires doc.Element?
    ensures r.Element? && Content(r) == Content(doc)
    ensures drawn0 <= drawn1 <= drawn0 + |ids|
  {
    r, drawn1 := doc, drawn0;
    for i := 0 to |ids|
      invariant r.Element? && Content(r) == Content(doc)
      invariant drawn0 <= drawn1 <= drawn0 + i
    {
      var id := ids[i];
      var tagged := TaggedFrom(Order(r), id, 0);
      if |tagged| >= 2 {
        var r1, matches, forked := RefreshId(r, id, oracle(drawn1));
        if forked {
          SetIdsContent(r, Unvisited(Order(r), tagged, matches), oracle(drawn1));
        }
        r, drawn1 := r1, drawn1 + 1;
      }
    }
  }

  /** What `save()` writes: the sources of the page's regions, in document order. */
  function Stored(root: Node): seq<Source>
  {
    OrderWellFormed(root);
    SourceList(Order(root), DomsFrom(Order(root), 1))
  }

  /** The identity of the start container. */
  function StartUid(doc: Node, sp: Span): Option<nat>
    requires ValidSpan(Order(doc), sp)
  {
    Some(Order(doc)[sp.start].node.uid)
  }

  /** The identity of `end`, if there is one. */
  function EndUid(doc: Node, sp: Span): Option<nat>
    requires ValidSpan(Order(doc), sp)
  {
    var e := EndNode(Order(doc), sp);
    if e.Some? then Some(Order(doc)[e.value].node.uid) else None
  }

  /** Does the range lie in one text leaf (`start instanceof Text && start === end`)? */
  predicate OneLeaf(doc: Node, sp: Span)
    requires ValidSpan(Order(doc), sp)
  {
    Order(doc)[sp.start].node.Text? && EndNode(Order(doc), sp) == Some(sp.start)
  }

  /** The page after the merge around the start container and, unless the range lies in one leaf, around `end`. */
  ghost predicate MergedEnds(doc: Node, sp: Span, cfg: Config, r: Node)
    requires doc.Element? && ValidSpan(Order(doc), sp)
  {
    (OneLeaf(doc, sp) ==> r == MergedAround(doc, StartUid(doc, sp), cfg)) &&
    (!OneLeaf(doc, sp) ==> r == MergedAround(MergedAround(doc, StartUid(doc, sp), cfg), EndUid(doc, sp), cfg))
  }

  /** A region id handed over by either merge is gone from the page `r`. */
  ghost predicate HandedOver(doc: Node, sp: Span, cfg: Config, r: Node)
    requires doc.Element? && ValidSpan(Order(doc), sp)
  {
    (Drops(doc, StartUid(doc, sp), cfg) ==> !Carries(r, TargetId(doc, StartUid(doc, sp)))) &&
    (!OneLeaf(doc, sp) && Drops(MergedAround(doc, StartUid(doc, sp), cfg), EndUid(doc, sp), cfg) ==>
      !Carries(r, TargetId(MergedAround(doc, StartUid(doc, sp), cfg), EndUid(doc, sp))))
  }

  /**
   * The two `#tryMergeByType` calls of `highlight`: on the start container,
   * and on the end node unless the range lies in one text leaf. A touching
   * region of the configured style hands its id over to the new one: that
   * id is gone from the page afterwards.
   */
  method MergeEnds(doc: Node, sp: Span, cfg: Config) returns (r: Node)
    requires doc.Element? && ValidSpan(Order(doc), sp)
    ensures r.Element? && Content(r) == Content(doc)
    ensures MergedEnds(doc, sp, cfg, r)
    ensures HandedOver(doc, sp, cfg, r)
  {
    var P := Order(doc);
    var endNode := EndNode(P, sp);
    r := MergeAround(doc, Some(P[sp.start].node.uid), cfg);
    ghost var mid := r;
    if !(P[sp.start].node.Text? && endNode == Some(sp.start)) {
      var endUid := if endNode.Some? then Some(P[endNode.value].node.uid) else None;
      r := MergeAround(r, endUid, cfg);
      if Drops(doc, StartUid(doc, sp), cfg) {
        MergedAroundAbsent(mid, endUid, cfg, TargetId(doc, StartUid(doc, sp)));
      }
    }
  }

  /**
   * `end` on the merged page. It was fixed before the merges: the end
   * container itself when that is a text leaf or not the common ancestor
   * (the merges change neither), else the node with identity `endRef`, if
   * it is still on the page. A node folded away by a merge is detached, and
   * a walk never meets it.
   */
  function EndAfterMerge(P: seq<Entry>, sp: Span, endRef: Option<nat>): (r: Option<nat>)
    requires ValidSpan(P, sp)
    ensures r.Some? ==> r.value < |P|
    ensures (P[sp.finish].node.Text? || sp.finish != sp.common) ==> r == Some(sp.finish)
    ensures r.Some? && !(P[sp.finish].node.Text? || sp.finish != sp.common) ==> Some(P[r.value].node.uid) == endRef
  {
    if P[sp.finish].node.Text? || sp.finish != sp.common then Some(sp.finish)
    else if endRef.None? then None
    else PosFrom(P, endRef.value, 0)
  }

  /** When the merges changed nothing, `end` fixed beforehand is `end` computed on the page. */
  lemma EndAfterNoMerge(doc: Node, sp: Span)
    requires UniqueUids(Order(doc)) && ValidSpan(Order(doc), sp)
    ensures EndAfterMerge(Order(doc), sp, EndUid(doc, sp)) == EndNode(Order(doc), sp)
  {
    var P := Order(doc);
    var e := EndNode(P, sp);
    if e.Some? {
      PosFromUnique(P, 0, e.value);
    }
  }

  /**
   * The rest of `highlight` once the merges are done: the range, found
   * again by its containers' identities and with `end` as it was fixed
   * before the merges, is cut into leaf ranges, which are wrapped;
   * overlapped regions are extracted and split ids refreshed. Answers
   * whether any leaf was highlightable.
   */
  method PaintSpan(doc: Node, refs: SpanRef, endRef: Option<nat>, cfg: Config, ignore: seq<string>, uid0: nat, oracle: nat -> string, drawn0: nat)
    returns (r: Node, highlighted: bool, uid1: nat, drawn1: nat)
    requires doc.Element? && MaxUid(doc) < uid0
    ensures r.Element? && Content(r) == Content(doc)
    ensures uid0 <= uid1 && drawn0 <= drawn1
  {
    var leaves;
    leaves, highlighted := CutSpan(doc, refs, endRef, ignore, uid0);
    var nodes, ids;
    ghost var wrapped, datas;
    r, nodes, uid1, wrapped, datas := WrapLeaves(doc, leaves, cfg, uid0);
    r, ids, uid1 := ExtractAll(r, nodes, uid1);
    r, drawn1 := RefreshAll(r, ids, oracle, drawn0);
  }

  /**
   * The leaf ranges of the range found again on the merged page, their
   * leaves named by identity; none when the range cannot be found again.
   * With no `end`, the walk stops at the end of the common ancestor's
   * subtree (`WalkEnd`) rather than running on to the end of the page.
   */
  method CutSpan(doc: Node, refs: SpanRef, endRef: Option<nat>, ignore: seq<string>, uid0: nat)
    returns (leaves: seq<LeafRef>, highlighted: bool)
    requires doc.Element? && MaxUid(doc) < uid0
    ensures forall i :: 0 <= i < |leaves| ==> leaves[i].uid < uid0
    ensures Resolve(Order(doc), refs).None? ==> leaves == [] && !highlighted
  {
    leaves, highlighted := [], false;
    var P := Order(doc);
    var sp := Resolve(P, refs);
    if sp.None? || !ValidSpan(P, sp.value) {
      return;
    }
    var endNode := WalkEnd(P, sp.value, EndAfterMerge(P, sp.value, endRef));
    if !EndOk(P, sp.value, endNode) {
      return;
    }
    OrderWellFormed(doc);
    var ranges;
    ranges, highlighted := Decompose(P, sp.value, ignore, endNode);
    DecompositionFacts(P, sp.value, ignore, endNode);
    assert forall i :: 0 <= i < |ranges| ==> ranges[i] in Decomposition(P, sp.value, ignore, endNode).0;
    OrderUids(doc);
    leaves := LeafRefs(P, ranges);
  }

  /**
   * The body of `highlight` once the settings are fixed: the merges at
   * both ends of the range, then the painting of the range, its
   * containers found again by their identities. New nodes get identities
   * from `nextUid` on, above every identity on the merged page.
   */
  method MergeAndPaint(doc: Node, sp: Span, cfg: Config, ignore: seq<string>, nextUid: nat, oracle: nat -> string, drawn0: nat)
    returns (r: Node, highlighted: bool, uid1: nat, drawn1: nat)
    requires doc.Element? && ValidSpan(Order(doc), sp)
    ensures r.Element? && Content(r) == Content(doc)
    ensures nextUid <= uid1 && drawn0 <= drawn1
  {
    var d := MergeEnds(doc, sp, cfg);
    var u0 := Max(nextUid, MaxUid(d) + 1);
    r, highlighted, uid1, drawn1 := PaintSpan(d, Refs(Order(doc), sp), EndUid(doc, sp), cfg, ignore, u0, oracle, drawn0);
  }

  /** `clear()` on a flat document leaves no region behind. */
  lemma ClearLeavesNoRegion(root: Node)
    requires root.Element? && FlatSeq(root.children)
    ensures !AnyMatch(UnwrapDoc(root, AllRegions).children, AllRegions)
  {
    FlatNestFree(root.children);
    UnwrapRemovesAll(root.children, AllRegions);
  }

  /** `removeById(id)` on a document where no region with the id sits in another leaves every id but `id`. */
  lemma RemoveByIdLeavesOthers(root: Node, id: string)
    requires root.Element? && NestFree(root.children, ById(id))
    ensures Ids(UnwrapDoc(root, ById(id)).children) == Ids(root.children) - {id}
  {
    RemoveByIdIds(root.children, id);
  }

  // ---------------------------------------------------------------------
  // The component
  // ---------------------------------------------------------------------

  class TextHighlighter {
    var autoHighlight: bool
    var autoSave: bool
    var autoLoad: bool
    var color: Option<string>
    var wrapper: string
    /** The page: the `body` element. */
    var doc: Node
    /** `localStorage["highlight-sources"]`: the last saved sources, if any. */
    var store: Option<seq<Source>>
    /** The identity the next node the component creates gets. */
    var nextUid: nat
    /** How many ids the id oracle has given out. */
    var drawn: nat

    ghost predicate Valid()
      reads this
    {
      doc.Element?
    }

    /** A component on the page `body` with the default settings and an empty store. */
    constructor(body: Node)
      requires body.Element?
      ensures Valid() && doc == body && store.None? && drawn == 0 && nextUid > MaxUid(body)
      ensures !autoHighlight && !autoSave && !autoLoad && color.None? && wrapper == "mark"
    {
      autoHighlight, autoSave, autoLoad := false, false, false;
      color, wrapper := None, "mark";
      doc, store := body, None;
      nextUid, drawn := MaxUid(body) + 1, 0;
    }

    /** `reset()`: color and wrapper back to their defaults; nothing else changes. */
    method Reset()
      modifies this
      ensures color.None? && wrapper == "mark"
      ensures autoHighlight == old(autoHighlight) && autoSave == old(autoSave) && autoLoad == old(autoLoad)
      ensures doc == old(doc) && store == old(store) && nextUid == old(nextUid) && drawn == old(drawn)
    {
      color := None;
      wrapper := "mark";
    }

    /**
     * `attributeChangedCallback(name, _, value)`: a boolean attribute is
     * parsed (a bad value is a TypeError and changes nothing), an absent
     * one means the default; `color` and `wrapper` take the value or their
     * default. Other names change nothing. The browser delivers only the
     * four observed names (autohighlight, autosave, color, wrapper); the
     * callback's own `autoload` branch is kept as written and is reached
     * only by a direct call.
     */
    method AttributeChanged(name: string, value: Option<string>) returns (err: Option<string>)
      modifies this
      ensures err.Some? <==> name in {"autohighlight", "autosave", "autoload"} && ParseBoolean(name, value).Err?
      ensures name == "autohighlight" && err.None? ==> autoHighlight == (value == Some("") || value == Some("true"))
      ensures name == "autosave" && err.None? ==> autoSave == (value == Some("") || value == Some("true"))
      ensures name == "autoload" && err.None? ==> autoLoad == (value == Some("") || value == Some("true"))
      ensures name == "color" ==> color == value
      ensures name == "wrapper" ==> wrapper == (if value.Some? then value.value else "mark")
      ensures name != "autohighlight" || err.Some? ==> autoHighlight == old(autoHighlight)
      ensures name != "autosave" || err.Some? ==> autoSave == old(autoSave)
      ensures name != "autoload" || err.Some? ==> autoLoad == old(autoLoad)
      ensures name != "color" ==> color == old(color)
      ensures name != "wrapper" ==> wrapper == old(wrapper)
      ensures doc == old(doc) && store == old(store) && nextUid == old(nextUid) && drawn == old(drawn)
    {
      err := None;
      if name == "autohighlight" || name == "autosave" || name == "autoload" {
        match ParseBoolean(name, value)
        case Err(e) =>
          err := Some(e);
        case Ok(b) =>
          var v := if b.Some? then b.value else false;
          if name == "autohighlight" {
            autoHighlight := v;
          } else if name == "autosave" {
            autoSave := v;
          } else {
            autoLoad := v;
          }
      } else if name == "color" {
        color := value;
      } else if name == "wrapper" {
        wrapper := if value.Some? then value.value else "mark";
      }
    }

    /** `save()`: the store holds the sources of the page's regions. */
    method Save()
      modifies this
      ensures store == Some(Stored(doc))
      ensures doc == old(doc) && nextUid == old(nextUid) && drawn == old(drawn)
      ensures autoHighlight == old(autoHighlight) && autoSave == old(autoSave) && autoLoad == old(autoLoad)
      ensures color == old(color) && wrapper == old(wrapper)
    {
      var srcs := Sources(doc);
      store := Some(srcs);
    }

    /**
     * `load()`: nothing without stored sources; otherwise `restore` on
     * them. An error stops the restore and is swallowed, keeping the wraps
     * made before it. The swallowed error is answered as a ghost.
     */
    method Load() returns (ghost err: Option<string>)
      requires Valid()
      modifies this
      ensures Valid() && Content(doc) == old(Content(doc))
      ensures old(store).None? ==> doc == old(doc) && nextUid == old(nextUid) && err.None?
      ensures old(store).Some? ==> Restored(old(doc), old(store).value, old(nextUid), doc, err)
      ensures old(store).Some? ==> nextUid == old(nextUid) + 3 * |old(store).value|
      ensures store == old(store) && drawn == old(drawn)
      ensures autoHighlight == old(autoHighlight) && autoSave == old(autoSave) && autoLoad == old(autoLoad)
      ensures color == old(color) && wrapper == old(wrapper)
    {
      err := None;
      if store.None? {
        return;
      }
      var srcs := store.value;
      var d, e := Restore(doc, srcs, nextUid);
      doc, nextUid, err := d, nextUid + 3 * |srcs|, e;
    }

    /**
     * `removeById(id)`: every element carrying the id gives way to its
     * children; then the sources are saved when `autoSave` is on.
     */
    method RemoveById(id: string)
      requires Valid()
      modifies this
      ensures Valid() && doc == UnwrapDoc(old(doc), ById(id)) && Content(doc) == old(Content(doc))
      ensures autoSave ==> store == Some(Stored(doc))
      ensures !autoSave ==> store == old(store)
      ensures nextUid == old(nextUid) && drawn == old(drawn)
      ensures autoHighlight == old(autoHighlight) && autoSave == old(autoSave) && autoLoad == old(autoLoad)
      ensures color == old(color) && wrapper == old(wrapper)
    {
      doc := UnwrapDoc(doc, ById(id));
      if autoSave {
        Save();
      }
    }

    /**
     * `highlight(opts)` on the selection `sel` (nothing when there is no
     * selection). Without options and with `autoHighlight` off, or on a
     * collapsed selection, nothing happens. Otherwise the touching regions
     * are merged into the new id, the range is cut into leaf ranges, each
     * is wrapped, the regions painted inside another are extracted, and the
     * split ids are refreshed; the page keeps its text throughout.
     */
    method Highlight(opts: Option<Options>, sel: Option<Span>, oracle: nat -> string)
      requires Valid() && (sel.Some? ==> ValidSpan(Order(doc), sel.value))
      modifies this
      ensures Valid() && Content(doc) == old(Content(doc))
      ensures (opts.None? && !old(autoHighlight)) || sel.None? || Collapsed(sel.value) ==>
        doc == old(doc) && store == old(store) && drawn == old(drawn) && nextUid == old(nextUid)
      ensures store != old(store) ==> autoSave && store == Some(Stored(doc))
      ensures old(drawn) <= drawn && old(nextUid) <= nextUid
      ensures autoHighlight == old(autoHighlight) && autoSave == old(autoSave) && autoLoad == old(autoLoad)
      ensures color == old(color) && wrapper == old(wrapper)
    {
      if opts.None? && !autoHighlight {
        return;
      }
      if sel.None? || Collapsed(sel.value) {
        return;
      }
      var id: string;
      if opts.Some? && opts.value.id.Some? {
        id := opts.value.id.value;
      } else {
        id := oracle(drawn);
        drawn := drawn + 1;
      }
      var col := if opts.Some? && opts.value.color.Some? then opts.value.color else color;
      var wr := if opts.Some? && opts.value.wrapper.Some? then opts.value.wrapper.value else wrapper;
      var ignore := if opts.Some? then opts.value.ignoreSelectors else [];
      var cfg := Config(id, wr, col);

      var d, highlighted, u, n := MergeAndPaint(doc, sel.value, cfg, ignore, nextUid, oracle, drawn);
      doc, nextUid, drawn := d, u, n;
      if highlighted && autoSave {
        Save();
      }
    }

    /**
     * `clear()`: with no selection or a collapsed one, every region of the
     * page gives way to its children; otherwise the selection is painted
     * with a fresh id and that id is removed. Then the sources are saved
     * when `autoSave` is on.
     */
    method Clear(sel: Option<Span>, oracle: nat -> string) returns (ghost painted: Node)
      requires Valid() && (sel.Some? ==> ValidSpan(Order(doc), sel.value))
      modifies this
      ensures Valid() && Content(doc) == old(Content(doc))
      ensures sel.None? || Collapsed(sel.value) ==> doc == UnwrapDoc(old(doc), AllRegions)
      ensures sel.Some? && !Collapsed(sel.value) ==>
        painted.Element? && Content(painted) == old(Content(doc)) && doc == UnwrapDoc(painted, ById(oracle(old(drawn))))
      ensures old(drawn) <= drawn
      ensures autoSave ==> store == Some(Stored(doc))
      ensures !autoSave ==> store == old(store)
      ensures autoHighlight == old(autoHighlight) && autoSave == old(autoSave) && autoLoad == old(autoLoad)
      ensures color == old(color) && wrapper == old(wrapper)
    {
      painted := doc;
      if sel.None? || Collapsed(sel.value) {
        doc := UnwrapDoc(doc, AllRegions);
      } else {
        var id := oracle(drawn);
        drawn := drawn + 1;
        Highlight(Some(Options(Some(id), Some(ToRemove), Some(ToRemove), [])), sel, oracle);
        painted := doc;
        RemoveById(id);
      }
      if autoSave {
        Save();
      }
    }
  }
}
