/**
 * Painting a region (`#wrapRange`) and the boundary pre-merge that lets a
 * new region take over a touching region of the same style
 * (`#tryMergeByType`), with the relabelling both rely on.
 */
module Paint {
  import opened Wrappers
  import opened Dom
  import opened Names
  import opened Regions
  import opened Tree
  import opened Coalesce

  /** `HighlightSourceConfig`: the id, wrapper and color of a region. */
  datatype Config = Config(id: string, wrapper: string, color: Option<string>)

  /** `color ?? ""`. */
  function ColorOrEmpty(c: Option<string>): string
  {
    if c.Some? then c.value else ""
  }

  /** The attributes `#wrapRange` gives a new region: the id, and the color only when it is non-empty. */
  function RegionAttrs(cfg: Config): (a: Attrs)
    ensures a.hlId == Some(cfg.id)
    ensures a.color.Some? <==> ColorOrEmpty(cfg.color) != ""
    ensures a.color.Some? ==> a.color == cfg.color
  {
    Attrs(Some(cfg.id), if ColorOrEmpty(cfg.color) != "" then cfg.color else None, false, false, true, {})
  }

  /** A region created for `cfg`, with identity `uid` and the given children. */
  function NewRegion(cfg: Config, uid: nat, kids: seq<Node>): (r: Node)
    ensures r.Element? && r.attrs == RegionAttrs(cfg) && r.children == kids && r.uid == uid
    ensures r.tag == WrapperToTagname(cfg.wrapper) && r.kind == Html
  {
    Element(uid, WrapperToTagname(cfg.wrapper), Html, RegionAttrs(cfg), kids)
  }

  /**
   * A new region is a highlight (and a member of `doms`) exactly when it was
   * made for an allowed wrapper; its tag then maps back to that wrapper.
   */
  lemma NewRegionIsHighlight(cfg: Config, uid: nat, kids: seq<Node>)
    ensures IsHighlight(NewRegion(cfg, uid, kids)) <==> cfg.wrapper in AllowedWrappers
    ensures IsRegion(NewRegion(cfg, uid, kids)) <==> cfg.wrapper in AllowedWrappers
    ensures cfg.wrapper in AllowedWrappers ==> TagNameToWrapper(NewRegion(cfg, uid, kids).tag) == cfg.wrapper
  {
    var tag := WrapperToTagname(cfg.wrapper);
    LowerOfLower(tag);
    if cfg.wrapper in AllowedWrappers {
      WrapperRoundTrip(cfg.wrapper);
    }
  }

  /**
   * What `surroundContents` followed by `#cleanNode` makes of the text leaf
   * `t` for the characters `[s, e)`: the leaf keeps the text before the
   * range, a new region holds the range's text, a new leaf holds the rest;
   * whichever of the three text leaves is empty is dropped. The new region
   * gets identity `uid0`, the text it holds `uid0 + 1`, the text after it
   * `uid0 + 2`. Answers the pieces and the region's index among them.
   */
  function Surround(t: Node, s: nat, e: nat, cfg: Config, uid0: nat): (r: (seq<Node>, nat))
    requires t.Text? && s <= e <= |t.data|
    ensures r.1 == (if 0 < s then 1 else 0) && |r.0| == r.1 + 1 + (if e < |t.data| then 1 else 0)
    ensures r.0[r.1].Element? && r.0[r.1] == NewRegion(cfg, uid0, r.0[r.1].children)
    ensures r.0[r.1].children == Leaf(uid0 + 1, t.data[s..e])
    ensures forall i :: 0 <= i < |r.0| && i != r.1 ==> r.0[i].Text?
    ensures forall i :: 0 <= i < r.1 ==> r.0[i] == Text(t.uid, t.data[..s])
    ensures forall i :: r.1 < i < |r.0| ==> r.0[i] == Text(uid0 + 2, t.data[e..])
    ensures Content(r.0[r.1]) == t.data[s..e]
    ensures ContentSeq(r.0[..r.1]) == t.data[..s]
    ensures ContentSeq(r.0[r.1 + 1..]) == t.data[e..]
    ensures ContentSeq(r.0) == t.data
  {
    var d := t.data;
    var w := NewRegion(cfg, uid0, Leaf(uid0 + 1, d[s..e]));
    var pre := Leaf(t.uid, d[..s]);
    var post := Leaf(uid0 + 2, d[e..]);
    ContentAround(pre, w, post);
    StringCut(d, s, e);
    SpliceParts(pre, w, post);
    (pre + [w] + post, |pre|)
  }

  /** A text leaf holding `d`, or nothing when `d` is empty (`#cleanNode` drops empty leaves). */
  function Leaf(uid: nat, d: string): (r: seq<Node>)
    ensures |r| == (if d == "" then 0 else 1) && ContentSeq(r) == d
    ensures forall i :: 0 <= i < |r| ==> r[i] == Text(uid, d)
  {
    if d == "" then [] else ContentSeqSingle(Text(uid, d)); [Text(uid, d)]
  }

  /**
   * `#wrapRange` on the characters `[s, e)` of the text leaf at `k` of a
   * child list: the leaf is replaced by the pieces `Surround` makes of it,
   * every other sibling stays. Answers the new list and the index of the
   * new region.
   */
  function WrapRange(cs: seq<Node>, k: nat, s: nat, e: nat, cfg: Config, uid0: nat): (r: (seq<Node>, nat))
    requires k < |cs| && cs[k].Text? && s <= e <= |cs[k].data|
    ensures r.0 == cs[..k] + Surround(cs[k], s, e, cfg, uid0).0 + cs[k + 1..]
    ensures r.1 == k + Surround(cs[k], s, e, cfg, uid0).1
    ensures r.1 < |r.0| && r.0[r.1] == Surround(cs[k], s, e, cfg, uid0).0[Surround(cs[k], s, e, cfg, uid0).1]
    ensures ContentSeq(r.0) == ContentSeq(cs)
  {
    var m := Surround(cs[k], s, e, cfg, uid0);
    var r0 := cs[..k] + m.0 + cs[k + 1..];
    SpliceRun(cs[..k], m.0, cs[k + 1..]);
    assert r0[k + m.1] == m.0[m.1];
    ContentSplice(cs, k, m.0);
    (r0, k + m.1)
  }

  // ---------------------------------------------------------------------
  // Relabelling
  // ---------------------------------------------------------------------

  /** Every element whose region attribute is `from` gets `to` instead. */
  function Relabel(n: Node, from: string, to: string): (r: Node)
    ensures r.uid == n.uid && (r.Element? <==> n.Element?)
    ensures r.Text? ==> r == n
    decreases n
  {
    match n
    case Text(_, _) => n
    case Element(u, tag, kind, attrs, cs) =>
      var a := if attrs.hlId == Some(from) then attrs.(hlId := Some(to)) else attrs;
      Element(u, tag, kind, a, RelabelSeq(cs, from, to))
  }

  function RelabelSeq(cs: seq<Node>, from: string, to: string): (r: seq<Node>)
    ensures |r| == |cs|
    ensures forall i :: 0 <= i < |cs| ==> r[i] == Relabel(cs[i], from, to)
    decreases cs
  {
    seq(|cs|, i requires 0 <= i < |cs| => Relabel(cs[i], from, to))
  }

  /** Does some element of the subtree carry region id `id`? */
  predicate Carries(n: Node, id: string)
    decreases n
  {
    n.Element? && (n.attrs.hlId == Some(id) || exists i :: 0 <= i < |n.children| && Carries(n.children[i], id))
  }

  /** Relabelling keeps the text, the tags and the shape of the tree. */
  lemma {:induction false} RelabelContent(n: Node, from: string, to: string)
    ensures Content(Relabel(n, from, to)) == Content(n)
    decreases n, 0
  {
    if n.Element? {
      RelabelSeqContent(n.children, from, to);
    }
  }

  lemma {:induction false} RelabelSeqContent(cs: seq<Node>, from: string, to: string)
    ensures ContentSeq(RelabelSeq(cs, from, to)) == ContentSeq(cs)
    decreases cs, 1
  {
    if cs != [] {
      RelabelContent(cs[0], from, to);
      assert RelabelSeq(cs, from, to)[1..] == RelabelSeq(cs[1..], from, to);
      RelabelSeqContent(cs[1..], from, to);
    }
  }

  /** After relabelling, no element carries the old id any more. */
  lemma {:induction false} RelabelRemoves(n: Node, from: string, to: string)
    requires from != to
    ensures !Carries(Relabel(n, from, to), from)
    decreases n
  {
    if n.Element? {
      var r := Relabel(n, from, to);
      forall i | 0 <= i < |r.children| ensures !Carries(r.children[i], from) {
        assert r.children[i] == Relabel(n.children[i], from, to);
        RelabelRemoves(n.children[i], from, to);
      }
    }
  }

  /** Relabelling changes exactly the elements that carried the old id. */
  lemma {:induction false} RelabelCarries(n: Node, from: string, to: string, id: string)
    requires from != to
    ensures id != from && id != to ==> (Carries(Relabel(n, from, to), id) <==> Carries(n, id))
    ensures Carries(Relabel(n, from, to), to) <==> Carries(n, from) || Carries(n, to)
    decreases n
  {
    if n.Element? {
      var r := Relabel(n, from, to);
      forall i | 0 <= i < |n.children|
        ensures id != from && id != to ==> (Carries(r.children[i], id) <==> Carries(n.children[i], id))
        ensures Carries(r.children[i], to) <==> Carries(n.children[i], from) || Carries(n.children[i], to)
      {
        assert r.children[i] == Relabel(n.children[i], from, to);
        RelabelCarries(n.children[i], from, to, id);
      }
    }
  }

  /** Relabelling keeps every path, and the node at a path is the relabelled node. */
  lemma {:induction false} RelabelGet(n: Node, path: seq<nat>, from: string, to: string)
    requires ValidPath(n, path)
    ensures ValidPath(Relabel(n, from, to), path)
    ensures Get(Relabel(n, from, to), path) == Relabel(Get(n, path), from, to)
    decreases |path|
  {
    if path != [] {
      RelabelGet(n.children[path[0]], path[1..], from, to);
    }
  }

  /** Relabelling to the same id changes nothing. */
  lemma {:induction false} RelabelSame(n: Node, id: string)
    ensures Relabel(n, id, id) == n
    decreases n
  {
    if n.Element? {
      forall i | 0 <= i < |n.children| ensures Relabel(n.children[i], id, id) == n.children[i] {
        RelabelSame(n.children[i], id);
      }
      assert RelabelSeq(n.children, id, id) == n.children;
    }
  }

  /** Does the element at `elPath` have the configured wrapper and color and a non-empty region id? */
  predicate SameStyle(doc: Node, elPath: seq<nat>, cfg: Config)
    requires ValidPath(doc, elPath) && Get(doc, elPath).Element?
  {
    var el := Get(doc, elPath);
    cfg.wrapper == TagNameToWrapper(el.tag) && ColorOrEmpty(cfg.color) == ColorOrEmpty(el.attrs.color)
    && RegionId(el).Some?
  }

  /**
   * The page `#tryMergeByType` leaves: when the element at `elPath` has the
   * configured style, every element carrying its id takes the configured
   * id and the element's text leaves are coalesced; otherwise the page.
   */
  function MergedByType(doc: Node, elPath: seq<nat>, cfg: Config): (r: Node)
    requires ValidPath(doc, elPath) && Get(doc, elPath).Element?
    ensures r.Element? <==> doc.Element?
    ensures !SameStyle(doc, elPath, cfg) ==> r == doc
    ensures SameStyle(doc, elPath, cfg) && RegionId(Get(doc, elPath)).value != cfg.id ==>
      !Carries(r, RegionId(Get(doc, elPath)).value)
  {
    if SameStyle(doc, elPath, cfg) then
      var from := RegionId(Get(doc, elPath)).value;
      var moved := Relabel(doc, from, cfg.id);
      RelabelGet(doc, elPath, from, cfg.id);
      if from != cfg.id then
        RelabelRemoves(doc, from, cfg.id);
        SetChildrenCarries(moved, elPath, FixedText(Get(moved, elPath).children), from);
        SetChildren(moved, elPath, FixedText(Get(moved, elPath).children))
      else
        SetChildren(moved, elPath, FixedText(Get(moved, elPath).children))
    else doc
  }

  /** A merge adds no region id but the configured one. */
  lemma MergedByTypeAbsent(doc: Node, elPath: seq<nat>, cfg: Config, id: string)
    requires ValidPath(doc, elPath) && Get(doc, elPath).Element?
    requires !Carries(doc, id) && id != cfg.id
    ensures !Carries(MergedByType(doc, elPath, cfg), id)
  {
    if SameStyle(doc, elPath, cfg) {
      var from := RegionId(Get(doc, elPath)).value;
      var moved := Relabel(doc, from, cfg.id);
      RelabelGet(doc, elPath, from, cfg.id);
      if from != cfg.id {
        RelabelCarries(doc, from, cfg.id, id);
        RelabelRemoves(doc, from, cfg.id);
      } else {
        RelabelSame(doc, from);
      }
      SetChildrenCarries(moved, elPath, FixedText(Get(moved, elPath).children), id);
    }
  }

  /**
   * `#tryMergeByType(node, config)` where `el` is the element at `elPath`
   * (the node itself, or the parent of a text leaf): the page
   * `MergedByType` describes, the text leaves coalesced by the
   * `#fixTextContent` loop.
   */
  method TryMergeByType(doc: Node, elPath: seq<nat>, cfg: Config) returns (r: Node)
    requires ValidPath(doc, elPath) && Get(doc, elPath).Element?
    ensures Content(r) == Content(doc)
    ensures r == MergedByType(doc, elPath, cfg)
  {
    var el := Get(doc, elPath);
    var sameTag := cfg.wrapper == TagNameToWrapper(el.tag);
    var sameColor := ColorOrEmpty(cfg.color) == ColorOrEmpty(el.attrs.color);
    if !sameTag || !sameColor {
      return doc;
    }
    var nodeid := RegionId(el);
    if nodeid.None? {
      return doc;
    }
    var moved := Relabel(doc, nodeid.value, cfg.id);
    RelabelGet(doc, elPath, nodeid.value, cfg.id);
    RelabelContent(doc, nodeid.value, cfg.id);
    var fixed := FixTextContent(Get(moved, elPath).children);
    FixedTextContent(Get(moved, elPath).children);
    SetChildrenContent(moved, elPath, fixed);
    r := SetChildren(moved, elPath, fixed);
  }

  /** Coalescing a child list adds no region id to the document. */
  lemma {:induction false} SetChildrenCarries(n: Node, path: seq<nat>, cs: seq<Node>, id: string)
    requires ValidPath(n, path) && Get(n, path).Element?
    requires cs == FixedText(Get(n, path).children)
    requires !Carries(n, id)
    ensures !Carries(SetChildren(n, path, cs), id)
    decreases |path|
  {
    var r := SetChildren(n, path, cs);
    if path == [] {
      forall i | 0 <= i < |cs| ensures !Carries(cs[i], id) {
        FixedTextFrom(n.children, i);
      }
    } else {
      var k := path[0];
      SetChildrenCarries(n.children[k], path[1..], cs, id);
      forall i | 0 <= i < |r.children| ensures !Carries(r.children[i], id) {
        if i != k {
          assert r.children[i] == n.children[i];
        }
      }
    }
  }
}
