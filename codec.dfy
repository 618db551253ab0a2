/**
 * The address codec: `sources()` describes every region by its text, the
 * place its text starts on the page without the region, its config and
 * its parent element (tag name and rank among same-named elements);
 * `restore(...sources)` paints such descriptions back.
 */
module Codec {
  import opened Wrappers
  import opened Dom
  import opened Names
  import opened Regions
  import opened Tree
  import opened Paint

  /** `parent` of a `HighlightSource`: a tag name and the rank among elements of that name. */
  datatype ParentRef = ParentRef(tagName: string, index: int)

  /** `HighlightSource`; `node` is the identity of the described region. */
  datatype Source = Source(node: nat, text: string, index: nat, offset: nat, config: Config, parent: ParentRef)

  // ---------------------------------------------------------------------
  // Elements by tag name
  // ---------------------------------------------------------------------

  /** Matched by `getElementsByTagName(name)`: an element whose tag name is `name` up to ASCII case. */
  predicate NamedAs(n: Node, name: string)
  {
    n.Element? && Lower(n.tag) == Lower(name)
  }

  /** How many of the first `m` positions hold an element named `name`. */
  function CountNamed(P: seq<Entry>, name: string, m: nat): nat
    requires m <= |P|
  {
    if m == 0 then 0 else CountNamed(P, name, m - 1) + (if NamedAs(P[m - 1].node, name) then 1 else 0)
  }

  /** `indexOf` of the element at `p` in `getElementsByTagName` of its own tag name. */
  function TagRank(P: seq<Entry>, p: nat): nat
    requires p < |P| && P[p].node.Element?
  {
    CountNamed(P, P[p].node.tag, p)
  }

  /**
   * `getElementsByTagName(name)[n]`, searching from position `i`: the
   * position of the element named `name` that has `n` such elements
   * between `i` and itself; nothing when there is none.
   */
  function NthNamed(P: seq<Entry>, name: string, n: int, i: nat): (r: Option<nat>)
    requires i <= |P|
    ensures r.Some? ==>
      0 <= n && i <= r.value < |P| && NamedAs(P[r.value].node, name) &&
      CountNamed(P, name, r.value) == CountNamed(P, name, i) + n
    decreases |P| - i
  {
    if n < 0 || i == |P| then None
    else if NamedAs(P[i].node, name) then
      if n == 0 then Some(i) else NthNamed(P, name, n - 1, i + 1)
    else NthNamed(P, name, n, i + 1)
  }

  lemma {:induction false} CountNamedMono(P: seq<Entry>, name: string, i: nat, j: nat)
    requires i <= j <= |P|
    ensures CountNamed(P, name, i) <= CountNamed(P, name, j)
    decreases j - i
  {
    if i < j {
      CountNamedMono(P, name, i, j - 1);
    }
  }

  /** From any position at or before `p`, counting the same-named elements in between finds `p`. */
  lemma {:induction false} NthNamedFinds(P: seq<Entry>, name: string, i: nat, p: nat)
    requires i <= p < |P| && NamedAs(P[p].node, name)
    ensures CountNamed(P, name, i) <= CountNamed(P, name, p)
    ensures NthNamed(P, name, CountNamed(P, name, p) - CountNamed(P, name, i), i) == Some(p)
    decreases p - i
  {
    CountNamedMono(P, name, i, p);
    if i < p {
      NthNamedFinds(P, name, i + 1, p);
      CountNamedMono(P, name, i + 1, p);
    }
  }

  /** The parent reference of a source leads back to the parent element. */
  lemma ParentRoundTrip(P: seq<Entry>, p: nat)
    requires p < |P| && P[p].node.Element?
    ensures NthNamed(P, P[p].node.tag, TagRank(P, p), 0) == Some(p)
  {
    NthNamedFinds(P, P[p].node.tag, 0, p);
  }

  // ---------------------------------------------------------------------
  // sources()
  // ---------------------------------------------------------------------

  /**
   * Where the text of the child at `k` starts once the region is gone:
   * `startOffset - 1` and the previous leaf's length when the previous
   * sibling is a text leaf, else `startOffset` and 0.
   */
  function Address(sibs: seq<Node>, k: nat): (nat, nat)
    requires k < |sibs|
  {
    if 0 < k && sibs[k - 1].Text? then (k - 1, |sibs[k - 1].data|) else (k, 0)
  }

  /**
   * The source `sources()` makes of the region at position `d`, nothing
   * when its id is empty. The parent is the range's common ancestor, the
   * region's parent element.
   */
  function SourceOf(P: seq<Entry>, d: nat): (r: Option<Source>)
    requires WellFormed(P) && 0 < d < |P|
    ensures r.Some? <==> RegionId(P[d].node).Some?
    ensures r.Some? ==>
      r.value.node == P[d].node.uid && r.value.text == Content(P[d].node) &&
      r.value.config.id == RegionId(P[d].node).value && r.value.config.id != "" &&
      r.value.config.wrapper == TagNameToWrapper(P[d].node.tag) && r.value.config.color == P[d].node.attrs.color
  {
    WellFormedAt(P, d);
    var n := P[d].node;
    var q := P[d].parent as nat;
    match RegionId(n)
    case None => None
    case Some(id) =>
      var a := Address(P[d].siblings, P[d].index);
      Some(Source(n.uid, Content(n), a.0, a.1, Config(id, TagNameToWrapper(n.tag), n.attrs.color),
                  ParentRef(P[q].node.tag, TagRank(P, q))))
  }

  /**
   * A source leads back to its region: its parent reference finds the
   * region's parent element, whose children are the region's siblings,
   * and its index and offset are the region's address among them.
   */
  lemma SourceLeadsBack(P: seq<Entry>, d: nat)
    requires WellFormed(P) && 0 < d < |P| && SourceOf(P, d).Some?
    ensures WellFormed(P) && 0 <= P[d].parent < d && P[P[d].parent].node.Element?
    ensures NthNamed(P, SourceOf(P, d).value.parent.tagName, SourceOf(P, d).value.parent.index, 0) == Some(P[d].parent as nat)
    ensures P[P[d].parent].node.children == P[d].siblings && P[d].index < |P[d].siblings| && P[d].siblings[P[d].index] == P[d].node
    ensures (SourceOf(P, d).value.index, SourceOf(P, d).value.offset) == Address(P[d].siblings, P[d].index)
  {
    WellFormedAt(P, d);
    ParentRoundTrip(P, P[d].parent as nat);
  }

  /** `doms` from position `i` on: the region elements (`mark`, `s`, `u` with the region attribute). */
  function DomsFrom(P: seq<Entry>, i: nat): (r: seq<nat>)
    requires 0 < i <= |P|
    ensures forall j :: 0 <= j < |r| ==> i <= r[j] < |P| && IsRegion(P[r[j]].node)
    ensures forall t :: i <= t < |P| && IsRegion(P[t].node) ==> t in r
    decreases |P| - i
  {
    if i == |P| then []
    else if IsRegion(P[i].node) then [i] + DomsFrom(P, i + 1)
    else DomsFrom(P, i + 1)
  }

  /** The sources of the regions `ds`, in their order, skipping those without an id. */
  function SourceList(P: seq<Entry>, ds: seq<nat>): (r: seq<Source>)
    requires WellFormed(P) && forall j :: 0 <= j < |ds| ==> 0 < ds[j] < |P|
    ensures |r| <= |ds|
    ensures forall s :: s in r <==> exists j :: 0 <= j < |ds| && SourceOf(P, ds[j]) == Some(s)
    decreases |ds|
  {
    if ds == [] then []
    else
      var rest := SourceList(P, ds[1..]);
      assert forall j :: 1 <= j < |ds| ==> ds[j] == ds[1..][j - 1];
      match SourceOf(P, ds[0])
      case None => rest
      case Some(s) => [s] + rest
  }

  /**
   * `sources()`: one source per region with a non-empty id, in document
   * order; the body (position 0) is never a region.
   */
  method Sources(root: Node) returns (srcs: seq<Source>)
    ensures WellFormed(Order(root)) && 0 < |Order(root)|
    ensures srcs == SourceList(Order(root), DomsFrom(Order(root), 1))
  {
    var P := Order(root);
    OrderWellFormed(root);
    var ds := DomsFrom(P, 1);
    srcs := [];
    var i := |ds|;
    // Built from the back so that each step is a cons, as `SourceList` is.
    while i > 0
      invariant 0 <= i <= |ds|
      invariant srcs == SourceList(P, ds[i..])
    {
      i := i - 1;
      assert ds[i..][1..] == ds[i + 1..];
      match SourceOf(P, ds[i])
      case None =>
      case Some(s) => srcs := [s] + srcs;
    }
  }

  // ---------------------------------------------------------------------
  // restore(...sources)
  // ---------------------------------------------------------------------

  /** The path of child indices from the root to position `q`. */
  function PathTo(P: seq<Entry>, q: nat): seq<nat>
    requires WellFormed(P) && q < |P|
    decreases q
  {
    WellFormedAt(P, q);
    if q == 0 then [] else PathTo(P, P[q].parent as nat) + [P[q].index]
  }

  lemma {:induction false} GetSnoc(n: Node, path: seq<nat>, i: nat)
    requires ValidPath(n, path) && Get(n, path).Element? && i < |Get(n, path).children|
    ensures ValidPath(n, path + [i]) && Get(n, path + [i]) == Get(n, path).children[i]
    decreases |path|
  {
    if path != [] {
      assert (path + [i])[0] == path[0] && (path + [i])[1..] == path[1..] + [i];
      GetSnoc(n.children[path[0]], path[1..], i);
    } else {
      var one: seq<nat> := [i];
      assert one[1..] == [];
    }
  }

  /** The path to a position of the document leads to the node at that position. */
  lemma {:induction false} PathToGet(root: Node, q: nat)
    requires q < |Order(root)|
    ensures WellFormed(Order(root))
    ensures ValidPath(root, PathTo(Order(root), q)) && Get(root, PathTo(Order(root), q)) == Order(root)[q].node
    decreases q
  {
    OrderWellFormed(root);
    OrderAtOk(root, 0, -1, 0, [root]);
    var P := Order(root);
    WellFormedAt(P, q);
    if q > 0 {
      var p := P[q].parent as nat;
      PathToGet(root, p);
      GetSnoc(root, PathTo(P, p), P[q].index);
    }
  }

  /**
   * `setPosition`/`extend` on the child at `index` of a child list, then
   * `#wrapRange` with fresh identities from `uid0`: a missing child, a
   * child that is not a text leaf, or a range past the leaf's end is an
   * error (the browser throws). Answers the new list and the region's index.
   */
  function RestoreAt(cs: seq<Node>, index: nat, offset: nat, text: string, cfg: Config, uid0: nat): (r: Result<(seq<Node>, nat), string>)
    ensures r.Ok? <==> index < |cs| && cs[index].Text? && offset + |text| <= |cs[index].data|
    ensures r.Ok? ==> ContentSeq(r.value.0) == ContentSeq(cs) && r.value.1 < |r.value.0|
    ensures r.Ok? ==> Content(r.value.0[r.value.1]) == cs[index].data[offset..offset + |text|]
  {
    if index >= |cs| then Err("no child at the index")
    else if !cs[index].Text? then Err("the range does not start in a text leaf")
    else if offset + |text| > |cs[index].data| then Err("IndexSizeError")
    else Ok(WrapRange(cs, index, offset, offset + |text|, cfg, uid0))
  }

  /**
   * One source of `restore` on the document: a missing parent element
   * (`if (!pnode) continue`) leaves the document as it is; otherwise the
   * child list of the parent element is edited as `RestoreAt` says.
   */
  function RestoreOne(doc: Node, src: Source, uid0: nat): (r: Result<Node, string>)
    ensures r.Ok? ==> Content(r.value) == Content(doc)
    ensures r.Ok? && doc.Element? ==> r.value.Element?
  {
    var P := Order(doc);
    match NthNamed(P, src.parent.tagName, src.parent.index, 0)
    case None => Ok(doc)
    case Some(q) =>
      PathToGet(doc, q);
      var path := PathTo(P, q);
      match RestoreAt(P[q].node.children, src.index, src.offset, src.text, src.config, uid0)
      case Err(e) => Err(e)
      case Ok(w) =>
        SetChildrenContent(doc, path, w.0);
        Ok(SetChildren(doc, path, w.0))
  }

  /**
   * The first `n` sources in turn, the k-th wrap taking identities from
   * `uid0 + 3 * k`; the first error stops it.
   */
  function RestoreUpTo(doc: Node, srcs: seq<Source>, n: nat, uid0: nat): (r: Result<Node, string>)
    requires n <= |srcs|
    ensures r.Ok? ==> Content(r.value) == Content(doc)
    ensures r.Ok? && doc.Element? ==> r.value.Element?
  {
    if n == 0 then Ok(doc)
    else
      match RestoreUpTo(doc, srcs, n - 1, uid0)
      case Err(e) => Err(e)
      case Ok(d) => RestoreOne(d, srcs[n - 1], uid0 + 3 * (n - 1))
  }

  /** All the sources. */
  function RestoreAll(doc: Node, srcs: seq<Source>, uid0: nat): Result<Node, string>
  {
    RestoreUpTo(doc, srcs, |srcs|, uid0)
  }

  /** Once the first `j` sources fail, so does the whole restore. */
  lemma {:induction false} RestoreStopsAtError(doc: Node, srcs: seq<Source>, uid0: nat, j: nat)
    requires j <= |srcs| && RestoreUpTo(doc, srcs, j, uid0).Err?
    ensures RestoreAll(doc, srcs, uid0) == RestoreUpTo(doc, srcs, j, uid0)
    decreases |srcs| - j
  {
    if j < |srcs| {
      RestoreStopsAtError(doc, srcs, uid0, j + 1);
    }
  }

  /**
   * The restore stopped at some source `i` with error `e`: the sources
   * before it all applied and gave `doc`, and source `i` failed on `doc`.
   */
  ghost predicate StoppedAt(root: Node, srcs: seq<Source>, uid0: nat, doc: Node, e: string)
  {
    exists i :: 0 <= i < |srcs| && RestoreUpTo(root, srcs, i, uid0) == Ok(doc) &&
      RestoreOne(doc, srcs[i], uid0 + 3 * i) == Err(e)
  }

  /** After a successful prefix of `i` sources, the next one is applied to its page. */
  lemma RestoreNext(root: Node, srcs: seq<Source>, uid0: nat, i: nat, doc: Node)
    requires i < |srcs| && RestoreUpTo(root, srcs, i, uid0) == Ok(doc)
    ensures RestoreUpTo(root, srcs, i + 1, uid0) == RestoreOne(doc, srcs[i], uid0 + 3 * i)
  {
  }

  /** A failure of source `i` after a successful prefix is where the whole restore stops. */
  lemma RestoreFails(root: Node, srcs: seq<Source>, uid0: nat, i: nat, doc: Node)
    requires i < |srcs| && RestoreUpTo(root, srcs, i, uid0) == Ok(doc)
    requires RestoreOne(doc, srcs[i], uid0 + 3 * i).Err?
    ensures RestoreAll(root, srcs, uid0) == RestoreOne(doc, srcs[i], uid0 + 3 * i)
    ensures Restored(root, srcs, uid0, doc, Some(RestoreOne(doc, srcs[i], uid0 + 3 * i).error))
  {
    RestoreNext(root, srcs, uid0, i, doc);
    RestoreStopsAtError(root, srcs, uid0, i + 1);
  }

  /**
   * What `restore` leaves: without an error, the page `RestoreAll` gives;
   * with one, `RestoreAll` fails and the page is the one the sources
   * before the failing one gave (`StoppedAt`).
   */
  ghost predicate Restored(root: Node, srcs: seq<Source>, uid0: nat, doc: Node, err: Option<string>)
  {
    if err.None? then RestoreAll(root, srcs, uid0) == Ok(doc)
    else RestoreAll(root, srcs, uid0).Err? && StoppedAt(root, srcs, uid0, doc, err.value)
  }

  /**
   * `restore(...sources)`: the loop over the sources. On an error the
   * document keeps the wraps already made, as the browser's would, and the
   * error is answered.
   */
  method Restore(root: Node, srcs: seq<Source>, uid0: nat) returns (doc: Node, err: Option<string>)
    ensures Content(doc) == Content(root)
    ensures root.Element? ==> doc.Element?
    ensures Restored(root, srcs, uid0, doc, err)
  {
    var i;
    doc, i, err := RestoreLoop(root, srcs, uid0);
    if err.Some? {
      RestoreFails(root, srcs, uid0, i, doc);
    }
  }

  /**
   * The loop of `restore`: answers the page after the sources it applied,
   * how many it applied, and the error of the next one, if it failed.
   */
  method RestoreLoop(root: Node, srcs: seq<Source>, uid0: nat) returns (doc: Node, i: nat, err: Option<string>)
    ensures i <= |srcs| && RestoreUpTo(root, srcs, i, uid0) == Ok(doc)
    ensures err.None? ==> i == |srcs|
    ensures err.Some? ==> i < |srcs| && RestoreOne(doc, srcs[i], uid0 + 3 * i) == Err(err.value)
  {
    doc, i, err := root, 0, None;
    while i < |srcs|
      invariant i <= |srcs| && RestoreUpTo(root, srcs, i, uid0) == Ok(doc)
    {
      var one := RestoreOne(doc, srcs[i], uid0 + 3 * i);
      if one.Err? {
        err := Some(one.error);
        return;
      }
      RestoreNext(root, srcs, uid0, i, doc);
      doc := one.value;
      i := i + 1;
    }
  }

  // ---------------------------------------------------------------------
  // The round trip
  // ---------------------------------------------------------------------

  /** No empty text leaves and no two text leaves side by side: a child list as parsing markup builds it. */
  predicate Normalized(cs: seq<Node>)
  {
    (forall i :: 0 <= i < |cs| && cs[i].Text? ==> cs[i].data != "") &&
    (forall i :: 0 < i < |cs| && cs[i - 1].Text? ==> !cs[i].Text?)
  }

  /** The first index of the run the region joins: the text leaf before it, if any. */
  function Lo(cs: seq<Node>, k: nat): nat
    requires k < |cs|
  {
    if 0 < k && cs[k - 1].Text? then k - 1 else k
  }

  /** One past the run the region joins: past the text leaf after it, if any. */
  function Hi(cs: seq<Node>, k: nat): nat
    requires k < |cs|
  {
    if k + 1 < |cs| && cs[k + 1].Text? then k + 2 else k + 1
  }

  function Pre(cs: seq<Node>, k: nat): string
    requires k < |cs|
  {
    if Lo(cs, k) < k then cs[k - 1].data else ""
  }

  function Post(cs: seq<Node>, k: nat): string
    requires k < |cs|
  {
    if k + 1 < Hi(cs, k) then cs[k + 1].data else ""
  }

  /**
   * The child list once the region at `k` is gone and the page is parsed
   * again: the region's text and the text leaves beside it become one
   * leaf, with identity `u`.
   */
  function Unwrapped(cs: seq<Node>, k: nat, u: nat): seq<Node>
    requires k < |cs|
  {
    cs[..Lo(cs, k)] + [Text(u, Pre(cs, k) + Content(cs[k]) + Post(cs, k))] + cs[Hi(cs, k)..]
  }

  /** Restoring the region at `k` on the page without it, at the address `sources()` gives it. */
  function Rewrapped(cs: seq<Node>, k: nat, u: nat, cfg: Config, uid0: nat): Result<(seq<Node>, nat), string>
    requires k < |cs|
  {
    RestoreAt(Unwrapped(cs, k, u), Address(cs, k).0, Address(cs, k).1, Content(cs[k]), cfg, uid0)
  }

  /** The same node, or a text leaf with the same text. */
  predicate SameLeaf(a: Node, b: Node)
  {
    a == b || (a.Text? && b.Text? && a.data == b.data)
  }

  /** Wrapping the middle of a leaf `pre + text + post`: which pieces there are and what they hold. */
  lemma SurroundMiddle(u: nat, pre: string, text: string, post: string, cfg: Config, uid0: nat)
    requires text != ""
    ensures Surround(Text(u, pre + text + post), |pre|, |pre| + |text|, cfg, uid0).1 == (if pre != "" then 1 else 0)
    ensures |Surround(Text(u, pre + text + post), |pre|, |pre| + |text|, cfg, uid0).0| ==
      (if pre != "" then 1 else 0) + 1 + (if post != "" then 1 else 0)
    ensures Surround(Text(u, pre + text + post), |pre|, |pre| + |text|, cfg, uid0).0[if pre != "" then 1 else 0] ==
      NewRegion(cfg, uid0, [Text(uid0 + 1, text)])
    ensures pre != "" ==> Surround(Text(u, pre + text + post), |pre|, |pre| + |text|, cfg, uid0).0[0] == Text(u, pre)
    ensures post != "" ==>
      Surround(Text(u, pre + text + post), |pre|, |pre| + |text|, cfg, uid0).0[(if pre != "" then 1 else 0) + 1] ==
      Text(uid0 + 2, post)
  {
    var d := pre + text + post;
    assert d[..|pre|] == pre && d[|pre|..|pre| + |text|] == text && d[|pre| + |text|..] == post;
  }

  /** On a normalized list the run around `k` holds a text leaf before it exactly when `Pre` is not empty, and after it when `Post` is not. */
  lemma RunFacts(cs: seq<Node>, k: nat)
    requires k < |cs| && Normalized(cs)
    ensures Address(cs, k) == (Lo(cs, k), |Pre(cs, k)|)
    ensures Lo(cs, k) < k <==> Pre(cs, k) != ""
    ensures k + 1 < Hi(cs, k) <==> Post(cs, k) != ""
  {
  }

  /** The page without the region: the list before the run, the joined leaf, the list after the run. */
  lemma UnwrappedAt(cs: seq<Node>, k: nat, u: nat)
    requires k < |cs|
    ensures Lo(cs, k) < |Unwrapped(cs, k, u)|
    ensures Unwrapped(cs, k, u)[Lo(cs, k)] == Text(u, Pre(cs, k) + Content(cs[k]) + Post(cs, k))
    ensures Unwrapped(cs, k, u)[..Lo(cs, k)] == cs[..Lo(cs, k)]
    ensures Unwrapped(cs, k, u)[Lo(cs, k) + 1..] == cs[Hi(cs, k)..]
  {
    var U := Unwrapped(cs, k, u);
    var lo, hi := Lo(cs, k), Hi(cs, k);
    assert U[..lo] == cs[..lo];
    assert U[lo + 1..] == cs[hi..];
  }

  /**
   * `sources()` followed by `restore` on the page without the region puts
   * an equal region back: restoring succeeds, the region lands at the same
   * index with the same text and config, the siblings keep their texts,
   * and the address computed again is the same.
   */
  lemma RoundTrip(cs: seq<Node>, k: nat, u: nat, cfg: Config, uid0: nat)
    requires k < |cs| && Normalized(cs) && cs[k].Element? && Content(cs[k]) != ""
    ensures Rewrapped(cs, k, u, cfg, uid0).Ok?
    ensures Rewrapped(cs, k, u, cfg, uid0).value.1 == k
    ensures |Rewrapped(cs, k, u, cfg, uid0).value.0| == |cs|
    ensures Rewrapped(cs, k, u, cfg, uid0).value.0[k] == NewRegion(cfg, uid0, [Text(uid0 + 1, Content(cs[k]))])
    ensures Address(Rewrapped(cs, k, u, cfg, uid0).value.0, k) == Address(cs, k)
    ensures forall j :: 0 <= j < |cs| && j != k ==> SameLeaf(Rewrapped(cs, k, u, cfg, uid0).value.0[j], cs[j])
  {
    RewrappedIs(cs, k, u, cfg, uid0);
    RewrappedList(cs, k, u, cfg, uid0, Rewrapped(cs, k, u, cfg, uid0).value.0);
  }

  /**
   * The round trip with the configuration `sources()` saved for the region
   * (its id, the wrapper its tag stands for, its color): the region put
   * back carries the same id, its tag stands for the same wrapper, and it
   * shows the same color.
   */
  lemma RoundTripConfig(cs: seq<Node>, k: nat, u: nat, cfg: Config, uid0: nat)
    requires k < |cs| && Normalized(cs) && IsRegion(cs[k]) && Content(cs[k]) != ""
    requires cfg.id == cs[k].attrs.hlId.value && cfg.wrapper == TagNameToWrapper(cs[k].tag) && cfg.color == cs[k].attrs.color
    ensures Rewrapped(cs, k, u, cfg, uid0).Ok? && Rewrapped(cs, k, u, cfg, uid0).value.1 == k
    ensures var back := Rewrapped(cs, k, u, cfg, uid0).value.0[k];
      IsRegion(back) && back.attrs.hlId == cs[k].attrs.hlId &&
      TagNameToWrapper(back.tag) == TagNameToWrapper(cs[k].tag) &&
      ColorOrEmpty(back.attrs.color) == ColorOrEmpty(cs[k].attrs.color) &&
      Content(back) == Content(cs[k])
  {
    RoundTrip(cs, k, u, cfg, uid0);
    WrapperRoundTrip(cfg.wrapper);
    LowerOfLower(WrapperToTagname(cfg.wrapper));
  }

  /** The rewrapped list: the region back at `k`, its neighbours the same leaves, the address unchanged. */
  lemma RewrappedList(cs: seq<Node>, k: nat, u: nat, cfg: Config, uid0: nat, R: seq<Node>)
    requires k < |cs| && Normalized(cs) && cs[k].Element? && Content(cs[k]) != ""
    requires R == cs[..Lo(cs, k)] +
      Surround(Text(u, Pre(cs, k) + Content(cs[k]) + Post(cs, k)), |Pre(cs, k)|, |Pre(cs, k)| + |Content(cs[k])|, cfg, uid0).0 +
      cs[Hi(cs, k)..]
    ensures |R| == |cs|
    ensures R[k] == NewRegion(cfg, uid0, [Text(uid0 + 1, Content(cs[k]))])
    ensures Address(R, k) == Address(cs, k)
    ensures forall j :: 0 <= j < |cs| && j != k ==> SameLeaf(R[j], cs[j])
  {
    var lo, hi, pre, post := Lo(cs, k), Hi(cs, k), Pre(cs, k), Post(cs, k);
    var text := Content(cs[k]);
    RunFacts(cs, k);
    SurroundMiddle(u, pre, text, post, cfg, uid0);
    var m := Surround(Text(u, pre + text + post), |pre|, |pre| + |text|, cfg, uid0).0;
    SplicedRun(cs, k, lo, hi, m, R);
  }

  /**
   * The run `lo..hi` around `k` replaced by `m`, which holds the node at
   * `k` and text leaves with the same text as the leaves beside it.
   */
  lemma SplicedRun(cs: seq<Node>, k: nat, lo: nat, hi: nat, m: seq<Node>, R: seq<Node>)
    requires lo <= k < hi <= |cs| && lo + |m| == hi && R == cs[..lo] + m + cs[hi..]
    requires k <= lo + 1 && hi <= k + 2
    requires lo < k ==> cs[k - 1].Text? && m[0] == Text(m[0].uid, cs[k - 1].data)
    requires lo == k ==> k == 0 || !cs[k - 1].Text?
    requires k + 1 < hi ==> cs[k + 1].Text? && m[k - lo + 1] == Text(m[k - lo + 1].uid, cs[k + 1].data)
    ensures |R| == |cs| && R[k] == m[k - lo]
    ensures Address(R, k) == Address(cs, k)
    ensures forall j :: 0 <= j < |cs| && j != k ==> SameLeaf(R[j], cs[j])
  {
    SpliceRun(cs[..lo], m, cs[hi..]);
    assert R[k] == m[k - lo];
    forall j | 0 <= j < |cs| && j != k
      ensures SameLeaf(R[j], cs[j])
    {
      if j < lo {
        assert R[j] == R[..lo][j];
      } else if j < hi {
        assert R[j] == m[j - lo];
      } else {
        assert R[j] == R[lo + |m|..][j - hi];
      }
    }
    if lo < k {
      assert R[k - 1] == m[0];
    }
  }

  /** Restoring the unwrapped list wraps the merged leaf at the region's old address. */
  lemma RewrappedWraps(cs: seq<Node>, k: nat, u: nat, cfg: Config, uid0: nat)
    requires k < |cs| && Normalized(cs)
    ensures Lo(cs, k) < |Unwrapped(cs, k, u)| && Unwrapped(cs, k, u)[Lo(cs, k)].Text?
    ensures |Pre(cs, k)| + |Content(cs[k])| <= |Unwrapped(cs, k, u)[Lo(cs, k)].data|
    ensures Rewrapped(cs, k, u, cfg, uid0) ==
      Ok(WrapRange(Unwrapped(cs, k, u), Lo(cs, k), |Pre(cs, k)|, |Pre(cs, k)| + |Content(cs[k])|, cfg, uid0))
  {
    var U, lo, pre, text, post := Unwrapped(cs, k, u), Lo(cs, k), Pre(cs, k), Content(cs[k]), Post(cs, k);
    RunFacts(cs, k);
    UnwrappedAt(cs, k, u);
    assert U[lo].data == pre + text + post;
    assert Rewrapped(cs, k, u, cfg, uid0) == RestoreAt(U, lo, |pre|, text, cfg, uid0);
  }

  /** Restoring the unwrapped list rewraps the merged leaf in place of the run it came from. */
  lemma RewrappedIs(cs: seq<Node>, k: nat, u: nat, cfg: Config, uid0: nat)
    requires k < |cs| && Normalized(cs) && cs[k].Element? && Content(cs[k]) != ""
    ensures Rewrapped(cs, k, u, cfg, uid0) ==
      Ok((cs[..Lo(cs, k)] +
          Surround(Text(u, Pre(cs, k) + Content(cs[k]) + Post(cs, k)), |Pre(cs, k)|, |Pre(cs, k)| + |Content(cs[k])|, cfg, uid0).0 +
          cs[Hi(cs, k)..], k))
  {
    var lo, pre, post := Lo(cs, k), Pre(cs, k), Post(cs, k);
    var text := Content(cs[k]);
    var U := Unwrapped(cs, k, u);
    RewrappedWraps(cs, k, u, cfg, uid0);
    RunFacts(cs, k);
    UnwrappedAt(cs, k, u);
    SurroundMiddle(u, pre, text, post, cfg, uid0);
    var w := WrapRange(U, lo, |pre|, |pre| + |text|, cfg, uid0);
    assert U[lo] == Text(u, pre + text + post);
    assert w.1 == k;
  }

}
