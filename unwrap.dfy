/**
 * `removeById(id)` and the unconditional branch of `clear()`: every
 * matched element is replaced by its children (`outerHTML = innerHTML`).
 *
 * The matched elements come from a static list taken before any change.
 * Once an element is replaced, an element matched inside it hangs in the
 * detached old subtree, and replacing it there does not touch the page: the
 * page keeps the freshly parsed copy. So only the outermost matched
 * elements go, and one pass over the tree that stops at a match says what
 * the loop does.
 */
module Unwrap {
  import opened Wrappers
  import opened Dom
  import opened Regions

  /** What a pass removes: the elements with one id (`removeById`), or all of `doms` (`clear`). */
  datatype Target = ById(id: string) | AllRegions

  predicate Matches(n: Node, t: Target)
  {
    match t
    case ById(id) => HasId(n, id)
    case AllRegions => IsRegion(n)
  }

  /** The pass over one node: a matched element gives way to its children, others are searched inside. */
  function UnwrapAt(n: Node, t: Target): (r: seq<Node>)
    ensures ContentSeq(r) == Content(n)
    decreases n, 1
  {
    if Matches(n, t) then n.children
    else if n.Text? then
      ContentSeqSingle(n);
      [n]
    else
      var c := n.(children := UnwrapSeq(n.children, t));
      ContentSeqSingle(c);
      [c]
  }

  function UnwrapSeq(cs: seq<Node>, t: Target): (r: seq<Node>)
    ensures ContentSeq(r) == ContentSeq(cs)
    decreases cs, 0
  {
    if cs == [] then []
    else
      ContentSeqAppend(UnwrapAt(cs[0], t), UnwrapSeq(cs[1..], t));
      UnwrapAt(cs[0], t) + UnwrapSeq(cs[1..], t)
  }

  /** The document after the pass; the root is the `body` and is never matched itself. */
  function UnwrapDoc(root: Node, t: Target): (r: Node)
    requires root.Element?
    ensures r.Element? && r.uid == root.uid && Content(r) == Content(root)
  {
    root.(children := UnwrapSeq(root.children, t))
  }

  /** Some matched element in the list or below it. */
  predicate AnyMatch(cs: seq<Node>, t: Target)
    decreases cs
  {
    cs != [] && (Matches(cs[0], t) || (cs[0].Element? && AnyMatch(cs[0].children, t)) || AnyMatch(cs[1..], t))
  }

  /** No matched element below a matched element. */
  predicate NestFree(cs: seq<Node>, t: Target)
    decreases cs
  {
    cs == [] ||
    ((Matches(cs[0], t) ==> !AnyMatch(cs[0].children, t)) &&
     (cs[0].Element? ==> NestFree(cs[0].children, t)) &&
     NestFree(cs[1..], t))
  }

  lemma {:induction false} AnyMatchAppend(a: seq<Node>, b: seq<Node>, t: Target)
    ensures AnyMatch(a + b, t) <==> AnyMatch(a, t) || AnyMatch(b, t)
    decreases |a|
  {
    if a != [] {
      assert (a + b)[0] == a[0] && (a + b)[1..] == a[1..] + b;
      AnyMatchAppend(a[1..], b, t);
    } else {
      assert a + b == b;
    }
  }

  lemma AnyMatchSingle(x: Node, t: Target)
    ensures AnyMatch([x], t) <==> Matches(x, t) || (x.Element? && AnyMatch(x.children, t))
  {
    assert [x][1..] == [];
  }

  /** When no matched element sits inside another, the pass leaves none. */
  lemma {:induction false} UnwrapRemovesAll(cs: seq<Node>, t: Target)
    requires NestFree(cs, t)
    ensures !AnyMatch(UnwrapSeq(cs, t), t)
    decreases cs
  {
    if cs != [] {
      var n := cs[0];
      UnwrapRemovesAll(cs[1..], t);
      AnyMatchAppend(UnwrapAt(n, t), UnwrapSeq(cs[1..], t), t);
      if !Matches(n, t) {
        if n.Element? {
          UnwrapRemovesAll(n.children, t);
        }
        AnyMatchSingle(UnwrapAt(n, t)[0], t);
      }
    }
  }

  /** A list without matches passes through unchanged. */
  lemma {:induction false} UnwrapNoMatch(cs: seq<Node>, t: Target)
    requires !AnyMatch(cs, t)
    ensures UnwrapSeq(cs, t) == cs
    decreases cs
  {
    if cs != [] {
      UnwrapNoMatch(cs[1..], t);
      if cs[0].Element? {
        UnwrapNoMatch(cs[0].children, t);
      }
      assert cs == [cs[0]] + cs[1..];
    }
  }

  /** When no matched element sits inside another, a second pass changes nothing. */
  lemma UnwrapIdempotent(cs: seq<Node>, t: Target)
    requires NestFree(cs, t)
    ensures UnwrapSeq(UnwrapSeq(cs, t), t) == UnwrapSeq(cs, t)
  {
    UnwrapRemovesAll(cs, t);
    UnwrapNoMatch(UnwrapSeq(cs, t), t);
  }

  /** The region ids present in a list, at any depth. */
  function Ids(cs: seq<Node>): set<string>
    decreases cs
  {
    if cs == [] then {}
    else
      (if cs[0].Element? && cs[0].attrs.hlId.Some? then {cs[0].attrs.hlId.value} else {}) +
      (if cs[0].Element? then Ids(cs[0].children) else {}) +
      Ids(cs[1..])
  }

  lemma {:induction false} IdsAppend(a: seq<Node>, b: seq<Node>)
    ensures Ids(a + b) == Ids(a) + Ids(b)
    decreases |a|
  {
    if a != [] {
      assert (a + b)[0] == a[0] && (a + b)[1..] == a[1..] + b;
      IdsAppend(a[1..], b);
    } else {
      assert a + b == b;
    }
  }

  lemma {:induction false} NoMatchNoId(cs: seq<Node>, id: string)
    ensures !AnyMatch(cs, ById(id)) <==> id !in Ids(cs)
    decreases cs
  {
    if cs != [] {
      NoMatchNoId(cs[1..], id);
      if cs[0].Element? {
        NoMatchNoId(cs[0].children, id);
      }
    }
  }

  /**
   * `removeById(id)` removes exactly the id: when no element with the id
   * sits inside another, every other id stays and `id` is gone.
   */
  lemma {:induction false} RemoveByIdIds(cs: seq<Node>, id: string)
    requires NestFree(cs, ById(id))
    ensures Ids(UnwrapSeq(cs, ById(id))) == Ids(cs) - {id}
    decreases cs
  {
    var t := ById(id);
    if cs != [] {
      var n := cs[0];
      RemoveByIdIds(cs[1..], id);
      IdsAppend(UnwrapAt(n, t), UnwrapSeq(cs[1..], t));
      if Matches(n, t) {
        NoMatchNoId(n.children, id);
      } else if n.Element? {
        RemoveByIdIds(n.children, id);
        var c := n.(children := UnwrapSeq(n.children, t));
        assert [c][1..] == [];
      } else {
        assert [n][1..] == [];
      }
    }
  }

  /** On a flat document no region sits inside another, so `clear()` leaves no region. */
  lemma {:induction false} FlatNestFree(cs: seq<Node>)
    requires FlatSeq(cs)
    ensures NestFree(cs, AllRegions)
    decreases cs
  {
    if cs != [] {
      var n := cs[0];
      FlatNestFree(cs[1..]);
      if n.Element? {
        FlatNestFree(n.children);
        if IsRegion(n) {
          RegionIsHighlight(n);
          RegionsAreHighlights(n.children);
        }
      }
    }
  }

  /** A region below is a highlight below. */
  lemma {:induction false} RegionsAreHighlights(cs: seq<Node>)
    ensures AnyMatch(cs, AllRegions) ==> HasHighlightSeq(cs)
    decreases cs
  {
    if cs != [] {
      RegionsAreHighlights(cs[1..]);
      if cs[0].Element? {
        RegionsAreHighlights(cs[0].children);
        if IsRegion(cs[0]) {
          RegionIsHighlight(cs[0]);
        }
      }
    }
  }
}
