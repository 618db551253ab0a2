/**
 * Addressing a node inside the document by the path of child indices from
 * the root, and rebuilding the document around an edited child list.
 * The engine's local edits (merging, hoisting, wrapping) act on one child
 * list; these functions carry them into the whole tree.
 */
module Tree {
  import opened Wrappers
  import opened Dom

  /** Does the path lead from `n` to a node? */
  predicate ValidPath(n: Node, path: seq<nat>)
    decreases |path|
  {
    path == [] || (n.Element? && path[0] < |n.children| && ValidPath(n.children[path[0]], path[1..]))
  }

  /** The node the path leads to. */
  function Get(n: Node, path: seq<nat>): Node
    requires ValidPath(n, path)
    decreases |path|
  {
    if path == [] then n else Get(n.children[path[0]], path[1..])
  }

  /**
   * The document with the child list of the element at `path` replaced by
   * `cs`; every other node is kept.
   */
  function SetChildren(n: Node, path: seq<nat>, cs: seq<Node>): (r: Node)
    requires ValidPath(n, path) && Get(n, path).Element?
    ensures r.Element? && ValidPath(r, path) && Get(r, path) == Get(n, path).(children := cs)
    ensures r.uid == n.uid
    decreases |path|
  {
    if path == [] then n.(children := cs)
    else
      var k := path[0];
      var c := SetChildren(n.children[k], path[1..], cs);
      n.(children := n.children[..k] + [c] + n.children[k + 1..])
  }

  /** An edit of one child list that keeps its text keeps the text of the document. */
  lemma {:induction false} SetChildrenContent(n: Node, path: seq<nat>, cs: seq<Node>)
    requires ValidPath(n, path) && Get(n, path).Element?
    requires ContentSeq(cs) == ContentSeq(Get(n, path).children)
    ensures Content(SetChildren(n, path, cs)) == Content(n)
    decreases |path|
  {
    if path != [] {
      var k := path[0];
      var c := SetChildren(n.children[k], path[1..], cs);
      SetChildrenContent(n.children[k], path[1..], cs);
      ContentSplice(n.children, k, [c]);
      ContentSeqSingle(c);
    }
  }

  /** Setting a child list to what it already is changes nothing. */
  lemma {:induction false} SetChildrenSame(n: Node, path: seq<nat>)
    requires ValidPath(n, path) && Get(n, path).Element?
    ensures SetChildren(n, path, Get(n, path).children) == n
    decreases |path|
  {
    if path != [] {
      var k := path[0];
      SetChildrenSame(n.children[k], path[1..]);
      assert n.children == n.children[..k] + [n.children[k]] + n.children[k + 1..];
    }
  }

  /** The node a non-empty path leads to is a child of the element its prefix leads to (`parentElement`). */
  lemma {:induction false} GetParent(n: Node, path: seq<nat>)
    requires ValidPath(n, path) && path != []
    ensures ValidPath(n, path[..|path| - 1]) && Get(n, path[..|path| - 1]).Element?
    ensures path[|path| - 1] < |Get(n, path[..|path| - 1]).children|
    ensures Get(n, path[..|path| - 1]).children[path[|path| - 1]] == Get(n, path)
    decreases |path|
  {
    if |path| > 1 {
      var rest := path[1..];
      GetParent(n.children[path[0]], rest);
      assert rest[..|rest| - 1] == path[..|path| - 1][1..];
      assert rest[|rest| - 1] == path[|path| - 1];
    }
  }

  /**
   * The path to a node with identity `uid`, searching in document order;
   * nothing when no node of the subtree has it.
   */
  function Find(n: Node, uid: nat): (r: Option<seq<nat>>)
    ensures r.Some? ==> ValidPath(n, r.value) && Get(n, r.value).uid == uid
    decreases n
  {
    if n.uid == uid then Some([])
    else if n.Text? then None
    else FindIn(n, n.children, 0, uid)
  }

  /** `Find` among the children of `n` from index `i` on. */
  function FindIn(n: Node, cs: seq<Node>, i: nat, uid: nat): (r: Option<seq<nat>>)
    requires n.Element? && cs == n.children && i <= |cs|
    ensures r.Some? ==> ValidPath(n, r.value) && Get(n, r.value).uid == uid
    decreases n, |cs| - i
  {
    if i == |cs| then None
    else
      match Find(cs[i], uid)
      case Some(p) =>
        assert ([i] + p)[1..] == p;
        Some([i] + p)
      case None => FindIn(n, cs, i + 1, uid)
  }

  /** Is `x` the subtree `n` itself or a subtree of one of its children? */
  predicate Within(n: Node, x: Node)
    decreases n
  {
    n == x || (n.Element? && exists i :: 0 <= i < |n.children| && Within(n.children[i], x))
  }

  lemma {:induction false} WithinTrans(a: Node, b: Node, c: Node)
    requires Within(a, b) && Within(b, c)
    ensures Within(a, c)
    decreases a
  {
    if a != b {
      var i :| 0 <= i < |a.children| && Within(a.children[i], b);
      WithinTrans(a.children[i], b, c);
    }
  }

  /** The node a path leads to is a subtree of the document. */
  lemma {:induction false} GetWithin(n: Node, path: seq<nat>)
    requires ValidPath(n, path)
    ensures Within(n, Get(n, path))
    decreases |path|
  {
    if path != [] {
      GetWithin(n.children[path[0]], path[1..]);
    }
  }

  /** A child put in by `SetChildren` is a subtree of the new document. */
  lemma SetChildrenHas(n: Node, path: seq<nat>, cs: seq<Node>, j: nat)
    requires ValidPath(n, path) && Get(n, path).Element? && j < |cs|
    ensures Within(SetChildren(n, path, cs), cs[j])
  {
    var r := SetChildren(n, path, cs);
    GetWithin(r, path);
    assert Within(Get(r, path).children[j], cs[j]);
    WithinTrans(r, Get(r, path), cs[j]);
  }

  /**
   * Replacing a child list keeps every subtree that does not contain the
   * edited element and that, when it sat below one of its children, sits
   * below a child that is kept.
   */
  lemma {:induction false} SetChildrenKeeps(n: Node, path: seq<nat>, cs: seq<Node>, x: Node)
    requires ValidPath(n, path) && Get(n, path).Element? && Within(n, x)
    requires !Within(x, Get(n, path))
    requires forall i :: 0 <= i < |Get(n, path).children| && Within(Get(n, path).children[i], x) ==>
      Get(n, path).children[i] in cs
    ensures Within(SetChildren(n, path, cs), x)
    decreases |path|
  {
    GetWithin(n, path);
    assert n != x;
    var i :| 0 <= i < |n.children| && Within(n.children[i], x);
    var r := SetChildren(n, path, cs);
    if path == [] {
      var j :| 0 <= j < |cs| && cs[j] == n.children[i];
      assert Within(r.children[j], x);
    } else if i == path[0] {
      SetChildrenKeeps(n.children[i], path[1..], cs, x);
      assert r.children[i] == SetChildren(n.children[i], path[1..], cs);
    } else {
      assert r.children[i] == n.children[i];
    }
  }

  /** A text leaf of the edited document was a text leaf before, or sits in the new child list. */
  lemma {:induction false} SetChildrenFrom(n: Node, path: seq<nat>, cs: seq<Node>, y: Node)
    requires ValidPath(n, path) && Get(n, path).Element? && y.Text?
    requires Within(SetChildren(n, path, cs), y)
    ensures Within(n, y) || exists j :: 0 <= j < |cs| && Within(cs[j], y)
    decreases |path|
  {
    var r := SetChildren(n, path, cs);
    var i :| 0 <= i < |r.children| && Within(r.children[i], y);
    if path == [] {
      assert Within(cs[i], y);
    } else if i == path[0] {
      SetChildrenFrom(n.children[i], path[1..], cs, y);
    } else {
      assert r.children[i] == n.children[i];
    }
  }
}
