/**
 * Which text leaves may be highlighted (`#nodeIsHighlightable`).
 *
 * A leaf is judged by the chain of elements from the root down to the
 * element that holds it: the nearest `data-unhighlightable` and the nearest
 * `data-highlightable` marker on that chain, and the ignore-selectors.
 */
module Highlightability {
  import opened Wrappers
  import opened Dom

  datatype Marker = Highlightable | Unhighlightable

  predicate Marked(a: Attrs, m: Marker)
  {
    match m
    case Highlightable => a.highlightable
    case Unhighlightable => a.unhighlightable
  }

  /**
   * `closest(marker)` on a chain listed from the root down: the deepest
   * element carrying the marker, as its index in the chain.
   */
  function Closest(chain: seq<Attrs>, m: Marker): (r: Option<nat>)
    ensures r.Some? ==> r.value < |chain| && Marked(chain[r.value], m)
    ensures r.Some? ==> forall j :: r.value < j < |chain| ==> !Marked(chain[j], m)
    ensures r.None? ==> forall j :: 0 <= j < |chain| ==> !Marked(chain[j], m)
    decreases |chain|
  {
    if chain == [] then None
    else if Marked(chain[|chain| - 1], m) then Some(|chain| - 1)
    else Closest(chain[..|chain| - 1], m)
  }

  /** Does some ignore-selector match an element of the chain? */
  predicate Ignored(chain: seq<Attrs>, selectors: seq<string>)
    decreases |selectors|
  {
    if selectors == [] then false
    else MatchesSome(chain, selectors[0]) || Ignored(chain, selectors[1..])
  }

  predicate MatchesSome(chain: seq<Attrs>, selector: string)
    decreases |chain|
  {
    chain != [] && (selector in chain[|chain| - 1].classes || MatchesSome(chain[..|chain| - 1], selector))
  }

  /** The decision of `#nodeIsHighlightable` on an element chain. */
  predicate Accepts(chain: seq<Attrs>, ignore: seq<string>)
  {
    if Ignored(chain, ignore) then false
    else
      var u := Closest(chain, Unhighlightable);
      var h := Closest(chain, Highlightable);
      if u.Some? && h.Some? then u.value <= h.value
      else u.None? && h.Some?
  }

  /**
   * The rule stated without `closest`: no ignore-selector matches, and some
   * element of the chain is marked highlightable with no unhighlightable
   * marker strictly below it.
   */
  ghost predicate AcceptsSpec(chain: seq<Attrs>, ignore: seq<string>)
  {
    (forall s, j :: s in ignore && 0 <= j < |chain| ==> s !in chain[j].classes) &&
    exists i :: 0 <= i < |chain| && chain[i].highlightable &&
      forall j :: i < j < |chain| ==> !chain[j].unhighlightable
  }

  lemma {:induction false} MatchesSomeSpec(chain: seq<Attrs>, selector: string)
    ensures MatchesSome(chain, selector) <==> exists j :: 0 <= j < |chain| && selector in chain[j].classes
    decreases |chain|
  {
    if chain != [] {
      var front := chain[..|chain| - 1];
      MatchesSomeSpec(front, selector);
      if MatchesSome(front, selector) {
        var j :| 0 <= j < |front| && selector in front[j].classes;
        assert chain[j] == front[j];
      }
      if exists j :: 0 <= j < |chain| && selector in chain[j].classes {
        var j :| 0 <= j < |chain| && selector in chain[j].classes;
        if j < |chain| - 1 {
          assert front[j] == chain[j];
        }
      }
    }
  }

  lemma {:induction false} IgnoredSpec(chain: seq<Attrs>, selectors: seq<string>)
    ensures Ignored(chain, selectors) <==>
      exists s, j :: s in selectors && 0 <= j < |chain| && s in chain[j].classes
    decreases |selectors|
  {
    if selectors != [] {
      var rest := selectors[1..];
      IgnoredSpec(chain, rest);
      MatchesSomeSpec(chain, selectors[0]);
      if MatchesSome(chain, selectors[0]) {
        var j :| 0 <= j < |chain| && selectors[0] in chain[j].classes;
        assert selectors[0] in selectors;
      }
      if Ignored(chain, rest) {
        var s, j :| s in rest && 0 <= j < |chain| && s in chain[j].classes;
        assert s in selectors;
      }
      if exists s, j :: s in selectors && 0 <= j < |chain| && s in chain[j].classes {
        var s, j :| s in selectors && 0 <= j < |chain| && s in chain[j].classes;
        if s != selectors[0] {
          assert s in rest;
        }
      }
    }
  }

  /** The `closest`-based decision is exactly the marker rule. */
  lemma AcceptsIsSpec(chain: seq<Attrs>, ignore: seq<string>)
    ensures Accepts(chain, ignore) <==> AcceptsSpec(chain, ignore)
  {
    IgnoredSpec(chain, ignore);
    var u := Closest(chain, Unhighlightable);
    var h := Closest(chain, Highlightable);
    if Accepts(chain, ignore) {
      var i := h.value;
      assert chain[i].highlightable;
      forall j | i < j < |chain| ensures !chain[j].unhighlightable {
        if u.Some? {
          assert u.value <= i;
        }
      }
    }
    if AcceptsSpec(chain, ignore) {
      var i :| 0 <= i < |chain| && chain[i].highlightable &&
        forall j :: i < j < |chain| ==> !chain[j].unhighlightable;
      assert h.Some? && i <= h.value;
      if u.Some? {
        assert !(h.value < u.value);
      }
    }
  }

  /** The attributes of the elements from the root down to position `e`. */
  function Chain(P: seq<Entry>, e: nat): (r: seq<Attrs>)
    requires WellFormed(P) && e < |P| && P[e].node.Element?
    ensures |r| >= 1 && r[|r| - 1] == P[e].node.attrs
    decreases e
  {
    WellFormedAt(P, e);
    var p := P[e].parent;
    (if 0 <= p && P[p].node.Element? then Chain(P, p) else []) + [P[e].node.attrs]
  }

  /**
   * `#nodeIsHighlightable`: a text leaf is judged by its parent element, an
   * element by itself; anything that is not an HTML element is rejected.
   */
  predicate NodeIsHighlightable(P: seq<Entry>, i: nat, ignore: seq<string>)
    requires WellFormed(P) && i < |P|
  {
    var e := if P[i].node.Text? then P[i].parent else i;
    0 <= e < |P| && P[e].node.Element? && P[e].node.kind == Html &&
    Accepts(Chain(P, e), ignore)
  }
}
