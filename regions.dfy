/**
 * What makes an element a highlight region, and the "flat" shape the
 * engine maintains: no region inside another region.
 */
module Regions {
  import opened Wrappers
  import opened Dom
  import opened Names

  /**
   * `#isHighlight`: the tag maps to an allowed wrapper (so `mark`, `s`, `u`,
   * and also `strike` and `underline`, which pass through unchanged) and
   * the region attribute is present.
   */
  predicate IsHighlight(n: Node)
  {
    n.Element? && TagNameToWrapper(n.tag) in AllowedWrappers && n.attrs.hlId.Some?
  }

  /**
   * A member of `doms`: a `mark`, `s` or `u` element carrying the region
   * attribute, whatever its value.
   */
  predicate IsRegion(n: Node)
  {
    n.Element? && IsRegionTag(n.tag) && n.attrs.hlId.Some?
  }

  lemma RegionIsHighlight(n: Node)
    requires IsRegion(n)
    ensures IsHighlight(n)
  {
  }

  /** `getAttribute("data-text-highlighter")` read as a condition: present and non-empty. */
  function RegionId(n: Node): (r: Option<string>)
    ensures r.Some? ==> n.Element? && n.attrs.hlId == r && r.value != ""
    ensures r.None? ==> !n.Element? || n.attrs.hlId.None? || n.attrs.hlId == Some("")
  {
    if n.Element? && n.attrs.hlId.Some? && n.attrs.hlId.value != "" then n.attrs.hlId else None
  }

  /** Some highlight in the subtree, the node itself included. */
  predicate HasHighlight(n: Node)
    decreases n
  {
    IsHighlight(n) || (n.Element? && HasHighlightSeq(n.children))
  }

  predicate HasHighlightSeq(cs: seq<Node>)
    decreases cs
  {
    cs != [] && (HasHighlight(cs[0]) || HasHighlightSeq(cs[1..]))
  }

  /** No highlight in the subtree holds another highlight below it. */
  predicate Flat(n: Node)
    decreases n
  {
    n.Text? || ((IsHighlight(n) ==> !HasHighlightSeq(n.children)) && FlatSeq(n.children))
  }

  predicate FlatSeq(cs: seq<Node>)
    decreases cs
  {
    cs == [] || (Flat(cs[0]) && FlatSeq(cs[1..]))
  }

  lemma {:induction false} HasHighlightSeqAppend(a: seq<Node>, b: seq<Node>)
    ensures HasHighlightSeq(a + b) <==> HasHighlightSeq(a) || HasHighlightSeq(b)
    decreases |a|
  {
    if a == [] {
      assert a + b == b;
    } else {
      assert (a + b)[0] == a[0];
      assert (a + b)[1..] == a[1..] + b;
      HasHighlightSeqAppend(a[1..], b);
    }
  }

  lemma {:induction false} FlatSeqAppend(a: seq<Node>, b: seq<Node>)
    ensures FlatSeq(a + b) <==> FlatSeq(a) && FlatSeq(b)
    decreases |a|
  {
    if a == [] {
      assert a + b == b;
    } else {
      assert (a + b)[0] == a[0];
      assert (a + b)[1..] == a[1..] + b;
      FlatSeqAppend(a[1..], b);
    }
  }

  lemma HasHighlightSeqSingle(x: Node)
    ensures HasHighlightSeq([x]) <==> HasHighlight(x)
    ensures FlatSeq([x]) <==> Flat(x)
  {
    assert [x][1..] == [];
  }

  /** Every node of a flat list is flat; a list of flat nodes is flat. */
  lemma {:induction false} FlatSeqAll(cs: seq<Node>)
    ensures FlatSeq(cs) <==> forall i :: 0 <= i < |cs| ==> Flat(cs[i])
    decreases |cs|
  {
    if cs != [] {
      FlatSeqAll(cs[1..]);
      assert forall i :: 1 <= i < |cs| ==> cs[i] == cs[1..][i - 1];
    }
  }

  /** A list has a highlight somewhere exactly when one of its nodes does. */
  lemma {:induction false} HasHighlightSeqSome(cs: seq<Node>)
    ensures HasHighlightSeq(cs) <==> exists i :: 0 <= i < |cs| && HasHighlight(cs[i])
    decreases |cs|
  {
    if cs != [] {
      HasHighlightSeqSome(cs[1..]);
      if HasHighlightSeq(cs[1..]) {
        var i :| 0 <= i < |cs[1..]| && HasHighlight(cs[1..][i]);
        assert cs[i + 1] == cs[1..][i];
      }
      if exists i :: 0 <= i < |cs| && HasHighlight(cs[i]) {
        var i :| 0 <= i < |cs| && HasHighlight(cs[i]);
        if i > 0 {
          assert cs[1..][i - 1] == cs[i];
        }
      }
    }
  }

  /** A run taken out of a flat list is flat. */
  lemma FlatSlice(cs: seq<Node>, i: nat, j: nat)
    requires FlatSeq(cs) && i <= j <= |cs|
    ensures FlatSeq(cs[i..j])
  {
    FlatSeqAll(cs);
    FlatSeqAll(cs[i..j]);
    assert forall t :: 0 <= t < j - i ==> cs[i..j][t] == cs[i + t];
  }

  /** A run taken out of a list without highlights has none. */
  lemma NoHighlightSlice(cs: seq<Node>, i: nat, j: nat)
    requires !HasHighlightSeq(cs) && i <= j <= |cs|
    ensures !HasHighlightSeq(cs[i..j])
  {
    HasHighlightSeqSome(cs);
    HasHighlightSeqSome(cs[i..j]);
    assert forall t :: 0 <= t < j - i ==> cs[i..j][t] == cs[i + t];
  }
  /** A flat prefix extended by a flat node stays flat. */
  lemma FlatPrefixStep(cs: seq<Node>, i: nat)
    requires i < |cs| && FlatSeq(cs[..i]) && Flat(cs[i])
    ensures FlatSeq(cs[..i + 1])
  {
    assert cs[..i + 1] == cs[..i] + [cs[i]];
    HasHighlightSeqSingle(cs[i]);
    FlatSeqAppend(cs[..i], [cs[i]]);
  }

  /** A list is flat when the parts before, at and after one index are. */
  lemma FlatAroundIndex(cs: seq<Node>, i: nat)
    requires i < |cs| && FlatSeq(cs[..i]) && Flat(cs[i]) && FlatSeq(cs[i + 1..])
    ensures FlatSeq(cs)
  {
    FlatPrefixStep(cs, i);
    assert cs == cs[..i + 1] + cs[i + 1..];
    FlatSeqAppend(cs[..i + 1], cs[i + 1..]);
  }

  // ---------------------------------------------------------------------
  // Which region holds each character of a list
  // ---------------------------------------------------------------------

  /** The region a node of a list puts its text in: its id when it is a highlight. */
  function Label(n: Node): Option<string>
  {
    if IsHighlight(n) then n.attrs.hlId else None
  }

  /** `n` copies of `x`. */
  function Repeat<T>(x: T, n: nat): (r: seq<T>)
    ensures |r| == n && forall i :: 0 <= i < n ==> r[i] == x
  {
    seq(n, _ => x)
  }

  /**
   * For each character of the text of a list, the region of the node of
   * the list that holds it (nothing for a bare text leaf or an element that
   * is not a highlight).
   */
  function LabelsOf(cs: seq<Node>): (r: seq<Option<string>>)
    ensures |r| == |ContentSeq(cs)|
    decreases cs
  {
    if cs == [] then [] else Repeat(Label(cs[0]), |Content(cs[0])|) + LabelsOf(cs[1..])
  }

  lemma {:induction false} LabelsAppend(a: seq<Node>, b: seq<Node>)
    ensures LabelsOf(a + b) == LabelsOf(a) + LabelsOf(b)
    decreases |a|
  {
    if a == [] {
      assert a + b == b;
    } else {
      assert (a + b)[0] == a[0];
      assert (a + b)[1..] == a[1..] + b;
      LabelsAppend(a[1..], b);
    }
  }

  lemma CancelSuffix<T>(a: seq<T>, b: seq<T>, t: seq<T>)
    requires a + t == b + t
    ensures a == b
  {
    assert |a| == |b|;
    assert a == (a + t)[..|a|];
  }

  /** Lists that differ only before a common suffix and label their text alike agree before it. */
  lemma KeptLabels(x: seq<Node>, y: seq<Node>, a: seq<Node>, b: seq<Node>, t: seq<Node>)
    requires x == a + t && y == b + t && LabelsOf(x) == LabelsOf(y)
    ensures LabelsOf(a) == LabelsOf(b)
  {
    var la, lb, lt := LabelsOf(a), LabelsOf(b), LabelsOf(t);
    LabelsAppend(a, t);
    LabelsAppend(b, t);
    assert la + lt == lb + lt;
    CancelSuffix(la, lb, lt);
  }

  /** A list is its prefix before `i` followed by its suffix from `i`. */
  lemma Rejoin<T>(xs: seq<T>, i: nat, t: seq<T>)
    requires i <= |xs| && xs[i..] == t
    ensures xs == xs[..i] + t
  {
    assert xs == xs[..i] + xs[i..];
  }

  /** Lists with a common suffix that label their text alike agree before it. */
  lemma KeptBefore(x: seq<Node>, y: seq<Node>, i: nat, j: nat, t: seq<Node>)
    requires i <= |x| && j <= |y| && x[i..] == t && y[j..] == t && LabelsOf(x) == LabelsOf(y)
    ensures LabelsOf(x[..i]) == LabelsOf(y[..j])
  {
    Rejoin(x, i, t);
    Rejoin(y, j, t);
    KeptLabels(x, y, x[..i], y[..j], t);
  }

  /** The uids of the nodes of a list (not of their descendants). */
  function UidsOf(cs: seq<Node>): set<nat>
  {
    set i | 0 <= i < |cs| :: cs[i].uid
  }

  /** Every uid of `s` is one of `from` or was handed out in `[lo, hi)`. */
  predicate UidsFrom(s: set<nat>, from: set<nat>, lo: nat, hi: nat)
  {
    forall u :: u in s ==> u in from || lo <= u < hi
  }

  lemma UidsAppend(a: seq<Node>, b: seq<Node>)
    ensures UidsOf(a + b) == UidsOf(a) + UidsOf(b)
  {
    forall u | u in UidsOf(a + b)
      ensures u in UidsOf(a) + UidsOf(b)
    {
      var i :| 0 <= i < |a + b| && (a + b)[i].uid == u;
      if i < |a| {
        assert a[i].uid == u;
      } else {
        assert b[i - |a|].uid == u;
      }
    }
    forall u | u in UidsOf(a)
      ensures u in UidsOf(a + b)
    {
      var i :| 0 <= i < |a| && a[i].uid == u;
      assert (a + b)[i] == a[i];
    }
    forall u | u in UidsOf(b)
      ensures u in UidsOf(a + b)
    {
      var i :| 0 <= i < |b| && b[i].uid == u;
      assert (a + b)[|a| + i] == b[i];
    }
  }

  lemma UidsSlice(cs: seq<Node>, i: nat, j: nat)
    requires i <= j <= |cs|
    ensures UidsOf(cs[i..j]) <= UidsOf(cs)
  {
    forall u | u in UidsOf(cs[i..j])
      ensures u in UidsOf(cs)
    {
      var m :| 0 <= m < j - i && cs[i..j][m].uid == u;
      assert cs[i + m].uid == u;
    }
  }

  lemma LabelsSingle(x: Node)
    ensures LabelsOf([x]) == Repeat(Label(x), |Content(x)|)
  {
    assert [x][1..] == [];
  }

  /** A list whose nodes all put their text in one region labels all its text with it. */
  lemma {:induction false} UniformLabels(cs: seq<Node>, l: Option<string>)
    requires forall i :: 0 <= i < |cs| ==> Label(cs[i]) == l
    ensures LabelsOf(cs) == Repeat(l, |ContentSeq(cs)|)
    decreases |cs|
  {
    if cs != [] {
      UniformLabels(cs[1..], l);
    }
  }
}
