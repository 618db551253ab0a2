/**
 * `#extractOverlapped`: when a new region was painted inside an existing
 * region (the "outer" one), the outer region's children are hoisted out in
 * front of it one by one, bare text children wrapped again with the outer
 * region's id, wrapper and color, each hoisted child merged with a same-id
 * neighbour; then the emptied outer region is removed. The outer region is
 * given as its index `o` in its parent's child list.
 */
module Extract {
  import opened Wrappers
  import opened Dom
  import opened Names
  import opened Regions
  import opened Coalesce
  import opened Merge
  import opened Paint

  /** The id, wrapper and color a bare text child of the outer region is wrapped with. */
  function OuterConfig(outer: Node): (cfg: Config)
    requires outer.Element? && outer.attrs.hlId.Some?
    ensures cfg.id == outer.attrs.hlId.value
    ensures cfg.wrapper == TagNameToWrapper(outer.tag)
    ensures ColorOrEmpty(cfg.color) == ColorOrEmpty(outer.attrs.color)
  {
    Config(outer.attrs.hlId.value, TagNameToWrapper(outer.tag), Some(ColorOrEmpty(outer.attrs.color)))
  }

  // ---------------------------------------------------------------------
  // The style of a region: id, wrapper and color
  // ---------------------------------------------------------------------

  /** What a region looks like: its id, the wrapper its tag maps to, and its color ("" when none). */
  datatype Style = Style(id: string, wrapper: string, color: string)

  /** The style of an element carrying the region attribute. */
  function StyleOf(n: Node): (st: Style)
    requires n.Element? && n.attrs.hlId.Some?
    ensures st.id == n.attrs.hlId.value && st.wrapper == TagNameToWrapper(n.tag)
  {
    Style(n.attrs.hlId.value, TagNameToWrapper(n.tag), ColorOrEmpty(n.attrs.color))
  }

  /** A highlight carrying the id of `st` has the style `st`. */
  predicate Styled(n: Node, st: Style)
  {
    IsHighlight(n) && n.attrs.hlId == Some(st.id) ==> StyleOf(n) == st
  }

  /** Every region of the list carrying the id of `st` has the style `st`. */
  predicate OneStyle(cs: seq<Node>, st: Style)
  {
    forall i :: 0 <= i < |cs| ==> Styled(cs[i], st)
  }

  lemma OneStyleAppend(a: seq<Node>, b: seq<Node>, st: Style)
    ensures OneStyle(a + b, st) <==> OneStyle(a, st) && OneStyle(b, st)
  {
    if OneStyle(a + b, st) {
      forall i | 0 <= i < |b| ensures Styled(b[i], st) {
        assert (a + b)[|a| + i] == b[i];
      }
      forall i | 0 <= i < |a| ensures Styled(a[i], st) {
        assert (a + b)[i] == a[i];
      }
    }
  }

  lemma OneStyleSlice(cs: seq<Node>, i: nat, j: nat, st: Style)
    requires i <= j <= |cs| && OneStyle(cs, st)
    ensures OneStyle(cs[i..j], st)
  {
    forall m | 0 <= m < j - i ensures Styled(cs[i..j][m], st) {
      assert cs[i..j][m] == cs[i + m];
    }
  }

  lemma OneStylePrefix(cs: seq<Node>, lo: nat, st: Style)
    requires lo <= |cs| && OneStyle(cs, st)
    ensures OneStyle(DropLastEmpty(cs[..lo]), st)
  {
    OneStyleSlice(cs, 0, lo, st);
    assert cs[0..lo] == cs[..lo];
    OneStyleDrop(cs[..lo], st);
  }

  lemma OneStyleSuffix(cs: seq<Node>, hi: nat, st: Style)
    requires hi <= |cs| && OneStyle(cs, st)
    ensures OneStyle(DropFirstEmpty(cs[hi..]), st)
  {
    OneStyleSlice(cs, hi, |cs|, st);
    assert cs[hi..|cs|] == cs[hi..];
    OneStyleDrop(cs[hi..], st);
  }

  /** Dropping an empty leaf at either end keeps a list of one style. */
  lemma OneStyleDrop(cs: seq<Node>, st: Style)
    requires OneStyle(cs, st)
    ensures OneStyle(DropFirstEmpty(cs), st) && OneStyle(DropLastEmpty(cs), st)
  {
    if cs != [] {
      OneStyleSlice(cs, 1, |cs|, st);
      OneStyleSlice(cs, 0, |cs| - 1, st);
      assert cs[1..|cs|] == cs[1..];
      assert cs[0..|cs| - 1] == cs[..|cs| - 1];
    }
  }

  /** A list is of one style when the parts before, at and after an index are. */
  lemma OneStyleAround(r: seq<Node>, at: nat, st: Style)
    requires at < |r| && OneStyle(r[..at], st) && Styled(r[at], st) && OneStyle(r[at + 1..], st)
    ensures OneStyle(r, st)
  {
    assert r == r[..at] + [r[at]] + r[at + 1..];
    OneStyleAppend(r[..at], [r[at]], st);
    OneStyleAppend(r[..at] + [r[at]], r[at + 1..], st);
  }

  /** The style of the region a node is, if it is one. */
  function StyleLabel(n: Node): (r: Option<Style>)
    ensures r.Some? <==> IsHighlight(n)
    ensures r.Some? ==> Some(r.value.id) == Label(n)
  {
    if IsHighlight(n) then Some(StyleOf(n)) else None
  }

  /** For each character of the text of a list, the style of the region of the list that holds it. */
  function StylesOf(cs: seq<Node>): (r: seq<Option<Style>>)
    ensures |r| == |ContentSeq(cs)|
    decreases cs
  {
    if cs == [] then [] else Repeat(StyleLabel(cs[0]), |Content(cs[0])|) + StylesOf(cs[1..])
  }

  /**
   * In a list of one style, a character lies in a region with the id of
   * `st` exactly when it lies in a region of style `st`: that id, that
   * wrapper and that color.
   */
  lemma {:induction false} LabelledStyled(cs: seq<Node>, st: Style)
    requires OneStyle(cs, st)
    ensures forall c :: 0 <= c < |ContentSeq(cs)| ==> (LabelsOf(cs)[c] == Some(st.id) <==> StylesOf(cs)[c] == Some(st))
    decreases |cs|
  {
    if cs != [] {
      OneStyleSlice(cs, 1, |cs|, st);
      assert cs[1..|cs|] == cs[1..];
      LabelledStyled(cs[1..], st);
      assert Styled(cs[0], st);
      var n := |Content(cs[0])|;
      forall c | 0 <= c < |ContentSeq(cs)|
        ensures LabelsOf(cs)[c] == Some(st.id) <==> StylesOf(cs)[c] == Some(st)
      {
        if c < n {
          assert LabelsOf(cs)[c] == Label(cs[0]);
          assert StylesOf(cs)[c] == StyleLabel(cs[0]);
        } else {
          assert LabelsOf(cs)[c] == LabelsOf(cs[1..])[c - n];
          assert StylesOf(cs)[c] == StylesOf(cs[1..])[c - n];
        }
      }
    }
  }

  /**
   * `#mergeAdjacentById` keeps the style of every region it keeps: the
   * merged node keeps the node's tag and attributes, and every other node
   * is a sibling from before.
   */
  lemma MergeStyled(cs: seq<Node>, k: nat, mergeNext: bool, r: seq<Node>, at: nat, st: Style)
    requires k < |cs| && MergeShape(cs, k, mergeNext, r, at) && OneStyle(cs, st)
    ensures OneStyle(r, st)
  {
    if IsHighlight(cs[k]) {
      var lo, hi := Lo(cs, k), Hi(cs, k, mergeNext);
      assert OneStyle(r[..at], st) by {
        OneStylePrefix(cs, lo, st);
      }
      assert OneStyle(r[at + 1..], st) by {
        OneStyleSuffix(cs, hi, st);
      }
      assert Styled(r[at], st) by {
        assert Styled(cs[k], st);
      }
      OneStyleAround(r, at, st);
    }
  }

  /**
   * The region style of the outer region is the style of the regions made
   * for its bare text: `OuterConfig` maps back to it.
   */
  lemma OuterConfigStyle(outer: Node, uid: nat, kids: seq<Node>)
    requires IsHighlight(outer)
    ensures IsHighlight(NewRegion(OuterConfig(outer), uid, kids))
    ensures StyleOf(NewRegion(OuterConfig(outer), uid, kids)) == StyleOf(outer)
  {
    var cfg := OuterConfig(outer);
    NewRegionIsHighlight(cfg, uid, kids);
  }

  /** `n` is the outer region with some list of children. */
  predicate Shell(n: Node, outer: Node)
  {
    outer.Element? && n.Element? && n == outer.(children := n.children)
  }

  /**
   * Every node of the list is flat, except the outer region at `o` (while
   * it is still there), whose children are flat.
   */
  ghost predicate FlatAround(kids: seq<Node>, o: nat, present: bool)
  {
    if present then
      o < |kids| && kids[o].Element? && FlatSeq(kids[..o]) && FlatSeq(kids[o + 1..]) && FlatSeq(kids[o].children)
    else FlatSeq(kids)
  }

  /** A flat node stays flat when an empty leaf is dropped at either end of its children. */
  lemma CleanEndsFlat(n: Node)
    requires Flat(n)
    ensures Flat(CleanEnds(n))
  {
    if n.Element? {
      DropEmptyFlat(n.children);
      DropEmptyFlat(DropFirstEmpty(n.children));
    }
  }

  /**
   * The first child of the outer region, made ready to be hoisted: a bare
   * text leaf is wrapped whole in a new region with the outer region's id,
   * wrapper and color (identity `uid0`, its text `uid0 + 1`); an element is
   * hoisted as it is. Answers the node to hoist.
   */
  function Rewrap(child: Node, cfg: Config, uid0: nat): (r: Node)
    requires child.Text? ==> child.data != ""
    ensures r.Element?
    ensures Content(r) == Content(child)
    ensures child.Element? ==> r == child
    ensures child.Text? ==> r == NewRegion(cfg, uid0, [Text(uid0 + 1, child.data)])
    ensures Flat(child) ==> Flat(r)
  {
    if child.Element? then child
    else
      var m := Surround(child, 0, |child.data|, cfg, uid0);
      assert child.data[0..|child.data|] == child.data;
      var w := m.0[m.1];
      assert Flat(w) by {
        assert w.children == [Text(uid0 + 1, child.data)];
        assert !HasHighlightSeq(w.children) by { HasHighlightSeqSingle(Text(uid0 + 1, child.data)); }
        HasHighlightSeqSingle(Text(uid0 + 1, child.data));
      }
      w
  }

  /**
   * The region a child of the outer region puts its text in once hoisted:
   * a text child goes into a region with the outer region's id, an element
   * keeps its own label.
   */
  function HoistLabel(c: Node, id: string): Option<string>
  {
    if c.Text? then Some(id) else Label(c)
  }

  /** For each character of the outer region's children, its region once they are hoisted. */
  function HoistedLabels(cs: seq<Node>, id: string): (r: seq<Option<string>>)
    ensures |r| == |ContentSeq(cs)|
  {
    if cs == [] then [] else Repeat(HoistLabel(cs[0], id), |Content(cs[0])|) + HoistedLabels(cs[1..], id)
  }

  /**
   * The labels of the list with the children of the outer region at `o`
   * (while it is there) counted as hoisted already.
   */
  ghost function LabelsAround(kids: seq<Node>, o: nat, present: bool, id: string): seq<Option<string>>
    requires present ==> o < |kids| && kids[o].Element?
  {
    if present then LabelsOf(kids[..o]) + HoistedLabels(kids[o].children, id) + LabelsOf(kids[o + 1..])
    else LabelsOf(kids)
  }

  /**
   * The regions of the list carrying the id of `st`, and those among the
   * children of the outer region at `o` (while it is there), have the
   * style `st`.
   */
  predicate StyledAround(kids: seq<Node>, o: nat, present: bool, st: Style)
  {
    if present then
      o < |kids| && kids[o].Element? && OneStyle(kids[..o], st) && OneStyle(kids[o + 1..], st) && OneStyle(kids[o].children, st)
    else OneStyle(kids, st)
  }

  /** A rewrapped text child is a region with the outer region's id; an element child keeps its label. */
  lemma RewrapLabel(child: Node, outer: Node, uid0: nat)
    requires child.Text? ==> child.data != ""
    requires IsHighlight(outer)
    ensures Label(Rewrap(child, OuterConfig(outer), uid0)) == HoistLabel(child, outer.attrs.hlId.value)
  {
    if child.Text? {
      var cfg := OuterConfig(outer);
      NewRegionIsHighlight(cfg, uid0, [Text(uid0 + 1, child.data)]);
    }
  }

  /** Cleaning the ends of a node keeps its label and its text. */
  lemma CleanEndsLabel(n: Node)
    ensures Label(CleanEnds(n)) == Label(n) && Content(CleanEnds(n)) == Content(n)
  {
  }

  /** The labels of the list once the cleaned, hoisted node sits where the outer region was. */
  lemma LiftLabels(before: seq<Node>, hoisted: Node, mid: seq<Node>, at: nat)
    requires at < |mid| && mid[..at] == DropLastEmpty(before) && mid[at] == CleanEnds(hoisted) && hoisted.Element?
    ensures LabelsOf(mid[..at + 1]) == LabelsOf(before) + Repeat(Label(hoisted), |Content(hoisted)|)
  {
    var a, x := mid[..at], mid[at];
    assert mid[..at + 1] == a + [x];
    assert LabelsOf(a) == LabelsOf(before) by {
      DropLastLabels(before);
    }
    LabelsSnoc(a, x, LabelsOf(before), hoisted);
  }

  /** The labels of a list with one node added at the end. */
  lemma LabelsSnoc(a: seq<Node>, x: Node, la: seq<Option<string>>, n: Node)
    requires LabelsOf(a) == la && x == CleanEnds(n)
    ensures LabelsOf(a + [x]) == la + Repeat(Label(n), |Content(n)|)
  {
    CleanEndsLabel(n);
    LabelsAppend(a, [x]);
    LabelsSingle(x);
  }

  /** What one pass of the loop leaves: the clauses `ExtractStep` ensures. */
  ghost predicate Stepped(kids: seq<Node>, o: nat, outer: Node, uid0: nat,
                          r: seq<Node>, o2: nat, present: bool, last: Option<nat>, uid1: nat)
    requires o < |kids| && kids[o].Element? && outer.Element? && outer.attrs.hlId.Some?
  {
    ContentSeq(r) == ContentSeq(kids) &&
    uid0 <= uid1 &&
    (present ==> o2 < |r| && Shell(r[o2], outer) && |r[o2].children| < |kids[o].children|) &&
    (present && last.Some? ==> last.value < o2 && r[o2].children == []) &&
    (last.Some? ==> last.value < |r|) &&
    (!present ==> last.Some?) &&
    (present ==> r[o2] == outer.(children := kids[o].children[1..]) && r[o2 + 1..] == kids[o + 1..]) &&
    LabelsAround(r, o2, present, outer.attrs.hlId.value) == LabelsAround(kids, o, true, outer.attrs.hlId.value) &&
    UidsFrom(UidsAround(r, o2, present), UidsAround(kids, o, true) + UidsOf(kids[o].children), uid0, uid1) &&
    (present ==> UidsOf(r[o2].children) <= UidsOf(kids[o].children)) &&
    (StyledAround(kids, o, true, StyleOf(outer)) ==> StyledAround(r, o2, present, StyleOf(outer))) &&
    (FlatAround(kids, o, true) ==> FlatAround(r, o2, present))
  }

  /**
   * One pass of the loop of `#extractOverlapped`, over the outer region at
   * `o` with at least one child. An empty first text leaf is dropped from
   * the outer region (the loop as written never gets past it; see
   * `StuckOnEmptyText`). Any other first child is rewrapped when it is
   * text, hoisted in front of the outer region, cleaned, and merged with a
   * same-id neighbour; when it was the last child it may absorb the outer
   * region itself. Answers the new list, the outer region's index, whether
   * it is still there, and the index of the hoisted node when it was the
   * last child.
   */
  method ExtractStep(kids: seq<Node>, o: nat, outer: Node, uid0: nat)
    returns (r: seq<Node>, o2: nat, present: bool, last: Option<nat>, uid1: nat)
    requires o < |kids| && Shell(kids[o], outer) && kids[o].children != []
    requires IsHighlight(outer) && outer.attrs.hlId.Some?
    ensures ContentSeq(r) == ContentSeq(kids)
    ensures uid0 <= uid1
    ensures present ==> o2 < |r| && Shell(r[o2], outer) && |r[o2].children| < |kids[o].children|
    ensures present && last.Some? ==> last.value < o2 && r[o2].children == []
    ensures last.Some? ==> last.value < |r|
    ensures !present ==> last.Some?
    ensures present ==> r[o2] == outer.(children := kids[o].children[1..]) && r[o2 + 1..] == kids[o + 1..]
    ensures LabelsAround(r, o2, present, outer.attrs.hlId.value) == LabelsAround(kids, o, true, outer.attrs.hlId.value)
    ensures UidsFrom(UidsAround(r, o2, present), UidsAround(kids, o, true) + UidsOf(kids[o].children), uid0, uid1)
    ensures present ==> UidsOf(r[o2].children) <= UidsOf(kids[o].children)
    ensures StyledAround(kids, o, true, StyleOf(outer)) ==> StyledAround(r, o2, present, StyleOf(outer))
    ensures FlatAround(kids, o, true) ==> FlatAround(r, o2, present)
  {
    var child := kids[o].children[0];
    if child.Text? && child.data == "" {
      var shell := outer.(children := kids[o].children[1..]);
      r, o2, present, last, uid1 := kids[..o] + [shell] + kids[o + 1..], o, true, None, uid0;
      DropEmptyFacts(kids, o, outer, r, uid0);
      DropEmptyStyled(kids, o, outer, r);
      assert Stepped(kids, o, outer, uid0, r, o2, present, last, uid1);
    } else {
      r, o2, present, last, uid1 := HoistFirst(kids, o, outer, uid0);
      assert Stepped(kids, o, outer, uid0, r, o2, present, last, uid1);
    }
  }

  /** The labels once the merge has absorbed the emptied outer region. */
  lemma HoistedAbsorbed(kids: seq<Node>, o: nat, id: string, lifted: seq<Node>, r: seq<Node>)
    requires o < |kids| && kids[o].Element? && |kids[o].children| == 1
    requires LabelsOf(lifted) == LabelsOf(kids[..o]) + Repeat(HoistLabel(kids[o].children[0], id), |Content(kids[o].children[0])|)
    requires LabelsOf(r) == LabelsOf(lifted) + LabelsOf(kids[o + 1..])
    ensures LabelsOf(r) == LabelsAround(kids, o, true, id)
  {
    var rest := kids[o].children;
    assert rest[1..] == [];
    assert HoistedLabels(rest, id) == Repeat(HoistLabel(rest[0], id), |Content(rest[0])|);
  }

  /** A list seen as the part before index `i`, the node at `i` and the rest. */
  lemma SplitAt<T>(xs: seq<T>, i: nat, x: T, tail: seq<T>)
    requires i < |xs| && xs[i] == x && xs[i + 1..] == tail
    ensures xs == xs[..i] + ([x] + tail)
  {
    assert xs[i..] == [x] + tail;
    assert xs == xs[..i] + xs[i..];
  }

  /** A merge that leaves the outer region (at `j`, then at `i`) in place keeps the labels in front of it. */
  lemma MergeKeptLabels(mid: seq<Node>, j: nat, shell: Node, tail: seq<Node>, r: seq<Node>, i: nat)
    requires j < |mid| && mid[j..] == [shell] + tail
    requires i < |r| && r[i..] == [shell] + tail
    requires LabelsOf(r) == LabelsOf(mid)
    ensures LabelsOf(r[..i]) == LabelsOf(mid[..j])
  {
    KeptBefore(r, mid, i, j, [shell] + tail);
  }

  /** A merge that leaves the outer region in place keeps no node in front of it but those there before. */
  lemma MergeKeptUids(mid: seq<Node>, at: nat, isLast: bool, merged: seq<Node>, at2: nat)
    requires at < |mid| && at2 < |merged|
    requires !IsHighlight(mid[at]) ==> merged == mid && at2 == at
    requires IsHighlight(mid[at]) ==>
      merged[..at2] == DropLastEmpty(mid[..Lo(mid, at)]) &&
      merged[at2 + 1..] == DropFirstEmpty(mid[Hi(mid, at, isLast)..]) &&
      merged[at2].uid == mid[at].uid
    ensures UidsOf(merged[..at2 + 1]) <= UidsOf(mid[..at + 1])
  {
    if IsHighlight(mid[at]) {
      MergeUids(mid, at, isLast, merged, at2);
    }
  }

  /** A merge that absorbs the outer region keeps no node but those around it. */
  lemma MergeAbsorbedUids(mid: seq<Node>, at: nat, isLast: bool, tail: seq<Node>, merged: seq<Node>, at2: nat)
    requires at + 1 < |mid| && mid[at + 2..] == tail && at2 < |merged|
    requires TakesNext(mid, at, isLast)
    requires merged[..at2] == DropLastEmpty(mid[..Lo(mid, at)])
    requires merged[at2 + 1..] == DropFirstEmpty(mid[Hi(mid, at, isLast)..])
    requires merged[at2].uid == mid[at].uid
    ensures UidsOf(merged) <= UidsOf(mid[..at + 1]) + UidsOf(tail)
  {
    MergeUids(mid, at, isLast, merged, at2);
    UidsSplit(merged, at2);
  }

  /** An emptied region adds no label. */
  lemma AbsorbedLabels(a: seq<Node>, b: seq<Node>, shell: Node, tail: seq<Node>)
    requires b == [shell] + tail && shell.Element? && shell.children == []
    ensures LabelsOf(a + b) == LabelsOf(a) + LabelsOf(tail)
  {
    LabelsSingle(shell);
    assert Content(shell) == "";
    assert LabelsOf([shell]) == [];
    LabelsAppend([shell], tail);
    assert LabelsOf(b) == LabelsOf(tail);
    LabelsAppend(a, b);
  }

  /** A merge that absorbs the emptied outer region labels the text as the list without it. */
  lemma MergeAbsorbedLabels(mid: seq<Node>, at: nat, shell: Node, tail: seq<Node>, r: seq<Node>)
    requires at + 1 < |mid| && mid[at + 1..] == [shell] + tail && shell.Element? && shell.children == []
    requires LabelsOf(r) == LabelsOf(mid)
    ensures LabelsOf(r) == LabelsOf(mid[..at + 1]) + LabelsOf(tail)
  {
    var a, b := mid[..at + 1], mid[at + 1..];
    assert mid == a + b;
    AbsorbedLabels(a, b, shell, tail);
  }

  /** The labels around the outer region once the merge has left it in place. */
  lemma HoistedKept(kids: seq<Node>, o: nat, id: string, before: seq<Node>, lifted: seq<Node>, shell: Node)
    requires o < |kids| && kids[o].Element? && kids[o].children != []
    requires shell.Element? && shell.children == kids[o].children[1..]
    requires LabelsOf(before) == LabelsOf(lifted)
    requires LabelsOf(lifted) == LabelsOf(kids[..o]) + Repeat(HoistLabel(kids[o].children[0], id), |Content(kids[o].children[0])|)
    ensures LabelsOf(before) + HoistedLabels(shell.children, id) + LabelsOf(kids[o + 1..]) == LabelsAround(kids, o, true, id)
  {
    var rest := kids[o].children;
    var a, rep, h, t := LabelsOf(kids[..o]), Repeat(HoistLabel(rest[0], id), |Content(rest[0])|),
      HoistedLabels(rest[1..], id), LabelsOf(kids[o + 1..]);
    assert HoistedLabels(rest, id) == rep + h;
    Regroup(a, rep, h, t);
  }

  lemma Regroup<T>(a: seq<T>, b: seq<T>, c: seq<T>, d: seq<T>)
    ensures a + b + c + d == a + (b + c) + d
  {
  }

  /** The pass of `ExtractStep` for a first child that is not an empty leaf. */
  method HoistFirst(kids: seq<Node>, o: nat, outer: Node, uid0: nat)
    returns (r: seq<Node>, o2: nat, present: bool, last: Option<nat>, uid1: nat)
    requires o < |kids| && Shell(kids[o], outer) && kids[o].children != []
    requires !(kids[o].children[0].Text? && kids[o].children[0].data == "")
    requires IsHighlight(outer) && outer.attrs.hlId.Some?
    ensures ContentSeq(r) == ContentSeq(kids)
    ensures uid0 <= uid1
    ensures present ==> o2 < |r| && Shell(r[o2], outer) && |r[o2].children| < |kids[o].children|
    ensures present && last.Some? ==> last.value < o2 && r[o2].children == []
    ensures last.Some? ==> last.value < |r|
    ensures !present ==> last.Some?
    ensures present ==> r[o2] == outer.(children := kids[o].children[1..]) && r[o2 + 1..] == kids[o + 1..]
    ensures LabelsAround(r, o2, present, outer.attrs.hlId.value) == LabelsAround(kids, o, true, outer.attrs.hlId.value)
    ensures UidsFrom(UidsAround(r, o2, present), UidsAround(kids, o, true) + UidsOf(kids[o].children), uid0, uid1)
    ensures present ==> UidsOf(r[o2].children) <= UidsOf(kids[o].children)
    ensures StyledAround(kids, o, true, StyleOf(outer)) ==> StyledAround(r, o2, present, StyleOf(outer))
    ensures FlatAround(kids, o, true) ==> FlatAround(r, o2, present)
  {
    var rest := kids[o].children;
    var shell := outer.(children := rest[1..]);
    var mid, at;
    mid, at, uid1 := LiftFirst(kids, o, outer, uid0);
    ghost var at2;
    r, o2, present, last, at2 := MergeLifted(mid, at, |rest| == 1, shell, kids[o + 1..], FlatAround(kids, o, true));
    assert StyledAround(kids, o, true, StyleOf(outer)) ==> StyledAround(r, o2, present, StyleOf(outer)) by {
      HoistStyled(kids, o, outer, mid, at, r, o2, present, at2);
    }
    assert LabelsAround(r, o2, present, outer.attrs.hlId.value) == LabelsAround(kids, o, true, outer.attrs.hlId.value) by {
      HoistLabelsFact(kids, o, outer.attrs.hlId.value, shell, mid, at, r, o2, present);
    }
    HoistUidsFact(kids, o, shell, mid, at, r, o2, present, uid0, uid1);
  }

  /** The labels a pass of `HoistFirst` leaves, from those of the lift and of the merge. */
  lemma HoistLabelsFact(kids: seq<Node>, o: nat, id: string, shell: Node, mid: seq<Node>, at: nat,
                        r: seq<Node>, o2: nat, present: bool)
    requires o < |kids| && kids[o].Element? && kids[o].children != []
    requires shell.Element? && shell.children == kids[o].children[1..]
    requires at + 1 < |mid|
    requires LabelsOf(mid[..at + 1]) == LabelsOf(kids[..o]) +
      Repeat(HoistLabel(kids[o].children[0], id), |Content(kids[o].children[0])|)
    requires present ==> o2 < |r| && r[o2] == shell && r[o2 + 1..] == kids[o + 1..]
    requires present ==> LabelsOf(r[..o2]) == LabelsOf(mid[..at + 1])
    requires !present ==> |kids[o].children| == 1
    requires !present ==> LabelsOf(r) == LabelsOf(mid[..at + 1]) + LabelsOf(kids[o + 1..])
    ensures LabelsAround(r, o2, present, id) == LabelsAround(kids, o, true, id)
  {
    if present {
      HoistedKept(kids, o, id, r[..o2], mid[..at + 1], shell);
    } else {
      HoistedAbsorbed(kids, o, id, mid[..at + 1], r);
    }
  }

  /** The identities a pass of `HoistFirst` leaves, from those of the lift and of the merge. */
  lemma HoistUidsFact(kids: seq<Node>, o: nat, shell: Node, mid: seq<Node>, at: nat,
                      r: seq<Node>, o2: nat, present: bool, uid0: nat, uid1: nat)
    requires o < |kids| && kids[o].Element? && kids[o].children != []
    requires shell.Element? && shell.children == kids[o].children[1..]
    requires at + 1 < |mid|
    requires UidsFrom(UidsOf(mid[..at + 1]), UidsOf(kids[..o]) + UidsOf(kids[o].children), uid0, uid1)
    requires present ==> o2 < |r| && r[o2] == shell && r[o2 + 1..] == kids[o + 1..]
    requires present ==> UidsOf(r[..o2]) <= UidsOf(mid[..at + 1])
    requires !present ==> UidsOf(r) <= UidsOf(mid[..at + 1]) + UidsOf(kids[o + 1..])
    ensures UidsFrom(UidsAround(r, o2, present), UidsAround(kids, o, true) + UidsOf(kids[o].children), uid0, uid1)
    ensures present ==> UidsOf(r[o2].children) <= UidsOf(kids[o].children)
  {
    var rest := kids[o].children;
    if present {
      FromUnion(UidsAround(r, o2, present), UidsOf(mid[..at + 1]), UidsOf(kids[o + 1..]),
        UidsOf(kids[..o]) + UidsOf(rest), uid0, uid1);
      UidsSlice(rest, 1, |rest|);
      assert rest[1..|rest|] == shell.children;
    } else {
      FromUnion(UidsOf(r), UidsOf(mid[..at + 1]), UidsOf(kids[o + 1..]),
        UidsOf(kids[..o]) + UidsOf(rest), uid0, uid1);
    }
  }

  /** Uids of the list around the outer region at `o` (while it is there). */
  ghost function UidsAround(kids: seq<Node>, o: nat, present: bool): set<nat>
    requires present ==> o < |kids|
  {
    if present then UidsOf(kids[..o]) + UidsOf(kids[o + 1..]) else UidsOf(kids)
  }

  lemma FromUnion(s: set<nat>, x: set<nat>, t: set<nat>, from: set<nat>, lo: nat, hi: nat)
    requires s <= x + t && UidsFrom(x, from, lo, hi)
    ensures UidsFrom(s, from + t, lo, hi)
  {
  }

  lemma FromStep(s2: set<nat>, s1: set<nat>, b: set<nat>, c: set<nat>, a: set<nat>, lo: nat, mid: nat, hi: nat)
    requires UidsFrom(s1, a + c, lo, mid) && UidsFrom(s2, s1 + b, mid, hi) && b <= c && lo <= mid <= hi
    ensures UidsFrom(s2, a + c, lo, hi)
  {
  }

  /**
   * `#mergeAdjacentById(child, isLast)` on the lifted child at `at`, with
   * the outer region `shell` right after it: the outer region is either
   * left in place after the merged node or, emptied, absorbed by it.
   */
  method MergeLifted(mid: seq<Node>, at: nat, isLast: bool, shell: Node, tail: seq<Node>, ghost flat: bool)
    returns (r: seq<Node>, o2: nat, present: bool, last: Option<nat>, ghost at2: nat)
    requires at + 1 < |mid| && mid[at].Element? && mid[at + 1..] == [shell] + tail && shell.Element?
    requires isLast ==> shell.children == []
    requires flat ==> FlatSeq(mid[..at + 1]) && FlatSeq(tail) && FlatSeq(shell.children)
    ensures ContentSeq(r) == ContentSeq(mid)
    ensures present ==> o2 < |r| && r[o2] == shell && r[o2 + 1..] == tail
    ensures present ==> LabelsOf(r[..o2]) == LabelsOf(mid[..at + 1])
    ensures present && last.Some? ==> last.value < o2 && shell.children == []
    ensures last.Some? ==> last.value < |r|
    ensures !present ==> last.Some? && isLast
    ensures !present ==> LabelsOf(r) == LabelsOf(mid[..at + 1]) + LabelsOf(tail)
    ensures present ==> UidsOf(r[..o2]) <= UidsOf(mid[..at + 1])
    ensures !present ==> UidsOf(r) <= UidsOf(mid[..at + 1]) + UidsOf(tail)
    ensures flat ==> FlatAround(r, o2, present)
    ensures MergeShape(mid, at, isLast, r, at2)
  {
    var at3;
    r, at3 := MergeAdjacentById(mid, at, isLast);
    at2 := at3;
    last := if isLast then Some(at3) else None;
    if IsHighlight(mid[at]) && TakesNext(mid, at, isLast) {
      present, o2 := false, at3;
      MergeAbsorbsOuter(mid, at, isLast, shell, tail, r, at3, flat);
    } else {
      present, o2 := true, at3 + 1;
      assert UidsOf(r[..at3 + 1]) <= UidsOf(mid[..at + 1]) by {
        MergeKeptUids(mid, at, isLast, r, at3);
      }
      MergeKeepsOuter(mid, at, isLast, shell, tail, r, at3, flat);
    }
  }

  /**
   * The first child of the outer region, rewrapped when it is text, moved
   * in front of the outer region and cleaned; answers the list and the
   * moved node's index.
   */
  method LiftFirst(kids: seq<Node>, o: nat, outer: Node, uid0: nat)
    returns (mid: seq<Node>, at: nat, uid1: nat)
    requires o < |kids| && Shell(kids[o], outer) && kids[o].children != []
    requires !(kids[o].children[0].Text? && kids[o].children[0].data == "")
    requires IsHighlight(outer) && outer.attrs.hlId.Some?
    ensures uid0 <= uid1
    ensures ContentSeq(mid) == ContentSeq(kids)
    ensures at + 1 < |mid| && mid[at].Element?
    ensures mid[at + 1..] == [outer.(children := kids[o].children[1..])] + kids[o + 1..]
    ensures LabelsOf(mid[..at + 1]) == LabelsOf(kids[..o]) +
      Repeat(HoistLabel(kids[o].children[0], outer.attrs.hlId.value), |Content(kids[o].children[0])|)
    ensures UidsFrom(UidsOf(mid[..at + 1]), UidsOf(kids[..o]) + UidsOf(kids[o].children), uid0, uid1)
    ensures FlatAround(kids, o, true) ==>
      FlatSeq(mid[..at + 1]) && FlatSeq(kids[o + 1..]) && FlatSeq(kids[o].children[1..])
    ensures StyledAround(kids, o, true, StyleOf(outer)) ==> OneStyle(mid[..at + 1], StyleOf(outer))
  {
    var rest := kids[o].children;
    var child := rest[0];
    var shell := outer.(children := rest[1..]);
    uid1 := uid0;
    // A text child is wrapped whole (`#wrapRange` over the child), in place.
    var hoisted := Rewrap(child, OuterConfig(outer), uid0);
    if child.Text? {
      uid1 := uid0 + 3;
    }
    // node.before(child)
    var lifted := kids[..o] + [hoisted] + ([shell] + kids[o + 1..]);
    HoistFacts(kids, o, outer, hoisted);
    // #cleanNode(child): the next sibling is the outer region, never an empty leaf.
    var cleaned := CleanNode(lifted, o);
    mid, at := cleaned.0, cleaned.1;
    CleanedFacts(lifted, o, shell, kids[o + 1..], mid, at, FlatAround(kids, o, true));
    RewrapLabel(child, outer, uid0);
    LiftLabels(kids[..o], hoisted, mid, at);
    LiftUids(kids[..o], rest, mid, at, uid0, uid1);
    if StyledAround(kids, o, true, StyleOf(outer)) {
      LiftStyled(kids, o, outer, hoisted, mid, at, uid0);
    }
  }

  /** The lifted node is a region of the outer region's style or a child of it; the nodes before it are kept. */
  lemma LiftStyled(kids: seq<Node>, o: nat, outer: Node, hoisted: Node, mid: seq<Node>, at: nat, uid0: nat)
    requires o < |kids| && Shell(kids[o], outer) && kids[o].children != [] && IsHighlight(outer)
    requires !(kids[o].children[0].Text? && kids[o].children[0].data == "")
    requires hoisted == Rewrap(kids[o].children[0], OuterConfig(outer), uid0)
    requires at < |mid| && mid[..at] == DropLastEmpty(kids[..o]) && mid[at] == CleanEnds(hoisted)
    requires StyledAround(kids, o, true, StyleOf(outer))
    ensures OneStyle(mid[..at + 1], StyleOf(outer))
  {
    var st, child := StyleOf(outer), kids[o].children[0];
    assert Styled(mid[at], st) by {
      if child.Text? {
        OuterConfigStyle(outer, uid0, [Text(uid0 + 1, child.data)]);
      } else {
        assert Styled(child, st);
      }
    }
    assert OneStyle(mid[..at], st) by {
      OneStyleDrop(kids[..o], st);
    }
    assert mid[..at + 1] == mid[..at] + [mid[at]];
    OneStyleAppend(mid[..at], [mid[at]], st);
  }

  /** What `HoistFirst` keeps after the lifted child, the shell and its later siblings, is of one style. */
  lemma ShellTailStyled(kids: seq<Node>, o: nat, outer: Node, st: Style)
    requires o < |kids| && Shell(kids[o], outer) && kids[o].children != [] && IsHighlight(outer)
    requires st == StyleOf(outer) && StyledAround(kids, o, true, st)
    ensures OneStyle([outer.(children := kids[o].children[1..])] + kids[o + 1..], st)
  {
    assert Styled(outer.(children := kids[o].children[1..]), st);
    OneStyleAppend([outer.(children := kids[o].children[1..])], kids[o + 1..], st);
  }

  /** The list `LiftFirst` leaves is of one style. */
  lemma MidStyled(kids: seq<Node>, o: nat, outer: Node, mid: seq<Node>, at: nat, st: Style)
    requires o < |kids| && Shell(kids[o], outer) && kids[o].children != [] && IsHighlight(outer)
    requires st == StyleOf(outer) && StyledAround(kids, o, true, st)
    requires at + 1 < |mid| && mid[at + 1..] == [outer.(children := kids[o].children[1..])] + kids[o + 1..]
    requires OneStyle(mid[..at + 1], st)
    ensures OneStyle(mid, st)
  {
    ShellTailStyled(kids, o, outer, st);
    assert mid == mid[..at + 1] + mid[at + 1..];
    OneStyleAppend(mid[..at + 1], mid[at + 1..], st);
  }

  /** A list of one style whose shell at `o2` holds a tail of a one-style list is styled around `o2`. */
  lemma PresentStyled(r: seq<Node>, o2: nat, rest: seq<Node>, st: Style)
    requires rest != [] && o2 < |r| && r[o2].Element? && r[o2].children == rest[1..]
    requires OneStyle(r, st) && OneStyle(rest, st)
    ensures StyledAround(r, o2, true, st)
  {
    OneStyleSlice(r, 0, o2, st);
    assert r[0..o2] == r[..o2];
    OneStyleSlice(r, o2 + 1, |r|, st);
    assert r[o2 + 1..|r|] == r[o2 + 1..];
    OneStyleSlice(rest, 1, |rest|, st);
    assert rest[1..|rest|] == rest[1..];
  }

  /** The pass of `HoistFirst` keeps every region carrying the outer region's id in its style. */
  lemma HoistStyled(kids: seq<Node>, o: nat, outer: Node, mid: seq<Node>, at: nat,
                    r: seq<Node>, o2: nat, present: bool, at2: nat)
    requires o < |kids| && Shell(kids[o], outer) && kids[o].children != [] && IsHighlight(outer)
    requires at + 1 < |mid| && mid[at + 1..] == [outer.(children := kids[o].children[1..])] + kids[o + 1..]
    requires StyledAround(kids, o, true, StyleOf(outer)) ==> OneStyle(mid[..at + 1], StyleOf(outer))
    requires MergeShape(mid, at, |kids[o].children| == 1, r, at2)
    requires present ==> o2 < |r| && r[o2] == outer.(children := kids[o].children[1..]) && r[o2 + 1..] == kids[o + 1..]
    ensures StyledAround(kids, o, true, StyleOf(outer)) ==> StyledAround(r, o2, present, StyleOf(outer))
  {
    var st, rest := StyleOf(outer), kids[o].children;
    if StyledAround(kids, o, true, st) {
      MidStyled(kids, o, outer, mid, at, st);
      MergeStyled(mid, at, |rest| == 1, r, at2, st);
      if present {
        PresentStyled(r, o2, rest, st);
      }
    }
  }

  /** Dropping an empty first leaf from the outer region keeps the styles around it. */
  lemma DropEmptyStyled(kids: seq<Node>, o: nat, outer: Node, r: seq<Node>)
    requires o < |kids| && Shell(kids[o], outer) && kids[o].children != [] && outer.attrs.hlId.Some?
    requires r == kids[..o] + [outer.(children := kids[o].children[1..])] + kids[o + 1..]
    ensures StyledAround(kids, o, true, StyleOf(outer)) ==> StyledAround(r, o, true, StyleOf(outer))
  {
    var rest := kids[o].children;
    var shell := outer.(children := rest[1..]);
    SpliceParts(kids[..o], shell, kids[o + 1..]);
    if StyledAround(kids, o, true, StyleOf(outer)) {
      OneStyleSlice(rest, 1, |rest|, StyleOf(outer));
      assert rest[1..|rest|] == rest[1..];
    }
  }

  /** The lifted node is the first child of the outer region or a region made for it. */
  lemma LiftUids(before: seq<Node>, rest: seq<Node>, mid: seq<Node>, at: nat, uid0: nat, uid1: nat)
    requires at < |mid| && mid[..at] == DropLastEmpty(before) && rest != []
    requires mid[at].uid == rest[0].uid || uid0 <= mid[at].uid < uid1
    ensures UidsFrom(UidsOf(mid[..at + 1]), UidsOf(before) + UidsOf(rest), uid0, uid1)
  {
    UidsSplit(mid, at);
    DropEmptyUids(before);
    assert rest[0].uid in UidsOf(rest);
  }

  /** Dropping an empty first leaf from the outer region keeps the list's text. */
  lemma DropEmptyContent(kids: seq<Node>, o: nat, outer: Node)
    requires o < |kids| && Shell(kids[o], outer) && kids[o].children != []
    requires kids[o].children[0].Text? && kids[o].children[0].data == ""
    ensures ContentSeq(kids[..o] + [outer.(children := kids[o].children[1..])] + kids[o + 1..]) == ContentSeq(kids)
  {
    var rest := kids[o].children;
    var shell := outer.(children := rest[1..]);
    assert ContentSeq(rest) == Content(rest[0]) + ContentSeq(rest[1..]);
    assert Content(shell) == Content(kids[o]);
    ContentSplice(kids, o, [shell]);
    ContentSeqSingle(shell);
  }

  /** Dropping an empty first leaf from the outer region keeps the list flat around it. */
  lemma DropEmptyKeepsFlat(kids: seq<Node>, o: nat, outer: Node)
    requires o < |kids| && Shell(kids[o], outer) && kids[o].children != []
    requires FlatAround(kids, o, true)
    ensures FlatAround(kids[..o] + [outer.(children := kids[o].children[1..])] + kids[o + 1..], o, true)
  {
    var rest := kids[o].children;
    var shell := outer.(children := rest[1..]);
    SpliceParts(kids[..o], shell, kids[o + 1..]);
    FlatSlice(rest, 1, |rest|);
    assert rest[1..|rest|] == rest[1..];
  }

  /** Dropping an empty first leaf from the outer region keeps the labels around it. */
  lemma DropEmptyAround(kids: seq<Node>, o: nat, outer: Node, id: string)
    requires o < |kids| && Shell(kids[o], outer) && kids[o].children != []
    requires kids[o].children[0].Text? && kids[o].children[0].data == ""
    ensures var shell := outer.(children := kids[o].children[1..]);
      var r := kids[..o] + [shell] + kids[o + 1..];
      o < |r| && LabelsAround(r, o, true, id) == LabelsAround(kids, o, true, id)
  {
    var rest := kids[o].children;
    var shell := outer.(children := rest[1..]);
    var r := kids[..o] + [shell] + kids[o + 1..];
    SpliceParts(kids[..o], shell, kids[o + 1..]);
    assert Repeat(HoistLabel(rest[0], id), |Content(rest[0])|) == [];
    assert HoistedLabels(rest, id) == HoistedLabels(rest[1..], id);
    assert r[..o] == kids[..o] && r[o + 1..] == kids[o + 1..];
  }

  /** The pass of `ExtractStep` over an empty first leaf, which is dropped from the outer region. */
  lemma DropEmptyFacts(kids: seq<Node>, o: nat, outer: Node, r: seq<Node>, uid0: nat)
    requires o < |kids| && Shell(kids[o], outer) && kids[o].children != []
    requires kids[o].children[0].Text? && kids[o].children[0].data == ""
    requires outer.attrs.hlId.Some?
    requires r == kids[..o] + [outer.(children := kids[o].children[1..])] + kids[o + 1..]
    ensures ContentSeq(r) == ContentSeq(kids)
    ensures o < |r| && Shell(r[o], outer) && |r[o].children| < |kids[o].children|
    ensures r[o] == outer.(children := kids[o].children[1..]) && r[o + 1..] == kids[o + 1..]
    ensures LabelsAround(r, o, true, outer.attrs.hlId.value) == LabelsAround(kids, o, true, outer.attrs.hlId.value)
    ensures UidsFrom(UidsAround(r, o, true), UidsAround(kids, o, true) + UidsOf(kids[o].children), uid0, uid0)
    ensures UidsOf(r[o].children) <= UidsOf(kids[o].children)
    ensures FlatAround(kids, o, true) ==> FlatAround(r, o, true)
  {
    var shell := outer.(children := kids[o].children[1..]);
    SpliceParts(kids[..o], shell, kids[o + 1..]);
    DropEmptyContent(kids, o, outer);
    DropEmptyAround(kids, o, outer, outer.attrs.hlId.value);
    UidsSlice(kids[o].children, 1, |kids[o].children|);
    assert kids[o].children[1..|kids[o].children|] == shell.children;
    if FlatAround(kids, o, true) {
      DropEmptyKeepsFlat(kids, o, outer);
    }
  }

  /** Hoisting the (rewrapped) first child in front of the outer region. */
  lemma HoistFacts(kids: seq<Node>, o: nat, outer: Node, hoisted: Node)
    requires o < |kids| && Shell(kids[o], outer) && kids[o].children != []
    requires Content(hoisted) == Content(kids[o].children[0])
    requires Flat(kids[o].children[0]) ==> Flat(hoisted)
    ensures var shell := outer.(children := kids[o].children[1..]);
      var lifted := kids[..o] + [hoisted] + ([shell] + kids[o + 1..]);
      o < |lifted| && lifted[..o] == kids[..o] && lifted[o] == hoisted && lifted[o + 1..] == [shell] + kids[o + 1..] &&
      ContentSeq(lifted) == ContentSeq(kids) &&
      (FlatAround(kids, o, true) ==>
        FlatSeq(kids[..o]) && Flat(hoisted) && FlatSeq(kids[o + 1..]) && FlatSeq(shell.children))
  {
    var rest := kids[o].children;
    var shell := outer.(children := rest[1..]);
    var lifted := kids[..o] + [hoisted] + ([shell] + kids[o + 1..]);
    SpliceParts(kids[..o], hoisted, [shell] + kids[o + 1..]);
    assert rest == [rest[0]] + rest[1..];
    ContentSeqAppend([rest[0]], rest[1..]);
    ContentSeqSingle(rest[0]);
    ContentSplice(kids, o, [hoisted] + [shell]);
    ContentSeqAppend([hoisted], [shell]);
    ContentSeqSingle(hoisted);
    ContentSeqSingle(shell);
    assert lifted == kids[..o] + ([hoisted] + [shell]) + kids[o + 1..];
    if FlatAround(kids, o, true) {
      FlatSlice(rest, 1, |rest|);
      assert rest[1..|rest|] == rest[1..];
      FlatSeqAll(rest);
    }
  }

  /** `#cleanNode` on the hoisted node leaves the outer region right after it. */
  lemma CleanedFacts(lifted: seq<Node>, o: nat, shell: Node, tail: seq<Node>, mid: seq<Node>, at: nat, flat: bool)
    requires o < |lifted| && lifted[o + 1..] == [shell] + tail && shell.Element? && lifted[o].Element?
    requires at < |mid| && mid[..at] == DropLastEmpty(lifted[..o]) && mid[at] == CleanEnds(lifted[o])
    requires mid[at + 1..] == DropFirstEmpty(lifted[o + 1..])
    requires flat ==> FlatSeq(lifted[..o]) && Flat(lifted[o])
    ensures mid[at + 1..] == [shell] + tail && at + 1 < |mid| && mid[at + 1] == shell && mid[at].Element?
    ensures flat ==> FlatSeq(mid[..at + 1])
  {
    assert mid[at + 1..][0] == shell;
    if flat {
      CleanEndsFlat(lifted[o]);
      DropEmptyFlat(lifted[..o]);
      FlatPrefixStep(mid, at);
    }
  }

  /** When the hoisted node does not absorb the outer region, the outer region follows it. */
  lemma MergeKeepsOuter(mid: seq<Node>, at: nat, isLast: bool, shell: Node, tail: seq<Node>,
                        merged: seq<Node>, at2: nat, flat: bool)
    requires at + 1 < |mid| && mid[at + 1..] == [shell] + tail && shell.Element?
    requires mid[at].Element? && !(IsHighlight(mid[at]) && TakesNext(mid, at, isLast))
    requires at2 < |merged|
    requires !IsHighlight(mid[at]) ==> merged == mid && at2 == at
    requires IsHighlight(mid[at]) ==>
      merged[..at2] == DropLastEmpty(mid[..Lo(mid, at)]) &&
      merged[at2 + 1..] == DropFirstEmpty(mid[Hi(mid, at, isLast)..]) &&
      merged[at2] == mid[at].(children := FixedText(DropLastEmpty(DropFirstEmpty(Joined(mid, at, isLast)))))
    requires flat ==> FlatSeq(mid[..at + 1]) && FlatSeq(tail) && FlatSeq(shell.children)
    requires LabelsOf(merged) == LabelsOf(mid)
    ensures at2 + 1 < |merged| && merged[at2 + 1] == shell && merged[at2 + 2..] == tail
    ensures LabelsOf(merged[..at2 + 1]) == LabelsOf(mid[..at + 1])
    ensures flat ==> FlatAround(merged, at2 + 1, true)
  {
    assert at2 + 1 < |merged| && merged[at2 + 1..] == [shell] + tail by {
      MergeKeepsShape(mid, at, isLast, shell, tail, merged, at2, flat);
    }
    MergeKeptLabels(mid, at + 1, shell, tail, merged, at2 + 1);
    MergeKeepsShape(mid, at, isLast, shell, tail, merged, at2, flat);
  }

  lemma MergeKeepsShape(mid: seq<Node>, at: nat, isLast: bool, shell: Node, tail: seq<Node>,
                        merged: seq<Node>, at2: nat, flat: bool)
    requires at + 1 < |mid| && mid[at + 1..] == [shell] + tail && shell.Element?
    requires mid[at].Element? && !(IsHighlight(mid[at]) && TakesNext(mid, at, isLast))
    requires at2 < |merged|
    requires !IsHighlight(mid[at]) ==> merged == mid && at2 == at
    requires IsHighlight(mid[at]) ==>
      merged[..at2] == DropLastEmpty(mid[..Lo(mid, at)]) &&
      merged[at2 + 1..] == DropFirstEmpty(mid[Hi(mid, at, isLast)..]) &&
      merged[at2] == mid[at].(children := FixedText(DropLastEmpty(DropFirstEmpty(Joined(mid, at, isLast)))))
    requires flat ==> FlatSeq(mid[..at + 1]) && FlatSeq(tail) && FlatSeq(shell.children)
    ensures at2 + 1 < |merged| && merged[at2 + 1] == shell && merged[at2 + 2..] == tail
    ensures merged[at2 + 1..] == [shell] + tail
    ensures flat ==> FlatAround(merged, at2 + 1, true)
  {
    if !IsHighlight(mid[at]) {
      assert mid[at + 1..][0] == shell && mid[at + 1..][1..] == tail;
    } else {
      assert Hi(mid, at, isLast) == at + 1;
      assert merged[at2 + 1..] == [shell] + tail;
      assert merged[at2 + 1..][0] == shell && merged[at2 + 1..][1..] == tail;
      if flat {
        MergedFlat(mid, at, isLast);
        FlatPrefixStep(merged, at2);
      }
    }
  }

  /** When the hoisted node absorbs the (empty) outer region, the list is flat. */
  lemma MergeAbsorbsOuter(mid: seq<Node>, at: nat, isLast: bool, shell: Node, tail: seq<Node>,
                          merged: seq<Node>, at2: nat, flat: bool)
    requires at + 1 < |mid| && mid[at + 1..] == [shell] + tail && shell.Element? && shell.children == []
    requires mid[at].Element? && IsHighlight(mid[at]) && TakesNext(mid, at, isLast)
    requires at2 < |merged|
    requires merged[..at2] == DropLastEmpty(mid[..Lo(mid, at)])
    requires merged[at2 + 1..] == DropFirstEmpty(mid[Hi(mid, at, isLast)..])
    requires merged[at2] == mid[at].(children := FixedText(DropLastEmpty(DropFirstEmpty(Joined(mid, at, isLast)))))
    requires flat ==> FlatSeq(mid[..at + 1]) && FlatSeq(tail)
    requires LabelsOf(merged) == LabelsOf(mid)
    ensures LabelsOf(merged) == LabelsOf(mid[..at + 1]) + LabelsOf(tail)
    ensures UidsOf(merged) <= UidsOf(mid[..at + 1]) + UidsOf(tail)
    ensures flat ==> FlatAround(merged, at2, false)
  {
    assert UidsOf(merged) <= UidsOf(mid[..at + 1]) + UidsOf(tail) by {
      assert mid[at + 2..] == mid[at + 1..][1..];
      MergeAbsorbedUids(mid, at, isLast, tail, merged, at2);
    }
    MergeAbsorbedLabels(mid, at, shell, tail, merged);
    if flat {
      assert mid[at + 2..] == tail by {
        assert mid[at + 1..][1..] == tail;
      }
      assert mid[at + 1] == shell by {
        assert mid[at + 1..][0] == shell;
      }
      FlatPrefixStep(mid, at + 1);
      MergedFlat(mid, at, isLast);
      DropEmptyFlat(tail);
      FlatAroundIndex(merged, at2);
    }
  }

  /**
   * `#extractOverlapped(selection, node)` over the child list `ps` holding
   * the candidate region at index `node` (nothing when there is no node).
   * Nothing changes unless that node is a highlight with a non-empty id;
   * then its children are hoisted out one by one (`ExtractStep`), the
   * emptied region is removed, and the node hoisted last is merged with its
   * same-id neighbours once more. Answers the new list, the id of the
   * split region, and the next fresh identity.
   */
  method ExtractOverlapped(ps: seq<Node>, node: Option<nat>, uid0: nat)
    returns (r: seq<Node>, id: Option<string>, uid1: nat)
    requires node.Some? ==> node.value < |ps|
    ensures id == (if node.Some? && IsHighlight(ps[node.value]) then RegionId(ps[node.value]) else None)
    ensures id.None? ==> r == ps && uid1 == uid0
    ensures uid0 <= uid1
    ensures ContentSeq(r) == ContentSeq(ps)
    ensures id.Some? ==>
      LabelsOf(r) == LabelsOf(ps[..node.value]) + HoistedLabels(ps[node.value].children, id.value) + LabelsOf(ps[node.value + 1..])
    ensures id.Some? ==>
      UidsFrom(UidsOf(r), UidsOf(ps[..node.value]) + UidsOf(ps[node.value + 1..]) + UidsOf(ps[node.value].children), uid0, uid1)
    ensures id.Some? && ps[node.value].uid < uid0 &&
            ps[node.value].uid !in UidsOf(ps[..node.value]) + UidsOf(ps[node.value + 1..]) + UidsOf(ps[node.value].children)
            ==> ps[node.value].uid !in UidsOf(r)
    ensures id.Some? && FlatAround(ps, node.value, true) ==> FlatSeq(r)
    ensures id.Some? && StyledAround(ps, node.value, true, StyleOf(ps[node.value])) ==>
      OneStyle(r, StyleOf(ps[node.value]))
  {
    r, id, uid1 := ps, None, uid0;
    if node.None? || !IsHighlight(ps[node.value]) || RegionId(ps[node.value]).None? {
      return;
    }
    var k := node.value;
    var outer := ps[k];
    id := RegionId(outer);
    var kids, o, present, last, u := HoistAll(ps, k, outer, uid0);
    ghost var styled := StyledAround(ps, k, true, StyleOf(outer));
    // node.remove()
    if present {
      RemoveEmptyShell(kids, o, FlatAround(ps, k, true), id.value);
      UidsAppend(kids[..o], kids[o + 1..]);
      if styled {
        OneStyleAppend(kids[..o], kids[o + 1..], StyleOf(outer));
      }
      kids := kids[..o] + kids[o + 1..];
    }
    // if (lastNode) this.#mergeAdjacentById(lastNode)
    if last.Some? {
      var at;
      ghost var before := kids;
      kids, at := MergeAdjacentById(kids, last.value, true);
      if styled {
        MergeStyled(before, last.value, true, kids, at, StyleOf(outer));
      }
    }
    r, uid1 := kids, u;
  }

  /**
   * The loop of `#extractOverlapped`: moves the children of the outer
   * region at `k` out one by one until it is empty or has been absorbed.
   */
  method HoistAll(ps: seq<Node>, k: nat, outer: Node, uid0: nat)
    returns (kids: seq<Node>, o: nat, present: bool, last: Option<nat>, u: nat)
    requires k < |ps| && ps[k] == outer && IsHighlight(outer) && outer.attrs.hlId.Some?
    ensures present ==> o < |kids| && Shell(kids[o], outer) && kids[o].children == []
    ensures last.Some? ==> last.value < |kids|
    ensures present && last.Some? ==> last.value < o
    ensures !present ==> last.Some?
    ensures uid0 <= u
    ensures ContentSeq(kids) == ContentSeq(ps)
    ensures LabelsAround(kids, o, present, outer.attrs.hlId.value) == LabelsAround(ps, k, true, outer.attrs.hlId.value)
    ensures UidsFrom(UidsAround(kids, o, present), UidsAround(ps, k, true) + UidsOf(outer.children), uid0, u)
    ensures FlatAround(ps, k, true) ==> FlatAround(kids, o, present)
    ensures StyledAround(ps, k, true, StyleOf(outer)) ==> StyledAround(kids, o, present, StyleOf(outer))
  {
    kids, o, present, last, u := ps, k, true, None, uid0;
    while present && kids[o].children != []
      invariant present ==> o < |kids| && Shell(kids[o], outer)
      invariant last.Some? ==> last.value < |kids|
      invariant present && last.Some? ==> last.value < o && kids[o].children == []
      invariant !present ==> last.Some?
      invariant uid0 <= u
      invariant ContentSeq(kids) == ContentSeq(ps)
      invariant LabelsAround(kids, o, present, outer.attrs.hlId.value) == LabelsAround(ps, k, true, outer.attrs.hlId.value)
      invariant UidsFrom(UidsAround(kids, o, present), UidsAround(ps, k, true) + UidsOf(outer.children), uid0, u)
      invariant present ==> UidsOf(kids[o].children) <= UidsOf(outer.children)
      invariant FlatAround(ps, k, true) ==> FlatAround(kids, o, present)
      invariant StyledAround(ps, k, true, StyleOf(outer)) ==> StyledAround(kids, o, present, StyleOf(outer))
      decreases if present then |kids[o].children| + 1 else 0
    {
      ghost var before, inner, u0 := UidsAround(kids, o, true), UidsOf(kids[o].children), u;
      kids, o, present, last, u := ExtractStep(kids, o, outer, u);
      FromStep(UidsAround(kids, o, present), before, inner, UidsOf(outer.children),
        UidsAround(ps, k, true), uid0, u0, u);
    }
  }

  lemma RemovedLabels(a: seq<Node>, none: seq<Node>, b: seq<Node>, id: string)
    requires none == []
    ensures LabelsOf(a + b) == LabelsOf(a) + HoistedLabels(none, id) + LabelsOf(b)
  {
    LabelsAppend(a, b);
  }

  /** Removing the emptied outer region keeps the list's text. */
  lemma RemoveShellContent(kids: seq<Node>, o: nat)
    requires o < |kids| && kids[o].Element? && kids[o].children == []
    ensures ContentSeq(kids[..o] + kids[o + 1..]) == ContentSeq(kids)
  {
    ContentSplice(kids, o, []);
    assert kids[..o] + [] + kids[o + 1..] == kids[..o] + kids[o + 1..];
  }

  /** Removing the emptied outer region keeps the labels around it. */
  lemma RemoveShellLabels(kids: seq<Node>, o: nat, id: string)
    requires o < |kids| && kids[o].Element? && kids[o].children == []
    ensures LabelsOf(kids[..o] + kids[o + 1..]) == LabelsAround(kids, o, true, id)
  {
    RemovedLabels(kids[..o], kids[o].children, kids[o + 1..], id);
  }

  /** Removing the emptied outer region keeps the text and leaves a flat list. */
  lemma RemoveEmptyShell(kids: seq<Node>, o: nat, flat: bool, id: string)
    requires o < |kids| && kids[o].Element? && kids[o].children == []
    requires flat ==> FlatAround(kids, o, true)
    ensures ContentSeq(kids[..o] + kids[o + 1..]) == ContentSeq(kids)
    ensures LabelsOf(kids[..o] + kids[o + 1..]) == LabelsAround(kids, o, true, id)
    ensures flat ==> FlatSeq(kids[..o] + kids[o + 1..])
  {
    RemoveShellContent(kids, o);
    RemoveShellLabels(kids, o, id);
    if flat {
      FlatSeqAppend(kids[..o], kids[o + 1..]);
    }
  }

  // ---------------------------------------------------------------------
  // The loop as written
  // ---------------------------------------------------------------------

  /**
   * The effect of one pass of the loop of `#extractOverlapped` as written
   * on the outer region's children: an empty first text leaf gives a
   * collapsed range and `continue`, which leaves the children as they
   * were; any other first child is moved out.
   */
  function PassAsWritten(rest: seq<Node>): (r: seq<Node>)
    requires rest != []
    ensures |r| <= |rest|
  {
    if rest[0].Text? && rest[0].data == "" then rest else rest[1..]
  }

  /** The outer region's children after `n` passes, while it has any. */
  function PassesAsWritten(rest: seq<Node>, n: nat): (r: seq<Node>)
    ensures |r| <= |rest|
  {
    if n == 0 || rest == [] then rest else PassesAsWritten(PassAsWritten(rest), n - 1)
  }

  /**
   * As written, an outer region whose first child is an empty text leaf
   * never empties: after any number of passes it still has that child, so
   * `node.firstChild` stays truthy and the loop does not end.
   */
  lemma {:induction false} StuckOnEmptyText(rest: seq<Node>, n: nat)
    requires rest != [] && rest[0].Text? && rest[0].data == ""
    ensures PassesAsWritten(rest, n) == rest && PassesAsWritten(rest, n) != []
  {
    if n > 0 {
      StuckOnEmptyText(rest, n - 1);
    }
  }
}
