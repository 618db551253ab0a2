/**
 * Housekeeping on child lists: dropping empty text leaves next to a node
 * (`#cleanNode`, `#isEmpty`) and folding adjacent text leaves together
 * (`#fixTextContent`).
 */
module Coalesce {
  import opened Wrappers
  import opened Dom

  /** `#isEmpty`: a text leaf whose data is the empty string. */
  predicate IsEmpty(n: Node)
  {
    n.Text? && n.data == ""
  }

  /** The list without its first node, when that node is an empty text leaf. */
  function DropFirstEmpty(cs: seq<Node>): (r: seq<Node>)
    ensures ContentSeq(r) == ContentSeq(cs)
    ensures r == cs || (cs != [] && IsEmpty(cs[0]) && r == cs[1..])
  {
    if cs != [] && IsEmpty(cs[0]) then cs[1..] else cs
  }

  /** The list without its last node, when that node is an empty text leaf. */
  function DropLastEmpty(cs: seq<Node>): (r: seq<Node>)
    ensures ContentSeq(r) == ContentSeq(cs)
    ensures r == cs || (cs != [] && IsEmpty(cs[|cs| - 1]) && r == cs[..|cs| - 1])
  {
    if cs != [] && IsEmpty(cs[|cs| - 1]) then
      assert cs == cs[..|cs| - 1] + [cs[|cs| - 1]];
      ContentSeqAppend(cs[..|cs| - 1], [cs[|cs| - 1]]);
      ContentSeqSingle(cs[|cs| - 1]);
      cs[..|cs| - 1]
    else cs
  }

  /** The node with an empty first child and then an empty last child removed. */
  function CleanEnds(n: Node): (r: Node)
    ensures Content(r) == Content(n)
    ensures r.Text? <==> n.Text?
    ensures n.Text? ==> r == n
    ensures n.Element? ==> r == n.(children := DropLastEmpty(DropFirstEmpty(n.children)))
  {
    if n.Element? then n.(children := DropLastEmpty(DropFirstEmpty(n.children))) else n
  }

  /**
   * `#cleanNode` on the node at `k` of its parent's child list: drop an
   * empty text leaf just before it, its own empty first and last child,
   * and an empty text leaf just after it. Answers the new list and the
   * node's new index.
   */
  function CleanNode(cs: seq<Node>, k: nat): (r: (seq<Node>, nat))
    requires k < |cs|
    ensures r.1 < |r.0|
    ensures r.0[..r.1] == DropLastEmpty(cs[..k])
    ensures r.0[r.1] == CleanEnds(cs[k])
    ensures r.0[r.1 + 1..] == DropFirstEmpty(cs[k + 1..])
    ensures ContentSeq(r.0) == ContentSeq(cs)
  {
    var before := DropLastEmpty(cs[..k]);
    var after := DropFirstEmpty(cs[k + 1..]);
    var out := before + [CleanEnds(cs[k])] + after;
    assert out[..|before|] == before;
    assert out[|before| + 1..] == after;
    ContentSplice(cs, k, [CleanEnds(cs[k])]);
    ContentSeqSingle(CleanEnds(cs[k]));
    ContentSeqAppend(before + [CleanEnds(cs[k])], after);
    ContentSeqAppend(before, [CleanEnds(cs[k])]);
    (out, |before|)
  }

  /**
   * What `#fixTextContent` leaves of a child list: walking left to right, a
   * text leaf absorbs the data of the text leaf right after it, which is
   * removed, and the walk resumes after the pair.
   */
  function FixedText(cs: seq<Node>): seq<Node>
    decreases |cs|
  {
    if cs == [] then []
    else if |cs| >= 2 && cs[0].Text? && cs[1].Text? then
      [Text(cs[0].uid, cs[0].data + cs[1].data)] + FixedText(cs[2..])
    else [cs[0]] + FixedText(cs[1..])
  }

  /** One step of `FixedText` at position `i`: a text pair is joined, anything else is kept. */
  lemma FixedTextStep(cs: seq<Node>, i: nat)
    requires i < |cs|
    ensures cs[i].Text? && i + 1 < |cs| && cs[i + 1].Text? ==>
      FixedText(cs[i..]) == [Text(cs[i].uid, cs[i].data + cs[i + 1].data)] + FixedText(cs[i + 2..])
    ensures !(cs[i].Text? && i + 1 < |cs| && cs[i + 1].Text?) ==>
      FixedText(cs[i..]) == [cs[i]] + FixedText(cs[i + 1..])
  {
    var t := cs[i..];
    assert t[0] == cs[i];
    if i + 1 < |cs| {
      assert t[1] == cs[i + 1];
      assert t[2..] == cs[i + 2..];
    }
    assert t[1..] == cs[i + 1..];
  }

  /** `#fixTextContent` on the child list of an element. */
  method FixTextContent(cs: seq<Node>) returns (kids: seq<Node>)
    ensures kids == FixedText(cs)
  {
    kids := cs;
    var curr := 0;
    while curr < |kids|
      invariant curr <= |kids|
      invariant kids[..curr] + FixedText(kids[curr..]) == FixedText(cs)
      decreases |kids| - curr
    {
      ghost var before := kids;
      FixedTextStep(before, curr);
      if kids[curr].Text? && curr + 1 < |kids| && kids[curr + 1].Text? {
        var joined := Text(kids[curr].uid, kids[curr].data + kids[curr + 1].data);
        kids := kids[..curr] + [joined] + kids[curr + 2..];
        assert kids[curr + 1..] == before[curr + 2..];
        assert kids[..curr + 1] == before[..curr] + [joined];
      } else {
        assert kids[..curr + 1] == before[..curr] + [kids[curr]];
      }
      curr := curr + 1;
    }
    assert kids[curr..] == [];
    assert kids[..curr] == kids;
  }

  /** The non-text children, in order. */
  function Elements(cs: seq<Node>): (r: seq<Node>)
    ensures forall x :: x in r ==> x in cs && x.Element?
    decreases |cs|
  {
    if cs == [] then []
    else (if cs[0].Element? then [cs[0]] else []) + Elements(cs[1..])
  }

  lemma {:induction false} ElementsAppend(a: seq<Node>, b: seq<Node>)
    ensures Elements(a + b) == Elements(a) + Elements(b)
    decreases |a|
  {
    if a != [] {
      assert (a + b)[1..] == a[1..] + b;
      ElementsAppend(a[1..], b);
    } else {
      assert a + b == b;
    }
  }

  /** Coalescing keeps the text of the list. */
  lemma {:induction false} FixedTextContent(cs: seq<Node>)
    ensures ContentSeq(FixedText(cs)) == ContentSeq(cs)
    decreases |cs|
  {
    if cs == [] {
    } else if |cs| >= 2 && cs[0].Text? && cs[1].Text? {
      var m := Text(cs[0].uid, cs[0].data + cs[1].data);
      var rest := cs[2..];
      assert FixedText(cs) == [m] + FixedText(rest);
      calc == {
        ContentSeq([m] + FixedText(rest));
        { ContentSeqAppend([m], FixedText(rest)); ContentSeqSingle(m); }
        cs[0].data + cs[1].data + ContentSeq(FixedText(rest));
        { FixedTextContent(rest); }
        cs[0].data + (cs[1].data + ContentSeq(rest));
        { assert cs[1..][1..] == rest; }
        cs[0].data + ContentSeq(cs[1..]);
      }
    } else {
      assert FixedText(cs) == [cs[0]] + FixedText(cs[1..]);
      calc == {
        ContentSeq([cs[0]] + FixedText(cs[1..]));
        { ContentSeqAppend([cs[0]], FixedText(cs[1..])); ContentSeqSingle(cs[0]); }
        Content(cs[0]) + ContentSeq(FixedText(cs[1..]));
        { FixedTextContent(cs[1..]); }
        Content(cs[0]) + ContentSeq(cs[1..]);
      }
    }
  }

  /** Coalescing keeps every element child, in order, and never lengthens the list. */
  lemma {:induction false} FixedTextElements(cs: seq<Node>)
    ensures Elements(FixedText(cs)) == Elements(cs)
    ensures |FixedText(cs)| <= |cs|
    decreases |cs|
  {
    if cs == [] {
    } else if |cs| >= 2 && cs[0].Text? && cs[1].Text? {
      var m := Text(cs[0].uid, cs[0].data + cs[1].data);
      var rest := cs[2..];
      assert FixedText(cs) == [m] + FixedText(rest);
      FixedTextElements(rest);
      calc == {
        Elements([m] + FixedText(rest));
        { ElementsAppend([m], FixedText(rest)); assert [m][1..] == []; }
        Elements(FixedText(rest));
        Elements(rest);
        { assert cs[1..][1..] == rest; assert !cs[1..][0].Element?; }
        Elements(cs[1..]);
        Elements(cs);
      }
      assert |FixedText(cs)| == 1 + |FixedText(rest)|;
    } else {
      assert FixedText(cs) == [cs[0]] + FixedText(cs[1..]);
      FixedTextElements(cs[1..]);
      calc == {
        Elements([cs[0]] + FixedText(cs[1..]));
        { ElementsAppend([cs[0]], FixedText(cs[1..])); assert [cs[0]][1..] == []; }
        (if cs[0].Element? then [cs[0]] else []) + Elements(FixedText(cs[1..]));
        Elements(cs);
      }
    }
  }

  /** Every node of a coalesced list is a node of the list or a text leaf. */
  lemma {:induction false} FixedTextFrom(cs: seq<Node>, i: nat)
    requires i < |FixedText(cs)|
    ensures FixedText(cs)[i].Text? || FixedText(cs)[i] in cs
    decreases |cs|
  {
    if |cs| >= 2 && cs[0].Text? && cs[1].Text? {
      if i > 0 {
        FixedTextFrom(cs[2..], i - 1);
      }
    } else if i > 0 {
      FixedTextFrom(cs[1..], i - 1);
    }
  }

  /** No two neighbours in the list are both text leaves. */
  predicate NoAdjacentText(cs: seq<Node>)
  {
    forall i :: 0 <= i < |cs| - 1 ==> !(cs[i].Text? && cs[i + 1].Text?)
  }

  /** No three neighbours in the list are all text leaves. */
  predicate NoTextRunOfThree(cs: seq<Node>)
  {
    forall i :: 0 <= i < |cs| - 2 ==> !(cs[i].Text? && cs[i + 1].Text? && cs[i + 2].Text?)
  }

  /**
   * One pass of coalescing leaves no adjacent text leaves when no run of
   * three text leaves was there to begin with (`ThreeTextsBecomeTwo` shows
   * a run of three that a pass leaves as two).
   */
  lemma {:induction false} FixedTextCoalesces(cs: seq<Node>)
    requires NoTextRunOfThree(cs)
    ensures NoAdjacentText(FixedText(cs))
    ensures cs != [] && cs[0].Element? ==> FixedText(cs)[0] == cs[0]
    ensures cs != [] && cs[0].Text? ==> FixedText(cs)[0].Text?
    decreases |cs|
  {
    if cs == [] {
    } else if |cs| >= 2 && cs[0].Text? && cs[1].Text? {
      var rest := cs[2..];
      assert NoTextRunOfThree(rest) by {
        forall i | 0 <= i < |rest| - 2 ensures !(rest[i].Text? && rest[i + 1].Text? && rest[i + 2].Text?) {
          assert rest[i] == cs[i + 2];
        }
      }
      FixedTextCoalesces(rest);
      if rest != [] {
        assert !rest[0].Text?;
      }
    } else {
      var rest := cs[1..];
      assert NoTextRunOfThree(rest) by {
        forall i | 0 <= i < |rest| - 2 ensures !(rest[i].Text? && rest[i + 1].Text? && rest[i + 2].Text?) {
          assert rest[i] == cs[i + 1];
        }
      }
      FixedTextCoalesces(rest);
      if cs[0].Text? && rest != [] {
        assert !rest[0].Text?;
      }
    }
  }

  /** A run of three text leaves comes out as two: the first pair is folded, the third leaf is not. */
  lemma ThreeTextsBecomeTwo(u1: nat, u2: nat, u3: nat, a: string, b: string, c: string)
    ensures FixedText([Text(u1, a), Text(u2, b), Text(u3, c)]) == [Text(u1, a + b), Text(u3, c)]
    ensures !NoAdjacentText(FixedText([Text(u1, a), Text(u2, b), Text(u3, c)]))
  {
    var cs := [Text(u1, a), Text(u2, b), Text(u3, c)];
    assert cs[2..] == [Text(u3, c)];
    assert FixedText([Text(u3, c)]) == [Text(u3, c)] by {
      assert [Text(u3, c)][1..] == [];
    }
    var r := FixedText(cs);
    assert r == [Text(u1, a + b)] + [Text(u3, c)];
    assert r[0].Text? && r[1].Text?;
  }
}
