/**
 * `collect()`: the sources grouped first by a style key, then by id.
 */
module Collect {
  import opened Wrappers
  import opened Paint
  import opened Codec

  /** `color ? `${wrapper}-${color}` : wrapper`: an absent or empty color leaves the wrapper alone. */
  function Key(cfg: Config): string
  {
    if ColorOrEmpty(cfg.color) != "" then cfg.wrapper + "-" + cfg.color.value else cfg.wrapper
  }

  /** Does the source belong in bucket `key` under `id`? */
  predicate InBucket(s: Source, key: string, id: string)
  {
    Key(s.config) == key && s.config.id == id
  }

  /** The sources that belong in bucket `key` under `id`, in the order of `srcs`. */
  function Group(srcs: seq<Source>, key: string, id: string): (r: seq<Source>)
    ensures |r| <= |srcs|
    decreases |srcs|
  {
    if srcs == [] then []
    else
      var last := srcs[|srcs| - 1];
      Group(srcs[..|srcs| - 1], key, id) + (if InBucket(last, key, id) then [last] else [])
  }

  /** A group holds exactly the sources of its bucket: each source lands in one bucket only. */
  lemma {:induction false} GroupMembers(srcs: seq<Source>, key: string, id: string, s: Source)
    ensures s in Group(srcs, key, id) <==> s in srcs && InBucket(s, key, id)
    decreases |srcs|
  {
    if srcs != [] {
      var init := srcs[..|srcs| - 1];
      GroupMembers(init, key, id, s);
      assert srcs == init + [srcs[|srcs| - 1]];
    }
  }

  /** Each source is counted in its bucket as often as it occurs, and in no other bucket. */
  lemma {:induction false} GroupCount(srcs: seq<Source>, key: string, id: string, s: Source)
    ensures multiset(Group(srcs, key, id))[s] == if InBucket(s, key, id) then multiset(srcs)[s] else 0
    decreases |srcs|
  {
    if srcs != [] {
      var init := srcs[..|srcs| - 1];
      GroupCount(init, key, id, s);
      assert srcs == init + [srcs[|srcs| - 1]];
    }
  }

  /** The list under `key` and `id`, empty when there is none. */
  function Lookup(c: map<string, map<string, seq<Source>>>, key: string, id: string): seq<Source>
  {
    if key in c && id in c[key] then c[key][id] else []
  }

  /** `c` is the grouping of `srcs`: every list is its group, and no bucket or list is empty. */
  ghost predicate Collected(c: map<string, map<string, seq<Source>>>, srcs: seq<Source>)
  {
    (forall key, id :: Lookup(c, key, id) == Group(srcs, key, id)) &&
    (forall key :: key in c ==> c[key] != map[] && forall id :: id in c[key] ==> c[key][id] != [])
  }

  /** `s` appended to the list under `key` and `id`, creating the bucket and the list when missing. */
  function Put(c: map<string, map<string, seq<Source>>>, key: string, id: string, s: Source): map<string, map<string, seq<Source>>>
  {
    c[key := (if key in c then c[key] else map[])[id := Lookup(c, key, id) + [s]]]
  }

  /** `Put` extends exactly one list, by one source. */
  lemma PutLookup(c: map<string, map<string, seq<Source>>>, key: string, id: string, s: Source, key': string, id': string)
    ensures Lookup(Put(c, key, id, s), key', id') == Lookup(c, key', id') + (if key' == key && id' == id then [s] else [])
  {
  }

  /** A group of a list with one more source at its end. */
  lemma GroupSnoc(srcs: seq<Source>, s: Source, key: string, id: string)
    ensures Group(srcs + [s], key, id) == Group(srcs, key, id) + (if InBucket(s, key, id) then [s] else [])
  {
    assert (srcs + [s])[..|srcs|] == srcs;
  }

  /** Putting the next source under its own key and id extends the grouping by it. */
  lemma CollectStep(c: map<string, map<string, seq<Source>>>, srcs: seq<Source>, s: Source)
    requires Collected(c, srcs)
    ensures Collected(Put(c, Key(s.config), s.config.id, s), srcs + [s])
  {
    var c2 := Put(c, Key(s.config), s.config.id, s);
    forall key, id
      ensures Lookup(c2, key, id) == Group(srcs + [s], key, id)
    {
      PutLookup(c, Key(s.config), s.config.id, s, key, id);
      GroupSnoc(srcs, s, key, id);
    }
    forall key | key in c2
      ensures c2[key] != map[] && forall id :: id in c2[key] ==> c2[key][id] != []
    {
      if key == Key(s.config) {
        assert s.config.id in c2[key];
      } else {
        assert c2[key] == c[key];
      }
    }
  }

  /**
   * `collect()` over the given sources: a bucket exists exactly for the
   * keys and ids some source has, and holds that group in order.
   */
  method Collect(srcs: seq<Source>) returns (c: map<string, map<string, seq<Source>>>)
    ensures Collected(c, srcs)
  {
    c := map[];
    for i := 0 to |srcs|
      invariant Collected(c, srcs[..i])
    {
      var s := srcs[i];
      var key := Key(s.config);
      var id := s.config.id;
      ghost var c0 := c;
      // the bucket and the list, created empty when missing, then the push
      var bucket := if key in c then c[key] else map[];
      var list := if id in bucket then bucket[id] else [];
      c := c[key := bucket[id := list + [s]]];
      assert list == Lookup(c0, key, id);
      assert c == Put(c0, key, id, s);
      CollectStep(c0, srcs[..i], s);
      assert srcs[..i] + [s] == srcs[..i + 1];
    }
    assert srcs[..|srcs|] == srcs;
  }

  /** Every source of the grouping is in the list of its own key and id, and in no other list. */
  lemma CollectedPlaces(c: map<string, map<string, seq<Source>>>, srcs: seq<Source>, s: Source, key: string, id: string)
    requires Collected(c, srcs)
    ensures s in Lookup(c, key, id) <==> s in srcs && Key(s.config) == key && s.config.id == id
  {
    GroupMembers(srcs, key, id, s);
  }
}
