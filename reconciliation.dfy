/**
 * Reconciliation of one ordered collection with a batch of changes. The
 * widget reports inserted keys, modified records and removed keys; they are
 * applied in the fixed order modify -> insert -> remove. Each pass is a
 * front-to-back loop (a method) specified by a left fold over the batch list
 * (a function); the lemmas state what the folds guarantee.
 */
module Reconciliation {
  import opened Records
  import opened KeyIndex

  /** An ordered collection together with its key -> position index. */
  datatype Collection<P> = Collection(items: seq<Keyed<P>>, index: map<int, int>)

  /* ---------------------------------------------------------------------- */
  /* Modify: overwrite the element at the indexed position of each record.   */
  /* ---------------------------------------------------------------------- */

  /** The index yields a usable position for `k`; an absent key or a negative position is skipped. */
  predicate Matches(index: map<int, int>, k: int) {
    k in index && index[k] >= 0
  }

  /** `k` is indexed at position `i`. */
  predicate IndexedAt(index: map<int, int>, k: int, i: int) {
    k in index && index[k] == i
  }

  /**
   * One modified record: when its key is indexed at `p`, the element at `p`
   * is replaced the way `splice(p, 1, x)` does it, which appends when `p` is
   * past the end (a case a consistent index never produces).
   */
  function ModifyOne<P>(s: seq<Keyed<P>>, index: map<int, int>, x: Keyed<P>): seq<Keyed<P>> {
    if Matches(index, x.key) then
      var p := index[x.key];
      if p < |s| then s[p := x] else s + [x]
    else s
  }

  /** The modify pass over the whole list, front to back, against the entry index. */
  function ModifyAll<P>(s: seq<Keyed<P>>, index: map<int, int>, mods: seq<Keyed<P>>): seq<Keyed<P>>
    decreases |mods|
  {
    if mods == [] then s
    else ModifyOne(ModifyAll(s, index, mods[..|mods| - 1]), index, mods[|mods| - 1])
  }

  /**
   * The scratch map the modify pass fills for the insert pass, keyed by each
   * record's key; a later record overwrites an earlier one.
   */
  function Latest<P>(mods: seq<Keyed<P>>): map<int, Keyed<P>>
    decreases |mods|
  {
    if mods == [] then map[]
    else Latest(mods[..|mods| - 1])[mods[|mods| - 1].key := mods[|mods| - 1]]
  }

  /**
   * The scratch map holds every key of the modified list, each sent to the
   * LAST record carrying it (the one at the key's rebuilt-index position).
   */
  lemma {:induction false} LatestIsLast<P>(mods: seq<Keyed<P>>)
    ensures Latest(mods).Keys == KeysOf(mods)
    ensures forall k :: k in Latest(mods) ==> Latest(mods)[k] == mods[IndexOf(mods)[k]]
    decreases |mods|
  {
    if mods != [] {
      var init, last := mods[..|mods| - 1], mods[|mods| - 1];
      LatestIsLast(init);
      KeysOfAppend(init, last);
      assert init + [last] == mods;
      forall k | k in Latest(mods) ensures Latest(mods)[k] == mods[IndexOf(mods)[k]] {
        if k != last.key {
          assert IsLastPos(init, k, IndexOf(init)[k]);
        }
      }
    }
  }

  /** Every entry of a scratch map is a record with that key. */
  ghost predicate KeyedBy<P>(latest: map<int, Keyed<P>>) {
    forall k :: k in latest ==> latest[k].key == k
  }

  lemma LatestKeyedBy<P>(mods: seq<Keyed<P>>)
    ensures KeyedBy(Latest(mods))
  {
    LatestIsLast(mods);
    forall k | k in Latest(mods) ensures Latest(mods)[k].key == k {
      assert IsLastPos(mods, k, IndexOf(mods)[k]);
    }
  }

  /**
   * Closed form of the modify pass over a consistent index: the length is
   * kept, and position `i` holds the last modified record for its key when
   * the index points at `i`, and its old element otherwise.
   */
  lemma {:induction false} ModifyAllAt<P>(s: seq<Keyed<P>>, index: map<int, int>, mods: seq<Keyed<P>>)
    requires IndexConsistent(s, index)
    ensures |ModifyAll(s, index, mods)| == |s|
    ensures forall i :: 0 <= i < |s| ==>
      ModifyAll(s, index, mods)[i] ==
        if s[i].key in Latest(mods) && IndexedAt(index, s[i].key, i) then Latest(mods)[s[i].key] else s[i]
  {
    if mods != [] {
      var init, x := mods[..|mods| - 1], mods[|mods| - 1];
      ModifyAllAt(s, index, init);
      var r0 := ModifyAll(s, index, init);
      var L0, L := Latest(init), Latest(mods);
      assert L == L0[x.key := x];
      if Matches(index, x.key) {
        var p := index[x.key];
        assert IsLastPos(s, x.key, p);
      } else {
        forall i | 0 <= i < |s| ensures s[i].key != x.key {
          assert s[i].key in KeysOf(s);
        }
      }
    }
  }

  /** The modify pass keeps every key in place, so the index stays consistent and keys stay unique. */
  lemma ModifyKeepsKeys<P>(s: seq<Keyed<P>>, index: map<int, int>, mods: seq<Keyed<P>>)
    requires IndexConsistent(s, index)
    ensures |ModifyAll(s, index, mods)| == |s|
    ensures forall i :: 0 <= i < |s| ==> ModifyAll(s, index, mods)[i].key == s[i].key
    ensures IndexConsistent(ModifyAll(s, index, mods), index)
    ensures UniqueKeys(s) ==> UniqueKeys(ModifyAll(s, index, mods))
  {
    ModifyAllAt(s, index, mods);
    LatestKeyedBy(mods);
    SameKeysConsistent(s, ModifyAll(s, index, mods), index);
  }

  /** A modify pass none of whose keys is indexed leaves the sequence untouched. */
  lemma {:induction false} ModifyNoMatch<P>(s: seq<Keyed<P>>, index: map<int, int>, mods: seq<Keyed<P>>)
    requires forall j :: 0 <= j < |mods| ==> !Matches(index, mods[j].key)
    ensures ModifyAll(s, index, mods) == s
  {
    if mods != [] {
      ModifyNoMatch(s, index, mods[..|mods| - 1]);
    }
  }

  /**
   * The modify loop: overwrites by indexed position, fills the scratch map,
   * and reports whether any record matched.
   */
  method ModifyStep<P>(s: seq<Keyed<P>>, index: map<int, int>, mods: seq<Keyed<P>>)
    returns (r: seq<Keyed<P>>, latest: map<int, Keyed<P>>, changed: bool)
    ensures r == ModifyAll(s, index, mods)
    ensures latest == Latest(mods)
    ensures changed <==> exists j :: 0 <= j < |mods| && Matches(index, mods[j].key)
  {
    r, latest, changed := s, map[], false;
    for i := 0 to |mods|
      invariant r == ModifyAll(s, index, mods[..i])
      invariant latest == Latest(mods[..i])
      invariant changed <==> exists j :: 0 <= j < i && Matches(index, mods[j].key)
    {
      var x := mods[i];
      assert mods[..i + 1][..i] == mods[..i];
      assert ModifyAll(s, index, mods[..i + 1]) == ModifyOne(r, index, x);
      assert Latest(mods[..i + 1]) == latest[x.key := x];
      latest := latest[x.key := x];
      if x.key in index && index[x.key] >= 0 {
        var p := index[x.key];
        r := if p < |r| then r[p := x] else r + [x];
        changed := true;
      }
    }
    assert mods[..|mods|] == mods;
  }

  /* ---------------------------------------------------------------------- */
  /* Insert: append records whose key was supplied in the modified list.     */
  /* ---------------------------------------------------------------------- */

  /**
   * One inserted key: appended only when the scratch map holds its record and
   * the key is not yet indexed; the index records the new position at once.
   */
  function InsertOne<P>(c: Collection<P>, latest: map<int, Keyed<P>>, k: int): Collection<P> {
    if k in latest && k !in c.index then
      var x := latest[k];
      Collection(c.items + [x], c.index[x.key := |c.items|])
    else c
  }

  /** The insert pass over the whole list, front to back. */
  function InsertAll<P>(c: Collection<P>, latest: map<int, Keyed<P>>, keys: seq<int>): Collection<P>
    decreases |keys|
  {
    if keys == [] then c
    else InsertOne(InsertAll(c, latest, keys[..|keys| - 1]), latest, keys[|keys| - 1])
  }

  /**
   * The insert pass only appends: the old elements stay in front, no key
   * leaves the index, and the collection grows exactly when some inserted key
   * had a record and was not indexed on entry; otherwise nothing changes.
   */
  lemma {:induction false} InsertAllGrows<P>(c: Collection<P>, latest: map<int, Keyed<P>>, keys: seq<int>)
    ensures |c.items| <= |InsertAll(c, latest, keys).items|
    ensures InsertAll(c, latest, keys).items[..|c.items|] == c.items
    ensures c.index.Keys <= InsertAll(c, latest, keys).index.Keys
    ensures |InsertAll(c, latest, keys).items| == |c.items| ==> InsertAll(c, latest, keys) == c
    ensures |InsertAll(c, latest, keys).items| > |c.items| <==>
      exists j :: 0 <= j < |keys| && keys[j] in latest && keys[j] !in c.index
  {
    if keys != [] {
      var init, k := keys[..|keys| - 1], keys[|keys| - 1];
      InsertAllGrows(c, latest, init);
      var r0 := InsertAll(c, latest, init);
      var r := InsertAll(c, latest, keys);
      assert r == InsertOne(r0, latest, k);
      assert forall j :: 0 <= j < |init| ==> init[j] == keys[j];
      if |r.items| > |c.items| {
        if |r0.items| == |c.items| {
          assert keys[|keys| - 1] in latest && keys[|keys| - 1] !in c.index;
        }
      }
      if exists j :: 0 <= j < |keys| && keys[j] in latest && keys[j] !in c.index {
        var j :| 0 <= j < |keys| && keys[j] in latest && keys[j] !in c.index;
        if j < |init| {
          assert init[j] in latest && init[j] !in c.index;
        }
      }
    }
  }

  /**
   * Over a consistent index and a scratch map of matching records, the insert
   * pass keeps the index consistent and unique keys unique, and every listed
   * key that had a record is indexed afterwards.
   */
  lemma {:induction false} InsertAllConsistent<P>(c: Collection<P>, latest: map<int, Keyed<P>>, keys: seq<int>)
    requires IndexConsistent(c.items, c.index)
    requires KeyedBy(latest)
    ensures IndexConsistent(InsertAll(c, latest, keys).items, InsertAll(c, latest, keys).index)
    ensures forall j :: 0 <= j < |keys| && keys[j] in latest ==> keys[j] in InsertAll(c, latest, keys).index
    ensures UniqueKeys(c.items) ==> UniqueKeys(InsertAll(c, latest, keys).items)
  {
    if keys != [] {
      var init, k := keys[..|keys| - 1], keys[|keys| - 1];
      InsertAllConsistent(c, latest, init);
      var r0 := InsertAll(c, latest, init);
      assert InsertAll(c, latest, keys) == InsertOne(r0, latest, k);
      assert forall j :: 0 <= j < |init| ==> init[j] == keys[j];
      if k in latest && k !in r0.index {
        AppendConsistent(r0.items, r0.index, latest[k]);
        UniqueAppend(r0.items, latest[k]);
      }
    }
  }

  /**
   * Each element the insert pass appends is the scratch-map record of a
   * listed key that was not indexed on entry, and the index records the
   * position where it landed.
   */
  lemma {:induction false} InsertAllAppended<P>(c: Collection<P>, latest: map<int, Keyed<P>>, keys: seq<int>)
    requires KeyedBy(latest)
    ensures var r := InsertAll(c, latest, keys);
      forall i :: |c.items| <= i < |r.items| ==>
        && r.items[i].key in keys && r.items[i].key in latest && r.items[i].key !in c.index
        && r.items[i] == latest[r.items[i].key]
        && IndexedAt(r.index, r.items[i].key, i)
  {
    if keys != [] {
      var init, k := keys[..|keys| - 1], keys[|keys| - 1];
      InsertAllAppended(c, latest, init);
      InsertAllGrows(c, latest, init);
      var r0 := InsertAll(c, latest, init);
      var r := InsertAll(c, latest, keys);
      assert r == InsertOne(r0, latest, k);
      if k in latest && k !in r0.index {
        forall i | |c.items| <= i < |r.items|
          ensures && r.items[i].key in keys && r.items[i].key in latest && r.items[i].key !in c.index
                  && r.items[i] == latest[r.items[i].key]
                  && IndexedAt(r.index, r.items[i].key, i)
        {
          if i < |r0.items| {
            assert r.items[i] == r0.items[i];
            assert r0.items[i].key in init;
          }
        }
      } else {
        forall i | |c.items| <= i < |r.items| ensures r.items[i].key in keys {
          assert r0.items[i].key in init;
        }
      }
    }
  }

  /** A key listed several times is appended at most once. */
  lemma InsertAppendsOnce<P>(c: Collection<P>, latest: map<int, Keyed<P>>, keys: seq<int>)
    requires KeyedBy(latest)
    ensures var r := InsertAll(c, latest, keys);
      forall i, j :: |c.items| <= i < j < |r.items| ==> r.items[i].key != r.items[j].key
  {
    InsertAllAppended(c, latest, keys);
  }

  /**
   * The insert loop: appends each listed key whose record the modify pass
   * saw and which is not yet indexed, and reports whether anything was appended.
   */
  method InsertStep<P>(c: Collection<P>, latest: map<int, Keyed<P>>, keys: seq<int>)
    returns (r: Collection<P>, changed: bool)
    ensures r == InsertAll(c, latest, keys)
    ensures changed <==> exists j :: 0 <= j < |keys| && keys[j] in latest && keys[j] !in c.index
  {
    r, changed := c, false;
    for i := 0 to |keys|
      invariant r == InsertAll(c, latest, keys[..i])
      invariant changed <==> |r.items| > |c.items|
    {
      var k := keys[i];
      assert keys[..i + 1][..i] == keys[..i];
      InsertAllGrows(c, latest, keys[..i]);
      if k in latest && k !in r.index {
        var x := latest[k];
        r := Collection(r.items + [x], r.index[x.key := |r.items|]);
        changed := true;
      }
    }
    assert keys[..|keys|] == keys;
    InsertAllGrows(c, latest, keys);
  }

  /* ---------------------------------------------------------------------- */
  /* Remove: keep, in order, the elements whose key is not listed.           */
  /* ---------------------------------------------------------------------- */

  /** `s` without the elements whose key is in `rem`, in their original order. */
  function Without<P>(s: seq<Keyed<P>>, rem: seq<int>): seq<Keyed<P>>
    decreases |s|
  {
    if s == [] then []
    else
      var init, last := s[..|s| - 1], s[|s| - 1];
      Without(init, rem) + (if last.key in rem then [] else [last])
  }

  /** An element survives removal exactly when it was present and its key is not listed. */
  lemma {:induction false} WithoutMembers<P>(s: seq<Keyed<P>>, rem: seq<int>)
    ensures forall x :: x in Without(s, rem) ==> x in s && x.key !in rem
    ensures forall x :: x in s && x.key !in rem ==> x in Without(s, rem)
  {
    if s != [] {
      var init, last := s[..|s| - 1], s[|s| - 1];
      WithoutMembers(init, rem);
      assert s == init + [last];
    }
  }

  /** Removal distributes over concatenation, so the survivors keep their relative order. */
  lemma {:induction false} WithoutAppend<P>(s: seq<Keyed<P>>, t: seq<Keyed<P>>, rem: seq<int>)
    ensures Without(s + t, rem) == Without(s, rem) + Without(t, rem)
    decreases |t|
  {
    if t == [] {
      assert s + t == s;
    } else {
      var init, last := t[..|t| - 1], t[|t| - 1];
      WithoutAppend(s, init, rem);
      assert (s + t)[..|s + t| - 1] == s + init;
      assert (s + t)[|s + t| - 1] == last;
    }
  }

  /**
   * Removal never lengthens; it leaves the sequence as it was exactly when no
   * element's key is listed, and shortens it otherwise.
   */
  lemma {:induction false} WithoutShrinks<P>(s: seq<Keyed<P>>, rem: seq<int>)
    ensures |Without(s, rem)| <= |s|
    ensures (forall i :: 0 <= i < |s| ==> s[i].key !in rem) ==> Without(s, rem) == s
    ensures (exists i :: 0 <= i < |s| && s[i].key in rem) ==> |Without(s, rem)| < |s|
  {
    if s != [] {
      var init, last := s[..|s| - 1], s[|s| - 1];
      WithoutShrinks(init, rem);
      assert forall i :: 0 <= i < |init| ==> init[i] == s[i];
      assert s == init + [last];
    }
  }

  /** Removal keeps keys unique. */
  lemma {:induction false} WithoutUnique<P>(s: seq<Keyed<P>>, rem: seq<int>)
    requires UniqueKeys(s)
    ensures UniqueKeys(Without(s, rem))
  {
    if s != [] {
      var init, last := s[..|s| - 1], s[|s| - 1];
      assert s == init + [last];
      UniqueAppend(init, last);
      WithoutUnique(init, rem);
      if last.key !in rem {
        WithoutMembers(init, rem);
        forall k | k in KeysOf(Without(init, rem)) ensures k in KeysOf(init) {
          var i :| 0 <= i < |Without(init, rem)| && Without(init, rem)[i].key == k;
          var y := Without(init, rem)[i];
          assert y in init;
          var j :| 0 <= j < |init| && init[j] == y;
        }
        UniqueAppend(Without(init, rem), last);
      }
    }
  }

  /**
   * The remove loop (a filter): keeps the elements whose key is not listed
   * and reports whether any element was dropped.
   */
  method RemoveStep<P>(s: seq<Keyed<P>>, rem: seq<int>) returns (r: seq<Keyed<P>>, changed: bool)
    ensures r == Without(s, rem)
    ensures changed <==> exists i :: 0 <= i < |s| && s[i].key in rem
  {
    r, changed := [], false;
    for i := 0 to |s|
      invariant r == Without(s[..i], rem)
      invariant changed <==> exists j :: 0 <= j < i && s[j].key in rem
    {
      assert s[..i + 1][..i] == s[..i];
      if s[i].key in rem {
        changed := true;
      } else {
        r := r + [s[i]];
      }
    }
    assert s[..|s|] == s;
  }

  /* ---------------------------------------------------------------------- */
  /* One collection: modify -> insert -> remove.                              */
  /* ---------------------------------------------------------------------- */

  /** The sequence after the modify pass; an absent list skips it. */
  function ModifyPhase<P>(c: Collection<P>, mods: Option<seq<Keyed<P>>>): seq<Keyed<P>> {
    if mods.Some? then ModifyAll(c.items, c.index, mods.value) else c.items
  }

  /** The scratch map the insert pass sees; empty when there is no modified list. */
  function LatestOf<P>(mods: Option<seq<Keyed<P>>>): map<int, Keyed<P>> {
    if mods.Some? then Latest(mods.value) else map[]
  }

  /** The collection after the modify and insert passes. */
  function InsertPhase<P>(c: Collection<P>, ins: Option<seq<int>>, mods: Option<seq<Keyed<P>>>): Collection<P> {
    var m := Collection(ModifyPhase(c, mods), c.index);
    if ins.Some? then InsertAll(m, LatestOf(mods), ins.value) else m
  }

  /**
   * The collection after the whole batch. A present removed list filters the
   * sequence and rebuilds the index from the result, even when nothing matched.
   */
  function Reconcile<P>(c: Collection<P>, ins: Option<seq<int>>, mods: Option<seq<Keyed<P>>>,
                        rem: Option<seq<int>>): Collection<P>
  {
    var d := InsertPhase(c, ins, mods);
    if rem.Some? then
      var w := Without(d.items, rem.value);
      Collection(w, IndexOf(w))
    else d
  }

  /**
   * The change flag for one collection: some modified record matched the
   * entry index, or some inserted key had a record and was not indexed, or
   * some element reaching the remove pass carried a listed key.
   */
  ghost predicate Changed<P>(c: Collection<P>, ins: Option<seq<int>>, mods: Option<seq<Keyed<P>>>,
                             rem: Option<seq<int>>)
  {
    || (mods.Some? && exists j :: 0 <= j < |mods.value| && Matches(c.index, mods.value[j].key))
    || (ins.Some? && exists j :: 0 <= j < |ins.value| && ins.value[j] in LatestOf(mods) && ins.value[j] !in c.index)
    || (rem.Some? && exists i :: 0 <= i < |InsertPhase(c, ins, mods).items| &&
                                 InsertPhase(c, ins, mods).items[i].key in rem.value)
  }

  /** A consistent collection stays consistent, and unique keys stay unique, across a batch. */
  lemma ReconcileValid<P>(c: Collection<P>, ins: Option<seq<int>>, mods: Option<seq<Keyed<P>>>,
                          rem: Option<seq<int>>)
    requires IndexConsistent(c.items, c.index)
    ensures IndexConsistent(Reconcile(c, ins, mods, rem).items, Reconcile(c, ins, mods, rem).index)
    ensures UniqueKeys(c.items) ==> UniqueKeys(Reconcile(c, ins, mods, rem).items)
  {
    if mods.Some? {
      ModifyKeepsKeys(c.items, c.index, mods.value);
      LatestKeyedBy(mods.value);
    }
    var m := Collection(ModifyPhase(c, mods), c.index);
    if ins.Some? {
      InsertAllConsistent(m, LatestOf(mods), ins.value);
    }
    var d := InsertPhase(c, ins, mods);
    if rem.Some? && UniqueKeys(c.items) {
      WithoutUnique(d.items, rem.value);
    }
  }

  /**
   * When the flag stays false the batch changes nothing: the same sequence
   * and the same index come back.
   */
  lemma ReconcileUnchanged<P>(c: Collection<P>, ins: Option<seq<int>>, mods: Option<seq<Keyed<P>>>,
                              rem: Option<seq<int>>)
    requires IndexConsistent(c.items, c.index)
    requires !Changed(c, ins, mods, rem)
    ensures Reconcile(c, ins, mods, rem) == c
  {
    if mods.Some? {
      ModifyNoMatch(c.items, c.index, mods.value);
    }
    var m := Collection(ModifyPhase(c, mods), c.index);
    assert m == c;
    if ins.Some? {
      InsertAllGrows(m, LatestOf(mods), ins.value);
    }
    var d := InsertPhase(c, ins, mods);
    assert d == c;
    if rem.Some? {
      WithoutShrinks(d.items, rem.value);
      ConsistentIndexUnique(c.items, c.index, IndexOf(c.items));
    }
  }

  /**
   * No listed removed key survives a batch, even one inserted by the same
   * batch, since removal runs last.
   */
  lemma ReconcileRemovedAbsent<P>(c: Collection<P>, ins: Option<seq<int>>, mods: Option<seq<Keyed<P>>>,
                                  rem: Option<seq<int>>)
    requires rem.Some?
    ensures forall i :: 0 <= i < |Reconcile(c, ins, mods, rem).items| ==>
      Reconcile(c, ins, mods, rem).items[i].key !in rem.value
    ensures forall k :: k in rem.value ==> k !in Reconcile(c, ins, mods, rem).index
  {
    var d := InsertPhase(c, ins, mods);
    var w := Without(d.items, rem.value);
    WithoutMembers(d.items, rem.value);
    forall i | 0 <= i < |w| ensures w[i].key !in rem.value {
      assert w[i] in Without(d.items, rem.value);
    }
  }

  /**
   * Both passes of one collection, in the order modify -> insert -> remove,
   * returning the new collection and whether anything changed.
   */
  method ReconcileCollection<P>(c: Collection<P>, ins: Option<seq<int>>, mods: Option<seq<Keyed<P>>>,
                                rem: Option<seq<int>>)
    returns (r: Collection<P>, changed: bool)
    ensures r == Reconcile(c, ins, mods, rem)
    ensures changed == Changed(c, ins, mods, rem)
  {
    var items, index := c.items, c.index;
    var latest: map<int, Keyed<P>> := map[];
    var hit: bool;
    changed := false;
    if mods.Some? {
      items, latest, hit := ModifyStep(items, index, mods.value);
      if hit { changed := true; }
    }
    if ins.Some? {
      var grown;
      grown, hit := InsertStep(Collection(items, index), latest, ins.value);
      items, index := grown.items, grown.index;
      if hit { changed := true; }
    }
    if rem.Some? {
      items, hit := RemoveStep(items, rem.value);
      if hit { changed := true; }
      index := BuildIndex(items);
    }
    r := Collection(items, index);
  }
}
