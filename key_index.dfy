/**
 * The key -> position index the store keeps beside each ordered collection.
 * The collection is authoritative; the index is a cache that must agree with
 * it. An index agrees with a sequence when its domain is exactly the keys in
 * the sequence and each key maps to the LAST position holding that key (a
 * front-to-back rebuild lets a later duplicate overwrite an earlier one).
 */
module KeyIndex {
  import opened Records

  /** The keys carried by the elements of `s`. */
  ghost function KeysOf<P>(s: seq<Keyed<P>>): set<int> {
    set i | 0 <= i < |s| :: s[i].key
  }

  /** `p` is the last position of `s` that holds key `k`. */
  ghost predicate IsLastPos<P>(s: seq<Keyed<P>>, k: int, p: int) {
    && 0 <= p < |s|
    && s[p].key == k
    && forall j :: p < j < |s| ==> s[j].key != k
  }

  /** The index `m` agrees with the sequence `s`. */
  ghost predicate IndexConsistent<P>(s: seq<Keyed<P>>, m: map<int, int>) {
    && m.Keys == KeysOf(s)
    && forall k :: k in m ==> IsLastPos(s, k, m[k])
  }

  /** No key occurs twice in `s`. */
  ghost predicate UniqueKeys<P>(s: seq<Keyed<P>>) {
    forall i, j :: 0 <= i < j < |s| ==> s[i].key != s[j].key
  }

  lemma KeysOfAppend<P>(s: seq<Keyed<P>>, x: Keyed<P>)
    ensures KeysOf(s + [x]) == KeysOf(s) + {x.key}
  {
    var t := s + [x];
    assert t[|s|].key == x.key;
    forall k | k in KeysOf(s) ensures k in KeysOf(t) {
      var i :| 0 <= i < |s| && s[i].key == k;
      assert t[i].key == k;
    }
  }

  /**
   * Appending `x` and recording its position keeps an index consistent,
   * whether or not the key was present before: the new position is the last.
   */
  lemma AppendConsistent<P>(s: seq<Keyed<P>>, m: map<int, int>, x: Keyed<P>)
    requires IndexConsistent(s, m)
    ensures IndexConsistent(s + [x], m[x.key := |s|])
  {
    var t, m' := s + [x], m[x.key := |s|];
    KeysOfAppend(s, x);
    forall k | k in m' ensures IsLastPos(t, k, m'[k]) {
      if k != x.key {
        assert IsLastPos(s, k, m[k]);
      }
    }
  }

  /** Appending a key not yet present keeps keys unique, and only such a key does. */
  lemma UniqueAppend<P>(s: seq<Keyed<P>>, x: Keyed<P>)
    ensures UniqueKeys(s + [x]) <==> UniqueKeys(s) && x.key !in KeysOf(s)
  {
    var t := s + [x];
    if UniqueKeys(t) {
      forall i, j | 0 <= i < j < |s| ensures s[i].key != s[j].key {
        assert t[i] == s[i] && t[j] == s[j];
      }
      forall i | 0 <= i < |s| ensures s[i].key != x.key {
        assert t[i] == s[i] && t[|s|] == x;
      }
    }
    if UniqueKeys(s) && x.key !in KeysOf(s) {
      forall i, j | 0 <= i < j < |t| ensures t[i].key != t[j].key {
        if j == |s| {
          assert s[i].key in KeysOf(s);
        } else {
          assert t[i] == s[i] && t[j] == s[j];
        }
      }
    }
  }

  /**
   * Consistency and uniqueness depend only on the keys, position by position:
   * overwriting elements with records of the same key keeps both.
   */
  lemma SameKeysConsistent<P>(s: seq<Keyed<P>>, t: seq<Keyed<P>>, m: map<int, int>)
    requires |s| == |t| && forall i :: 0 <= i < |s| ==> s[i].key == t[i].key
    requires IndexConsistent(s, m)
    ensures IndexConsistent(t, m)
    ensures UniqueKeys(s) ==> UniqueKeys(t)
  {
    forall k | k in KeysOf(s) ensures k in KeysOf(t) {
      var i :| 0 <= i < |s| && s[i].key == k;
      assert t[i].key == k;
    }
    forall k | k in KeysOf(t) ensures k in KeysOf(s) {
      var i :| 0 <= i < |t| && t[i].key == k;
      assert s[i].key == k;
    }
    forall k | k in m ensures IsLastPos(t, k, m[k]) {
      assert IsLastPos(s, k, m[k]);
    }
  }

  /** The index a front-to-back rebuild produces: each key to the last position holding it. */
  function IndexOf<P>(s: seq<Keyed<P>>): (m: map<int, int>)
    ensures IndexConsistent(s, m)
    decreases |s|
  {
    if s == [] then map[]
    else
      var init, last := s[..|s| - 1], s[|s| - 1];
      var m0 := IndexOf(init);
      AppendConsistent(init, m0, last);
      assert init + [last] == s;
      m0[last.key := |s| - 1]
  }

  /** The index is a cache with no freedom: at most one map agrees with a sequence. */
  lemma ConsistentIndexUnique<P>(s: seq<Keyed<P>>, m1: map<int, int>, m2: map<int, int>)
    requires IndexConsistent(s, m1) && IndexConsistent(s, m2)
    ensures m1 == m2
  {
    forall k | k in m1 ensures m1[k] == m2[k] {
      assert IsLastPos(s, k, m1[k]) && IsLastPos(s, k, m2[k]);
    }
  }

  /** With unique keys, a consistent index sends every element's key to that element's position. */
  lemma UniqueIndexAt<P>(s: seq<Keyed<P>>, m: map<int, int>, i: int)
    requires IndexConsistent(s, m) && UniqueKeys(s)
    requires 0 <= i < |s|
    ensures s[i].key in m && m[s[i].key] == i
  {
    assert s[i].key in KeysOf(s);
    var p := m[s[i].key];
    assert IsLastPos(s, s[i].key, p);
  }

  /**
   * Clears the index and refills it by scanning `s` front to back, recording
   * each element's key and position; a later duplicate overwrites an earlier one.
   */
  method BuildIndex<P>(s: seq<Keyed<P>>) returns (m: map<int, int>)
    ensures m == IndexOf(s)
    ensures IndexConsistent(s, m)
  {
    m := map[];
    for i := 0 to |s|
      invariant m == IndexOf(s[..i])
    {
      assert s[..i + 1][..i] == s[..i];
      m := m[s[i].key := i];
    }
    assert s[..|s|] == s;
  }
}
