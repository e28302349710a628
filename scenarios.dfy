/**
 * Small clients of the store and of the reconciliation functions, on
 * concrete batches.
 */
module Scenarios {
  import opened Records
  import opened KeyIndex
  import opened Reconciliation
  import opened Store

  /** Removing node 2 from the seed graph compacts the node array. */
  method RemoveThenModify() {
    var g := new GraphStore();
    var s := SeedNodes;
    assert s[1].key in [2];
    assert Without(s[..1], [2]) == [s[0]];
    assert Without(s[..2], [2]) == [s[0]];
    assert s[..3][..2] == s[..2];
    assert Without(s[..3], [2]) == [s[0], s[2]];
    assert s[..4][..3] == s[..3];
    assert s[..4] == s;
    g.HandleModelChange(Some(ChangeSet(None, None, Some([2]), None, None, None)));
    assert g.nodes == [s[0], s[2], s[3]];
    ModifyCompacted(g);
  }

  /** After the compaction, a modify of node 3 finds it at its new position 1. */
  method ModifyCompacted(g: GraphStore)
    requires g.Valid() && g.nodes == [SeedNodes[0], SeedNodes[2], SeedNodes[3]]
    modifies g
  {
    var s := SeedNodes;
    UniqueIndexAt(g.nodes, g.nodeIdx, 1);
    assert g.nodeIdx[3] == 1;
    var gamma := Keyed(3, NodeData("Gamma", "red"));
    assert [gamma][..0] == [];
    assert Matches(g.nodeIdx, [gamma][0].key);
    assert ModifyAll(g.nodes, g.nodeIdx, [gamma]) == g.nodes[1 := gamma];
    g.HandleModelChange(Some(ChangeSet(None, Some([gamma]), None, None, None, None)));
    assert g.nodes == [s[0], gamma, s[3]];
  }

  /** A node collection with no elements. */
  const Empty: Collection<NodeData> := Collection([], map[])

  /** An inserted key whose record is not in the batch is dropped, and the flag stays false. */
  lemma InsertWithoutRecordDropped(k: int)
    ensures Reconcile(Empty, Some([k]), None, None) == Empty
    ensures !Changed(Empty, Some([k]), None, None)
  {
    assert [k][..0] == [];
    assert InsertAll(Empty, map[], [k]) == InsertOne(Empty, map[], k);
  }

  /** A record supplied as modified and listed as inserted is appended to an empty collection. */
  lemma ModifyThenInsertAppends(x: Node)
    ensures Reconcile(Empty, Some([x.key]), Some([x]), None) == Collection([x], map[x.key := 0])
    ensures Changed(Empty, Some([x.key]), Some([x]), None)
  {
    assert [x][..0] == [] && [x.key][..0] == [];
    assert Latest([x]) == map[x.key := x];
    assert ModifyAll(Empty.items, Empty.index, [x]) == [];
    assert InsertAll(Empty, Latest([x]), [x.key]) == InsertOne(Empty, Latest([x]), x.key);
  }
}
