/**
 * The application component's state: the node and link arrays it hands to
 * the diagram, one key -> position index per array, and the flag that tells
 * the diagram to skip redrawing from arrays the store itself produced.
 * React's state setters are plain field assignments here.
 */
module Store {
  import opened Records
  import opened KeyIndex
  import opened Reconciliation

  class GraphStore {
    var nodes: seq<Node>
    var links: seq<Link>
    var nodeIdx: map<int, int>
    var linkIdx: map<int, int>
    var skips: bool

    /** Each index agrees with its array (the component rebuilds both on every render). */
    ghost predicate Valid()
      reads this
    {
      IndexConsistent(nodes, nodeIdx) && IndexConsistent(links, linkIdx)
    }

    /** The seed graph, indexed, with redrawing not yet skipped. */
    constructor ()
      ensures Valid()
      ensures nodes == SeedNodes && links == SeedLinks && !skips
      ensures UniqueKeys(nodes) && UniqueKeys(links)
    {
      nodes, links, skips := SeedNodes, SeedLinks, false;
      new;
      RefreshNodeIndex(nodes);
      RefreshLinkIndex(links);
    }

    /** Rebuilds the node index from `arr`, front to back. */
    method RefreshNodeIndex(arr: seq<Node>)
      modifies this`nodeIdx
      ensures nodeIdx == IndexOf(arr)
      ensures IndexConsistent(arr, nodeIdx)
    {
      nodeIdx := BuildIndex(arr);
    }

    /** Rebuilds the link index from `arr`, front to back. */
    method RefreshLinkIndex(arr: seq<Link>)
      modifies this`linkIdx
      ensures linkIdx == IndexOf(arr)
      ensures IndexConsistent(arr, linkIdx)
    {
      linkIdx := BuildIndex(arr);
    }

    /**
     * Applies one batch from the diagram: nodes first, then links, each in the
     * order modify -> insert -> remove, with one change flag shared by both.
     * The indices are updated in any case; the arrays and the skip flag only
     * when something changed. An absent batch is ignored.
     */
    method HandleModelChange(obj: Option<ChangeSet>)
      requires Valid()
      modifies this
      ensures Valid()
      ensures obj.None? ==> unchanged(this)
      ensures obj.Some? ==>
        var cs := obj.value;
        var n := Reconcile(Collection(old(nodes), old(nodeIdx)),
                           cs.insertedNodeKeys, cs.modifiedNodeData, cs.removedNodeKeys);
        var l := Reconcile(Collection(old(links), old(linkIdx)),
                           cs.insertedLinkKeys, cs.modifiedLinkData, cs.removedLinkKeys);
        var changed :=
          || Changed(Collection(old(nodes), old(nodeIdx)),
                     cs.insertedNodeKeys, cs.modifiedNodeData, cs.removedNodeKeys)
          || Changed(Collection(old(links), old(linkIdx)),
                     cs.insertedLinkKeys, cs.modifiedLinkData, cs.removedLinkKeys);
        && nodeIdx == n.index && linkIdx == l.index
        && nodes == (if changed then n.items else old(nodes))
        && links == (if changed then l.items else old(links))
        && skips == (changed || old(skips))
        && (!changed ==> unchanged(this))
      ensures old(UniqueKeys(nodes)) ==> UniqueKeys(nodes)
      ensures old(UniqueKeys(links)) ==> UniqueKeys(links)
    {
      if obj.None? {
        return;
      }
      var cs := obj.value;
      var nodeIn, linkIn := Collection(nodes, nodeIdx), Collection(links, linkIdx);
      ReconcileValid(nodeIn, cs.insertedNodeKeys, cs.modifiedNodeData, cs.removedNodeKeys);
      ReconcileValid(linkIn, cs.insertedLinkKeys, cs.modifiedLinkData, cs.removedLinkKeys);

      var arrChanged := false;
      var nodeOut, nodeHit := ReconcileCollection(nodeIn, cs.insertedNodeKeys, cs.modifiedNodeData, cs.removedNodeKeys);
      nodeIdx := nodeOut.index;
      if nodeHit { arrChanged := true; }
      var linkOut, linkHit := ReconcileCollection(linkIn, cs.insertedLinkKeys, cs.modifiedLinkData, cs.removedLinkKeys);
      linkIdx := linkOut.index;
      if linkHit { arrChanged := true; }

      if !nodeHit {
        ReconcileUnchanged(nodeIn, cs.insertedNodeKeys, cs.modifiedNodeData, cs.removedNodeKeys);
      }
      if !linkHit {
        ReconcileUnchanged(linkIn, cs.insertedLinkKeys, cs.modifiedLinkData, cs.removedLinkKeys);
      }
      if arrChanged {
        nodes := nodeOut.items;
        links := linkOut.items;
        skips := true;
      }
    }
  }
}
