/**
 * The values the graph store works on: keyed records for nodes and links,
 * the change batch the diagram widget reports, and the seed graph the store
 * starts from.
 */
module Records {

  datatype Option<+T> = None | Some(value: T)

  /** A record identified by an integer key; `data` is everything else it carries. */
  datatype Keyed<+P> = Keyed(key: int, data: P)

  /** The label and fill colour of a node. */
  datatype NodeData = NodeData(text: string, color: string)

  /** The two endpoints of a link, as node keys (never checked against the nodes). */
  datatype LinkData = LinkData(from: int, to: int)

  type Node = Keyed<NodeData>
  type Link = Keyed<LinkData>

  /**
   * One batch of changes from the widget. Every list may be absent; an
   * inserted key carries no payload of its own, its record is expected in the
   * modified list of the same batch.
   */
  datatype ChangeSet = ChangeSet(
    insertedNodeKeys: Option<seq<int>>,
    modifiedNodeData: Option<seq<Node>>,
    removedNodeKeys: Option<seq<int>>,
    insertedLinkKeys: Option<seq<int>>,
    modifiedLinkData: Option<seq<Link>>,
    removedLinkKeys: Option<seq<int>>)

  /** The four nodes the store is created with. */
  const SeedNodes: seq<Node> := [
    Keyed(1, NodeData("Alpha", "lightblue")),
    Keyed(2, NodeData("Beta", "orange")),
    Keyed(3, NodeData("Gamma", "lightgreen")),
    Keyed(4, NodeData("Delta", "pink"))
  ]

  /** The five links the store is created with; link -3 is a self-loop on node 2. */
  const SeedLinks: seq<Link> := [
    Keyed(-1, LinkData(1, 2)),
    Keyed(-2, LinkData(1, 3)),
    Keyed(-3, LinkData(2, 2)),
    Keyed(-4, LinkData(3, 4)),
    Keyed(-5, LinkData(4, 1))
  ]
}
