/** The graph of index.js (class `Graph`): a node registry and, for every
    node, its referrers (predecessors). Both source containers are JS `Map`s
    whose iteration follows insertion order, and the referrer sets are JS
    `Set`s, also insertion-ordered; the model keeps those orders explicitly. */
module Graph {
  import opened Base

  /** A node's caller-supplied size and the (rank, column) layout assigns. */
  datatype Node = Node(width: real, height: real, pos: Option<Pos>)

  /** `order` lists the keys of the referrer map in insertion order and
      `referrers[k]` lists the referrers of `k` in insertion order; likewise
      `nodeOrder` lists the keys of `nodes`. */
  datatype Graph = Graph(
    order: seq<NodeId>,
    referrers: map<NodeId, seq<NodeId>>,
    nodeOrder: seq<NodeId>,
    nodes: map<NodeId, Node>)

  /** The shape every graph built by `AddNode`/`AddEdge` keeps. */
  ghost predicate Valid(g: Graph) {
    && Distinct(g.order)
    && (forall k :: k in g.order <==> k in g.referrers)
    && (forall k :: k in g.referrers ==> Distinct(g.referrers[k]))
    && Distinct(g.nodeOrder)
    && (forall k :: k in g.nodeOrder <==> k in g.nodes)
    && (forall k :: k in g.nodes ==> k in g.referrers)
  }

  const EmptyGraph: Graph := Graph([], map[], [], map[])

  lemma EmptyGraphValid()
    ensures Valid(EmptyGraph)
  {
  }

  /** `setDefault(this.referrers, id, new Set())`. */
  function Register(g: Graph, id: NodeId): (r: Graph)
    ensures id in r.referrers
    ensures id in g.referrers ==> r == g
    ensures id !in g.referrers ==> r.order == g.order + [id] && r.referrers[id] == []
    ensures forall k :: k in g.referrers ==> k in r.referrers && r.referrers[k] == g.referrers[k]
    ensures forall k :: k in r.referrers ==> k in g.referrers || k == id
    ensures r.nodes == g.nodes && r.nodeOrder == g.nodeOrder
    ensures Valid(g) ==> Valid(r)
  {
    if id in g.referrers then g
    else
      var r := g.(order := g.order + [id], referrers := g.referrers[id := []]);
      assert Valid(g) ==> id !in g.order;
      assert Valid(g) ==> Distinct(r.order) by {
        if Valid(g) {
          DistinctConcat(g.order, [id]);
        }
      }
      r
  }

  /** `Graph.addNode(id, {width, height})`: creates or updates the node's size
      (a node that already has a position keeps it) and registers `id` as a
      key of the referrer map. */
  function AddNode(g: Graph, id: NodeId, width: real, height: real): (r: Graph)
    ensures id in r.nodes && r.nodes[id].width == width && r.nodes[id].height == height
    ensures r.nodes[id].pos == (if id in g.nodes then g.nodes[id].pos else None)
    ensures forall k :: k != id ==> (k in r.nodes <==> k in g.nodes)
    ensures forall k :: k != id && k in g.nodes ==> r.nodes[k] == g.nodes[k]
    ensures id in r.referrers
    ensures forall k :: k in g.referrers ==> k in r.referrers && r.referrers[k] == g.referrers[k]
    ensures Valid(g) ==> Valid(r)
  {
    var node := if id in g.nodes then g.nodes[id].(width := width, height := height)
                else Node(width, height, None);
    var order := if id in g.nodes then g.nodeOrder else g.nodeOrder + [id];
    assert Valid(g) ==> Distinct(order) by {
      if Valid(g) && id !in g.nodes {
        DistinctConcat(g.nodeOrder, [id]);
      }
    }
    Register(g.(nodeOrder := order, nodes := g.nodes[id := node]), id)
  }

  /** `Graph.addEdge(from, to)`: adds `from` to the referrers of `to`, which
      becomes a key of the referrer map if it was not one. Neither end needs
      to be a registered node. */
  function AddEdge(g: Graph, from: NodeId, to: NodeId): (r: Graph)
    ensures to in r.referrers && from in r.referrers[to]
    ensures to in g.referrers && from in g.referrers[to] ==> r == g
    ensures to in g.referrers && from !in g.referrers[to] ==> r.referrers[to] == g.referrers[to] + [from]
    ensures to !in g.referrers ==> r.referrers[to] == [from]
    ensures forall k :: k != to ==> (k in r.referrers <==> k in g.referrers)
    ensures forall k :: k != to && k in g.referrers ==> r.referrers[k] == g.referrers[k]
    ensures r.nodes == g.nodes && r.nodeOrder == g.nodeOrder
    ensures Valid(g) ==> Valid(r)
  {
    var h := Register(g, to);
    var refs := h.referrers[to];
    if from in refs then h
    else
      assert Valid(h) ==> Distinct(refs + [from]) by {
        if Valid(h) {
          DistinctConcat(refs, [from]);
        }
      }
      h.(referrers := h.referrers[to := refs + [from]])
  }

  /** `Graph.getNodeReferrers`: the referrers of `id` in insertion order, or
      none when `id` is not a key. */
  function NodeReferrers(g: Graph, id: NodeId): seq<NodeId> {
    if id in g.referrers then g.referrers[id] else []
  }

  /** `Graph.setNodeData(id, {pos})`: records the node's position. The source
      fails on an unregistered id, so the model requires a registered one. */
  function SetPos(g: Graph, id: NodeId, pos: Pos): (r: Graph)
    requires id in g.nodes
    ensures id in r.nodes && r.nodes[id].pos == Some(pos)
    ensures r.nodes[id].width == g.nodes[id].width && r.nodes[id].height == g.nodes[id].height
    ensures r.nodes.Keys == g.nodes.Keys
    ensures forall k :: k in g.nodes && k != id ==> r.nodes[k] == g.nodes[k]
    ensures r.order == g.order && r.referrers == g.referrers && r.nodeOrder == g.nodeOrder
  {
    g.(nodes := g.nodes[id := g.nodes[id].(pos := Some(pos))])
  }
}
