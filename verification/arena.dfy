/** The node arena (`NodeList`): nodes stored under integer ids handed out by
    a counter, read with `get`, checked out and back in with `take` and
    `restore`, and garbage-collected with `drop_node`.

    Borrowing (`RefCell`) has no counterpart here: the arena is a value and
    each operation returns the new arena. */
module Arena {
  import opened Util
  import opened Tree

  type Nodes<G, M, P> = map<NodeId, Node<G, M, P>>

  datatype NodeList<G, M, P> = NodeList(nodes: Nodes<G, M, P>, nextId: NodeId)

  /** Every stored id was handed out by the counter. */
  ghost predicate IdsIssued<G, M, P>(l: NodeList<G, M, P>)
  {
    forall x :: x in l.nodes ==> x < l.nextId
  }

  /** `a` is `b` with some entries removed. */
  ghost predicate SubMap<G, M, P>(a: Nodes<G, M, P>, b: Nodes<G, M, P>)
  {
    forall x :: x in a ==> x in b && a[x] == b[x]
  }

  function EmptyList<G, M, P>(): (l: NodeList<G, M, P>)
    ensures l.nodes == map[] && IdsIssued(l)
  {
    NodeList(map[], 0)
  }

  /** `add`: store `n` under a fresh id and return that id. */
  function Add<G, M, P>(l: NodeList<G, M, P>, n: Node<G, M, P>): (r: (NodeList<G, M, P>, NodeId))
    ensures IdsIssued(l) ==> r.1 !in l.nodes && IdsIssued(r.0)
    ensures r.0.nodes == l.nodes[r.1 := n]
    ensures l.nextId <= r.1 < r.0.nextId
  {
    (NodeList(l.nodes[l.nextId := n], l.nextId + 1), l.nextId)
  }

  /** Ids are never reused: a later `add` returns an id different from every
      earlier one, whatever happens to the arena in between, as long as the
      counter does not go back. */
  lemma AddNeverReuses<G, M, P>(l1: NodeList<G, M, P>, n1: Node<G, M, P>,
                                l2: NodeList<G, M, P>, n2: Node<G, M, P>)
    requires Add(l1, n1).0.nextId <= l2.nextId
    ensures Add(l2, n2).1 != Add(l1, n1).1
  {
  }

  function Get<G, M, P>(l: NodeList<G, M, P>, id: NodeId): Node<G, M, P>
    requires id in l.nodes
  {
    l.nodes[id]
  }

  /** `take`: remove the node and hand it over. */
  function Take<G, M, P>(l: NodeList<G, M, P>, id: NodeId): (r: (NodeList<G, M, P>, Node<G, M, P>))
    requires id in l.nodes
    ensures r.0.nodes.Keys == l.nodes.Keys - {id} && SubMap(r.0.nodes, l.nodes)
    ensures r.0.nextId == l.nextId
  {
    (NodeList(l.nodes - {id}, l.nextId), l.nodes[id])
  }

  /** `restore`: put a node (back) under `id`. */
  function Restore<G, M, P>(l: NodeList<G, M, P>, id: NodeId, n: Node<G, M, P>): (r: NodeList<G, M, P>)
    ensures id in r.nodes && r.nodes[id] == n
    ensures forall x :: x != id ==> (x in r.nodes <==> x in l.nodes)
    ensures forall x :: x != id && x in l.nodes ==> r.nodes[x] == l.nodes[x]
    ensures r.nextId == l.nextId
  {
    NodeList(l.nodes[id := n], l.nextId)
  }

  /** Checking a node out and back in leaves the arena as it was. */
  lemma TakeRestore<G, M, P>(l: NodeList<G, M, P>, id: NodeId)
    requires id in l.nodes
    ensures Restore(Take(l, id).0, id, Take(l, id).1) == l
  {
    assert Restore(Take(l, id).0, id, Take(l, id).1).nodes == l.nodes;
  }

  /** Checking in a node under a free id and out again gives back both. */
  lemma RestoreTake<G, M, P>(l: NodeList<G, M, P>, id: NodeId, n: Node<G, M, P>)
    requires id !in l.nodes
    ensures Take(Restore(l, id, n), id) == (l, n)
  {
    assert Take(Restore(l, id, n), id).0.nodes == l.nodes;
  }

  // ---------------------------------------------------------------------
  // drop_node

  /** `drop_node(id, except)`: remove `id` and, recursively, the children
      other than `except`. An absent id is a no-op. */
  function DropNode<G, M, P>(ns: Nodes<G, M, P>, id: NodeId, except: NodeId): (r: Nodes<G, M, P>)
    ensures |r| <= |ns|
    ensures id !in ns ==> r == ns
    decreases |ns|, 0
  {
    if id !in ns then ns
    else DropChildren(ns - {id}, ns[id].children, except)
  }

  /** The loop over the removed node's children. */
  function DropChildren<G, M, P>(ns: Nodes<G, M, P>, cs: Children<M>, except: NodeId): (r: Nodes<G, M, P>)
    ensures |r| <= |ns|
    decreases |ns|, |cs| + 1
  {
    if |cs| == 0 then ns
    else
      var c := cs[0].1.node;
      var ns1 := if c != except then DropNode(ns, c, except) else ns;
      DropChildren(ns1, cs[1..], except)
  }

  /** Dropping only removes entries, `id` among them. */
  lemma {:induction false} DropNodeSub<G, M, P>(ns: Nodes<G, M, P>, id: NodeId, except: NodeId)
    ensures SubMap(DropNode(ns, id, except), ns) && id !in DropNode(ns, id, except)
    decreases |ns|, 0
  {
    if id in ns {
      DropChildrenSub(ns - {id}, ns[id].children, except);
    }
  }

  lemma {:induction false} DropChildrenSub<G, M, P>(ns: Nodes<G, M, P>, cs: Children<M>, except: NodeId)
    ensures SubMap(DropChildren(ns, cs, except), ns)
    decreases |ns|, |cs| + 1
  {
    if |cs| > 0 {
      var c := cs[0].1.node;
      var ns1 := if c != except then DropNode(ns, c, except) else ns;
      if c != except {
        DropNodeSub(ns, c, except);
      }
      DropChildrenSub(ns1, cs[1..], except);
    }
  }

  // ---------------------------------------------------------------------
  // Paths through the arena

  /** `p` follows edges of stored nodes, never stepping onto `except`. */
  ghost predicate IsPath<G, M, P>(ns: Nodes<G, M, P>, p: seq<NodeId>, except: Option<NodeId>)
  {
    && |p| > 0
    && (forall i :: 0 <= i < |p| ==> p[i] in ns)
    && (forall i :: 0 < i < |p| ==> Step(ns, p[i - 1], p[i], except))
  }

  ghost predicate Step<G, M, P>(ns: Nodes<G, M, P>, x: NodeId, y: NodeId, except: Option<NodeId>)
  {
    x in ns && y in Kids(ns[x].children) && except != Some(y)
  }

  ghost predicate Reaches<G, M, P>(ns: Nodes<G, M, P>, a: NodeId, b: NodeId, except: Option<NodeId>)
  {
    exists p :: IsPath(ns, p, except) && p[0] == a && p[|p| - 1] == b
  }

  lemma PathMono<G, M, P>(a: Nodes<G, M, P>, b: Nodes<G, M, P>, p: seq<NodeId>, except: Option<NodeId>)
    requires SubMap(a, b) && IsPath(a, p, except)
    ensures IsPath(b, p, except)
  {
    forall i | 0 < i < |p|
      ensures Step(b, p[i - 1], p[i], except)
    {
      assert Step(a, p[i - 1], p[i], except);
    }
  }

  lemma ReachesMono<G, M, P>(a: Nodes<G, M, P>, b: Nodes<G, M, P>, x: NodeId, y: NodeId, except: Option<NodeId>)
    requires SubMap(a, b) && Reaches(a, x, y, except)
    ensures Reaches(b, x, y, except)
  {
    var p :| IsPath(a, p, except) && p[0] == x && p[|p| - 1] == y;
    PathMono(a, b, p, except);
  }

  lemma PathCons<G, M, P>(ns: Nodes<G, M, P>, x: NodeId, p: seq<NodeId>, except: Option<NodeId>)
    requires IsPath(ns, p, except) && Step(ns, x, p[0], except)
    ensures IsPath(ns, [x] + p, except)
  {
    var q := [x] + p;
    forall i | 0 < i < |q|
      ensures Step(ns, q[i - 1], q[i], except)
    {
      if i > 1 {
        assert q[i - 1] == p[i - 2] && q[i] == p[i - 1];
      }
    }
  }

  /** Nodes removed by `drop_node` have their other children removed too. */
  ghost predicate RemovalClosed<G, M, P>(ns: Nodes<G, M, P>, r: Nodes<G, M, P>, except: NodeId)
  {
    forall z, c :: z in ns && z !in r && c in Kids(ns[z].children) && c != except && c in ns ==> c !in r
  }

  /** Every listed child other than `except` that was stored is gone. */
  ghost predicate ChildrenGone<G, M, P>(ns: Nodes<G, M, P>, cs: Children<M>, r: Nodes<G, M, P>, except: NodeId)
  {
    forall j :: 0 <= j < |cs| && cs[j].1.node != except && cs[j].1.node in ns ==> cs[j].1.node !in r
  }

  lemma {:induction false} DropNodeClosed<G, M, P>(ns: Nodes<G, M, P>, id: NodeId, except: NodeId)
    ensures RemovalClosed(ns, DropNode(ns, id, except), except)
    decreases |ns|, 0
  {
    if id in ns {
      var rest := ns - {id};
      DropChildrenClosed(rest, ns[id].children, except);
      DropChildrenSub(rest, ns[id].children, except);
      ClosedAfterNode(ns, id, DropChildren(rest, ns[id].children, except), except);
    }
  }

  lemma {:induction false} DropChildrenClosed<G, M, P>(ns: Nodes<G, M, P>, cs: Children<M>, except: NodeId)
    ensures RemovalClosed(ns, DropChildren(ns, cs, except), except)
    ensures ChildrenGone(ns, cs, DropChildren(ns, cs, except), except)
    decreases |ns|, |cs| + 1
  {
    if |cs| > 0 {
      var c := cs[0].1.node;
      var ns1 := if c != except then DropNode(ns, c, except) else ns;
      var r := DropChildren(ns1, cs[1..], except);
      if c != except {
        DropNodeClosed(ns, c, except);
        DropNodeSub(ns, c, except);
      }
      DropChildrenClosed(ns1, cs[1..], except);
      DropChildrenSub(ns1, cs[1..], except);
      ClosedCompose(ns, ns1, r, except);
      GoneCons(ns, ns1, r, cs, except);
    }
  }

  /** Removing `id` and then a closed set of the rest is closed. */
  lemma ClosedAfterNode<G, M, P>(ns: Nodes<G, M, P>, id: NodeId, r: Nodes<G, M, P>, except: NodeId)
    requires id in ns && SubMap(r, ns - {id})
    requires RemovalClosed(ns - {id}, r, except) && ChildrenGone(ns - {id}, ns[id].children, r, except)
    ensures RemovalClosed(ns, r, except)
  {
    var rest := ns - {id};
    forall z, c | z in ns && z !in r && c in Kids(ns[z].children) && c != except && c in ns
      ensures c !in r
    {
      if c != id && z == id {
        var j :| 0 <= j < |ns[id].children| && Kids(ns[id].children)[j] == c;
        assert ns[id].children[j].1.node == c;
      } else if c != id {
        assert z in rest && rest[z] == ns[z];
      }
    }
  }

  /** Closed removals compose. */
  lemma ClosedCompose<G, M, P>(ns: Nodes<G, M, P>, ns1: Nodes<G, M, P>, r: Nodes<G, M, P>, except: NodeId)
    requires SubMap(ns1, ns) && SubMap(r, ns1)
    requires RemovalClosed(ns, ns1, except) && RemovalClosed(ns1, r, except)
    ensures RemovalClosed(ns, r, except)
  {
    forall z, d | z in ns && z !in r && d in Kids(ns[z].children) && d != except && d in ns
      ensures d !in r
    {
      if z in ns1 && d in ns1 {
        assert ns1[z] == ns[z];
      }
    }
  }

  /** One round of the children loop: the first child is gone after its own
      removal, the others after the rest of the loop. */
  lemma GoneCons<G, M, P>(ns: Nodes<G, M, P>, ns1: Nodes<G, M, P>, r: Nodes<G, M, P>, cs: Children<M>, except: NodeId)
    requires |cs| > 0 && SubMap(ns1, ns) && SubMap(r, ns1)
    requires cs[0].1.node != except ==> cs[0].1.node !in ns1
    requires ChildrenGone(ns1, cs[1..], r, except)
    ensures ChildrenGone(ns, cs, r, except)
  {
    forall j | 0 <= j < |cs| && cs[j].1.node != except && cs[j].1.node in ns
      ensures cs[j].1.node !in r
    {
      if j > 0 && cs[j].1.node in ns1 {
        assert cs[1..][j - 1] == cs[j];
      }
    }
  }

  /** Some child other than `except` reaches `z`. */
  ghost predicate ReachedFromChild<G, M, P>(ns: Nodes<G, M, P>, cs: Children<M>, z: NodeId, except: NodeId)
  {
    exists j :: 0 <= j < |cs| && cs[j].1.node != except && Reaches(ns, cs[j].1.node, z, Some(except))
  }

  lemma {:induction false} DropNodeReach<G, M, P>(ns: Nodes<G, M, P>, id: NodeId, except: NodeId, z: NodeId)
    requires z in ns && z !in DropNode(ns, id, except)
    ensures Reaches(ns, id, z, Some(except))
    decreases |ns|, 0
  {
    if z == id {
      assert IsPath(ns, [id], Some(except));
    } else {
      DropChildrenReach(ns - {id}, ns[id].children, except, z);
      ReachThroughChild(ns, id, z, except);
    }
  }

  lemma {:induction false} DropChildrenReach<G, M, P>(ns: Nodes<G, M, P>, cs: Children<M>, except: NodeId, z: NodeId)
    requires z in ns && z !in DropChildren(ns, cs, except)
    ensures ReachedFromChild(ns, cs, z, except)
    decreases |ns|, |cs| + 1
  {
    var c := cs[0].1.node;
    var ns1 := if c != except then DropNode(ns, c, except) else ns;
    if c != except {
      DropNodeSub(ns, c, except);
    }
    if z in ns1 {
      DropChildrenReach(ns1, cs[1..], except, z);
      ReachedShift(ns, ns1, cs, z, except);
    } else {
      DropNodeReach(ns, c, except, z);
      assert cs[0].1.node != except && Reaches(ns, cs[0].1.node, z, Some(except));
    }
  }

  /** A path from one of `id`'s children extends to a path from `id`. */
  lemma ReachThroughChild<G, M, P>(ns: Nodes<G, M, P>, id: NodeId, z: NodeId, except: NodeId)
    requires id in ns && ReachedFromChild(ns - {id}, ns[id].children, z, except)
    ensures Reaches(ns, id, z, Some(except))
  {
    var rest := ns - {id};
    var cs := ns[id].children;
    var j :| 0 <= j < |cs| && cs[j].1.node != except && Reaches(rest, cs[j].1.node, z, Some(except));
    var p :| IsPath(rest, p, Some(except)) && p[0] == cs[j].1.node && p[|p| - 1] == z;
    PathMono(rest, ns, p, Some(except));
    assert Kids(cs)[j] == p[0];
    PathCons(ns, id, p, Some(except));
    assert ([id] + p)[|[id] + p| - 1] == z;
  }

  /** A child reaching `z` in a smaller arena reaches it in the larger one. */
  lemma ReachedShift<G, M, P>(ns: Nodes<G, M, P>, ns1: Nodes<G, M, P>, cs: Children<M>, z: NodeId, except: NodeId)
    requires |cs| > 0 && SubMap(ns1, ns) && ReachedFromChild(ns1, cs[1..], z, except)
    ensures ReachedFromChild(ns, cs, z, except)
  {
    var j :| 0 <= j < |cs[1..]| && cs[1..][j].1.node != except && Reaches(ns1, cs[1..][j].1.node, z, Some(except));
    ReachesMono(ns1, ns, cs[1..][j].1.node, z, Some(except));
    assert cs[j + 1] == cs[1..][j];
  }

  /** Along a path that avoids `except`, removal propagates. */
  lemma {:induction false} RemovalAlongPath<G, M, P>(ns: Nodes<G, M, P>, r: Nodes<G, M, P>, except: NodeId, p: seq<NodeId>)
    requires RemovalClosed(ns, r, except) && SubMap(r, ns)
    requires IsPath(ns, p, Some(except)) && p[0] !in r
    ensures p[|p| - 1] !in r
    decreases |p|
  {
    if |p| > 1 {
      var q := p[..|p| - 1];
      forall i | 0 < i < |q|
        ensures Step(ns, q[i - 1], q[i], Some(except))
      {
        assert Step(ns, p[i - 1], p[i], Some(except));
      }
      RemovalAlongPath(ns, r, except, q);
      assert Step(ns, p[|p| - 2], p[|p| - 1], Some(except));
    }
  }

  /** When every stored node is reachable from `id`, `drop_node` empties
      the arena. */
  lemma DropReachedAll<G, M, P>(ns: Nodes<G, M, P>, id: NodeId, except: NodeId)
    requires forall z :: z in ns ==> Reaches(ns, id, z, Some(except))
    ensures DropNode(ns, id, except) == map[]
  {
    DropNodeExact(ns, id, except);
    DropNodeSub(ns, id, except);
  }

  /** `drop_node` removes exactly the nodes reachable from `id` without
      stepping onto `except`, and leaves every other node as it was. */
  lemma DropNodeExact<G, M, P>(ns: Nodes<G, M, P>, id: NodeId, except: NodeId)
    ensures forall z :: z in DropNode(ns, id, except) <==> z in ns && !Reaches(ns, id, z, Some(except))
    ensures forall z :: z in DropNode(ns, id, except) ==> DropNode(ns, id, except)[z] == ns[z]
  {
    var r := DropNode(ns, id, except);
    DropNodeClosed(ns, id, except);
    DropNodeSub(ns, id, except);
    forall z | z in ns && z !in r
      ensures Reaches(ns, id, z, Some(except))
    {
      DropNodeReach(ns, id, except, z);
    }
    forall z | z in ns && Reaches(ns, id, z, Some(except))
      ensures z !in r
    {
      var p :| IsPath(ns, p, Some(except)) && p[0] == id && p[|p| - 1] == z;
      RemovalAlongPath(ns, r, except, p);
    }
  }
}
