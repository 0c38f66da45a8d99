/**
 * `Node`, `Slot` and `Graph` (grid.py:22-83). A graph is a map from each
 * node's name to the node; a node is its name and its set of edges, each edge
 * being the neighbour's name and the direction towards it.
 */
module Graphs {
  import opened Wrappers
  import opened Directions

  /** A node's name. The lattice builder names each node by its coordinates. */
  type Name = seq<int>

  /** One element of a node's `connections`: the neighbour and the direction to it. */
  datatype Edge = Edge(node: Name, dir: Direction)

  /** The one error kind: a name that is not in the graph. */
  datatype Error = NameNotFound(name: Name)

  /** `Node`: a name and the set of edges leaving the node. */
  datatype Node = Node(name: Name, connections: set<Edge>)
  {
    /** `next_to`: the edges labelled exactly `direction`; all edges for `None`. */
    function NextTo(direction: Option<Direction>): (r: set<Edge>)
      ensures r <= connections
      ensures direction.None? ==> r == connections
    {
      set e | e in connections && (direction.None? || e.dir == direction.value)
    }

    /** `connect_to`: add one edge to this node; the neighbour is not touched. */
    function ConnectTo(node: Name, direction: Direction): (r: Node)
      ensures r.name == name
      ensures Edge(node, direction) in r.connections && connections <= r.connections
    {
      Node(name, connections + {Edge(node, direction)})
    }
  }

  /** A query with a direction matches that direction exactly, nothing else. */
  lemma NextToExact(n: Node, direction: Direction, e: Edge)
    ensures e in n.NextTo(Some(direction)) <==> e in n.connections && e.dir == direction
  {
  }

  /** A query without a direction returns every edge. */
  lemma NextToAll(n: Node)
    ensures n.NextTo(None) == n.connections
  {
  }

  /** `connect_to` adds exactly the one edge, and adding it again changes nothing. */
  lemma ConnectToAddsOne(n: Node, node: Name, direction: Direction)
    ensures n.ConnectTo(node, direction).connections == n.connections + {Edge(node, direction)}
    ensures n.ConnectTo(node, direction).ConnectTo(node, direction) == n.ConnectTo(node, direction)
  {
  }

  /** Every node is stored under its own name, so names are unique. */
  ghost predicate NamedByKey(nodes: map<Name, Node>)
  {
    forall n :: n in nodes ==> nodes[n].name == n
  }

  /** Every edge A -> B labelled d is matched by an edge B -> A labelled reverse(d). */
  ghost predicate Symmetric(nodes: map<Name, Node>)
  {
    forall n, e :: n in nodes && e in nodes[n].connections ==>
      e.node in nodes && Edge(n, Reverse(e.dir)) in nodes[e.node].connections
  }

  /** In a symmetric graph, A -> B with d exists exactly when B -> A with reverse(d) does. */
  lemma SymmetricBothWays(nodes: map<Name, Node>, a: Name, b: Name, d: Direction)
    requires Symmetric(nodes) && a in nodes && b in nodes
    ensures Edge(b, d) in nodes[a].connections <==> Edge(a, Reverse(d)) in nodes[b].connections
  {
    if Edge(a, Reverse(d)) in nodes[b].connections {
      ReverseInvolutive(d);
      assert Edge(b, Reverse(Reverse(d))) in nodes[a].connections;
    }
  }

  /** The nodes after a successful `connect_nodes(name1, name2, direction)`. */
  function Connect(nodes: map<Name, Node>, name1: Name, name2: Name, direction: Direction): (r: map<Name, Node>)
    requires name1 in nodes && name2 in nodes
    ensures r.Keys == nodes.Keys
    ensures Edge(name2, direction) in r[name1].connections
    ensures Edge(name1, Reverse(direction)) in r[name2].connections
    ensures forall n :: n in nodes && n != name1 && n != name2 ==> r[n] == nodes[n]
  {
    var first := nodes[name1 := nodes[name1].ConnectTo(name2, direction)];
    first[name2 := first[name2].ConnectTo(name1, Reverse(direction))]
  }

  /** A record of one `connect_nodes` call. */
  datatype Link = Link(from: Name, to: Name, dir: Direction)

  /** The edge `link` gives to node `n`: forward at `from`, reversed at `to`. */
  ghost predicate Gives(link: Link, n: Name, e: Edge)
  {
    || (link.from == n && e == Edge(link.to, link.dir))
    || (link.to == n && e == Edge(link.from, Reverse(link.dir)))
  }

  /** The nodes after one `connect_nodes` call; a missing name raises and changes nothing. */
  function Connected(nodes: map<Name, Node>, link: Link): (r: map<Name, Node>)
    ensures r.Keys == nodes.Keys
  {
    if link.from in nodes && link.to in nodes then Connect(nodes, link.from, link.to, link.dir) else nodes
  }

  /** The nodes after a sequence of `connect_nodes` calls, in order. */
  function Wire(nodes: map<Name, Node>, log: seq<Link>): (r: map<Name, Node>)
    ensures r.Keys == nodes.Keys
  {
    if log == [] then nodes else Connected(Wire(nodes, log[..|log| - 1]), log[|log| - 1])
  }

  /**
   * `connect_nodes` gives `name1` the edge (name2, d) and `name2` the edge
   * (name1, reverse(d)), keeps every name, and changes no other node.
   */
  lemma ConnectEdges(nodes: map<Name, Node>, name1: Name, name2: Name, direction: Direction, n: Name, e: Edge)
    requires name1 in nodes && name2 in nodes && n in nodes
    ensures Connect(nodes, name1, name2, direction)[n].name == nodes[n].name
    ensures e in Connect(nodes, name1, name2, direction)[n].connections <==>
      e in nodes[n].connections || Gives(Link(name1, name2, direction), n, e)
  {
  }

  /** `connect_nodes` keeps the graph symmetric. */
  lemma ConnectPreservesSymmetric(nodes: map<Name, Node>, name1: Name, name2: Name, direction: Direction)
    requires Symmetric(nodes) && name1 in nodes && name2 in nodes
    ensures Symmetric(Connect(nodes, name1, name2, direction))
  {
    var r := Connect(nodes, name1, name2, direction);
    forall n, e | n in r && e in r[n].connections
      ensures e.node in r && Edge(n, Reverse(e.dir)) in r[e.node].connections
    {
      ConnectEdges(nodes, name1, name2, direction, n, e);
      if e in nodes[n].connections {
        ConnectEdges(nodes, name1, name2, direction, e.node, Edge(n, Reverse(e.dir)));
      } else if n == name1 && e == Edge(name2, direction) {
        ConnectEdges(nodes, name1, name2, direction, name2, Edge(name1, Reverse(direction)));
      } else {
        ReverseInvolutive(direction);
        ConnectEdges(nodes, name1, name2, direction, name1, Edge(name2, direction));
      }
    }
  }

  /** Every endpoint of every logged call is a name of `nodes`. */
  ghost predicate LinksWithin(nodes: map<Name, Node>, log: seq<Link>)
  {
    forall i :: 0 <= i < |log| ==> log[i].from in nodes && log[i].to in nodes
  }

  /** Some call of `log` gives `n` the edge `e`. */
  ghost predicate GivenBy(log: seq<Link>, n: Name, e: Edge)
  {
    exists i :: 0 <= i < |log| && Gives(log[i], n, e)
  }

  lemma GivenByMember(log: seq<Link>, x: Link, n: Name, e: Edge)
    requires x in log && Gives(x, n, e)
    ensures GivenBy(log, n, e)
  {
    var i :| 0 <= i < |log| && log[i] == x;
  }

  /**
   * After a sequence of `connect_nodes` calls on existing names, a node's
   * edges are its old ones plus exactly those some call gave it.
   */
  lemma {:induction false} WireEdges(nodes: map<Name, Node>, log: seq<Link>, n: Name, e: Edge)
    requires LinksWithin(nodes, log) && n in nodes
    ensures Wire(nodes, log)[n].name == nodes[n].name
    ensures e in Wire(nodes, log)[n].connections <==>
      e in nodes[n].connections || GivenBy(log, n, e)
  {
    if log != [] {
      var init, last := log[..|log| - 1], log[|log| - 1];
      assert LinksWithin(nodes, init);
      WireEdges(nodes, init, n, e);
      ConnectEdges(Wire(nodes, init), last.from, last.to, last.dir, n, e);
      if GivenBy(log, n, e) {
        var i :| 0 <= i < |log| && Gives(log[i], n, e);
        if i < |log| - 1 {
          assert Gives(init[i], n, e);
        }
      }
    }
  }

  /** One more call applies after the earlier ones. */
  lemma WireSnoc(nodes: map<Name, Node>, log: seq<Link>, x: Link)
    ensures Wire(nodes, log + [x]) == Connected(Wire(nodes, log), x)
  {
    assert (log + [x])[..|log|] == log;
  }

  /** Applying two call sequences one after the other applies their concatenation. */
  lemma {:induction false} WireConcat(nodes: map<Name, Node>, a: seq<Link>, b: seq<Link>)
    ensures Wire(Wire(nodes, a), b) == Wire(nodes, a + b)
  {
    if b != [] {
      var init := b[..|b| - 1];
      WireConcat(nodes, a, init);
      assert (a + b)[..|a + b| - 1] == a + init;
    } else {
      assert a + b == a;
    }
  }

  /** Unconnected nodes, one per name. */
  function Unwired(names: seq<Name>): (r: map<Name, Node>)
    ensures r.Keys == set n | n in names
  {
    map n | n in names :: Node(n, {})
  }

  lemma UnwiredSnoc(names: seq<Name>, name: Name)
    ensures Unwired(names + [name]) == Unwired(names)[name := Node(name, {})]
  {
    var a, b := Unwired(names + [name]), Unwired(names)[name := Node(name, {})];
    assert a.Keys == b.Keys;
  }

  /** Distinct names give one node each. */
  lemma {:induction false} UnwiredCount(names: seq<Name>)
    requires forall i, j :: 0 <= i < j < |names| ==> names[i] != names[j]
    ensures |Unwired(names)| == |names|
  {
    if names != [] {
      var init, name := names[..|names| - 1], names[|names| - 1];
      assert names == init + [name];
      UnwiredCount(init);
      UnwiredSnoc(init, name);
      forall i | 0 <= i < |init| ensures init[i] != name {
        assert names[i] != names[|names| - 1];
      }
    }
  }

  lemma AddUnwired(base: map<Name, Node>, names: seq<Name>, name: Name)
    ensures base + Unwired(names + [name]) == (base + Unwired(names))[name := Node(name, {})]
  {
    UnwiredSnoc(names, name);
  }

  /** `Graph`: the nodes, keyed by name. */
  class Graph {
    var nodes: map<Name, Node>

    ghost predicate Valid()
      reads this
    {
      NamedByKey(nodes) && Symmetric(nodes)
    }

    constructor ()
      ensures Valid() && nodes == map[]
    {
      nodes := map[];
    }

    /** `add_node`: a new node with no edges, under a name not yet used. */
    method AddNode(name: Name)
      requires Valid() && name !in nodes
      modifies this
      ensures Valid()
      ensures nodes == old(nodes)[name := Node(name, {})]
    {
      nodes := nodes[name := Node(name, {})];
    }

    /** `add_nodes`: `add_node` for each name in turn. */
    method AddNodes(names: seq<Name>)
      requires Valid()
      requires forall i, j :: 0 <= i < j < |names| ==> names[i] != names[j]
      requires forall i :: 0 <= i < |names| ==> names[i] !in nodes
      modifies this
      ensures Valid()
      ensures nodes == old(nodes) + Unwired(names)
    {
      for i := 0 to |names|
        invariant Valid()
        invariant nodes == old(nodes) + Unwired(names[..i])
      {
        assert names[..i + 1] == names[..i] + [names[i]];
        assert names[i] !in names[..i];
        AddNode(names[i]);
        AddUnwired(old(nodes), names[..i], names[i]);
      }
      assert names[..|names|] == names;
    }

    /** `get_node`: the node with this name, or NameNotFound. */
    function GetNode(name: Name): (r: Result<Node, Error>)
      reads this
      ensures r.Success? <==> name in nodes
      ensures r.Success? ==> r.value == nodes[name]
      ensures r.Failure? ==> r.error == NameNotFound(name)
    {
      if name in nodes then Success(nodes[name]) else Failure(NameNotFound(name))
    }

    /**
     * `connect_nodes`: look both names up (raising on the first missing one),
     * then add (name2, direction) to the first node and
     * (name1, reverse(direction)) to the second.
     */
    method ConnectNodes(name1: Name, name2: Name, direction: Direction) returns (outcome: Outcome<Error>)
      requires Valid()
      modifies this
      ensures Valid()
      ensures outcome.Pass? <==> name1 in old(nodes) && name2 in old(nodes)
      ensures outcome.Fail? ==> outcome.error == NameNotFound(if name1 in old(nodes) then name2 else name1)
      ensures nodes == Connected(old(nodes), Link(name1, name2, direction))
    {
      var node1 := GetNode(name1);
      if node1.Failure? {
        return Fail(node1.error);
      }
      var node2 := GetNode(name2);
      if node2.Failure? {
        return Fail(node2.error);
      }
      ghost var after := Connect(nodes, name1, name2, direction);
      assert NamedByKey(after) && Symmetric(after) by {
        ConnectPreservesSymmetric(nodes, name1, name2, direction);
        forall n | n in after
          ensures after[n].name == n
        {
          ConnectEdges(nodes, name1, name2, direction, n, Edge(n, direction));
        }
      }
      nodes := nodes[name1 := node1.value.ConnectTo(name2, direction)];
      nodes := nodes[name2 := nodes[name2].ConnectTo(name1, Reverse(direction))];
      assert nodes == after;
      outcome := Pass;
    }

    /** `get_next_to`: the edges of the named node labelled `direction` (all for `None`). */
    function GetNextTo(name: Name, direction: Option<Direction>): (r: Result<set<Edge>, Error>)
      reads this
      ensures r.Success? <==> name in nodes
      ensures r.Failure? ==> r.error == NameNotFound(name)
      ensures r.Success? ==> forall e :: e in r.value <==>
        e in nodes[name].connections && (direction.None? || e.dir == direction.value)
    {
      match GetNode(name)
      case Success(node) => Success(node.NextTo(direction))
      case Failure(error) => Failure(error)
    }
  }

  /** `Slot`: a node name carrying a payload that may be unset. */
  class Slot<T> {
    const name: Name
    var value: Option<T>

    constructor (name: Name, value: Option<T>)
      ensures this.name == name && this.value == value
    {
      this.name := name;
      this.value := value;
    }

    /** `set_value`: store any payload, including "unset". */
    method SetValue(newValue: Option<T>)
      modifies this
      ensures value == newValue
    {
      value := newValue;
    }

    /** `get_value`: the payload last stored. */
    method GetValue() returns (v: Option<T>)
      ensures v == value
    {
      v := value;
    }
  }
}
