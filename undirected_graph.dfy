/** UndirectedGraph (UndirectedGraph.hpp): the label dependency graph of a
    subscript, with its connected components. Nodes are labels (chars),
    which is the only way the graph is instantiated. */
module UndirectedGraphs {
  import opened Wrappers

  type Node = char

  /** The neighbours recorded for x; none when x has no entry. */
  function Adj(edges: map<Node, set<Node>>, x: Node): set<Node>
  {
    if x in edges then edges[x] else {}
  }

  /** Every edge is recorded in both directions. */
  ghost predicate Symmetric(edges: map<Node, set<Node>>)
  {
    forall x, y :: y in Adj(edges, x) ==> x in Adj(edges, y)
  }

  /** In a symmetric adjacency every neighbour has an entry. */
  lemma SymmetricKeys(edges: map<Node, set<Node>>)
    requires Symmetric(edges)
    ensures forall x, y :: y in Adj(edges, x) ==> y in edges && x in Adj(edges, y)
  {
    forall x, y | y in Adj(edges, x)
      ensures y in edges
    {
      assert x in Adj(edges, y);
    }
  }

  /** p is a walk from x to y along recorded edges. */
  ghost predicate Connects(edges: map<Node, set<Node>>, p: seq<Node>, x: Node, y: Node)
  {
    |p| >= 1 && p[0] == x && p[|p| - 1] == y &&
    forall k :: 0 <= k < |p| - 1 ==> p[k + 1] in Adj(edges, p[k])
  }

  /** y can be reached from x. */
  ghost predicate Connected(edges: map<Node, set<Node>>, x: Node, y: Node)
  {
    exists p :: Connects(edges, p, x, y)
  }

  /** A walk can be taken one edge further. */
  lemma ConnectsExtend(edges: map<Node, set<Node>>, p: seq<Node>, x: Node, y: Node, z: Node)
    requires Connects(edges, p, x, y) && z in Adj(edges, y)
    ensures Connects(edges, p + [z], x, z)
  {
    var q := p + [z];
    forall k | 0 <= k < |q| - 1
      ensures q[k + 1] in Adj(edges, q[k])
    {
      if k < |p| - 1 {
        assert q[k] == p[k] && q[k + 1] == p[k + 1];
      }
    }
  }

  /** In a symmetric graph a walk can be walked backwards. */
  lemma ConnectsReverse(edges: map<Node, set<Node>>, p: seq<Node>, x: Node, y: Node)
    requires Symmetric(edges) && Connects(edges, p, x, y)
    ensures Connects(edges, seq(|p|, k requires 0 <= k < |p| => p[|p| - 1 - k]), y, x)
  {
    var r := seq(|p|, k requires 0 <= k < |p| => p[|p| - 1 - k]);
    forall k | 0 <= k < |r| - 1
      ensures r[k + 1] in Adj(edges, r[k])
    {
      var j := |p| - 2 - k;
      assert p[j + 1] in Adj(edges, p[j]);
      assert r[k] == p[j + 1] && r[k + 1] == p[j];
    }
  }

  /** Two walks meeting at y make one. */
  lemma ConnectsJoin(edges: map<Node, set<Node>>, p: seq<Node>, q: seq<Node>, x: Node, y: Node, z: Node)
    requires Connects(edges, p, x, y) && Connects(edges, q, y, z)
    ensures Connects(edges, p + q[1..], x, z)
  {
    var w := p + q[1..];
    forall k | 0 <= k < |w| - 1
      ensures w[k + 1] in Adj(edges, w[k])
    {
      if k < |p| - 1 {
        assert w[k] == p[k] && w[k + 1] == p[k + 1];
      } else {
        var j := k - (|p| - 1);
        assert w[k] == q[j] && w[k + 1] == q[j + 1];
      }
    }
  }

  /** Nodes reached from a common node reach each other. */
  lemma ConnectedViaRoot(edges: map<Node, set<Node>>, p: seq<Node>, q: seq<Node>, root: Node, x: Node, y: Node)
    requires Symmetric(edges) && Connects(edges, p, root, x) && Connects(edges, q, root, y)
    ensures Connected(edges, x, y)
  {
    ConnectsReverse(edges, p, root, x);
    var back := seq(|p|, k requires 0 <= k < |p| => p[|p| - 1 - k]);
    ConnectsJoin(edges, back, q, x, root, y);
  }

  /** A non-empty set of labels has a least element. */
  lemma LeastOf(s: set<Node>) returns (m: Node)
    requires s != {}
    ensures m in s && forall x :: x in s ==> m <= x
    decreases |s|
  {
    var y :| y in s;
    if s == {y} {
      m := y;
    } else {
      var rest := LeastOf(s - {y});
      m := if y < rest then y else rest;
      forall x | x in s
        ensures m <= x
      {
        if x != y {
          assert x in s - {y};
        }
      }
    }
  }

  lemma LeastExists(s: set<Node>)
    requires s != {}
    ensures exists m :: m in s && forall x :: x in s ==> m <= x
  {
    var m := LeastOf(s);
  }

  /** The nodes of all the components found so far. */
  function Union(cs: seq<set<Node>>): set<Node>
  {
    if cs == [] then {} else Union(cs[..|cs| - 1]) + cs[|cs| - 1]
  }

  lemma UnionSnoc(cs: seq<set<Node>>, c: set<Node>)
    ensures Union(cs + [c]) == Union(cs) + c
  {
    assert (cs + [c])[..|cs|] == cs;
  }

  /** A node is in the union when it is in one of the components. */
  lemma {:induction false} UnionMembers(cs: seq<set<Node>>)
    ensures forall x :: x in Union(cs) <==> exists i :: 0 <= i < |cs| && x in cs[i]
  {
    if cs != [] {
      var p := cs[..|cs| - 1];
      UnionMembers(p);
      assert Union(cs) == Union(p) + cs[|cs| - 1];
      forall x | x in Union(cs)
        ensures exists i :: 0 <= i < |cs| && x in cs[i]
      {
        if x !in cs[|cs| - 1] {
          var i :| 0 <= i < |p| && x in p[i];
          assert x in cs[i];
        }
      }
      forall x, i | 0 <= i < |cs| && x in cs[i]
        ensures x in Union(cs)
      {
        if i < |cs| - 1 {
          assert x in p[i];
        }
      }
    }
  }

  /** The nodes are split into the unfinished ones, those of the current
      component and those of the components found before. */
  ghost predicate Partition(nodes: set<Node>, unfinished: set<Node>, comp: set<Node>, done: set<Node>)
  {
    nodes == unfinished + comp + done && unfinished !! comp && unfinished !! done && comp !! done
  }

  /** No edge leaves the set. */
  ghost predicate ClosedSet(edges: map<Node, set<Node>>, s: set<Node>)
  {
    forall x :: x in s ==> Adj(edges, x) <= s
  }

  /** No edge leaves one of the components. */
  ghost predicate Closed(edges: map<Node, set<Node>>, cs: seq<set<Node>>)
  {
    forall i :: 0 <= i < |cs| ==> ClosedSet(edges, cs[i])
  }

  /** Components that are each closed make a closed union. */
  lemma {:induction false} ClosedUnion(edges: map<Node, set<Node>>, cs: seq<set<Node>>)
    requires Closed(edges, cs)
    ensures ClosedSet(edges, Union(cs))
  {
    if cs != [] {
      var p := cs[..|cs| - 1];
      assert Union(cs) == Union(p) + cs[|cs| - 1];
      assert Closed(edges, p) by {
        forall i | 0 <= i < |p|
          ensures ClosedSet(edges, p[i])
        {
          assert p[i] == cs[i];
        }
      }
      ClosedUnion(edges, p);
      assert ClosedSet(edges, cs[|cs| - 1]);
    }
  }

  /** The nodes of c reach each other. */
  ghost predicate AllConnected(edges: map<Node, set<Node>>, c: set<Node>)
  {
    forall x, y :: x in c && y in c ==> Connected(edges, x, y)
  }

  /** Every component is non-empty, closed and connected. */
  ghost predicate Components(edges: map<Node, set<Node>>, cs: seq<set<Node>>)
  {
    forall i :: 0 <= i < |cs| ==> cs[i] != {} && ClosedSet(edges, cs[i]) && AllConnected(edges, cs[i])
  }

  lemma ComponentsSnoc(edges: map<Node, set<Node>>, cs: seq<set<Node>>, c: set<Node>)
    requires Components(edges, cs)
    requires c != {} && ClosedSet(edges, c) && AllConnected(edges, c)
    ensures Components(edges, cs + [c])
  {
    var t := cs + [c];
    forall i | 0 <= i < |t|
      ensures t[i] != {} && ClosedSet(edges, t[i]) && AllConnected(edges, t[i])
    {
      if i < |cs| {
        assert t[i] == cs[i];
      }
    }
  }

  /** The components are pairwise disjoint. */
  ghost predicate Disjoint(cs: seq<set<Node>>)
  {
    forall i, j :: 0 <= i < j < |cs| ==> cs[i] !! cs[j]
  }

  /** A component disjoint from the earlier ones keeps them disjoint. */
  lemma DisjointSnoc(cs: seq<set<Node>>, c: set<Node>)
    requires Disjoint(cs) && c !! Union(cs)
    ensures Disjoint(cs + [c])
  {
    UnionMembers(cs);
    var t := cs + [c];
    forall i, j | 0 <= i < j < |t|
      ensures t[i] !! t[j]
    {
      if j == |cs| {
        forall x | x in t[i]
          ensures x !in c
        {
          assert x in cs[i];
        }
      } else {
        assert t[i] == cs[i] && t[j] == cs[j];
      }
    }
  }

  /** Every node of comp is reached from root by its recorded walk. */
  ghost predicate Rooted(edges: map<Node, set<Node>>, comp: set<Node>, paths: map<Node, seq<Node>>, root: Node)
  {
    forall x :: x in comp ==> x in paths && Connects(edges, paths[x], root, x)
  }

  /** Nodes reached from one root reach each other. */
  lemma RootedConnected(edges: map<Node, set<Node>>, comp: set<Node>, paths: map<Node, seq<Node>>, root: Node)
    requires Symmetric(edges) && Rooted(edges, comp, paths, root)
    ensures AllConnected(edges, comp)
  {
    forall x, y | x in comp && y in comp
      ensures Connected(edges, x, y)
    {
      ConnectedViaRoot(edges, paths[x], paths[y], root, x, y);
    }
  }

  /** A neighbour of the current component that is not unfinished is in
      the current component: the components found before are closed, so
      one holding the neighbour would hold node too. */
  lemma NotInEarlier(edges: map<Node, set<Node>>, nodes: set<Node>, unfinished: set<Node>,
                     comp: set<Node>, done: set<Node>, node: Node, y: Node)
    requires Symmetric(edges) && nodes == edges.Keys
    requires Partition(nodes, unfinished, comp, done) && ClosedSet(edges, done)
    requires node in comp && y in Adj(edges, node) && y !in unfinished
    ensures y in comp
  {
    assert node in Adj(edges, y);
  }

  /** Every node of comp that is not open has all its neighbours in comp. */
  ghost predicate FinishedClosed(edges: map<Node, set<Node>>, comp: set<Node>, open: set<Node>)
  {
    forall x :: x in comp && x !in open ==> Adj(edges, x) <= comp
  }

  /** Visiting the neighbours of the open node taken out keeps the finished
      nodes closed; the nodes added are open. */
  lemma FinishedStep(edges: map<Node, set<Node>>, comp: set<Node>, open: set<Node>, node: Node,
                     comp2: set<Node>, open2: set<Node>)
    requires FinishedClosed(edges, comp, open) && node in open && open <= comp
    requires comp <= comp2 && open2 == (open - {node}) + (comp2 - comp) && Adj(edges, node) <= comp2
    ensures FinishedClosed(edges, comp2, open2) && open2 <= comp2
  {
  }

  /** Closing the current component: it joins the components found. */
  lemma PartitionClose(nodes: set<Node>, unfinished: set<Node>, comp: set<Node>, done: set<Node>)
    requires Partition(nodes, unfinished, comp, done)
    ensures Partition(nodes, unfinished, {}, done + comp)
  {
  }

  /** A set that loses an element gets smaller. */
  lemma Shrinks(u: set<Node>, v: set<Node>)
    requires v <= u && v != u
    ensures |v| < |u|
  {
    assert v == u - (u - v);
  }

  /** The least element of a non-empty set: the first element of a
      flat_set. */
  function Least(s: set<Node>): (m: Node)
    requires s != {}
    ensures m in s && forall x :: x in s ==> m <= x
  {
    LeastExists(s);
    var m :| m in s && forall x :: x in s ==> m <= x;
    m
  }

  /** The elements of a flat_set in the order it iterates them: ascending. */
  function Ascending(s: set<Node>): (r: seq<Node>)
    ensures forall x :: x in r <==> x in s
    ensures forall i, j :: 0 <= i < j < |r| ==> r[i] < r[j]
    decreases |s|
  {
    if s == {} then []
    else
      var m := Least(s);
      [m] + Ascending(s - {m})
  }

  /** The set of the elements of a sequence, collected from the front. */
  function Elems(r: seq<Node>): set<Node>
  {
    if r == [] then {} else Elems(r[..|r| - 1]) + {r[|r| - 1]}
  }

  lemma {:induction false} ElemsMembers(r: seq<Node>)
    ensures forall x :: x in Elems(r) <==> x in r
  {
    if r != [] {
      ElemsMembers(r[..|r| - 1]);
      assert r == r[..|r| - 1] + [r[|r| - 1]];
    }
  }

  /** The adjacency after addEdge(a, b): b is added to the neighbours of
      a, then a to those of b. */
  function AddPair(e: map<Node, set<Node>>, a: Node, b: Node): map<Node, set<Node>>
  {
    var e1 := e[a := Adj(e, a) + {b}];
    e1[b := Adj(e1, b) + {a}]
  }

  /** The neighbours of x after adding a-b: b gains a, a gains b. */
  lemma AddPairAt(e: map<Node, set<Node>>, a: Node, b: Node, x: Node)
    ensures Adj(AddPair(e, a, b), x) ==
      Adj(e, x) + (if x == a then {b} else {}) + (if x == b then {a} else {})
  {
  }

  /** Adding an edge in both directions keeps the adjacency symmetric. */
  lemma AddPairSymmetric(e: map<Node, set<Node>>, a: Node, b: Node)
    requires Symmetric(e)
    ensures Symmetric(AddPair(e, a, b))
  {
    var r := AddPair(e, a, b);
    forall x, y | y in Adj(r, x)
      ensures x in Adj(r, y)
    {
      AddPairAt(e, a, b, x);
      AddPairAt(e, a, b, y);
    }
  }

  /** The neighbours of x once a has been joined to every node of done. */
  function Star(e: map<Node, set<Node>>, a: Node, done: set<Node>, x: Node): set<Node>
  {
    Adj(e, x) + (if x == a then done else {}) + (if x in done then {a} else {})
  }

  /** e is e0 with a joined to every node of done. */
  ghost predicate IsStar(e: map<Node, set<Node>>, e0: map<Node, set<Node>>, a: Node, done: set<Node>)
  {
    forall x :: Adj(e, x) == Star(e0, a, done, x)
  }

  /** addEdge(a, b) for every b of bs in turn: the inner loop of
      addCompleteGraph. */
  function StarFold(e: map<Node, set<Node>>, a: Node, bs: seq<Node>): map<Node, set<Node>>
  {
    if bs == [] then e else AddPair(StarFold(e, a, bs[..|bs| - 1]), a, bs[|bs| - 1])
  }

  /** The inner loop joins a to every node of bs and to nothing else. */
  lemma {:induction false} StarFoldAdj(e: map<Node, set<Node>>, a: Node, bs: seq<Node>)
    ensures IsStar(StarFold(e, a, bs), e, a, Elems(bs))
  {
    if bs != [] {
      var p := bs[..|bs| - 1];
      StarFoldAdj(e, a, p);
      forall x
        ensures Adj(StarFold(e, a, bs), x) == Star(e, a, Elems(bs), x)
      {
        AddPairAt(StarFold(e, a, p), a, bs[|bs| - 1], x);
        assert Adj(StarFold(e, a, p), x) == Star(e, a, Elems(p), x);
      }
    }
  }

  /** The inner loop gives a and the nodes of bs an entry, and no other node. */
  lemma {:induction false} StarFoldKeys(e: map<Node, set<Node>>, a: Node, bs: seq<Node>)
    ensures StarFold(e, a, bs).Keys == e.Keys + if bs == [] then {} else {a} + Elems(bs)
  {
    if bs != [] {
      StarFoldKeys(e, a, bs[..|bs| - 1]);
    }
  }

  /** The neighbours of x once every node of done has been joined to every
      node of s. */
  function Clique(e: map<Node, set<Node>>, done: set<Node>, s: set<Node>, x: Node): set<Node>
  {
    Adj(e, x) + (if x in done then s else {}) + (if x in s then done else {})
  }

  /** e is e0 with every node of done joined to every node of s. */
  ghost predicate IsClique(e: map<Node, set<Node>>, e0: map<Node, set<Node>>, done: set<Node>, s: set<Node>)
  {
    forall x :: Adj(e, x) == Clique(e0, done, s, x)
  }

  /** The inner loop for every a of heads in turn: the outer loop of
      addCompleteGraph over the nodes r. */
  function CliqueFold(e: map<Node, set<Node>>, heads: seq<Node>, r: seq<Node>): map<Node, set<Node>>
  {
    if heads == [] then e else StarFold(CliqueFold(e, heads[..|heads| - 1], r), heads[|heads| - 1], r)
  }

  /** The outer loop joins every node of heads to every node of r. */
  lemma {:induction false} CliqueFoldAdj(e: map<Node, set<Node>>, heads: seq<Node>, r: seq<Node>)
    ensures IsClique(CliqueFold(e, heads, r), e, Elems(heads), Elems(r))
  {
    if heads != [] {
      var p := heads[..|heads| - 1];
      var a := heads[|heads| - 1];
      CliqueFoldAdj(e, p, r);
      StarFoldAdj(CliqueFold(e, p, r), a, r);
      forall x
        ensures Adj(CliqueFold(e, heads, r), x) == Clique(e, Elems(heads), Elems(r), x)
      {
        assert Adj(CliqueFold(e, heads, r), x) == Star(CliqueFold(e, p, r), a, Elems(r), x);
        assert Adj(CliqueFold(e, p, r), x) == Clique(e, Elems(p), Elems(r), x);
      }
    }
  }

  /** The outer loop gives the nodes of heads and r an entry, and no other
      node. */
  lemma {:induction false} CliqueFoldKeys(e: map<Node, set<Node>>, heads: seq<Node>, r: seq<Node>)
    ensures CliqueFold(e, heads, r).Keys == e.Keys + if heads == [] || r == [] then {} else Elems(heads) + Elems(r)
  {
    if heads != [] {
      CliqueFoldKeys(e, heads[..|heads| - 1], r);
      StarFoldKeys(CliqueFold(e, heads[..|heads| - 1], r), heads[|heads| - 1], r);
    }
  }

  /** Both loops of addCompleteGraph over the nodes r of s join every node
      of s to every node of s, and give exactly these nodes an entry. */
  lemma CompleteGraph(e0: map<Node, set<Node>>, r: seq<Node>, s: set<Node>)
    requires Symmetric(e0)
    requires forall x :: x in r <==> x in s
    ensures CliqueFold(e0, r, r).Keys == e0.Keys + s
    ensures IsClique(CliqueFold(e0, r, r), e0, s, s)
    ensures Symmetric(CliqueFold(e0, r, r))
  {
    CliqueFoldAdj(e0, r, r);
    CliqueFoldKeys(e0, r, r);
    ElemsMembers(r);
    assert Elems(r) == s;
    CliqueSymmetric(e0, CliqueFold(e0, r, r), s);
  }

  /** A complete graph on s added to a symmetric adjacency keeps it
      symmetric. */
  lemma CliqueSymmetric(e0: map<Node, set<Node>>, e: map<Node, set<Node>>, s: set<Node>)
    requires Symmetric(e0) && IsClique(e, e0, s, s)
    ensures Symmetric(e)
  {
    forall x, y | y in Adj(e, x)
      ensures x in Adj(e, y)
    {
      assert Adj(e, x) == Clique(e0, s, s, x);
      assert Adj(e, y) == Clique(e0, s, s, y);
    }
  }

  class UndirectedGraph {
    var nodes: set<Node>
    var edges: map<Node, set<Node>>

    /** Every node has an adjacency entry, and edges go both ways. */
    ghost predicate Valid()
      reads this
    {
      nodes == edges.Keys && Symmetric(edges)
    }

    /** A new graph has no nodes and no edges. */
    constructor ()
      ensures Valid() && nodes == {} && edges == map[]
    {
      nodes := {};
      edges := map[];
    }

    /** addEdge: both nodes are added, b becomes a neighbour of a and a of
        b (AddPairAt, AddPairSymmetric). */
    method AddEdge(a: Node, b: Node)
      modifies this
      ensures nodes == old(nodes) + {a, b}
      ensures edges == AddPair(old(edges), a, b)
    {
      nodes := nodes + {a};
      edges := edges[a := Adj(edges, a) + {b}];
      nodes := nodes + {b};
      edges := edges[b := Adj(edges, b) + {a}];
    }

    /** The inner loop of addCompleteGraph: addEdge(a, b) for every b of r
        in turn (StarFoldAdj, StarFoldKeys). */
    method AddEdgesFrom(a: Node, r: seq<Node>)
      requires nodes == edges.Keys
      modifies this
      ensures nodes == edges.Keys && edges == StarFold(old(edges), a, r)
    {
      ghost var e0 := edges;
      for j := 0 to |r|
        invariant nodes == edges.Keys && edges == StarFold(e0, a, r[..j])
      {
        AddEdge(a, r[j]);
        assert r[..j + 1][..j] == r[..j];
      }
      assert r[..|r|] == r;
    }

    /** addCompleteGraph: an edge between every two of the given nodes, each
        node with itself included, added by walking the node set in
        ascending order twice over. */
    method AddCompleteGraph(newNodes: seq<Node>)
      requires Valid()
      modifies this
      ensures Valid()
      ensures nodes == old(nodes) + set x | x in newNodes
      ensures IsClique(edges, old(edges), set x | x in newNodes, set x | x in newNodes)
    {
      var r := Ascending(set x | x in newNodes);
      ghost var e0 := edges;
      for i := 0 to |r|
        invariant nodes == edges.Keys && edges == CliqueFold(e0, r[..i], r)
      {
        AddEdgesFrom(r[i], r);
        assert r[..i + 1][..i] == r[..i];
      }
      assert r[..|r|] == r;
      CompleteGraph(e0, r, set x | x in newNodes);
    }

    /** neighbors: edges.at(node), which throws std::out_of_range for a
        node that is not in the graph (None here). Every neighbour is a
        node of the graph with node among its own neighbours. */
    function Neighbors(node: Node): (r: Option<set<Node>>)
      reads this
      requires Valid()
      ensures r.Some? <==> node in nodes
      ensures r.Some? ==> forall y :: y in r.value ==> y in nodes && node in Adj(edges, y)
    {
      SymmetricKeys(edges);
      if node in edges then Some(Adj(edges, node)) else None
    }

    /** getNodes. */
    function GetNodes(): (r: set<Node>)
      reads this
      requires Valid()
      ensures r == edges.Keys
    {
      nodes
    }

    /** clear: no nodes and no edges are left. */
    method Clear()
      modifies this
      ensures Valid() && nodes == {} && edges == map[]
    {
      nodes := {};
      edges := map[];
    }

    /** The loop over the neighbours of node, in ascending order: every
        unfinished neighbour joins the component and the open nodes, with
        the walk to node extended by one edge. */
    method VisitNeighbours(node: Node, first: Node, done: set<Node>, comp0: set<Node>, open0: set<Node>,
                           unfinished0: set<Node>, ghost paths0: map<Node, seq<Node>>)
      returns (comp: set<Node>, open: set<Node>, unfinished: set<Node>, ghost paths: map<Node, seq<Node>>)
      requires Valid() && node in comp0
      requires Partition(nodes, unfinished0, comp0, done) && ClosedSet(edges, done)
      requires Rooted(edges, comp0, paths0, first)
      ensures Partition(nodes, unfinished, comp, done) && Rooted(edges, comp, paths, first)
      ensures comp0 <= comp && comp - comp0 <= unfinished0
      ensures open == open0 + (comp - comp0) && unfinished == unfinished0 - (comp - comp0)
      ensures Adj(edges, node) <= comp
    {
      comp, open, unfinished, paths := comp0, open0, unfinished0, paths0;
      var r := Ascending(edges[node]);
      for j := 0 to |r|
        invariant Partition(nodes, unfinished, comp, done) && Rooted(edges, comp, paths, first)
        invariant comp0 <= comp && comp - comp0 <= unfinished0
        invariant open == open0 + (comp - comp0) && unfinished == unfinished0 - (comp - comp0)
        invariant forall k :: 0 <= k < j ==> r[k] in comp
      {
        var adjNode := r[j];
        if adjNode in unfinished {
          ConnectsExtend(edges, paths[node], first, node, adjNode);
          paths := paths[adjNode := paths[node] + [adjNode]];
          comp := comp + {adjNode};
          open := open + {adjNode};
          unfinished := unfinished - {adjNode};
        } else {
          NotInEarlier(edges, nodes, unfinished, comp, done, node, adjNode);
        }
      }
    }

    /** One round of the breadth first search, from first: the least open
        node is taken out and its neighbours visited until no node is
        open. The result is the component of first. */
    method Explore(first: Node, done: set<Node>, unfinished0: set<Node>)
      returns (comp: set<Node>, unfinished: set<Node>, ghost paths: map<Node, seq<Node>>)
      requires Valid() && first in unfinished0
      requires Partition(nodes, unfinished0, {}, done) && ClosedSet(edges, done)
      ensures Partition(nodes, unfinished, comp, done) && Rooted(edges, comp, paths, first)
      ensures first in comp && unfinished <= unfinished0
      ensures ClosedSet(edges, comp)
    {
      comp := {first};
      var open := {first};
      unfinished := unfinished0 - {first};
      paths := map[first := [first]];
      while open != {}
        invariant Partition(nodes, unfinished, comp, done) && Rooted(edges, comp, paths, first)
        invariant first in comp && open <= comp && unfinished <= unfinished0
        invariant FinishedClosed(edges, comp, open)
        decreases |unfinished|, |open|
      {
        var node := Least(open);
        ghost var compBefore, openBefore, unfinishedBefore := comp, open, unfinished;
        open := open - {node};
        comp, open, unfinished, paths := VisitNeighbours(node, first, done, comp, open, unfinished, paths);
        FinishedStep(edges, compBefore, openBefore, node, comp, open);
        if unfinished != unfinishedBefore {
          Shrinks(unfinishedBefore, unfinished);
        } else {
          assert comp - compBefore == {};
          Shrinks(openBefore, open);
        }
      }
    }

    /** getConnectedComponents: rounds of a breadth first search, each
        started from the least unfinished node. The components are
        non-empty, pairwise disjoint and cover the nodes; no edge leaves a
        component, and the nodes of one component reach each other. */
    method GetConnectedComponents() returns (cs: seq<set<Node>>)
      requires Valid()
      ensures forall i :: 0 <= i < |cs| ==> cs[i] != {}
      ensures Disjoint(cs)
      ensures forall x :: x in nodes <==> exists i :: 0 <= i < |cs| && x in cs[i]
      ensures Closed(edges, cs)
      ensures forall i :: 0 <= i < |cs| ==> AllConnected(edges, cs[i])
    {
      var unfinished := nodes;
      cs := [];
      while unfinished != {}
        invariant Partition(nodes, unfinished, {}, Union(cs)) && Disjoint(cs)
        invariant Components(edges, cs)
        decreases |unfinished|
      {
        var first := Least(unfinished);
        assert Closed(edges, cs);
        ClosedUnion(edges, cs);
        ghost var before := unfinished;
        var comp;
        ghost var paths;
        comp, unfinished, paths := Explore(first, Union(cs), unfinished);
        PartitionClose(nodes, unfinished, comp, Union(cs));
        RootedConnected(edges, comp, paths, first);
        ComponentsSnoc(edges, cs, comp);
        DisjointSnoc(cs, comp);
        UnionSnoc(cs, comp);
        Shrinks(before, unfinished);
        cs := cs + [comp];
      }
      UnionMembers(cs);
    }
  }
}
