/** calc_moveables of ContextLevelChanges
    (libs/hypertrie/src/dice/hypertrie/internal/raw/node_context/ContextLevelChanges.hpp):
    which full nodes after, that an update plans to change full nodes
    before into, are not stored yet while before loses its last reference,
    so that before's storage can be moved to after instead of copied.

    It works on the members fn_changes (before to after to entries),
    fn_deltas and moveables_fns as values, for any identifier type I; the
    entries recorded for a change are of any type V. */
module Moveables {
  import NodeStorages

  /** fn_deltas[id], where operator[] reads a missing delta as 0. */
  function DeltaOf<I>(m: map<I, int>, id: I): int
  {
    if id in m then m[id] else 0
  }

  /** moveables_fns[id], where operator[] reads a missing set as empty. */
  function MoveablesOf<I>(m: map<I, set<I>>, id: I): set<I>
  {
    if id in m then m[id] else {}
  }

  /** Every full node before with recorded changes must be stored, since
      nodes_[id_before] is dereferenced. */
  predicate BeforesStored<I, V>(changes: map<I, map<I, V>>, nodes: map<I, NodeStorages.FullNode>)
  {
    forall b :: b in changes ==> b in nodes
  }

  /** The nodes of s that are not stored. */
  function Unstored<I>(s: set<I>, nodes: map<I, NodeStorages.FullNode>): set<I>
  {
    set a | a in s && a !in nodes
  }

  /** The nodes after that calc_moveables marks for before: when before's
      count plus its delta is at most 0, the nodes after recorded for it
      that are not stored. */
  function Marked<I, V>(changes: map<I, map<I, V>>, deltas: map<I, int>,
                        nodes: map<I, NodeStorages.FullNode>, b: I): set<I>
  {
    if b in changes && b in nodes && nodes[b].refCount + DeltaOf(deltas, b) <= 0
    then Unstored(changes[b].Keys, nodes)
    else {}
  }

  /** What calc_moveables promises of the moveables_fns m it leaves, given
      the m0 it found: before's set gains exactly its marked nodes, and
      before gets an entry only when some node is marked. */
  ghost predicate Calculated<I(!new), V>(changes: map<I, map<I, V>>, deltas: map<I, int>,
                                         nodes: map<I, NodeStorages.FullNode>,
                                         m0: map<I, set<I>>, m: map<I, set<I>>)
  {
    (forall b, a :: a in MoveablesOf(m, b) <==>
       a in MoveablesOf(m0, b) ||
       (b in changes && b in nodes && nodes[b].refCount + DeltaOf(deltas, b) <= 0 &&
        a in changes[b] && a !in nodes)) &&
    (forall b :: b in m <==> b in m0 || Marked(changes, deltas, nodes, b) != {})
  }

  /** moveables_fns[b] with the set s inserted, which makes the entry for
      b only when s is not empty. */
  function AddMoveables<I>(m: map<I, set<I>>, b: I, s: set<I>): map<I, set<I>>
  {
    if s == {} then m else m[b := MoveablesOf(m, b) + s]
  }

  /** Looking at one more node after adds it when it is not stored. */
  lemma AddMoveablesStep<I>(start: map<I, set<I>>, b: I, seen: set<I>, a: I,
                            nodes: map<I, NodeStorages.FullNode>)
    ensures var m := AddMoveables(start, b, Unstored(seen, nodes));
            AddMoveables(start, b, Unstored(seen + {a}, nodes)) ==
              if a in nodes then m else m[b := MoveablesOf(m, b) + {a}]
  {
    if a in nodes {
      assert Unstored(seen + {a}, nodes) == Unstored(seen, nodes);
    } else {
      var u := Unstored(seen, nodes);
      assert Unstored(seen + {a}, nodes) == u + {a};
      var m := AddMoveables(start, b, u);
      assert MoveablesOf(m, b) == MoveablesOf(start, b) + u;
      assert MoveablesOf(start, b) + (u + {a}) == MoveablesOf(m, b) + {a};
    }
  }

  /** moveables_fns after visiting the befores of order one after the
      other, starting from m. */
  function MoveablesAfter<I, V>(changes: map<I, map<I, V>>, deltas: map<I, int>,
                                nodes: map<I, NodeStorages.FullNode>,
                                m: map<I, set<I>>, order: seq<I>): map<I, set<I>>
    decreases |order|
  {
    if order == [] then m
    else
      var b := order[|order| - 1];
      AddMoveables(MoveablesAfter(changes, deltas, nodes, m, order[..|order| - 1]), b,
                   Marked(changes, deltas, nodes, b))
  }

  /** Visiting one more before adds its marked nodes. */
  lemma MoveablesAfterStep<I, V>(changes: map<I, map<I, V>>, deltas: map<I, int>,
                                 nodes: map<I, NodeStorages.FullNode>,
                                 m: map<I, set<I>>, order: seq<I>, b: I)
    ensures MoveablesAfter(changes, deltas, nodes, m, order + [b]) ==
              AddMoveables(MoveablesAfter(changes, deltas, nodes, m, order), b, Marked(changes, deltas, nodes, b))
  {
    assert (order + [b])[..|order|] == order;
  }

  /** In whatever order the befores are visited, each visited one gains
      its marked nodes, and gets an entry only when some node is marked;
      visiting one twice changes nothing more. */
  lemma {:induction false} MoveablesAfterHolds<I, V>(changes: map<I, map<I, V>>, deltas: map<I, int>,
                                                     nodes: map<I, NodeStorages.FullNode>,
                                                     m: map<I, set<I>>, order: seq<I>)
    ensures forall x :: MoveablesOf(MoveablesAfter(changes, deltas, nodes, m, order), x) ==
              MoveablesOf(m, x) + (if x in order then Marked(changes, deltas, nodes, x) else {})
    ensures forall x :: x in MoveablesAfter(changes, deltas, nodes, m, order) <==>
              x in m || (x in order && Marked(changes, deltas, nodes, x) != {})
    decreases |order|
  {
    if order != [] {
      var init, b := order[..|order| - 1], order[|order| - 1];
      assert order == init + [b];
      MoveablesAfterHolds(changes, deltas, nodes, m, init);
      var before := MoveablesAfter(changes, deltas, nodes, m, init);
      var after := MoveablesAfter(changes, deltas, nodes, m, order);
      assert after == AddMoveables(before, b, Marked(changes, deltas, nodes, b));
      forall x
        ensures MoveablesOf(after, x) ==
                  MoveablesOf(m, x) + (if x in order then Marked(changes, deltas, nodes, x) else {})
        ensures x in after <==> x in m || (x in order && Marked(changes, deltas, nodes, x) != {})
      {
        assert x in order <==> x in init || x == b;
        if x == b && x in init {
          assert MoveablesOf(before, x) + Marked(changes, deltas, nodes, x) == MoveablesOf(before, x);
        }
      }
    }
  }

  /** The elements of a sequence. */
  function Elems<I>(s: seq<I>): set<I>
  {
    set x | x in s
  }

  lemma ElemsAppend<I>(s: seq<I>, x: I)
    ensures Elems(s + [x]) == Elems(s) + {x}
  {
    assert forall y :: y in s + [x] <==> y in s || y == x;
  }

  /** Once every before has been visited, in any order, moveables_fns is
      as calc_moveables promises. */
  lemma MoveablesDone<I(!new), V>(changes: map<I, map<I, V>>, deltas: map<I, int>,
                                  nodes: map<I, NodeStorages.FullNode>, m0: map<I, set<I>>, order: seq<I>)
    requires Elems(order) == changes.Keys
    ensures Calculated(changes, deltas, nodes, m0, MoveablesAfter(changes, deltas, nodes, m0, order))
  {
    var m := MoveablesAfter(changes, deltas, nodes, m0, order);
    MoveablesAfterHolds(changes, deltas, nodes, m0, order);
    forall b
      ensures b in m <==> b in m0 || Marked(changes, deltas, nodes, b) != {}
      ensures forall a :: a in MoveablesOf(m, b) <==>
                a in MoveablesOf(m0, b) ||
                (b in changes && b in nodes && nodes[b].refCount + DeltaOf(deltas, b) <= 0 &&
                 a in changes[b] && a !in nodes)
    {
      assert b in order <==> b in Elems(order);
      assert MoveablesOf(m, b) == MoveablesOf(m0, b) + Marked(changes, deltas, nodes, b);
    }
  }

  /** The fn_deltas after calc_moveables: operator[] put a delta of 0 for
      every before that had none. */
  function DeltasWithBefores<I>(deltas: map<I, int>, befores: set<I>): map<I, int>
  {
    map x | x in deltas.Keys + befores :: DeltaOf(deltas, x)
  }

  /** fn_deltas after the reads fn_deltas[b] for the befores of order,
      one after the other. */
  function DeltasRead<I>(deltas: map<I, int>, order: seq<I>): map<I, int>
    decreases |order|
  {
    if order == [] then deltas
    else
      var prev := DeltasRead(deltas, order[..|order| - 1]);
      prev[order[|order| - 1] := DeltaOf(prev, order[|order| - 1])]
  }

  /** Reading one more before through operator[]. */
  lemma DeltasReadStep<I>(deltas: map<I, int>, order: seq<I>, b: I)
    ensures DeltasRead(deltas, order + [b]) ==
              DeltasRead(deltas, order)[b := DeltaOf(DeltasRead(deltas, order), b)]
  {
    assert (order + [b])[..|order|] == order;
  }

  /** The reads leave every delta as it was and add the befores read. */
  lemma {:induction false} DeltasReadHolds<I>(deltas: map<I, int>, order: seq<I>)
    ensures DeltasRead(deltas, order) == DeltasWithBefores(deltas, Elems(order))
    decreases |order|
  {
    if order != [] {
      var init, b := order[..|order| - 1], order[|order| - 1];
      assert order == init + [b];
      DeltasReadHolds(deltas, init);
      ElemsAppend(init, b);
      var prev := DeltasWithBefores(deltas, Elems(init));
      assert prev[b := DeltaOf(prev, b)] == DeltasWithBefores(deltas, Elems(init) + {b});
    }
  }

  /** Moving one element from the part still to visit to the part
      visited keeps the two a partition of the whole. */
  lemma MoveOne<I>(visited: set<I>, rest: set<I>, whole: set<I>, x: I)
    requires visited + rest == whole && visited !! rest && x in rest
    ensures (visited + {x}) + (rest - {x}) == whole && (visited + {x}) !! (rest - {x})
  {
  }

  /** The inner loop of calc_moveables: moveables_fns[before] gets every
      node after that is not stored. */
  method MarkUnstored<I>(m: map<I, set<I>>, b: I, afters: set<I>, nodes: map<I, NodeStorages.FullNode>)
    returns (r: map<I, set<I>>)
    ensures r == AddMoveables(m, b, Unstored(afters, nodes))
  {
    r := m;
    var todo := afters;
    ghost var seen: set<I> := {};
    while todo != {}
      invariant seen + todo == afters && seen !! todo
      invariant r == AddMoveables(m, b, Unstored(seen, nodes))
      decreases |todo|
    {
      var a :| a in todo;
      AddMoveablesStep(m, b, seen, a, nodes);
      if a !in nodes {
        r := r[b := MoveablesOf(r, b) + {a}];
      }
      MoveOne(seen, todo, afters, a);
      todo := todo - {a};
      seen := seen + {a};
    }
  }

  /** One step of the outer loop of calc_moveables: before b, still to
      visit, is stored; its delta reads as in fn_deltas; reading it adds
      it to the befores read; and its unstored nodes after are marked
      exactly when its count plus delta is at most 0. */
  lemma VisitStep<I, V>(changes: map<I, map<I, V>>, deltas0: map<I, int>,
                        nodes: map<I, NodeStorages.FullNode>, m0: map<I, set<I>>,
                        order: seq<I>, todo: set<I>, b: I)
    requires BeforesStored(changes, nodes)
    requires Elems(order) + todo == changes.Keys && Elems(order) !! todo && b in todo
    ensures Elems(order + [b]) + (todo - {b}) == changes.Keys && Elems(order + [b]) !! (todo - {b})
    ensures b in changes && b in nodes
    ensures DeltaOf(DeltasRead(deltas0, order), b) == DeltaOf(deltas0, b)
    ensures DeltasRead(deltas0, order + [b]) == DeltasRead(deltas0, order)[b := DeltaOf(deltas0, b)]
    ensures MoveablesAfter(changes, deltas0, nodes, m0, order + [b]) ==
              if nodes[b].refCount + DeltaOf(deltas0, b) <= 0
              then AddMoveables(MoveablesAfter(changes, deltas0, nodes, m0, order), b, Unstored(changes[b].Keys, nodes))
              else MoveablesAfter(changes, deltas0, nodes, m0, order)
  {
    MoveOne(Elems(order), todo, changes.Keys, b);
    ElemsAppend(order, b);
    DeltasReadHolds(deltas0, order);
    DeltasReadStep(deltas0, order, b);
    MoveablesAfterStep(changes, deltas0, nodes, m0, order, b);
  }

  /** The loops of calc_moveables over fn_changes: every before is
      visited once, in some order; its delta is read through operator[],
      and when its count plus delta is at most 0 its unstored nodes after
      are inserted into moveables_fns[before]. */
  method CalcMoveablesOf<I(!new), V>(changes: map<I, map<I, V>>, deltas0: map<I, int>,
                                     nodes: map<I, NodeStorages.FullNode>, m0: map<I, set<I>>)
    returns (moveables: map<I, set<I>>, deltas: map<I, int>)
    requires BeforesStored(changes, nodes)
    ensures Calculated(changes, deltas0, nodes, m0, moveables)
    ensures deltas == DeltasWithBefores(deltas0, changes.Keys)
  {
    moveables, deltas := m0, deltas0;
    var todo := changes.Keys;
    ghost var order: seq<I> := [];
    while todo != {}
      invariant Elems(order) + todo == changes.Keys && Elems(order) !! todo
      invariant moveables == MoveablesAfter(changes, deltas0, nodes, m0, order)
      invariant deltas == DeltasRead(deltas0, order)
      decreases |todo|
    {
      var b :| b in todo;
      VisitStep(changes, deltas0, nodes, m0, order, todo, b);
      var delta := DeltaOf(deltas, b);
      deltas := deltas[b := delta];
      if nodes[b].refCount + delta <= 0 {
        moveables := MarkUnstored(moveables, b, changes[b].Keys, nodes);
      }
      todo := todo - {b};
      order := order + [b];
    }
    MoveablesDone(changes, deltas0, nodes, m0, order);
    DeltasReadHolds(deltas0, order);
  }
}
