/** NodeStorage (libs/hypertrie/src/dice/hypertrie/internal/raw/node/NodeStorage.hpp)
    for one depth: the single-entry nodes and the full nodes stored under
    their identifiers, each with a reference count. */
module NodeStorages {
  import opened Wrappers
  import opened Identifiers

  /** A SingleEntryNode: its one entry and its reference count. */
  datatype SenNode<K> = SenNode(key: seq<K>, value: int, refCount: nat)

  /** A FullNode, of which only the reference count is modelled. */
  datatype FullNode = FullNode(refCount: nat)

  /** NodeContainer: nothing, a full node or a single-entry node, with the
      identifier it was found under. */
  datatype NodeContainer<K> =
    | EmptyContainer
    | FnContainer(fnId: Identifier, fn: FullNode)
    | SenContainer(senId: Identifier, sen: SenNode<K>)

  /** A stored node is deleted once its count drops to 0, so every stored
      single-entry node has a positive count. */
  predicate CountsPositive<K>(nodes: map<Identifier, SenNode<K>>)
  {
    forall id :: id in nodes ==> nodes[id].refCount > 0
  }

  /** The assertions of update_or_create_sen: an existing node's count does
      not go below 0, and a node is only created with a positive delta and
      from an entry that is given. */
  predicate UpdateAllowed<K>(nodes: map<Identifier, SenNode<K>>, id: Identifier,
                             sen: Option<SingleEntry<K>>, delta: int)
  {
    delta != 0 ==>
      if id in nodes then nodes[id].refCount + delta >= 0 else delta > 0 && sen.Some?
  }

  /** The single-entry nodes and the sen argument after
      update_or_create_sen(identifier, sen, delta). */
  function UpdateSen<K>(nodes: map<Identifier, SenNode<K>>, id: Identifier,
                        sen: Option<SingleEntry<K>>, delta: int)
    : (r: (map<Identifier, SenNode<K>>, Option<SingleEntry<K>>))
    requires UpdateAllowed(nodes, id, sen, delta)
    // a delta of 0 changes nothing
    ensures delta == 0 ==> r == (nodes, sen)
    // no other identifier's node changes
    ensures forall other :: other != id ==>
              (other in r.0 <==> other in nodes) && (other in nodes ==> r.0[other] == nodes[other])
    // an existing node hands out its entry, and its count moves by delta;
    // it is deleted exactly when the count reaches 0
    ensures delta != 0 && id in nodes ==>
              r.1 == Some(SingleEntry(nodes[id].key, nodes[id].value)) &&
              (id in r.0 <==> nodes[id].refCount + delta != 0) &&
              (id in r.0 ==> r.0[id] == nodes[id].(refCount := nodes[id].refCount + delta))
    // an absent node is created from sen with count delta
    ensures delta != 0 && id !in nodes ==>
              r.1 == sen && id in r.0 && r.0[id] == SenNode(sen.value.key, sen.value.value, delta)
    // stored counts stay positive
    ensures CountsPositive(nodes) ==> CountsPositive(r.0)
  {
    if delta == 0 then (nodes, sen)
    else if id in nodes then
      var node := nodes[id];
      var count := node.refCount + delta;
      var entry := Some(SingleEntry(node.key, node.value));
      if count == 0 then (nodes - {id}, entry) else (nodes[id := node.(refCount := count)], entry)
    else
      (nodes[id := SenNode(sen.value.key, sen.value.value, delta)], sen)
  }

  /** An update of an existing node whose count stays positive only
      changes that node's count. */
  lemma UpdateExisting<K>(nodes: map<Identifier, SenNode<K>>, id: Identifier,
                          sen: Option<SingleEntry<K>>, d: int)
    requires d != 0 && id in nodes && nodes[id].refCount + d > 0
    ensures UpdateAllowed(nodes, id, sen, d)
    ensures UpdateSen(nodes, id, sen, d).0 == nodes[id := nodes[id].(refCount := nodes[id].refCount + d)]
  {
  }

  /** Two updates of an existing node whose count stays positive add up
      to one update by their sum. */
  lemma UpdatesAddUp<K>(nodes: map<Identifier, SenNode<K>>, id: Identifier,
                        sen: Option<SingleEntry<K>>, d1: int, d2: int)
    requires d1 != 0 && d2 != 0 && d1 + d2 != 0
    requires id in nodes && nodes[id].refCount + d1 > 0 && nodes[id].refCount + d1 + d2 > 0
    ensures UpdateAllowed(nodes, id, sen, d1)
    ensures UpdateAllowed(UpdateSen(nodes, id, sen, d1).0, id, sen, d2)
    ensures UpdateAllowed(nodes, id, sen, d1 + d2)
    ensures UpdateSen(UpdateSen(nodes, id, sen, d1).0, id, sen, d2).0 == UpdateSen(nodes, id, sen, d1 + d2).0
  {
    var node := nodes[id];
    UpdateExisting(nodes, id, sen, d1);
    var once := nodes[id := node.(refCount := node.refCount + d1)];
    UpdateExisting(once, id, sen, d2);
    UpdateExisting(nodes, id, sen, d1 + d2);
    assert once[id := node.(refCount := node.refCount + d1 + d2)] == nodes[id := node.(refCount := node.refCount + d1 + d2)];
  }

  /** Creating a node and then releasing all its references leaves the
      storage as it was. */
  lemma CreateThenRelease<K>(nodes: map<Identifier, SenNode<K>>, id: Identifier,
                             e: SingleEntry<K>, n: nat)
    requires id !in nodes && n > 0
    ensures UpdateAllowed(nodes, id, Some(e), n)
    ensures var (created, _) := UpdateSen(nodes, id, Some(e), n);
            UpdateAllowed(created, id, None, -(n as int)) &&
            UpdateSen(created, id, None, -(n as int)) == (nodes, Some(e))
  {
    var created := UpdateSen(nodes, id, Some(e), n).0;
    assert created - {id} == nodes;
  }

  /** The storage of one depth. */
  class NodeStorage<K> {
    var senNodes: map<Identifier, SenNode<K>>
    var fullNodes: map<Identifier, FullNode>

    /** The storage keeps no single-entry node with a count of 0. */
    predicate Valid()
      reads this
    {
      CountsPositive(senNodes)
    }

    /** An empty storage. */
    constructor ()
      ensures senNodes == map[] && fullNodes == map[] && Valid()
    {
      senNodes := map[];
      fullNodes := map[];
    }

    /** update_or_create_sen: for an existing node, add delta to its count,
        set sen to its entry and delete it at count 0; for an absent one,
        create it from sen with count delta; a delta of 0 does nothing. */
    method UpdateOrCreateSen(id: Identifier, sen: Option<SingleEntry<K>>, delta: int)
      returns (senOut: Option<SingleEntry<K>>)
      requires UpdateAllowed(senNodes, id, sen, delta)
      modifies this
      ensures (senNodes, senOut) == UpdateSen(old(senNodes), id, sen, delta)
      ensures fullNodes == old(fullNodes)
      ensures old(Valid()) ==> Valid()
    {
      senOut := sen;
      if delta != 0 {
        if id in senNodes {
          var node := senNodes[id];
          var count := node.refCount + delta;
          senNodes := senNodes[id := node.(refCount := count)];
          senOut := Some(SingleEntry(node.key, node.value));
          if count == 0 {
            senNodes := senNodes - {id};
          }
        } else {
          senNodes := senNodes[id := SenNode(sen.value.key, sen.value.value, delta)];
        }
      }
      assert senNodes == UpdateSen(old(senNodes), id, sen, delta).0;
    }

    /** lookup<depth, SingleEntryNode>: the node, or None (a null pointer). */
    function LookupSen(id: Identifier): (r: Option<SenNode<K>>)
      reads this
      ensures r.Some? <==> id in senNodes
      ensures r.Some? ==> r.value == senNodes[id]
    {
      if id in senNodes then Some(senNodes[id]) else None
    }

    /** lookup<depth, FullNode>: the node, or None (a null pointer). */
    function LookupFull(id: Identifier): (r: Option<FullNode>)
      reads this
      ensures r.Some? <==> id in fullNodes
      ensures r.Some? ==> r.value == fullNodes[id]
    {
      if id in fullNodes then Some(fullNodes[id]) else None
    }

    /** lookup<depth>: an empty identifier gives the empty container; a
        full-node identifier is looked up among the full nodes, any other
        among the single-entry nodes; a miss gives the empty container. */
    function Lookup(id: Identifier): (c: NodeContainer<K>)
      reads this
      ensures Empty(id) ==> c == EmptyContainer
      ensures c.FnContainer? <==> !Empty(id) && IsFn(id) && id in fullNodes
      ensures c.SenContainer? <==> !Empty(id) && !IsFn(id) && id in senNodes
      ensures c.FnContainer? ==> c == FnContainer(id, fullNodes[id])
      ensures c.SenContainer? ==> c == SenContainer(id, senNodes[id])
    {
      if Empty(id) then EmptyContainer
      else if IsFn(id) then
        match LookupFull(id)
        case Some(fn) => FnContainer(id, fn)
        case None => EmptyContainer
      else
        match LookupSen(id)
        case Some(sen) => SenContainer(id, sen)
        case None => EmptyContainer
    }
  }

  /** A non-empty identifier that is not a full-node identifier is a
      single-entry identifier, so the else branch of lookup<depth> is the
      is_sen case. */
  lemma NotFnIsSen(id: Identifier)
    requires !Empty(id) && !IsFn(id)
    ensures IsSen(id)
  {
    TagsExclusive(id);
  }
}
