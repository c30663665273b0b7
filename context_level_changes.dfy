/** ContextLevelChanges
    (libs/hypertrie/src/dice/hypertrie/internal/raw/node_context/ContextLevelChanges.hpp):
    the changes planned for the nodes of one depth during an update, that
    is reference-count deltas, single-entry nodes to create, full nodes to
    create and full nodes to change into others.

    The bookkeeping only compares identifiers and asks for their tags, so it
    is written for any identifier type I with the identifier operations it
    calls passed in as Ops; IdentifierOps supplies those of Identifiers. */
module ContextLevels {
  import opened Wrappers
  import Identifiers
  import NodeStorages
  import opened Moveables

  type SingleEntry<K> = Identifiers.SingleEntry<K>

  /** The identifier operations used, and the compile-time facts of the
      level: is_fn and is_sen; the identifier of one entry (RawIdentifier of
      an entry); that of several (RawIdentifier of a vector); combine;
      get_entry, which reads the entry of an identifier it is tagged into;
      the default identifier; and whether the depth is 1 with bool values
      and key parts taggable into the identifier. */
  datatype Ops<!I, !K> = Ops(
    isFn: I -> bool,
    isSen: I -> bool,
    single: SingleEntry<K> -> I,
    build: seq<SingleEntry<K>> -> I,
    combine: (I, I) -> I,
    entryOf: I -> SingleEntry<K>,
    none: I,
    boolTaggedDepthOne: bool)

  /** The operations of RawIdentifier, with the entry hash H. */
  function IdentifierOps<K>(H: SingleEntry<K> -> Identifiers.Word, boolTaggedDepthOne: bool,
                            entryOf: Identifiers.Identifier -> SingleEntry<K>)
    : Ops<Identifiers.Identifier, K>
  {
    Ops(Identifiers.IsFn, Identifiers.IsSen,
        e => Identifiers.EncodeSingleEntry(H, e),
        es => Identifiers.FromEntries(H, es),
        (a, b) => Identifiers.Combine(a, b),
        entryOf, Identifiers.Default(), boolTaggedDepthOne)
  }

  /** SEN_Change: a reference-count delta and, possibly, the entry. */
  datatype SenChange<K> = SenChange(delta: int, entry: Option<SingleEntry<K>>)

  /** FN_New: the identifier of the full node to create, the single-entry
      node it grows from, and its entries. */
  datatype FnNew<I, K> = FnNew(after: I, senNodeBefore: I, entries: seq<SingleEntry<K>>)

  /** The member maps and sets of ContextLevelChanges. */
  datatype Changes<I, K> = Changes(
    senNewOnes: map<I, SenChange<K>>,
    fnChanges: map<I, map<I, seq<SingleEntry<K>>>>,
    fnNewOnes: map<I, FnNew<I, K>>,
    fnDeltas: map<I, int>,
    fnIncs: set<I>,
    doneFns: set<I>,
    moveablesFns: map<I, set<I>>)

  /** No change planned yet. */
  function NoChanges<I, K>(): Changes<I, K>
  {
    Changes(map[], map[], map[], map[], {}, {}, map[])
  }

  /** The reads through operator[], which insert a default value. */
  function SenChangeOf<I, K>(m: map<I, SenChange<K>>, id: I): SenChange<K>
  {
    if id in m then m[id] else SenChange(0, None)
  }

  function FnNewOf<I, K>(ops: Ops<I, K>, m: map<I, FnNew<I, K>>, id: I): FnNew<I, K>
  {
    if id in m then m[id] else FnNew(ops.none, ops.none, [])
  }

  function ChangesOf<I, K>(m: map<I, map<I, seq<SingleEntry<K>>>>, id: I): map<I, seq<SingleEntry<K>>>
  {
    if id in m then m[id] else map[]
  }

  /** inc_ref(id, n): a full node's delta in fn_deltas, which also records
      it in fn_incs; any other identifier's delta in SEN_new_ones. */
  function IncRef<I, K>(ops: Ops<I, K>, c: Changes<I, K>, id: I, n: int): Changes<I, K>
  {
    if ops.isFn(id) then
      c.(fnDeltas := c.fnDeltas[id := DeltaOf(c.fnDeltas, id) + n], fnIncs := c.fnIncs + {id})
    else
      var change := SenChangeOf(c.senNewOnes, id);
      c.(senNewOnes := c.senNewOnes[id := change.(delta := change.delta + n)])
  }

  /** inc_ref moves exactly one delta by n: the full node's in fn_deltas,
      or the single-entry node's in SEN_new_ones. */
  lemma IncRefDeltas<I, K>(ops: Ops<I, K>, c: Changes<I, K>, id: I, n: int)
    ensures var r := IncRef(ops, c, id, n);
            (forall x :: DeltaOf(r.fnDeltas, x) == DeltaOf(c.fnDeltas, x) + (if ops.isFn(id) && x == id then n else 0)) &&
            (forall x :: SenChangeOf(r.senNewOnes, x).delta ==
                           SenChangeOf(c.senNewOnes, x).delta + (if !ops.isFn(id) && x == id then n else 0))
  {
  }

  /** inc_ref records a full node in fn_incs, keeps every single-entry
      change's entry, and touches nothing else. */
  lemma IncRefKeeps<I, K>(ops: Ops<I, K>, c: Changes<I, K>, id: I, n: int)
    ensures var r := IncRef(ops, c, id, n);
            (forall x :: SenChangeOf(r.senNewOnes, x).entry == SenChangeOf(c.senNewOnes, x).entry) &&
            r.fnIncs == (if ops.isFn(id) then c.fnIncs + {id} else c.fnIncs) &&
            r.fnChanges == c.fnChanges && r.fnNewOnes == c.fnNewOnes && r.moveablesFns == c.moveablesFns
  {
  }

  /** Two inc_ref calls on the same identifier add up. */
  lemma IncRefAccumulates<I, K>(ops: Ops<I, K>, c: Changes<I, K>, id: I, n: int, m: int)
    ensures IncRef(ops, IncRef(ops, c, id, n), id, m) == IncRef(ops, c, id, n + m)
  {
    if ops.isFn(id) {
      assert IncRef(ops, IncRef(ops, c, id, n), id, m).fnIncs == c.fnIncs + {id};
    }
  }

  /** add_node(entries, n): the identifier of a node with these entries,
      whose delta grows by n. A single entry goes to SEN_new_ones, with its
      entry unless it is tagged into the identifier; several entries make a
      full node, registered in FN_new_ones by the first call only. The
      entries must not be empty. */
  function AddNode<I, K>(ops: Ops<I, K>, c: Changes<I, K>, entries: seq<SingleEntry<K>>, n: int)
    : (Changes<I, K>, I)
    requires |entries| > 0
  {
    if |entries| == 1 then
      var id := ops.single(entries[0]);
      var change := SenChangeOf(c.senNewOnes, id);
      var entry := if ops.boolTaggedDepthOne then change.entry else Some(entries[0]);
      (c.(senNewOnes := c.senNewOnes[id := SenChange(change.delta + n, entry)]), id)
    else
      var id := ops.build(entries);
      if id in c.fnDeltas then
        (c.(fnDeltas := c.fnDeltas[id := c.fnDeltas[id] + n]), id)
      else
        var fnNewOnes := if id in c.fnNewOnes then c.fnNewOnes
                         else c.fnNewOnes[id := FnNew(ops.none, ops.none, entries)];
        (c.(fnDeltas := c.fnDeltas[id := n], fnNewOnes := fnNewOnes), id)
  }

  /** With the operations of RawIdentifier, add_node returns the
      identifier of its entries: a single-entry identifier for one entry,
      an FN-tagged one for several. */
  lemma AddNodeIdentifier<K>(H: SingleEntry<K> -> Identifiers.Word, tagged: bool,
                             entryOf: Identifiers.Identifier -> SingleEntry<K>,
                             c: Changes<Identifiers.Identifier, K>, entries: seq<SingleEntry<K>>, n: int)
    requires |entries| > 0
    ensures var id := AddNode(IdentifierOps(H, tagged, entryOf), c, entries, n).1;
            id == Identifiers.FromEntries(H, entries) &&
            (|entries| == 1 <==> Identifiers.IsSen(id)) &&
            (|entries| > 1 ==> !id.hash[Identifiers.TagPos])
  {
    Identifiers.FromEntriesTags(H, entries);
    if |entries| == 1 {
      Identifiers.EncodeIsFromOne(H, entries[0]);
    }
  }

  /** add_node with one entry: the entry's delta grows by n, and the entry
      is recorded unless it is tagged into the identifier. */
  lemma AddNodeSingle<I, K>(ops: Ops<I, K>, c: Changes<I, K>, e: SingleEntry<K>, n: int)
    ensures var (r, id) := AddNode(ops, c, [e], n);
            id == ops.single(e) &&
            SenChangeOf(r.senNewOnes, id).delta == SenChangeOf(c.senNewOnes, id).delta + n &&
            SenChangeOf(r.senNewOnes, id).entry ==
              (if ops.boolTaggedDepthOne then SenChangeOf(c.senNewOnes, id).entry else Some(e)) &&
            r.fnDeltas == c.fnDeltas && r.fnNewOnes == c.fnNewOnes
  {
  }

  /** add_node with several entries registers the full node in FN_new_ones
      once: a second call with the same entries only adds its n. */
  lemma AddNodeRegistersOnce<I, K>(ops: Ops<I, K>, c: Changes<I, K>, entries: seq<SingleEntry<K>>, n: int, m: int)
    requires |entries| > 1
    ensures var (c1, id) := AddNode(ops, c, entries, n);
            var (c2, id2) := AddNode(ops, c1, entries, m);
            id == id2 == ops.build(entries) &&
            (id !in c.fnDeltas ==>
               id in c1.fnNewOnes &&
               c1.fnNewOnes[id] == (if id in c.fnNewOnes then c.fnNewOnes[id] else FnNew(ops.none, ops.none, entries))) &&
            c2.fnNewOnes == c1.fnNewOnes &&
            DeltaOf(c2.fnDeltas, id) == DeltaOf(c.fnDeltas, id) + n + m
  {
  }

  /** insert_into_node(before, entries, decrementBefore), given the
      identifier after = combine(id(entries), before) it returns: the delta
      of after grows by 1. A single-entry node before becomes the full node
      after to create, listed in FN_new_ones; a full node before records
      the change to after in FN_changes unless one is recorded already. The
      delta of before is decremented only when decrementBefore is set, and
      never for a single-entry node tagged into its identifier. */
  function InsertInto<I, K>(ops: Ops<I, K>, c: Changes<I, K>, before: I, after: I,
                            entries: seq<SingleEntry<K>>, decrementBefore: bool): Changes<I, K>
  {
    var c1 := c.(fnDeltas := c.fnDeltas[after := DeltaOf(c.fnDeltas, after) + 1]);
    if ops.isSen(before) then InsertIntoSen(ops, c1, before, after, entries, decrementBefore)
    else InsertIntoFull(c1, before, after, entries, decrementBefore)
  }

  /** The single-entry branch of insert_into_node, after after's delta has
      grown. */
  function InsertIntoSen<I, K>(ops: Ops<I, K>, c1: Changes<I, K>, before: I, after: I,
                               entries: seq<SingleEntry<K>>, decrementBefore: bool): Changes<I, K>
  {
    if ops.boolTaggedDepthOne then
      var fnNew := FnNewOf(ops, c1.fnNewOnes, after);
      c1.(fnNewOnes := c1.fnNewOnes[after := fnNew.(entries := entries + [ops.entryOf(before)])])
    else
      var c2 := if decrementBefore then
                  var change := SenChangeOf(c1.senNewOnes, before);
                  c1.(senNewOnes := c1.senNewOnes[before := change.(delta := change.delta - 1)])
                else c1;
      c2.(fnNewOnes := c2.fnNewOnes[after := FnNew(after, before, entries)])
  }

  /** The full-node branch of insert_into_node, after after's delta has
      grown. */
  function InsertIntoFull<I, K>(c1: Changes<I, K>, before: I, after: I,
                                entries: seq<SingleEntry<K>>, decrementBefore: bool): Changes<I, K>
  {
    var c2 := if decrementBefore then c1.(fnDeltas := c1.fnDeltas[before := DeltaOf(c1.fnDeltas, before) - 1])
              else c1;
    var changes := ChangesOf(c2.fnChanges, before);
    var changes' := if after in changes then changes else changes[after := entries];
    c2.(fnChanges := c2.fnChanges[before := changes'])
  }

  /** The full-node deltas after insert_into_node: after's grows by 1, and
      the full node before's shrinks by 1 exactly when decrementBefore is
      set. */
  lemma InsertFnDeltas<I, K>(ops: Ops<I, K>, c: Changes<I, K>, before: I, after: I,
                             entries: seq<SingleEntry<K>>, decrementBefore: bool)
    ensures var r := InsertInto(ops, c, before, after, entries, decrementBefore);
            forall x :: DeltaOf(r.fnDeltas, x) ==
              DeltaOf(c.fnDeltas, x) + (if x == after then 1 else 0)
                - (if decrementBefore && !ops.isSen(before) && x == before then 1 else 0)
  {
  }

  /** The single-entry changes after insert_into_node: only a decremented,
      untagged single-entry node before loses 1; no entry changes. */
  lemma InsertSenDeltas<I, K>(ops: Ops<I, K>, c: Changes<I, K>, before: I, after: I,
                              entries: seq<SingleEntry<K>>, decrementBefore: bool)
    ensures var r := InsertInto(ops, c, before, after, entries, decrementBefore);
            forall x :: SenChangeOf(r.senNewOnes, x) ==
              SenChangeOf(c.senNewOnes, x).(delta := SenChangeOf(c.senNewOnes, x).delta
                - (if decrementBefore && ops.isSen(before) && !ops.boolTaggedDepthOne && x == before then 1 else 0))
  {
  }

  /** Without decrementBefore, insert_into_node leaves every delta but
      after's alone. */
  lemma NoDecrementWithoutFlag<I, K>(ops: Ops<I, K>, c: Changes<I, K>, before: I, after: I,
                                     entries: seq<SingleEntry<K>>)
    ensures var r := InsertInto(ops, c, before, after, entries, false);
            r.senNewOnes == c.senNewOnes &&
            forall x :: x != after ==> DeltaOf(r.fnDeltas, x) == DeltaOf(c.fnDeltas, x)
  {
    InsertFnDeltas(ops, c, before, after, entries, false);
  }

  /** A change recorded in FN_changes is never overwritten by
      insert_into_node. */
  lemma FirstChangeKept<I, K>(ops: Ops<I, K>, c: Changes<I, K>, before: I, after: I,
                              entries: seq<SingleEntry<K>>, decrementBefore: bool)
    ensures var r := InsertInto(ops, c, before, after, entries, decrementBefore);
            forall b, a :: b in c.fnChanges && a in c.fnChanges[b] ==>
              b in r.fnChanges && a in r.fnChanges[b] && r.fnChanges[b][a] == c.fnChanges[b][a]
  {
  }

  /** Inserting into a node that is not a single-entry node records the
      change to after, with these entries unless one was recorded before;
      inserting into a single-entry node records none. */
  lemma ChangeRecorded<I, K>(ops: Ops<I, K>, c: Changes<I, K>, before: I, after: I,
                             entries: seq<SingleEntry<K>>, decrementBefore: bool)
    ensures var r := InsertInto(ops, c, before, after, entries, decrementBefore);
            (!ops.isSen(before) ==>
               before in r.fnChanges && after in r.fnChanges[before] &&
               r.fnChanges[before][after] ==
                 (if after in ChangesOf(c.fnChanges, before) then c.fnChanges[before][after] else entries)) &&
            (ops.isSen(before) ==> r.fnChanges == c.fnChanges)
  {
  }

  /** A single-entry node before becomes the full node after to create:
      with before and the entries recorded, or, when before's entry is
      tagged into its identifier, with that entry appended to the entries. */
  lemma SenBecomesFull<I, K>(ops: Ops<I, K>, c: Changes<I, K>, before: I, after: I,
                            entries: seq<SingleEntry<K>>, decrementBefore: bool)
    requires ops.isSen(before)
    ensures var r := InsertInto(ops, c, before, after, entries, decrementBefore);
            after in r.fnNewOnes &&
            r.fnNewOnes[after] == (if ops.boolTaggedDepthOne
                                   then FnNewOf(ops, c.fnNewOnes, after).(entries := entries + [ops.entryOf(before)])
                                   else FnNew(after, before, entries)) &&
            forall x :: x != after && x in c.fnNewOnes ==> x in r.fnNewOnes && r.fnNewOnes[x] == c.fnNewOnes[x]
  {
  }

  /** With the operations of RawIdentifier, the node after an insertion of
      entries with a non-empty identifier into a non-empty node is
      FN-tagged. */
  lemma InsertIdentifier<K>(H: SingleEntry<K> -> Identifiers.Word, tagged: bool,
                            entryOf: Identifiers.Identifier -> SingleEntry<K>,
                            before: Identifiers.Identifier, entries: seq<SingleEntry<K>>)
    requires !Identifiers.Empty(before) && !Identifiers.Empty(Identifiers.FromEntries(H, entries))
    ensures var ops := IdentifierOps(H, tagged, entryOf);
            !ops.combine(ops.build(entries), before).hash[Identifiers.TagPos]
  {
  }

  /** ContextLevelChanges of one depth. */
  class ContextLevelChanges<I(==,!new), K> {
    const ops: Ops<I, K>
    var senNewOnes: map<I, SenChange<K>>
    var fnChanges: map<I, map<I, seq<SingleEntry<K>>>>
    var fnNewOnes: map<I, FnNew<I, K>>
    var fnDeltas: map<I, int>
    var fnIncs: set<I>
    var doneFns: set<I>
    var moveablesFns: map<I, set<I>>

    /** All members as one value. */
    function State(): Changes<I, K>
      reads this
    {
      Changes(senNewOnes, fnChanges, fnNewOnes, fnDeltas, fnIncs, doneFns, moveablesFns)
    }

    /** Nothing planned yet. */
    constructor (o: Ops<I, K>)
      ensures ops == o && State() == NoChanges()
    {
      ops := o;
      senNewOnes, fnChanges, fnNewOnes := map[], map[], map[];
      fnDeltas, fnIncs, doneFns, moveablesFns := map[], {}, {}, map[];
    }

    /** inc_ref. */
    method IncRefBy(id: I, n: int)
      modifies this
      ensures State() == IncRef(ops, old(State()), id, n)
    {
      if ops.isFn(id) {
        fnDeltas := fnDeltas[id := DeltaOf(fnDeltas, id) + n];
        fnIncs := fnIncs + {id};
      } else {
        var change := SenChangeOf(senNewOnes, id);
        senNewOnes := senNewOnes[id := change.(delta := change.delta + n)];
      }
    }

    /** add_node. */
    method AddNodeWith(entries: seq<SingleEntry<K>>, n: int) returns (id: I)
      requires |entries| > 0
      modifies this
      ensures (State(), id) == AddNode(ops, old(State()), entries, n)
    {
      if |entries| == 1 {
        id := ops.single(entries[0]);
        var change := SenChangeOf(senNewOnes, id);
        change := change.(delta := change.delta + n);
        if !ops.boolTaggedDepthOne {
          change := change.(entry := Some(entries[0]));
        }
        senNewOnes := senNewOnes[id := change];
        return;
      }
      id := ops.build(entries);
      if id in fnDeltas {
        fnDeltas := fnDeltas[id := fnDeltas[id] + n];
      } else {
        fnDeltas := fnDeltas[id := n];
        if id !in fnNewOnes {
          fnNewOnes := fnNewOnes[id := FnNew(ops.none, ops.none, entries)];
        }
      }
    }

    /** insert_into_node. */
    method InsertIntoNodeWith(before: I, entries: seq<SingleEntry<K>>, decrementBefore: bool)
      returns (after: I)
      modifies this
      ensures after == ops.combine(ops.build(entries), before)
      ensures State() == InsertInto(ops, old(State()), before, after, entries, decrementBefore)
    {
      after := ops.combine(ops.build(entries), before);
      fnDeltas := fnDeltas[after := DeltaOf(fnDeltas, after) + 1];
      ghost var c1 := State();
      if ops.isSen(before) {
        if ops.boolTaggedDepthOne {
          var change := FnNewOf(ops, fnNewOnes, after);
          change := change.(entries := entries + [ops.entryOf(before)]);
          fnNewOnes := fnNewOnes[after := change];
        } else {
          if decrementBefore {
            var change := SenChangeOf(senNewOnes, before);
            senNewOnes := senNewOnes[before := change.(delta := change.delta - 1)];
          }
          fnNewOnes := fnNewOnes[after := FnNew(after, before, entries)];
        }
        assert State() == InsertIntoSen(ops, c1, before, after, entries, decrementBefore);
      } else {
        if decrementBefore {
          fnDeltas := fnDeltas[before := DeltaOf(fnDeltas, before) - 1];
        }
        var changes := ChangesOf(fnChanges, before);
        if after !in changes {
          changes := changes[after := entries];
        }
        fnChanges := fnChanges[before := changes];
        assert State() == InsertIntoFull(c1, before, after, entries, decrementBefore);
      }
    }

    /** calc_moveables: for every full node before with recorded changes
        whose count plus delta is at most 0, mark the nodes after that are
        not stored, and make an entry for before only when one is marked.
        Reading fn_deltas[before] inserts a 0 delta. */
    method CalcMoveables(nodes: map<I, NodeStorages.FullNode>)
      requires BeforesStored(fnChanges, nodes)
      modifies this
      ensures Calculated(old(fnChanges), old(fnDeltas), nodes, old(moveablesFns), moveablesFns)
      ensures fnDeltas == DeltasWithBefores(old(fnDeltas), old(fnChanges).Keys)
      ensures senNewOnes == old(senNewOnes) && fnChanges == old(fnChanges) && fnNewOnes == old(fnNewOnes)
      ensures fnIncs == old(fnIncs) && doneFns == old(doneFns)
    {
      moveablesFns, fnDeltas := CalcMoveablesOf(fnChanges, fnDeltas, nodes, moveablesFns);
    }
  }
}
