/** A table as one thread uses it: row operations, each inside a transaction. */
module Tables {
  import opened Wrappers
  import opened SortedKeys
  import opened Positions
  import opened SkipListNodes
  import opened SkipLists
  import opened SkipListLevels
  import opened SkipListRuns
  import opened SkipListReplay
  import opened TransactionIds
  import opened ThreadContexts

  /** The row infos a transaction has touched. */
  ghost function Touched(transaction: Transaction?): set<RowInfo>
    reads transaction
  {
    if transaction == null then {} else set k | k in transaction.affectedRows :: k.rowInfo
  }

  lemma TouchedMeans(transaction: Transaction, row: RowInfo)
    ensures row in Touched(transaction) <==> exists k :: k in transaction.affectedRows && k.rowInfo == row
  {
  }

  datatype Marking = Marking(nodes: seq<SkipListNode>, pos: nat, status: Status)

  function MarkedRow(es: seq<Entry>, i: nat, status: Status): seq<Entry>
    requires i < |es|
  {
    es[i := es[i].(status := status)]
  }

  /** Marking one row changes that entry's status and nothing else. */
  twostate lemma MarkedEntries(m: Marking)
    requires 1 <= m.pos < |m.nodes| && old(Rowed(m.nodes))
    requires forall n :: n in m.nodes ==> n.rowInfo == old(n.rowInfo)
    requires forall n :: n in m.nodes && n != m.nodes[m.pos] && n.rowInfo != null && n.rowInfo != m.nodes[m.pos].rowInfo ==>
               unchanged(n.rowInfo)
    requires var row := m.nodes[m.pos].rowInfo;
             row != null && row.status == m.status && row.data == old(row.data) && row.size == old(row.size)
    ensures Rowed(m.nodes) && EntriesOf(m.nodes) == MarkedRow(old(EntriesOf(m.nodes)), m.pos - 1, m.status)
  {
  }

  /** An id taken and released leaves the active set as it was. */
  lemma TakenAndReleased(ids: Ids)
    requires WellNumbered(ids)
    ensures Release(Allocate(ids), ids.current + 1) == Ids(ids.current + 1, ids.active)
  {
  }

  lemma MarkedInserted(es: seq<Entry>, p: nat, e: Entry, status: Status)
    requires p <= |es|
    ensures |Inserted(es, p, e)| > p
    ensures MarkedRow(Inserted(es, p, e), p, status) == Inserted(es, p, e.(status := status))
  {
  }

  lemma TouchedOne(transaction: Transaction)
    requires |transaction.affectedRows| == 1
    ensures Touched(transaction) == {transaction.affectedRows[0].rowInfo}
  {
  }

  class Table {
    const primary: SkipList
    const manager: ThreadContextManager
    const context: ThreadContext
    const rowSize: uint16

    ghost predicate Valid()
      reads this, primary, primary.Repr, manager, context
      ensures Valid() ==> Ready(primary)
    {
      && Ready(primary)
      && manager !in primary.Repr && context !in primary.Repr
      && (context.transaction != null ==> context.transaction !in primary.Repr)
      && WellNumbered(manager.IdsNow())
    }

    constructor (primary: SkipList, manager: ThreadContextManager, context: ThreadContext, rowSize: uint16)
      requires Ready(primary)
      requires manager !in primary.Repr && context !in primary.Repr && context.transaction == null && WellNumbered(manager.IdsNow())
      ensures Valid()
      ensures this.primary == primary && this.manager == manager && this.context == context && this.rowSize == rowSize
    {
      this.primary := primary;
      this.manager := manager;
      this.context := context;
      this.rowSize := rowSize;
    }

    /** The id is handed out before the context finds that a transaction is already open. */
    method BeginTransaction() returns (r: Result<(), ContextError>)
      requires Valid()
      modifies manager, context
      ensures Valid() && manager.IdsNow() == Allocate(old(manager.IdsNow()))
      ensures old(context.transaction) != null ==> r == Err(TransactionOpen) && context.transaction == old(context.transaction)
      ensures old(context.transaction) == null ==>
                && r == Ok(()) && context.transaction != null && fresh(context.transaction)
                && context.transaction.affectedRows == []
                && context.transaction.transactionId == manager.IdsNow().current
                && context.transaction.viewpoint == ViewpointFor(manager.IdsNow(), manager.IdsNow().current)
    {
      var transactionId := manager.GetNextTransactionId();
      var viewpoint := 0;
      if transactionId > 1 {
        var minActiveTransactionId := manager.GetMinActiveTransactionId();
        if minActiveTransactionId == 0 || minActiveTransactionId > transactionId {
          viewpoint := transactionId - 1;
        } else {
          viewpoint := minActiveTransactionId - 1;
        }
      }
      r := context.BeginTransaction(transactionId, viewpoint);
    }

    /** Sets the status of every row a transaction touched. */
    method MarkRows(transaction: Transaction, status: Status)
      modifies Touched(transaction)
      ensures forall row :: row in Touched(transaction) ==>
                row.status == status && row.data == old(row.data) && row.size == old(row.size)
      ensures forall k :: k in transaction.affectedRows ==>
                && k.rowInfo.status == status
                && k.rowInfo.data == old(k.rowInfo.data) && k.rowInfo.size == old(k.rowInfo.size)
    {
      var rows := transaction.affectedRows;
      var i := 0;
      while i < |rows|
        invariant 0 <= i <= |rows| && rows == transaction.affectedRows
        invariant forall j :: 0 <= j < i ==> rows[j].rowInfo.status == status
        invariant forall row :: row in Touched(transaction) ==> row.data == old(row.data) && row.size == old(row.size)
      {
        assert rows[i] in transaction.affectedRows;
        rows[i].rowInfo.SetStatus(status);
        i := i + 1;
      }
    }

    /** Marks the touched rows, closes the context, then releases the id. */
    method Commit()
      requires Valid() && context.transaction != null
      modifies manager, context, Touched(context.transaction)
      ensures Valid() && context.transaction == null
      ensures manager.IdsNow() == Release(old(manager.IdsNow()), old(context.transaction.transactionId))
      ensures forall row :: row in old(Touched(context.transaction)) ==>
                row.status == Committed && row.data == old(row.data) && row.size == old(row.size)
      ensures forall k :: k in old(context.transaction.affectedRows) ==>
                && k.rowInfo.status == Committed
                && k.rowInfo.data == old(k.rowInfo.data) && k.rowInfo.size == old(k.rowInfo.size)
      ensures manager.transactionId == old(manager.transactionId) - {old(context.transaction.transactionId)}
    {
      hide Ready;
      var transaction := context.transaction;
      var transactionId := transaction.transactionId;
      MarkRows(transaction, Status.Committed);
      var r := context.Committed();
      manager.RemoveTransactionActive(transactionId);
    }

    /** Commits a transaction that has touched the row at position pos, or no row when pos is 0. */
    method CommitRow(ghost nodes: seq<SkipListNode>, ghost pos: nat)
      requires Valid() && context.transaction != null && nodes == primary.nodes && pos < |nodes|
      requires pos == 0 ==> context.transaction.affectedRows == []
      requires pos > 0 ==> Touched(context.transaction) == {nodes[pos].rowInfo}
      modifies manager, context, Touched(context.transaction)
      ensures Valid() && context.transaction == null
      ensures manager.IdsNow() == Release(old(manager.IdsNow()), old(context.transaction.transactionId))
      ensures Footprint(primary) == old(Footprint(primary))
      ensures EntriesOf(nodes) ==
              if pos == 0 then old(EntriesOf(nodes)) else MarkedRow(old(EntriesOf(nodes)), pos - 1, Committed)
    {
      hide Chained, Ordered, StrictlyOrdered, Rowed, EntriesOf, MarkedRow;
      label L:
      Commit();
      if pos > 0 {
        HasRow(nodes, pos);
        MarkedEntries@L(Marking(nodes, pos, Committed));
      }
    }

    method Rollback()
      requires Valid() && context.transaction != null
      modifies manager, context, Touched(context.transaction)
      ensures Valid() && context.transaction == null
      ensures manager.IdsNow() == Release(old(manager.IdsNow()), old(context.transaction.transactionId))
      ensures forall row :: row in old(Touched(context.transaction)) ==>
                row.status == Aborted && row.data == old(row.data) && row.size == old(row.size)
      ensures forall k :: k in old(context.transaction.affectedRows) ==>
                && k.rowInfo.status == Aborted
                && k.rowInfo.data == old(k.rowInfo.data) && k.rowInfo.size == old(k.rowInfo.size)
      ensures manager.transactionId == old(manager.transactionId) - {old(context.transaction.transactionId)}
    {
      hide Ready;
      var transaction := context.transaction;
      var transactionId := transaction.transactionId;
      MarkRows(transaction, Status.Aborted);
      var r := context.Aborted();
      manager.RemoveTransactionActive(transactionId);
    }

    // ---------- row operations in a transaction of their own ----------

    method InsertImplicit(key: Key, row: Data) returns (b: bool, ghost height: uint8)
      requires Valid() && context.transaction == null
      modifies primary.Repr, manager, context
      ensures Valid() && (forall o :: o in Footprint(primary) ==> o in old(Footprint(primary)) || fresh(o)) && context.transaction == null
      ensures b <==> key !in Keys(old(primary.nodes))
      ensures EntriesOf(primary.nodes) ==
              if !b then old(EntriesOf(primary.nodes))
              else Inserted(old(EntriesOf(primary.nodes)), LowerBound(Keys(old(primary.nodes)), key),
                            Entry(key, height, row, rowSize, Committed))
      ensures manager.IdsNow() == Ids(old(manager.IdsNow()).current + 1, old(manager.IdsNow()).active)
    {
      hide Chained, Ordered, StrictlyOrdered, Rowed, EntriesOf, EntryOf, Inserted, Removed, LowerBound, MarkedRow,
           UpdatedRow, Met, FirstIsTallest, Footprint;
      ghost var ids, es, p := manager.IdsNow(), EntriesOf(primary.nodes), LowerBound(Keys(primary.nodes), key);
      ghost var f := Footprint(primary);
      var started := BeginTransaction();
      assert Footprint(primary) == f;
      var transaction := context.transaction;
      var r;
      r, height := primary.Insert(key, row, rowSize, 0, transaction);
      b := r.value;
      f := Footprint(primary);
      if b { TouchedOne(transaction); }
      CommitRow(primary.nodes, if b then p + 1 else 0);
      TakenAndReleased(ids);
      assert Footprint(primary) == f;
      if b { MarkedInserted(es, p, Entry(key, height, row, rowSize, NoStatus), Committed); }
    }

    method DeleteImplicit(key: Key) returns (b: bool)
      requires Valid() && context.transaction == null
      modifies primary.Repr, manager, context
      ensures Valid() && (forall o :: o in Footprint(primary) ==> o in old(Footprint(primary)) || fresh(o)) && context.transaction == null
      ensures b <==> key in Keys(old(primary.nodes))
      ensures b ==> LowerBound(Keys(old(primary.nodes)), key) < |old(EntriesOf(primary.nodes))|
      ensures EntriesOf(primary.nodes) ==
              if !b then old(EntriesOf(primary.nodes))
              else Removed(old(EntriesOf(primary.nodes)), LowerBound(Keys(old(primary.nodes)), key))
      ensures manager.IdsNow() == Ids(old(manager.IdsNow()).current + 1, old(manager.IdsNow()).active)
    {
      hide Chained, Ordered, StrictlyOrdered, Rowed, EntriesOf, EntryOf, Inserted, Removed, LowerBound, MarkedRow,
           UpdatedRow, Met, FirstIsTallest;
      ghost var ids := manager.IdsNow();
      var started := BeginTransaction();
      var r := primary.Remove(key);
      b := r.value;
      assert Footprint(primary) <= old(Footprint(primary));
      CommitRow(primary.nodes, 0);
      TakenAndReleased(ids);
    }

    method UpdateImplicit(key: Key, row: Data) returns (b: bool, ghost pos: nat)
      requires Valid() && context.transaction == null
      modifies manager, context, set n | n in primary.nodes && n.rowInfo != null :: n.rowInfo
      ensures Valid() && Footprint(primary) == old(Footprint(primary)) && context.transaction == null
      ensures b <==> key in Keys(primary.nodes)
      ensures b ==> 1 <= pos < |primary.nodes| && primary.nodes[pos].key == key
      ensures EntriesOf(primary.nodes) ==
              if !b then old(EntriesOf(primary.nodes))
              else MarkedRow(UpdatedRow(old(EntriesOf(primary.nodes)), pos - 1, row, rowSize), pos - 1, Committed)
      ensures manager.IdsNow() == Ids(old(manager.IdsNow()).current + 1, old(manager.IdsNow()).active)
    {
      hide Chained, Ordered, StrictlyOrdered, Rowed, EntriesOf, EntryOf, Inserted, Removed, LowerBound, MarkedRow,
           UpdatedRow, Met, FirstIsTallest, Footprint, SkipList.Valid, WellNumbered, KeySet;
      ghost var ids := manager.IdsNow();
      var started := BeginTransaction();
      var transaction := context.transaction;
      var r;
      r, pos := primary.Update(key, row, rowSize, transaction);
      b := r.value;
      if b {
        FoundStored(primary.nodes, key, pos);
        TouchedOne(transaction);
      }
      CommitRow(primary.nodes, if b then pos else 0);
      TakenAndReleased(ids);
    }

    // ---------- row operations ----------

    /**
     key is the integer at the primary offset of the row. Outside a transaction the row is committed at once;
     inside one it stays unmarked and joins the rows the transaction has touched.
     */
    method InsertRow(key: Key, row: Data) returns (b: bool, ghost height: uint8)
      requires Valid()
      modifies primary.Repr, manager, context, context.transaction
      ensures Valid() && (forall o :: o in Footprint(primary) ==> o in old(Footprint(primary)) || fresh(o))
      ensures context.transaction == old(context.transaction)
      ensures b <==> key !in Keys(old(primary.nodes))
      ensures EntriesOf(primary.nodes) ==
              if !b then old(EntriesOf(primary.nodes))
              else Inserted(old(EntriesOf(primary.nodes)), LowerBound(Keys(old(primary.nodes)), key),
                            Entry(key, height, row, rowSize, if context.transaction == null then Committed else NoStatus))
      ensures context.transaction == null ==>
                manager.IdsNow() == Ids(old(manager.IdsNow()).current + 1, old(manager.IdsNow()).active)
      ensures context.transaction != null ==>
                && manager.IdsNow() == old(manager.IdsNow())
                && context.transaction.affectedRows == old(context.transaction.affectedRows) +
                   if b then [KeyRowInfo(key, 4, primary.nodes[LowerBound(Keys(old(primary.nodes)), key) + 1].rowInfo)] else []
    {
      hide Chained, Ordered, StrictlyOrdered, Rowed, EntriesOf, EntryOf, Inserted, Removed, LowerBound, MarkedRow,
           UpdatedRow, Met, FirstIsTallest, Footprint;
      var transaction := context.transaction;
      if transaction == null {
        b, height := InsertImplicit(key, row);
      } else {
        var r;
        r, height := primary.Insert(key, row, rowSize, 0, transaction);
        b := r.value;
      }
    }

    /** Inside a transaction, the row must not be one that the transaction has already touched. */
    method DeleteRow(key: Key) returns (b: bool)
      requires Valid()
      requires context.transaction != null && key in Keys(primary.nodes) ==>
                 primary.nodes[LowerBound(Keys(primary.nodes), key) + 1].rowInfo !in Touched(context.transaction)
      modifies primary.Repr, manager, context
      ensures Valid() && (forall o :: o in Footprint(primary) ==> o in old(Footprint(primary)) || fresh(o))
      ensures context.transaction == old(context.transaction)
      ensures b <==> key in Keys(old(primary.nodes))
      ensures b ==> LowerBound(Keys(old(primary.nodes)), key) < |old(EntriesOf(primary.nodes))|
      ensures EntriesOf(primary.nodes) ==
              if !b then old(EntriesOf(primary.nodes))
              else Removed(old(EntriesOf(primary.nodes)), LowerBound(Keys(old(primary.nodes)), key))
      ensures context.transaction == null ==>
                manager.IdsNow() == Ids(old(manager.IdsNow()).current + 1, old(manager.IdsNow()).active)
      ensures context.transaction != null ==> manager.IdsNow() == old(manager.IdsNow())
    {
      hide Chained, Ordered, StrictlyOrdered, Rowed, EntriesOf, EntryOf, Inserted, Removed, LowerBound, MarkedRow,
           UpdatedRow, Met, FirstIsTallest;
      var transaction := context.transaction;
      if transaction == null {
        b := DeleteImplicit(key);
      } else {
        var r := primary.Remove(key);
        b := r.value;
      }
    }

    method UpdateRow(key: Key, row: Data) returns (b: bool, ghost pos: nat)
      requires Valid()
      modifies manager, context, context.transaction
      modifies set n | n in primary.nodes && n.rowInfo != null :: n.rowInfo
      ensures Valid() && Footprint(primary) == old(Footprint(primary))
      ensures context.transaction == old(context.transaction)
      ensures b <==> key in Keys(primary.nodes)
      ensures b ==> 1 <= pos < |primary.nodes| && primary.nodes[pos].key == key
      ensures EntriesOf(primary.nodes) ==
              if !b then old(EntriesOf(primary.nodes))
              else if context.transaction == null
              then MarkedRow(UpdatedRow(old(EntriesOf(primary.nodes)), pos - 1, row, rowSize), pos - 1, Committed)
              else UpdatedRow(old(EntriesOf(primary.nodes)), pos - 1, row, rowSize)
      ensures context.transaction == null ==>
                manager.IdsNow() == Ids(old(manager.IdsNow()).current + 1, old(manager.IdsNow()).active)
      ensures context.transaction != null ==>
                && manager.IdsNow() == old(manager.IdsNow())
                && context.transaction.affectedRows == old(context.transaction.affectedRows) +
                   if b then [KeyRowInfo(key, 4, primary.nodes[pos].rowInfo)] else []
    {
      hide Chained, Ordered, StrictlyOrdered, Rowed, EntriesOf, EntryOf, Inserted, Removed, LowerBound, MarkedRow,
           UpdatedRow, Met, FirstIsTallest, Footprint;
      var transaction := context.transaction;
      if transaction == null {
        b, pos := UpdateImplicit(key, row);
      } else {
        var r;
        r, pos := primary.Update(key, row, rowSize, transaction);
        b := r.value;
        if b { FoundStored(primary.nodes, key, pos); }
      }
    }
  }

  // ---------- runs without an explicit transaction ----------

  datatype RowOp = InsertRow(key: Key, row: Data) | DeleteRow(key: Key) | UpdateRow(key: Key, row: Data)

  predicate AllCommitted(es: seq<Entry>) {
    forall e :: e in es ==> e.status == Committed
  }

  lemma AllCommittedOnNodes(nodes: seq<SkipListNode>)
    requires |nodes| > 0 && Rowed(nodes) && AllCommitted(EntriesOf(nodes))
    ensures forall i :: 1 <= i < |nodes| ==> nodes[i].rowInfo != null && nodes[i].rowInfo.status == Committed
  {
    forall i | 1 <= i < |nodes| ensures nodes[i].rowInfo != null && nodes[i].rowInfo.status == Committed {
      assert EntriesOf(nodes)[i - 1] == EntryOf(nodes[i]);
    }
  }

  /** The index operation behind a row operation; 0 asks the index to choose a height. */
  function IndexOp(op: RowOp, size: uint16): Op {
    match op
    case InsertRow(key, row) => Op.Insert(key, Row(row, size), 0)
    case DeleteRow(key) => Op.Remove(key)
    case UpdateRow(key, row) => Op.Update(key, Row(row, size))
  }

  method ApplyInsert(table: Table, key: Key, row: Data) returns (b: bool)
    requires table.Valid() && table.context.transaction == null && AllCommitted(EntriesOf(table.primary.nodes))
    modifies Footprint(table.primary), table.manager, table.context
    ensures table.Valid() && table.context.transaction == null && AllCommitted(EntriesOf(table.primary.nodes))
    ensures table.manager.IdsNow() == Ids(old(table.manager.IdsNow()).current + 1, old(table.manager.IdsNow()).active)
    ensures (forall o :: o in Footprint(table.primary) ==> o in old(Footprint(table.primary)) || fresh(o))
    ensures b == (key !in old(Model(table.primary)))
    ensures b ==> Model(table.primary) == old(Model(table.primary))[key := Row(row, table.rowSize)]
    ensures !b ==> Model(table.primary) == old(Model(table.primary))
  {
    hide Ready, Table.Valid, Footprint, Chained, Ordered, StrictlyOrdered, Rowed, EntriesOf, EntryOf, ModelOf, Model,
         Inserted, Removed, UpdatedRow, MarkedRow, LowerBound, AllCommitted, KeySet, Touched;
    FootprintHas(table.primary);
    ghost var es := EntriesOf(table.primary.nodes);
    ModelIs(table.primary);
    ghost var h;
    b, h := table.InsertRow(key, row);
    ModelIs(table.primary);
    if b {
      ghost var p, e := LowerBound(EntryKeys(es), key), Entry(key, h, row, table.rowSize, Committed);
      ModelInserted(es, p, e);
      CommittedInserted(es, p, e);
    }
  }

  method ApplyDelete(table: Table, key: Key) returns (b: bool)
    requires table.Valid() && table.context.transaction == null && AllCommitted(EntriesOf(table.primary.nodes))
    modifies Footprint(table.primary), table.manager, table.context
    ensures table.Valid() && table.context.transaction == null && AllCommitted(EntriesOf(table.primary.nodes))
    ensures table.manager.IdsNow() == Ids(old(table.manager.IdsNow()).current + 1, old(table.manager.IdsNow()).active)
    ensures (forall o :: o in Footprint(table.primary) ==> o in old(Footprint(table.primary)) || fresh(o))
    ensures b == (key in old(Model(table.primary)))
    ensures b ==> Model(table.primary) == old(Model(table.primary)) - {key}
    ensures !b ==> Model(table.primary) == old(Model(table.primary))
  {
    hide Ready, Table.Valid, Footprint, Chained, Ordered, StrictlyOrdered, Rowed, EntriesOf, EntryOf, ModelOf, Model,
         Inserted, Removed, UpdatedRow, MarkedRow, LowerBound, AllCommitted, KeySet, Touched;
    FootprintHas(table.primary);
    ghost var es := EntriesOf(table.primary.nodes);
    ModelIs(table.primary);
    b := table.DeleteRow(key);
    ModelIs(table.primary);
    if b {
      StoredRank(EntryKeys(es), key);
      ModelRemoved(es, LowerBound(EntryKeys(es), key));
      CommittedRemoved(es, LowerBound(EntryKeys(es), key));
    }
  }

  /** UpdateRow outside a transaction; i is the index of the entry it changes. */
  method UpdateAlone(table: Table, key: Key, row: Data) returns (b: bool, ghost i: nat)
    requires table.Valid() && table.context.transaction == null
    modifies Footprint(table.primary), table.manager, table.context
    ensures table.Valid() && table.context.transaction == null
    ensures table.manager.IdsNow() == Ids(old(table.manager.IdsNow()).current + 1, old(table.manager.IdsNow()).active)
    ensures Footprint(table.primary) == old(Footprint(table.primary))
    ensures b <==> key in old(Keys(table.primary.nodes))
    ensures var es := old(EntriesOf(table.primary.nodes));
            && (!b ==> EntriesOf(table.primary.nodes) == es)
            && (b ==> i < |es| && es[i].key == key
                      && EntriesOf(table.primary.nodes) == MarkedRow(UpdatedRow(es, i, row, table.rowSize), i, Committed))
  {
    hide Ready, Table.Valid, Footprint, Chained, Ordered, StrictlyOrdered, Rowed, EntriesOf, UpdatedRow, MarkedRow,
         LowerBound, Touched;
    FootprintHas(table.primary);
    ghost var es, pos := EntriesOf(table.primary.nodes), 1;
    b, pos := table.UpdateRow(key, row);
    i := if b then pos - 1 else 0;
    assert b ==> es[i].key == key;
  }

  method ApplyUpdate(table: Table, key: Key, row: Data) returns (b: bool)
    requires table.Valid() && table.context.transaction == null && AllCommitted(EntriesOf(table.primary.nodes))
    modifies Footprint(table.primary), table.manager, table.context
    ensures table.Valid() && table.context.transaction == null && AllCommitted(EntriesOf(table.primary.nodes))
    ensures table.manager.IdsNow() == Ids(old(table.manager.IdsNow()).current + 1, old(table.manager.IdsNow()).active)
    ensures (forall o :: o in Footprint(table.primary) ==> o in old(Footprint(table.primary)) || fresh(o))
    ensures b == (key in old(Model(table.primary)))
    ensures b ==> Model(table.primary) == old(Model(table.primary))[key := Row(row, table.rowSize)]
    ensures !b ==> Model(table.primary) == old(Model(table.primary))
  {
    hide Ready, Table.Valid, Footprint, Chained, Ordered, StrictlyOrdered, Rowed, EntriesOf, EntryOf, ModelOf, Model,
         Inserted, Removed, UpdatedRow, MarkedRow, LowerBound, AllCommitted, KeySet, Touched;
    ghost var es, m := EntriesOf(table.primary.nodes), Model(table.primary);
    ModelIs(table.primary);
    ghost var i;
    b, i := UpdateAlone(table, key, row);
    ModelIs(table.primary);
    ghost var es2 := EntriesOf(table.primary.nodes);
    if b {
      CommittedUpdate(es, es2, i, key, Row(row, table.rowSize));
      assert Model(table.primary) == m[key := Row(row, table.rowSize)];
    } else {
      assert Model(table.primary) == m;
    }
  }

  lemma CommittedInserted(es: seq<Entry>, p: nat, e: Entry)
    requires p <= |es| && AllCommitted(es) && e.status == Committed
    ensures AllCommitted(Inserted(es, p, e))
  {
  }

  lemma CommittedRemoved(es: seq<Entry>, p: nat)
    requires p < |es| && AllCommitted(es)
    ensures AllCommitted(Removed(es, p))
  {
  }

  lemma CommittedUpdate(es: seq<Entry>, es2: seq<Entry>, i: nat, key: Key, row: Row)
    requires i < |es| && AllCommitted(es) && StrictlyOrdered(EntryKeys(es)) && es[i].key == key
    requires es2 == MarkedRow(UpdatedRow(es, i, row.data, row.size), i, Committed)
    ensures AllCommitted(es2)
    ensures EntryKeys(es2) == EntryKeys(es)
    ensures ModelOf(es2) == ModelOf(es)[key := row]
  {
    ModelUpdated(es, i, row.data, row.size);
    MarkedModel(UpdatedRow(es, i, row.data, row.size), i, Committed);
  }

  /** Statuses are not part of the map. */
  lemma MarkedModel(es: seq<Entry>, i: nat, status: Status)
    requires i < |es| && StrictlyOrdered(EntryKeys(es))
    ensures EntryKeys(MarkedRow(es, i, status)) == EntryKeys(es)
    ensures ModelOf(MarkedRow(es, i, status)) == ModelOf(es)
  {
    var es2 := MarkedRow(es, i, status);
    assert EntryKeys(es2) == EntryKeys(es);
    forall k | k in EntryKeys(es) ensures RowAt(es2, k) == RowAt(es, k) {
      StoredRank(EntryKeys(es), k);
    }
  }

  /** One row operation outside a transaction. */
  method ApplyRow(table: Table, op: RowOp) returns (b: bool)
    requires table.Valid() && table.context.transaction == null && AllCommitted(EntriesOf(table.primary.nodes))
    modifies Footprint(table.primary), table.manager, table.context
    ensures table.Valid() && table.context.transaction == null && AllCommitted(EntriesOf(table.primary.nodes))
    ensures table.manager.IdsNow() == Ids(old(table.manager.IdsNow()).current + 1, old(table.manager.IdsNow()).active)
    ensures (forall o :: o in Footprint(table.primary) ==> o in old(Footprint(table.primary)) || fresh(o))
    ensures Answers(old(Model(table.primary)), IndexOp(op, table.rowSize), Flag(b))
    ensures Model(table.primary) == Step(old(Model(table.primary)), IndexOp(op, table.rowSize))
  {
    hide Ready, Model, Footprint, AllCommitted, EntriesOf, Rowed, Chained, Answers, Step, IndexOp, Table.Valid,
         StrictlyOrdered, KeySet;
    ghost var m := Model(table.primary);
    match op
    case InsertRow(key, row) =>
      b := ApplyInsert(table, key, row);
      FlagStep(m, op, table.rowSize, b, Model(table.primary));
    case DeleteRow(key) =>
      b := ApplyDelete(table, key);
      FlagStep(m, op, table.rowSize, b, Model(table.primary));
    case UpdateRow(key, row) =>
      b := ApplyUpdate(table, key, row);
      FlagStep(m, op, table.rowSize, b, Model(table.primary));
  }

  /** A flag and a map that follow an operation are its answer and its step. */
  lemma FlagStep(m: map<Key, Row>, op: RowOp, size: uint16, b: bool, m2: map<Key, Row>)
    requires b == if op.InsertRow? then op.key !in m else op.key in m
    requires m2 == if !b then m else if op.DeleteRow? then m - {op.key} else m[op.key := Row(op.row, size)]
    ensures Answers(m, IndexOp(op, size), Flag(b)) && m2 == Step(m, IndexOp(op, size))
  {
  }

  function IndexOps(ops: seq<RowOp>, size: uint16): (r: seq<Op>)
    ensures |r| == |ops|
  {
    seq(|ops|, i requires 0 <= i < |ops| => IndexOp(ops[i], size))
  }

  function Flags(bs: seq<bool>): (r: seq<Answer>)
    ensures |r| == |bs|
  {
    seq(|bs|, i requires 0 <= i < |bs| => Flag(bs[i]))
  }

  lemma RunNone(m: map<Key, Row>, size: uint16)
    ensures AnswersRun(m, IndexOps([], size), Flags([])) && StepAll(m, IndexOps([], size)) == m
  {
  }

  lemma RunOneMore(m: map<Key, Row>, ops: seq<RowOp>, size: uint16, b: bool, rest: seq<bool>)
    requires ops != []
    requires var m2 := Step(m, IndexOp(ops[0], size));
             Answers(m, IndexOp(ops[0], size), Flag(b)) && AnswersRun(m2, IndexOps(ops[1..], size), Flags(rest))
    ensures AnswersRun(m, IndexOps(ops, size), Flags([b] + rest))
    ensures StepAll(m, IndexOps(ops, size)) == StepAll(Step(m, IndexOp(ops[0], size)), IndexOps(ops[1..], size))
  {
    hide Answers, Step, AnswersRun, StepAll;
    assert Flags([b] + rest)[1..] == Flags(rest);
    assert IndexOps(ops, size)[1..] == IndexOps(ops[1..], size);
    RunCons(m, IndexOps(ops, size), Flags([b] + rest));
  }

  /**
   Any run of row operations outside a transaction: each answers as the table's map would, every id it took is
   released again, the ids advance by one per operation, and every row left in the index is committed.
   */
  method RunRows(table: Table, ops: seq<RowOp>) returns (bs: seq<bool>)
    requires table.Valid() && table.context.transaction == null && AllCommitted(EntriesOf(table.primary.nodes))
    modifies Footprint(table.primary), table.manager, table.context
    ensures table.Valid() && table.context.transaction == null && AllCommitted(EntriesOf(table.primary.nodes))
    ensures table.manager.IdsNow() == Ids(old(table.manager.IdsNow()).current + |ops|, old(table.manager.IdsNow()).active)
    ensures (forall o :: o in Footprint(table.primary) ==> o in old(Footprint(table.primary)) || fresh(o))
    ensures AnswersRun(old(Model(table.primary)), IndexOps(ops, table.rowSize), Flags(bs))
    ensures Model(table.primary) == StepAll(old(Model(table.primary)), IndexOps(ops, table.rowSize))
    ensures forall i :: 1 <= i < |table.primary.nodes| ==>
              table.primary.nodes[i].rowInfo != null && table.primary.nodes[i].rowInfo.status == Committed
    decreases |ops|
  {
    hide Ready, Model, Footprint, AllCommitted, EntriesOf, Rowed, Chained, Answers, Step, IndexOp,
         AnswersRun, StepAll, Table.Valid, StrictlyOrdered, KeySet, Flags, IndexOps;
    ghost var m := Model(table.primary);
    if ops == [] {
      RunNone(m, table.rowSize);
      AllCommittedOnNodes(table.primary.nodes);
      return [];
    }
    var b := ApplyRow(table, ops[0]);
    var rest := RunRows(table, ops[1..]);
    bs := [b] + rest;
    RunOneMore(m, ops, table.rowSize, b, rest);
  }
}
