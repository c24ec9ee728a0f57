/** The process-wide record of transaction ids, and the transaction one thread has open. */
module ThreadContexts {
  import opened Wrappers
  import opened SkipListNodes
  import opened TransactionIds

  class ThreadContextManager {
    var currentTransactionId: nat
    var transactionId: set<nat>

    ghost function IdsNow(): Ids
      reads this
    {
      Ids(currentTransactionId, transactionId)
    }

    constructor ()
      ensures IdsNow() == Ids(0, {})
    {
      currentTransactionId := 0;
      transactionId := {};
    }

    method GetNextTransactionId() returns (nextTransactionId: nat)
      modifies this
      ensures IdsNow() == Allocate(old(IdsNow()))
      ensures nextTransactionId == currentTransactionId == old(currentTransactionId) + 1
      ensures transactionId == old(transactionId) + {nextTransactionId}
    {
      currentTransactionId := currentTransactionId + 1;
      nextTransactionId := currentTransactionId;
      transactionId := transactionId + {nextTransactionId};
    }

    method RemoveTransactionActive(id: nat)
      modifies this
      ensures IdsNow() == Release(old(IdsNow()), id)
      ensures currentTransactionId == old(currentTransactionId) && transactionId == old(transactionId) - {id}
    {
      transactionId := transactionId - {id};
    }

    method TransactionActive(id: nat) returns (found: bool)
      ensures found <==> id in transactionId
    {
      found := id in transactionId;
    }

    method GetMinActiveTransactionId() returns (minimum: nat)
      ensures minimum == MinActive(IdsNow())
      ensures transactionId == {} ==> minimum == 0
      ensures transactionId != {} ==> minimum in transactionId && forall y :: y in transactionId ==> minimum <= y
    {
      minimum := 0;
      if transactionId != {} {
        var x :| x in transactionId;
        minimum := x;
        var rest := transactionId - {x};
        while rest != {}
          invariant rest <= transactionId && minimum in transactionId
          invariant forall y :: y in transactionId && y !in rest ==> minimum <= y
        {
          var y :| y in rest;
          if y < minimum {
            minimum := y;
          }
          rest := rest - {y};
        }
        assert IsMin(transactionId, minimum) && IsMin(transactionId, MinActive(IdsNow()));
      }
    }
  }

  datatype ContextError = TransactionOpen | NoTransaction

  class ThreadContext {
    var transaction: Transaction?

    constructor ()
      ensures transaction == null
    {
      transaction := null;
    }

    method BeginTransaction(transactionId: nat, viewpoint: nat) returns (r: Result<(), ContextError>)
      modifies this
      ensures old(transaction) != null ==> r == Err(TransactionOpen) && transaction == old(transaction)
      ensures old(transaction) == null ==>
                && r == Ok(()) && transaction != null && fresh(transaction)
                && transaction.transactionId == transactionId && transaction.viewpoint == viewpoint
                && transaction.affectedRows == []
    {
      if transaction != null {
        return Err(TransactionOpen);
      }
      transaction := new Transaction(transactionId, viewpoint);
      r := Ok(());
    }

    method Committed() returns (r: Result<(), ContextError>)
      modifies this
      ensures r == (if old(transaction) == null then Err(NoTransaction) else Ok(())) && transaction == null
    {
      if transaction == null {
        return Err(NoTransaction);
      }
      transaction := null;
      r := Ok(());
    }

    method Aborted() returns (r: Result<(), ContextError>)
      modifies this
      ensures r == (if old(transaction) == null then Err(NoTransaction) else Ok(())) && transaction == null
    {
      if transaction == null {
        return Err(NoTransaction);
      }
      transaction := null;
      r := Ok(());
    }
  }
}
