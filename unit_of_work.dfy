/**
 * The unit of work (src/DataAccess/BookStore.DataAccess/UnitOfWork.cs):
 * save delegation and the transaction wrapper.
 *
 * `ExecuteInTransactionAsync(action)` is split at the action: the caller
 * begins a transaction, runs the action's steps itself, and completes the
 * transaction with whatever the action threw. A transaction is a snapshot
 * of the tables; rolling back restores it.
 */
module Transactions {
  import opened Results
  import opened Entities
  import opened Persistence

  datatype Transaction = Transaction(snapshot: Tables)

  /**
   * What completing a transaction leaves behind, given the tables when it
   * began (`snapshot`), the tables when the action ended (`current`), what
   * the action threw, and what the commit threw: the state and the
   * exception that propagates.
   */
  function Completion(snapshot: Tables, current: Tables, failure: Option<Exception>, commitFailure: Option<Exception>): (Tables, Option<Exception>)
  {
    if failure.Some? then (snapshot, failure)
    else if commitFailure.Some? then (snapshot, commitFailure)
    else (current, None)
  }

  /**
   * All or nothing: the state afterwards is either everything the action
   * did or exactly the state before it; it is the former precisely when
   * nothing is thrown, and what is thrown is the action's own exception
   * whenever the action threw one.
   */
  lemma CompletionAllOrNothing(snapshot: Tables, current: Tables, failure: Option<Exception>, commitFailure: Option<Exception>)
    ensures var (state, thrown) := Completion(snapshot, current, failure, commitFailure);
      (thrown.None? <==> failure.None? && commitFailure.None?)
      && (thrown.None? ==> state == current)
      && (thrown.Some? ==> state == snapshot)
      && (failure.Some? ==> thrown == failure)
  {
  }

  class UnitOfWork {
    const context: BookStoreDbContext

    constructor(context: BookStoreDbContext)
      ensures this.context == context
    {
      this.context := context;
    }

    /** `SaveChangesAsync` is the context's own save. */
    method SaveChanges(pending: Tables, now: Timestamp) returns (error: Option<Exception>)
      requires context.Valid() && KeysBelow(pending, context.nextId)
      modifies context`tables
      ensures context.Valid()
      ensures error.None? <==> Constraints(pending)
      ensures error.Some? ==> error.value == DbUpdate(DbUpdateMessage) && context.tables == old(context.tables)
      ensures error.None? ==> context.tables == StampTables(old(context.tables), pending, now)
    {
      error := context.SaveChanges(pending, now);
    }

    /** Begins a transaction before the action runs. */
    method BeginTransaction() returns (tx: Transaction)
      ensures tx.snapshot == context.tables
    {
      tx := Transaction(context.tables);
    }

    /**
     * Ends the transaction once the action has run: commits when the action
     * completed normally and the commit succeeds; otherwise rolls back to the
     * snapshot and rethrows what was thrown (the commit is inside the same
     * try block, so a failing commit also rolls back).
     */
    method CompleteTransaction(tx: Transaction, failure: Option<Exception>, commitFailure: Option<Exception>)
      returns (thrown: Option<Exception>)
      requires context.Valid() && Constraints(tx.snapshot) && KeysBelow(tx.snapshot, context.nextId)
      modifies context`tables
      ensures context.Valid()
      ensures (context.tables, thrown) == Completion(tx.snapshot, old(context.tables), failure, commitFailure)
    {
      if failure.Some? {
        context.tables := tx.snapshot;
        thrown := failure;
      } else if commitFailure.Some? {
        context.tables := tx.snapshot;
        thrown := commitFailure;
      } else {
        thrown := None;
      }
    }
  }
}
