/** The request's database connection: a working state and the last committed one. */
module Database {
  import opened Outcomes

  /** What a connection holds: uncommitted work on top of what is committed. */
  datatype Tx<S> = Tx(work: S, saved: S)

  class Session<S> {
    var work: S
    var saved: S

    constructor (s: S)
      ensures View() == Tx(s, s)
    {
      work, saved := s, s;
    }

    function View(): Tx<S>
      reads this
    {
      Tx(work, saved)
    }

    /** Runs one statement. `result` is the state it leaves, `None` when the server rejects it;
        `fault` is any other failure. A failed statement has no effect of its own. */
    method Execute(result: Option<S>, fault: bool) returns (ok: bool)
      modifies this`work
      ensures ok <==> !fault && result.Some?
      ensures work == if ok then result.value else old(work)
    {
      ok := !fault && result.Some?;
      if ok { work := result.value; }
    }

    method Commit(fault: bool) returns (ok: bool)
      modifies this`saved
      ensures ok == !fault
      ensures saved == if ok then work else old(saved)
    {
      ok := !fault;
      if ok { saved := work; }
    }

    method Rollback()
      modifies this`work
      ensures work == saved
    {
      work := saved;
    }

    /** `execute_query`: run, then commit if asked; on an error roll back if a commit was asked. */
    method ExecuteQuery(result: Option<S>, commit: bool, fault: bool, commitFault: bool) returns (ok: bool)
      modifies this
      ensures ok <==> !fault && result.Some? && !(commit && commitFault)
      ensures View() == if ok then Tx(result.value, if commit then result.value else old(saved))
                        else if commit then Tx(old(saved), old(saved))
                        else old(View())
    {
      ok := Execute(result, fault);
      if ok && commit { ok := Commit(commitFault); }
      if !ok && commit { Rollback(); }
    }
  }
}
