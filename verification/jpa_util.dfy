/**
 * `JpaUtil.executeInTransaction`: run a unit of work inside the entity
 * manager's transaction, opening and committing one only when none is active.
 *
 * The unit of work itself is a parameter: `work` is what it returns, or the
 * exception it throws. The result records the transaction steps in order and
 * whether a transaction is active afterwards.
 */
module JpaUtil {
  import opened Wrappers

  datatype Step = Begin | Work | Commit

  datatype Run<T> = Run(steps: seq<Step>, activeAfter: bool, result: Result<T>)

  /**
   * The protocol of `EntityTransaction`: `begin` needs an inactive transaction,
   * `commit` an active one, and running work leaves the flag alone. `None`
   * means the step sequence would make the entity manager throw.
   */
  function Replay(active: bool, steps: seq<Step>): Option<bool>
    decreases steps
  {
    if |steps| == 0 then Some(active)
    else match steps[0]
      case Begin => if active then None else Replay(true, steps[1..])
      case Commit => if active then Replay(false, steps[1..]) else None
      case Work => Replay(active, steps[1..])
  }

  function Occurrences(steps: seq<Step>, s: Step): nat
  {
    multiset(steps)[s]
  }

  function ExecuteInTransaction<T>(active: bool, work: Result<T>): (r: Run<T>)
    // the steps always follow the transaction protocol, ending in the reported state
    ensures Replay(active, r.steps) == Some(r.activeAfter)
    // the work runs exactly once and its outcome is passed through unchanged
    ensures Occurrences(r.steps, Work) == 1 && r.result == work
    // a call that finds a transaction active neither begins nor commits, and leaves it active
    ensures active ==> r.steps == [Work] && r.activeAfter
    // otherwise exactly one begin precedes the work
    ensures !active ==> |r.steps| >= 2 && r.steps[..2] == [Begin, Work] && Occurrences(r.steps, Begin) == 1
    // and one commit follows it when the work succeeds, closing the transaction
    ensures !active && work.Success? ==> r.steps == [Begin, Work, Commit] && !r.activeAfter
    // a failing work is neither committed nor rolled back: the transaction it opened stays active
    ensures !active && work.Failure? ==> Occurrences(r.steps, Commit) == 0 && r.activeAfter
  {
    if active then
      // already inside a transaction: the work runs inline
      assert Replay(true, [Work][1..]) == Some(true);
      Run([Work], true, work)
    else if work.Failure? then
      // begun here, the exception escapes before the commit
      var steps := [Begin, Work];
      assert steps[1..] == [Work] && steps[2..] == [];
      assert Replay(true, steps[1..]) == Some(true);
      Run(steps, true, work)
    else
      var steps := [Begin, Work, Commit];
      assert steps[1..] == [Work, Commit] && steps[2..] == [Commit] && steps[3..] == [];
      assert Replay(true, steps[2..]) == Some(false);
      assert Replay(true, steps[1..]) == Some(false);
      Run(steps, false, work)
  }
}
