/** Completions of asynchronous UNVMe commands. `unvme_apoll` is not part
    of this model: whether the poll of the i-th command of a batch returns 0
    is an oracle, and the applications only count the successes. */
module UnvmeIo {

  /** The result of polling the i-th command of a batch: true for 0. */
  type Polls = nat -> bool

  /** The number of the first `n` polls that returned 0. */
  function Completed(ok: Polls, n: nat): (c: nat)
    ensures c <= n
  {
    if n == 0 then 0 else Completed(ok, n - 1) + (if ok(n - 1) then 1 else 0)
  }

  /** All commands complete exactly when every poll returned 0, and none
      completes exactly when every poll timed out. */
  lemma {:induction false} CompletedCounts(ok: Polls, n: nat)
    ensures Completed(ok, n) == n <==> forall i :: 0 <= i < n ==> ok(i)
    ensures Completed(ok, n) == 0 <==> forall i :: 0 <= i < n ==> !ok(i)
  {
    if n > 0 {
      CompletedCounts(ok, n - 1);
    }
  }
}
