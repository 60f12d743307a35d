/** Retry timing. */
module Backoff {
  import opened Basics

  const BaseSeconds: int := 2
  const CapSeconds: int := 60
  const MinInterval: int := 5
  const MaxInterval: int := 60

  /** Twice two for every failure, up to a minute. */
  function Delay(failures: nat): int {
    if Power2(failures + 1) > CapSeconds then CapSeconds else Power2(failures + 1)
  }

  lemma {:induction false} PowerGrows(j: nat, k: nat)
    requires j <= k
    ensures Power2(j) <= Power2(k)
    decreases k - j
  {
    if j < k {
      PowerGrows(j, k - 1);
    }
  }

  /** The wait never shrinks from one failure to the next, and stays between two seconds and a minute. */
  lemma {:induction false} DelayGrows(j: nat, k: nat)
    requires j <= k
    ensures BaseSeconds <= Delay(j) <= Delay(k) <= CapSeconds
  {
    PowerGrows(1, j + 1);
    PowerGrows(j + 1, k + 1);
    assert Power2(1) == 2 * Power2(0);
  }

  method ResultBackoffSeconds(attempt: int) returns (delay: int)
    ensures delay == Delay(if attempt < 0 then 0 else attempt)
  {
    var n := if attempt < 0 then 0 else attempt;
    delay := BaseSeconds;
    var i := 0;
    assert Power2(1) == 2 * Power2(0);
    while i < n && delay < CapSeconds
      invariant 0 <= i <= n && delay == Power2(i + 1)
    {
      delay := delay * 2;
      i := i + 1;
    }
    PowerGrows(i + 1, n + 1);
    if delay > CapSeconds {
      delay := CapSeconds;
    }
  }

  function Distance(a: int, b: int): nat { if a < b then b - a else a - b }

  /** The server's interval, or the nearest one the agent allows. */
  function ClampSnapshotInterval(requested: int): (r: int)
    ensures MinInterval <= r <= MaxInterval
    ensures forall other {:trigger Distance(other, requested)} ::
      MinInterval <= other <= MaxInterval ==> Distance(r, requested) <= Distance(other, requested)
  {
    if requested < MinInterval then MinInterval else if requested > MaxInterval then MaxInterval else requested
  }
}
