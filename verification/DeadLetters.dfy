/** The bounded dead-letter slice of the scheduler, shifted in place when full. */
module DeadLetters {
  import opened Selection

  datatype DeadLetter = DeadLetter(
    taskId: string,
    traderId: string,
    sessionId: string,
    taskType: TaskType,
    epoch: int,
    attempts: int,
    retryable: bool,
    error: string,
    lastAttemptUnix: int,
    firstFailureUnix: int)

  function LastOf<T>(log: seq<T>, n: nat): seq<T> {
    if |log| <= n then log else log[|log| - n..]
  }

  /** Keeping the last n, then one more, is keeping the last n of everything. */
  lemma LastOfAppend<T>(log: seq<T>, n: nat, x: T)
    ensures LastOf(LastOf(log, n) + [x], n) == LastOf(log + [x], n)
  {
    if |log| > n {
      assert LastOf(log, n) + [x] == (log + [x])[|log| - n..];
    }
  }

  class DeadLetterQueue {
    const capacity: nat
    var entries: array<DeadLetter>
    var length: nat

    ghost predicate Valid()
      reads this
    {
      0 < capacity == entries.Length && length <= capacity
    }

    ghost function Contents(): seq<DeadLetter>
      requires Valid()
      reads this, entries
    {
      entries[..length]
    }

    constructor (dlqMax: int, filler: DeadLetter)
      ensures Valid() && fresh(entries) && Contents() == []
      ensures capacity == if dlqMax <= 0 then 256 else dlqMax
    {
      var n: nat := if dlqMax <= 0 then 256 else dlqMax;
      capacity := n;
      entries := new DeadLetter[n](_ => filler);
      length := 0;
    }

    method PushDeadLetter(entry: DeadLetter)
      requires Valid()
      modifies this`length, entries
      ensures Valid()
      ensures Contents() == LastOf(old(Contents()) + [entry], capacity)
    {
      if length >= capacity {
        ghost var was := entries[..];
        var i := 0;
        while i + 1 < length
          invariant 0 <= i < length == entries.Length == |was|
          invariant forall k :: 0 <= k < i ==> entries[k] == was[k + 1]
          invariant forall k :: i <= k < length ==> entries[k] == was[k]
        {
          entries[i] := entries[i + 1];
          i := i + 1;
        }
        entries[length - 1] := entry;
        assert Contents() == (was + [entry])[1..];
        return;
      }
      entries[length] := entry;
      length := length + 1;
    }

    method DeadLetters() returns (snapshot: seq<DeadLetter>)
      requires Valid()
      ensures snapshot == Contents()
    {
      snapshot := entries[..length];
    }
  }
}
