/** Shared vocabulary of the pipeline: error taxonomy, result values, time units
    and integer ranges of item ids. */
module Common {

  /** Timestamps are whole seconds since the epoch. */
  type Time = nat

  /** A Go `time.Duration`: a count of nanoseconds. */
  type Duration = int

  const NANOS_PER_SECOND: int := 1_000_000_000
  const MINUTE: nat := 60
  const HOUR: nat := 3600
  const DAY: nat := 86400

  /** The failure kinds the pipeline distinguishes. */
  datatype Error = NetworkError | NotFound | DecodeError | StoreError

  /** The value of a call that may fail. */
  datatype Result<T> = Ok(value: T) | Err(error: Error)

  /** A Go `error` return: nil or an error. */
  datatype Outcome = Success | Failure(error: Error)

  /** The ids lo, lo+1, ..., hi-1, ascending (empty when hi <= lo). */
  function Range(lo: nat, hi: nat): (r: seq<nat>)
    ensures |r| == if lo <= hi then hi - lo else 0
    decreases hi - lo
  {
    if hi <= lo then [] else [lo] + Range(lo + 1, hi)
  }

  /** The i-th id of `Range(lo, hi)` is `lo + i`. */
  lemma {:induction false} RangeIndex(lo: nat, hi: nat)
    ensures forall i :: 0 <= i < |Range(lo, hi)| ==> Range(lo, hi)[i] == lo + i
    decreases hi - lo
  {
    if lo < hi {
      RangeIndex(lo + 1, hi);
      assert forall i :: 1 <= i < |Range(lo, hi)| ==> Range(lo, hi)[i] == Range(lo + 1, hi)[i - 1];
    }
  }

  /** Every element is smaller than the next one. */
  predicate StrictlyAscending(s: seq<nat>)
  {
    forall i, j :: 0 <= i < j < |s| ==> s[i] < s[j]
  }

  /** All elements of `s` are distinct. */
  predicate Distinct<T(==)>(s: seq<T>)
  {
    forall i, j :: 0 <= i < j < |s| ==> s[i] != s[j]
  }

  lemma AscendingIsDistinct(s: seq<nat>)
    requires StrictlyAscending(s)
    ensures Distinct(s)
  {
  }

  lemma {:induction false} RangeSplit(lo: nat, mid: nat, hi: nat)
    requires lo <= mid <= hi
    ensures Range(lo, hi) == Range(lo, mid) + Range(mid, hi)
    decreases mid - lo
  {
    if lo < mid {
      RangeSplit(lo + 1, mid, hi);
    }
  }

  lemma RangeMembership(lo: nat, hi: nat, x: nat)
    ensures x in Range(lo, hi) <==> lo <= x < hi
  {
    RangeIndex(lo, hi);
    if lo <= x < hi {
      assert Range(lo, hi)[x - lo] == x;
    }
  }

  lemma RangeAscending(lo: nat, hi: nat)
    ensures StrictlyAscending(Range(lo, hi))
  {
    RangeIndex(lo, hi);
  }

  lemma AppendAssoc<T>(a: seq<T>, b: seq<T>, c: seq<T>)
    ensures (a + b) + c == a + (b + c)
  {
  }

  lemma AppendEmpty<T>(a: seq<T>)
    ensures a + [] == a && [] + a == a
  {
  }

  lemma DropPrefix<T>(a: seq<T>, b: seq<T>)
    ensures (a + b)[|a|..] == b && a <= a + b
  {
  }

  /** Moving the head of the pending part onto the done part keeps their concatenation. */
  lemma ConsumeHead<T>(done: seq<T>, pending: seq<T>, total: seq<T>)
    requires pending != [] && done + pending == total
    ensures (done + [pending[0]]) + pending[1..] == total
  {
  }

  /** A prefix of a middle part stays a prefix once framed by what precedes and follows it. */
  lemma PrefixInContext<T>(before: seq<T>, part: seq<T>, middle: seq<T>, after: seq<T>)
    requires part <= middle
    ensures before + part <= before + middle + after
  {
  }
}
