/**
 * `np.array_split` and the number of worker processes, as the cleaner and
 * the trimmer use them to share a frame out between processes.
 */
module Partitions {
  import opened Wrappers

  /** The parts one after another, as `pd.concat` puts them back together. */
  function Flatten<X>(parts: seq<seq<X>>): seq<X>
  {
    if parts == [] then [] else parts[0] + Flatten(parts[1..])
  }

  /**
   * `⌈len / n⌉`, the size of the first of `n` parts of `len` elements:
   * numpy gives the first `len % n` parts one element more than the rest.
   */
  function FirstPartSize(len: nat, n: nat): (size: nat)
    requires n >= 1
    ensures size * n >= len
    ensures len > 0 ==> (size - 1) * n < len
    ensures size <= len && (len > 0 ==> size > 0)
    decreases len
  {
    if len <= n then (if len == 0 then 0 else 1)
    else
      var rest := FirstPartSize(len - n, n);
      assert (1 + rest) * n == rest * n + n;
      assert rest * n == (rest - 1) * n + n;
      1 + rest
  }

  function SplitInto<X>(xs: seq<X>, n: nat): (parts: seq<seq<X>>)
    requires n >= 1
    ensures |parts| == n && Flatten(parts) == xs
    decreases n
  {
    if n == 1 then
      assert Flatten([xs]) == xs + Flatten([]);
      [xs]
    else
      var size := FirstPartSize(|xs|, n);
      var parts := [xs[..size]] + SplitInto(xs[size..], n - 1);
      assert parts[1..] == SplitInto(xs[size..], n - 1);
      assert xs[..size] + xs[size..] == xs;
      parts
  }

  /**
   * `np.array_split(xs, n)`: `n` contiguous parts, in order, whose
   * concatenation is `xs`; a count below 1 raises `ValueError`.
   */
  function ArraySplit<X>(xs: seq<X>, n: int): (r: Result<seq<seq<X>>>)
    ensures r.Err? <==> n <= 0
    ensures r.Err? ==> r.error == ValueError
    ensures r.Ok? ==> |r.value| == n && Flatten(r.value) == xs
  {
    if n <= 0 then Err(ValueError) else Ok(SplitInto(xs, n))
  }

  /** Concatenation distributes over appending parts. */
  lemma {:induction false} FlattenAppend<X>(a: seq<seq<X>>, b: seq<seq<X>>)
    ensures Flatten(a + b) == Flatten(a) + Flatten(b)
    decreases |a|
  {
    if a == [] {
      assert a + b == b;
    } else {
      assert (a + b)[1..] == a[1..] + b;
      FlattenAppend(a[1..], b);
    }
  }

  /** `cpu_count() // 2`, as the `Cleaner` and `Trimmer` constructors compute it. */
  function WorkerCountAsWritten(cpus: nat): nat
  {
    cpus / 2
  }

  /**
   * On a machine with a single processor the count is 0, and splitting
   * any frame into 0 parts fails before any work is done.
   */
  lemma SingleProcessorSplitFails<X>(xs: seq<X>)
    ensures WorkerCountAsWritten(1) == 0
    ensures ArraySplit(xs, WorkerCountAsWritten(1)) == Err(ValueError)
  {
  }

  /** Half the processors, but at least one worker. */
  function WorkerCount(cpus: nat): (n: nat)
    ensures n >= 1
    ensures cpus >= 2 ==> n == cpus / 2
    ensures n <= cpus || cpus == 0
  {
    if cpus / 2 >= 1 then cpus / 2 else 1
  }

  /** With the corrected count, splitting never fails. */
  lemma WorkerCountSplits<X>(xs: seq<X>, cpus: nat)
    ensures ArraySplit(xs, WorkerCount(cpus)).Ok?
    ensures |ArraySplit(xs, WorkerCount(cpus)).value| == WorkerCount(cpus)
  {
  }
}
