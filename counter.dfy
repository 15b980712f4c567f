/**
 * The server's shared message counter: the static `int messageCount`, which
 * starts at 0, and the `synchronized` method `incrementAndGetCount`. The
 * class's one instance stands for the static field; because the method is
 * synchronized, every concurrent schedule of calls is a sequence of calls to
 * `IncrementAndGet`, one at a time.
 */
module Counter {
  import opened Int32

  /** The counter's value after `k` more increments, starting from `c`. */
  function Advance(c: int, k: nat): int {
    if k == 0 then c else Wrap(Advance(c, k - 1) + 1)
  }

  /** The values returned, in order, by `k` serialised increments starting from `c`. */
  function Issued(c: int, k: nat): (r: seq<int>)
    ensures |r| == k
  {
    if k == 0 then [] else Issued(c, k - 1) + [Advance(c, k)]
  }

  /** Before the counter reaches the largest `int`, `k` increments add exactly `k`. */
  lemma {:induction false} AdvanceWithoutOverflow(c: int, k: nat)
    requires InRange(c) && c + k <= MaxInt32
    ensures Advance(c, k) == c + k
  {
    if k > 0 {
      AdvanceWithoutOverflow(c, k - 1);
    }
  }

  /** Without overflow, the `i`-th of `k` increments returns `c + i + 1`. */
  lemma {:induction false} IssuedConsecutive(c: int, k: nat)
    requires InRange(c) && c + k <= MaxInt32
    ensures forall i :: 0 <= i < k ==> Issued(c, k)[i] == c + i + 1
  {
    if k > 0 {
      IssuedConsecutive(c, k - 1);
      AdvanceWithoutOverflow(c, k);
    }
  }

  /**
   * From a fresh counter, any `n` serialised calls (with `n` at most the
   * largest `int`) return exactly 1, 2, ..., n: distinct, strictly
   * increasing, with no gap.
   */
  lemma IssuedFromZero(n: nat)
    requires n <= MaxInt32
    ensures Issued(0, n) == seq(n, i => i + 1)
    ensures forall i, j :: 0 <= i < j < n ==> Issued(0, n)[i] < Issued(0, n)[j]
    ensures forall v :: v in Issued(0, n) <==> 1 <= v <= n
  {
    IssuedConsecutive(0, n);
    var r := Issued(0, n);
    forall v | 1 <= v <= n
      ensures v in r
    {
      assert r[v - 1] == v;
    }
  }

  class MessageCounter {
    var count: int

    ghost predicate Valid()
      reads this
    {
      InRange(count)
    }

    /** The counter as it is when the server process starts. */
    constructor ()
      ensures Valid() && count == 0
    {
      count := 0;
    }

    /** `incrementAndGetCount`: adds one, with Java's `int` wrap-around, and returns the new value. */
    method IncrementAndGet() returns (n: int)
      requires Valid()
      modifies this
      ensures Valid()
      ensures count == Advance(old(count), 1)
      ensures old(count) < MaxInt32 ==> count == old(count) + 1
      ensures n == count
    {
      count := Wrap(count + 1);
      n := count;
    }
  }
}
