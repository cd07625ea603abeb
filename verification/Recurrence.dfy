/**
 * recurrence/src/lib.rs: the structure and stream generated by the
 * `recurrence!` macro. A fixed-size ring buffer is addressed by ever-growing
 * logical ("fake") indices; slot = index mod N. The stream yields the initial
 * values, then each new value of the recurrence, pushing it into the buffer.
 */
module Recurrence {
  import opened Common

  /** The ring slot of logical index `k` in a buffer of `n` slots. */
  function Slot(k: int, n: int): int
    requires n > 0
  {
    k % n
  }

  /** Among `n` consecutive logical indices from `lo`, only `j` shares the slot of `i`. */
  lemma WindowSlotUnique(lo: int, n: int, i: int, j: int)
    requires n > 0 && lo <= j < lo + n && Slot(j, n) == Slot(i, n)
    ensures forall k :: lo <= k < lo + n && Slot(k, n) == Slot(i, n) ==> k == j
  {
    forall k | lo <= k < lo + n && Slot(k, n) == Slot(i, n)
      ensures k == j
    {
      if j < k {
        ModDistinct(j, k, n);
      } else if k < j {
        ModDistinct(k, j, n);
      }
    }
  }

  /** `ArrayRingBufferWithFakeIndices<T, N>`: `N == vals.Length`. */
  class RingBuffer<T> {
    var vals: array<T>
    var fakeSize: nat
    /** The value at every logical index written so far (`0 .. fakeSize`). */
    ghost var history: seq<T>

    /** The buffer holds the last N logical values, each in slot `index % N`. */
    ghost predicate Valid()
      reads this, vals
    {
      && vals.Length > 0
      && |history| == fakeSize
      && vals.Length <= fakeSize
      && forall i :: fakeSize - vals.Length <= i < fakeSize ==> vals[i % vals.Length] == history[i]
    }

    /** `new`: the initial values take logical indices `0 .. N`, so `fake_size = N`. */
    constructor (init: seq<T>)
      requires |init| > 0
      ensures Valid() && fresh(vals)
      ensures vals[..] == init && fakeSize == |init| && history == init
    {
      vals := new T[|init|](i requires 0 <= i < |init| => init[i]);
      fakeSize := |init|;
      history := init;
      new;
      assert forall i :: 0 <= i < |init| ==> i % |init| == i;
    }

    /** `push`: overwrites the oldest slot, advances `fake_size` by one, returns `val`. */
    method Push(val: T) returns (r: T)
      requires Valid()
      modifies this, vals
      ensures Valid() && vals == old(vals)
      ensures r == val
      ensures fakeSize == old(fakeSize) + 1 && history == old(history) + [val]
      ensures vals[..] == old(vals[..])[old(fakeSize) % vals.Length := val]
    {
      var n := vals.Length;
      vals[fakeSize % n] := val;
      fakeSize := fakeSize + 1;
      history := history + [val];
      forall i | fakeSize - n <= i < fakeSize - 1
        ensures vals[i % n] == history[i]
      {
        ModDistinct(i, fakeSize - 1, n);
      }
      r := val;
    }

    /**
     * `index`: reads slot `i % N` without checking `i`; inside the window of
     * the last N logical indices that is the value written at `i`.
     */
    method Index(i: nat) returns (r: T)
      requires Valid()
      ensures r == vals[i % vals.Length]
      ensures fakeSize - vals.Length <= i < fakeSize ==> r == history[i]
    {
      r := vals[i % vals.Length];
    }

    /** The one logical index in the current window that shares slot `i % N`. */
    ghost function WindowIndex(i: nat): (j: nat)
      reads this, vals
      requires Valid()
      ensures fakeSize - vals.Length <= j < fakeSize && j % vals.Length == i % vals.Length
      ensures forall k :: fakeSize - vals.Length <= k < fakeSize && Slot(k, vals.Length) == Slot(i, vals.Length) ==> k == j
    {
      var n := vals.Length;
      var lo := fakeSize - n;
      var j := lo + (i - lo) % n;
      ModShift(i, n, -((i - lo) / n));
      assert j == i + n * -((i - lo) / n);
      WindowSlotUnique(lo, n, i, j);
      j
    }

    /**
     * `index_mut` followed by a store: overwrites slot `i % N`, i.e. the
     * value at the window index that shares that slot.
     */
    method IndexMut(i: nat, v: T)
      requires Valid()
      modifies this, vals
      ensures Valid() && vals == old(vals) && fakeSize == old(fakeSize)
      ensures vals[..] == old(vals[..])[i % vals.Length := v]
      ensures history == old(history)[old(WindowIndex(i)) := v]
    {
      var n := vals.Length;
      ghost var j := WindowIndex(i);
      vals[i % n] := v;
      history := history[j := v];
      forall k | fakeSize - n <= k < fakeSize
        ensures vals[k % n] == history[k]
      {
        if k != j {
          if k < j { ModDistinct(k, j, n); } else { ModDistinct(j, k, n); }
        }
      }
    }
  }

  /**
   * The `from_fn` closure built by the macro. `eval` is the recurrence
   * expression: it reads the buffer (`a[i]` is slot `i % N` of the ring
   * contents) and the position `n`.
   */
  class Stream<T> {
    const buf: RingBuffer<T>
    const iniSize: nat
    const eval: (seq<T>, nat) -> T
    var n: nat
    /** Everything yielded so far. */
    ghost var yielded: seq<T>

    /** What has been yielded is the buffer's logical history up to `n`. */
    ghost predicate Valid()
      reads this, buf, buf.vals
    {
      && buf.Valid()
      && iniSize == buf.vals.Length
      && buf.fakeSize == (if n < iniSize then iniSize else n)
      && yielded == buf.history[..n]
    }

    constructor (init: seq<T>, eval: (seq<T>, nat) -> T)
      requires |init| > 0
      ensures Valid() && fresh(buf) && fresh(buf.vals)
      ensures n == 0 && yielded == [] && buf.history == init && buf.vals[..] == init
      ensures this.eval == eval
    {
      buf := new RingBuffer(init);
      iniSize := |init|;
      this.eval := eval;
      n := 0;
      yielded := [];
    }

    /**
     * One call of the closure: for `n < ini_size` the n-th initial value,
     * afterwards `eval` at `n`, pushed into the buffer.
     */
    method Next() returns (r: T)
      requires Valid()
      modifies this, buf, buf.vals
      ensures Valid() && n == old(n) + 1 && buf.vals == old(buf.vals)
      ensures old(n) < iniSize ==> r == old(buf.history)[old(n)] && buf.vals[..] == old(buf.vals[..])
      ensures old(n) >= iniSize ==>
                r == eval(old(buf.vals[..]), old(n))
                && buf.vals[..] == old(buf.vals[..])[old(n) % iniSize := r]
      ensures yielded == old(yielded) + [r]
    {
      if n < iniSize {
        r := buf.Index(n);
      } else {
        r := buf.Push(eval(buf.vals[..], n));
      }
      n := n + 1;
      yielded := yielded + [r];
      assert yielded == buf.history[..n];
    }
  }

  /** The macro's `a[n-1] + a[n-2]`, reading the ring contents. */
  function FibStep(ring: seq<int>, n: nat): int {
    if |ring| == 0 then 0 else ring[(n - 1) % |ring|] + ring[(n - 2) % |ring|]
  }

  /** The Fibonacci numbers. */
  function Fib(k: nat): nat {
    if k < 2 then k else Fib(k - 1) + Fib(k - 2)
  }

  /** The first `k` Fibonacci numbers. */
  function FibPrefix(k: nat): seq<int> {
    if k == 0 then [] else FibPrefix(k - 1) + [Fib(k - 1)]
  }

  /**
   * The stream's element type is `i32`: Fib(46) = 1836311903 fits, Fib(47) =
   * 2971215073 does not, so at most 47 values can be taken without overflow.
   */
  const FIB_I32_COUNT: nat := 47

  /**
   * `recurrence![a[n] = 0, 1; a[n-1] + a[n-2]].take(count)`: the stream
   * yields the Fibonacci numbers, the ring always holding the last two.
   */
  method FibonacciTake(count: nat) returns (s: seq<int>)
    requires count <= FIB_I32_COUNT
    ensures s == FibPrefix(count)
  {
    var fib := new Stream([0, 1], FibStep);
    s := [];
    for k := 0 to count
      invariant fib.Valid() && fresh(fib.buf) && fresh(fib.buf.vals)
      invariant fib.eval == FibStep && fib.iniSize == 2 && fib.n == k
      invariant k < 2 ==> fib.buf.vals[..] == [0, 1]
      invariant k >= 2 ==> fib.buf.vals[(k - 1) % 2] == Fib(k - 1) && fib.buf.vals[(k - 2) % 2] == Fib(k - 2)
      invariant s == FibPrefix(k)
    {
      var x := fib.Next();
      assert x == Fib(k);
      s := s + [x];
    }
  }

  /** The crate's test: the first ten values are 0 1 1 2 3 5 8 13 21 34. */
  lemma FibonacciFirstTen()
    ensures FibPrefix(10) == [0, 1, 1, 2, 3, 5, 8, 13, 21, 34]
  {
  }
}
