/**
 * is-sublist/src/lib.rs: classify two lists as equal, one a contiguous
 * sublist of the other, or neither.
 */
module IsSublist {

  datatype Comparison = Equal | Sublist | Superlist | Other

  /** The window of `b` of length `|a|` starting at `i` exists and equals `a`. */
  ghost predicate WindowAt<T>(a: seq<T>, b: seq<T>, i: int) {
    0 <= i <= |b| - |a| && b[i..i + |a|] == a
  }

  /** `a` occurs in `b` as a contiguous block. */
  ghost predicate OccursIn<T>(a: seq<T>, b: seq<T>) {
    exists i :: WindowAt(a, b, i)
  }

  /**
   * `b.windows(|a|).any(|w| w == a)`, scanning the windows that start at `k`
   * or later, in order.
   */
  function AnyWindowFrom<T(==)>(a: seq<T>, b: seq<T>, k: nat): (found: bool)
    requires |a| > 0
    ensures found <==> exists i :: k <= i && WindowAt(a, b, i)
    decreases |b| - k
  {
    if k + |a| > |b| then false
    else if b[k..k + |a|] == a then assert WindowAt(a, b, k); true
    else AnyWindowFrom(a, b, k + 1)
  }

  /**
   * `is_sublist_of`. `windows(0)` panics, so `a` must not be empty.
   */
  function IsSublistOf<T(==)>(a: seq<T>, b: seq<T>): (r: bool)
    requires |a| > 0
    ensures r <==> OccursIn(a, b)
  {
    AnyWindowFrom(a, b, 0)
  }

  /**
   * `compare`: dispatch on the length ordering. Comparing an empty list with a
   * non-empty one (either way round) reaches `windows(0)`, which panics.
   */
  function Compare<T(==)>(a: seq<T>, b: seq<T>): (r: Comparison)
    requires |a| == 0 <==> |b| == 0
    ensures r == Equal <==> a == b
    ensures |a| < |b| ==> (r == Sublist <==> OccursIn(a, b)) && r in {Sublist, Other}
    ensures |a| > |b| ==> (r == Superlist <==> OccursIn(b, a)) && r in {Superlist, Other}
    ensures |a| == |b| ==> r in {Equal, Other}
  {
    if |a| < |b| then
      (if IsSublistOf(a, b) then Sublist else Other)
    else if |a| == |b| then
      (if a == b then Equal else Other)
    else
      (if IsSublistOf(b, a) then Superlist else Other)
  }

  /** `a` is a sublist of `b` exactly when `b` is a superlist of `a`. */
  lemma SublistSuperlistDual<T>(a: seq<T>, b: seq<T>)
    requires |a| == 0 <==> |b| == 0
    ensures Compare(a, b) == Sublist <==> Compare(b, a) == Superlist
    ensures Compare(a, b) == Equal <==> Compare(b, a) == Equal
  {
  }

  /** A strictly shorter list found contiguously inside the other is a sublist. */
  lemma {:induction false} PrefixIsSublist<T>(a: seq<T>, c: seq<T>)
    requires |a| > 0 && |c| > 0
    ensures Compare(a, a + c) == Sublist
  {
    assert WindowAt(a, a + c, 0);
  }

  /** The cases from the crate's tests. */
  lemma TestCases()
    ensures Compare([1, 2, 3], [1, 2, 3, 4, 5]) == Sublist
    ensures Compare([3, 4, 5], [1, 2, 3, 4, 5]) == Sublist
    ensures Compare([2, 3, 4], [1, 2, 3, 4, 5]) == Sublist
    ensures Compare([1, 3, 5], [1, 2, 3, 4, 5]) == Other
    ensures Compare<int>([], []) == Equal
    ensures Compare([1, 3, 2], [1, 3, 2]) == Equal
    ensures Compare([1, 3, 2], [3, 2]) == Superlist
  {
    var b := [1, 2, 3, 4, 5];
    assert WindowAt([1, 2, 3], b, 0);
    assert WindowAt([3, 4, 5], b, 2);
    assert WindowAt([2, 3, 4], b, 1);
    assert WindowAt([3, 2], [1, 3, 2], 1);
    assert b[0..3] != [1, 3, 5];
    assert b[1..4] != [1, 3, 5];
    assert b[2..5] != [1, 3, 5];
    assert !AnyWindowFrom([1, 3, 5], b, 0);
  }
}
