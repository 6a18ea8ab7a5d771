/**
 * A minimum search that returns a reference into its slice, and writes
 * through a mutable sub-slice `&mut w[1..]`, whose index `k` is the
 * vector's index `k + 1`.
 */
module ReferenceSafety {

  /**
   * `smallest`: the position of the reference it returns. The element
   * there is no larger than any other, and since only a strictly smaller
   * element replaces the candidate, it is the first of the smallest.
   * `list[0]` panics on an empty slice.
   */
  method Smallest(list: seq<int>) returns (k: nat)
    requires |list| > 0
    ensures k < |list|
    ensures forall j :: 0 <= j < |list| ==> list[k] <= list[j]
    ensures forall j :: 0 <= j < k ==> list[k] < list[j]
  {
    k := 0;
    var i := 1;
    while i < |list|
      invariant 1 <= i <= |list| && k < i
      invariant forall j :: 0 <= j < i ==> list[k] <= list[j]
      invariant forall j :: 0 <= j < k ==> list[k] < list[j]
    {
      if list[i] < list[k] {
        k := i;
      }
      i := i + 1;
    }
  }

  /** The two calls of `main`: 1, and -10 once `v[2] = -10`. */
  method SmallestDemo() returns (first: int, second: int)
    ensures first == 1 && second == -10
  {
    var v := [1, 2, 3, 4, 5];
    var r := Smallest(v);
    assert v[0] == 1 && forall j :: 0 <= j < |v| ==> v[j] >= 1;
    first := v[r];
    v := v[2 := -10];
    r := Smallest(v);
    assert v[2] == -10 && forall j :: 0 <= j < |v| ==> v[j] >= -10;
    second := v[r];
  }

  /** `&mut base[start..]`: a window on the array from `start` to its end. */
  class SubSlice<T> {
    const base: array<T>
    const start: nat

    constructor (base: array<T>, start: nat)
      requires start <= base.Length
      ensures this.base == base && this.start == start
    {
      this.base := base;
      this.start := start;
    }

    predicate Valid()
    {
      start <= base.Length
    }

    /** What the sub-slice shows: the array from `start` on. */
    function View(): (r: seq<T>)
      reads base
      requires Valid()
      ensures |r| == base.Length - start
      ensures forall k :: 0 <= k < |r| ==> r[k] == base[start + k]
    {
      base[start..]
    }

    /** `r[k] = value`: writes the array at `start + k`, and nothing else. */
    method Set(k: nat, value: T)
      requires Valid() && start + k < base.Length
      modifies base
      ensures base[..] == old(base[..])[start + k := value]
      ensures View() == old(View())[k := value]
    {
      base[start + k] := value;
    }

    /** `std::mem::replace(&mut r[k], value)`: the same write, returning the value it displaced. */
    method Replace(k: nat, value: T) returns (previous: T)
      requires Valid() && start + k < base.Length
      modifies base
      ensures previous == old(View())[k]
      ensures base[..] == old(base[..])[start + k := value]
      ensures View() == old(View())[k := value]
    {
      previous := base[start + k];
      base[start + k] := value;
    }
  }

  /**
   * The block of `main`: through `r = &mut w[1..]`, replacing `r[0]` by 10
   * and assigning 20 to `r[1]` leaves `r` as [10, 20, 4, 5] and `w` as
   * [1, 10, 20, 4, 5]; `mem::replace` hands back the 2 it displaced.
   */
  method SubSliceDemo() returns (displaced: int, afterReplace: seq<int>, view: seq<int>, aside: seq<int>)
    ensures displaced == 2
    ensures afterReplace == [10, 3, 4, 5]
    ensures view == [10, 20, 4, 5]
    ensures aside == [1, 10, 20, 4, 5]
  {
    var w := new int[5];
    w[0], w[1], w[2], w[3], w[4] := 1, 2, 3, 4, 5;
    var r := new SubSlice(w, 1);
    displaced := r.Replace(0, 10);
    afterReplace := r.View();
    r.Set(1, 20);
    view := r.View();
    aside := w[..];
  }
}
