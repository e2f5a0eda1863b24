/** The bounded array representation: `std::shift_right` and `std::shift_left`
    by one slot over a range `[first, last)` of an array, as in-place loops
    proved against sequence functions, and what they do to the first `size`
    slots that hold the list. */
module ArrayShift {
  import opened ListSpec

  /** `std::shift_right(first, last, 1)`: every item of `[first, last - 1)`
      moves one slot toward the back; the item at `last - 1` is dropped (it is
      overwritten); slots outside the range are untouched. A range of fewer
      than two slots is left as it is. The slot at `first` is left in an
      unspecified state by the standard; here it keeps its old item. */
  function ShiftedRight<T>(s: seq<T>, first: nat, last: nat): (r: seq<T>)
    requires first <= last <= |s|
    ensures |r| == |s|
  {
    seq(|s|, j requires 0 <= j < |s| => if first < j < last then s[j - 1] else s[j])
  }

  /** `std::shift_left(first, last, 1)`: every item of `[first + 1, last)`
      moves one slot toward the front; the item at `first` is dropped. The slot
      at `last - 1` is left unspecified by the standard; here it keeps its
      old item. */
  function ShiftedLeft<T>(s: seq<T>, first: nat, last: nat): (r: seq<T>)
    requires first <= last <= |s|
    ensures |r| == |s|
  {
    seq(|s|, j requires 0 <= j < |s| => if first <= j < last - 1 then s[j + 1] else s[j])
  }

  /** Shifts `a[first..last]` one slot toward the back, in place, from the
      back end down. */
  method ShiftRight<T>(a: array<T>, first: nat, last: nat)
    requires first <= last <= a.Length
    modifies a
    ensures a[..] == ShiftedRight(old(a[..]), first, last)
  {
    if last - first <= 1 { return; }
    var i := last - 1;
    while i > first
      invariant first <= i < last
      invariant forall j :: 0 <= j <= i ==> a[j] == old(a[j])
      invariant forall j :: i < j < last ==> a[j] == old(a[j - 1])
      invariant forall j :: last <= j < a.Length ==> a[j] == old(a[j])
    {
      a[i] := a[i - 1];
      i := i - 1;
    }
  }

  /** Shifts `a[first..last]` one slot toward the front, in place, from the
      front end up. */
  method ShiftLeft<T>(a: array<T>, first: nat, last: nat)
    requires first <= last <= a.Length
    modifies a
    ensures a[..] == ShiftedLeft(old(a[..]), first, last)
  {
    if last - first <= 1 { return; }
    var i := first;
    while i < last - 1
      invariant first <= i <= last - 1
      invariant forall j :: 0 <= j < first ==> a[j] == old(a[j])
      invariant forall j :: first <= j < i ==> a[j] == old(a[j + 1])
      invariant forall j :: i <= j < a.Length ==> a[j] == old(a[j])
    {
      a[i] := a[i + 1];
      i := i + 1;
    }
  }

  /** Insertion into the first `size` slots with the shift range extended to
      `size + 1`: the first `size + 1` slots then hold the list with `x` at
      offset `k`. */
  lemma ShiftRightThenStore<T>(a: seq<T>, size: nat, k: nat, x: T)
    requires k <= size < |a|
    ensures ShiftedRight(a, k, size + 1)[k := x][..size + 1] == InsertAt(a[..size], k, x)
  {
    var r := ShiftedRight(a, k, size + 1)[k := x];
    var t := InsertAt(a[..size], k, x);
    assert |t| == size + 1;
    forall j | 0 <= j <= size ensures r[j] == t[j] {
      if j < k { assert t[j] == a[j]; }
      else if j > k { assert t[j] == a[..size][j - 1]; }
    }
  }

  /** Removal from the first `size` slots by shifting `[k, size)` left: the
      first `size - 1` slots then hold the list without its item at `k`. */
  lemma ShiftLeftRemoves<T>(a: seq<T>, size: nat, k: nat)
    requires k < size <= |a|
    ensures ShiftedLeft(a, k, size)[..size - 1] == RemoveAt(a[..size], k)
  {
    var r := ShiftedLeft(a, k, size);
    var t := RemoveAt(a[..size], k);
    assert |t| == size - 1;
    forall j | 0 <= j < size - 1 ensures r[j] == t[j] {
      if j < k { assert t[j] == a[j]; }
      else { assert t[j] == a[..size][j + 1]; }
    }
  }

  /** Insertion into a bounded array holding `size` items, with the shift
      range ending at `size + 1`: the first `size + 1` slots then hold the old
      list with `x` at offset `k`. */
  method InsertIntoArray<T>(a: array<T>, size: nat, k: nat, x: T)
    requires k <= size < a.Length
    modifies a
    ensures a[..size + 1] == InsertAt(old(a[..size]), k, x)
  {
    ghost var slots := a[..];
    ShiftRight(a, k, size + 1);
    ghost var shifted := a[..];
    a[k] := x;
    assert a[..] == shifted[k := x];
    ShiftRightThenStore(slots, size, k, x);
  }

  /** Removal of the item at offset `k` from a bounded array holding `size`
      items: the first `size - 1` slots then hold the old list without it. */
  method RemoveFromArray<T>(a: array<T>, size: nat, k: nat)
    requires k < size <= a.Length
    modifies a
    ensures a[..size - 1] == RemoveAt(old(a[..size]), k)
  {
    ghost var slots := a[..];
    ShiftLeft(a, k, size);
    ShiftLeftRemoves(slots, size, k);
  }

  /** The array insertion as the source writes it: the shift range ends at
      `size`, not `size + 1`, and then `x` is stored at `k`. */
  function InsertIntoArrayAsWritten<T>(a: seq<T>, size: nat, k: nat, x: T): (r: seq<T>)
    requires k <= size < |a|
    ensures |r| == |a|
  {
    ShiftedRight(a, k, size)[k := x]
  }

  /** With the range as written, appending (`k == size`) is right, but any
      insertion before the end loses the last item: slot `size` keeps the
      stale item it held, so the first `size + 1` slots match the intended
      list only if that stale item happens to equal the lost one. */
  lemma AsWrittenInsertLosesLast<T>(a: seq<T>, size: nat, k: nat, x: T)
    requires k <= size < |a|
    ensures k == size ==> InsertIntoArrayAsWritten(a, size, k, x)[..size + 1] == InsertAt(a[..size], k, x)
    ensures k < size ==> InsertIntoArrayAsWritten(a, size, k, x)[size] == a[size]
    ensures k < size ==>
              (InsertIntoArrayAsWritten(a, size, k, x)[..size + 1] == InsertAt(a[..size], k, x)
               <==> a[size] == a[size - 1])
  {
    var r := InsertIntoArrayAsWritten(a, size, k, x);
    var t := InsertAt(a[..size], k, x);
    assert |t| == size + 1;
    if k == size {
      forall j | 0 <= j <= size ensures r[j] == t[j] {
        if j < k { assert t[j] == a[j]; }
      }
    } else {
      assert t[size] == a[size - 1];
      if a[size] == a[size - 1] {
        forall j | 0 <= j <= size ensures r[j] == t[j] {
          if j < k { assert t[j] == a[j]; }
          else if k < j < size { assert t[j] == a[..size][j - 1]; }
        }
      }
    }
  }

  /** A concrete case: the list [1, 2] in a three-slot array whose spare slot
      holds 0; inserting 3 at the front as written leaves [3, 1, 0] in the
      first three slots instead of [3, 1, 2]. */
  lemma AsWrittenCounterexample()
    ensures InsertIntoArrayAsWritten([1, 2, 0], 2, 0, 3)[..3] == [3, 1, 0]
    ensures InsertAt([1, 2], 0, 3) == [3, 1, 2]
  {
    var r := InsertIntoArrayAsWritten([1, 2, 0], 2, 0, 3);
    assert r[0] == 3 && r[1] == 1 && r[2] == 0;
  }
}
