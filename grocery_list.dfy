/** A grocery list: an ordered collection of unique items kept four times
    over, in a bounded array with a length counter, a vector, a doubly linked
    list and a singly linked list. Every mutator changes all four in step and
    re-checks that they agree. */
module GroceryLists {
  import opened ListSpec
  import opened ArrayShift

  /** The two named ends of the list. */
  datatype Position = Top | Bottom

  class GroceryList<T(==,0)> {
    // The four representations. The standard containers' internals are not
    // visible, so the vector and the two linked lists are sequences; the
    // bounded array is an array with its own length counter.
    var arr: array<T>
    var arrSize: nat
    var vec: seq<T>
    var dll: seq<T>
    var sll: seq<T>

    /** The four representations have the same length and the same items in
        the same order. */
    ghost predicate Consistent()
      reads this, arr
    {
      arrSize <= arr.Length &&
      arrSize == |vec| && arrSize == |dll| && arrSize == |sll| &&
      forall i :: 0 <= i < arrSize ==> arr[i] == vec[i] && arr[i] == dll[i] && arr[i] == sll[i]
    }

    /** The class invariant: the representations agree and hold no item twice. */
    ghost predicate Valid()
      reads this, arr
    {
      Consistent() && Distinct(vec)
    }

    /** The list, front first, as every representation holds it. */
    ghost function Contents(): (s: seq<T>)
      reads this, arr
      requires Valid()
      ensures s == arr[..arrSize] && s == vec && s == dll && s == sll
      ensures Distinct(s)
    {
      vec
    }

    /** The fixed capacity of the bounded array. */
    function Capacity(): nat
      reads this
    {
      arr.Length
    }

    /** An empty list whose bounded array holds `capacity` items. */
    constructor (capacity: nat)
      ensures Valid() && fresh(arr)
      ensures Capacity() == capacity && Contents() == []
    {
      arr := new T[capacity];
      arrSize := 0;
      vec, dll, sll := [], [], [];
    }

    /** Construction from a batch: each item inserted at the back in turn.
        Duplicates collapse to their first occurrence; more distinct items
        than the capacity makes construction fail, and no list results. */
    static method FromList(capacity: nat, items: seq<T>) returns (g: GroceryList?<T>, err: Option<Error>)
      ensures err == ListSpec.AppendAll([], capacity, items).error
      ensures err.None? ==> g != null && fresh(g) && fresh(g.arr) && g.Valid() &&
                            g.Capacity() == capacity &&
                            g.Contents() == ListSpec.AppendAll([], capacity, items).items
      ensures err.Some? ==> g == null
    {
      var l := new GroceryList(capacity);
      err := l.AppendItems(items);
      g := if err.None? then l else null;
    }

    // ------------------------------------------------------------ queries

    /** The number of items, read from the vector; any other representation
        would give the same. */
    function Size(): (n: nat)
      reads this, arr
      requires Valid()
      ensures n == arrSize && n == |dll| && n == |sll|
    {
      |vec|
    }

    /** Offset of `x` from the front, or `Size()` when `x` is absent. */
    function Find(x: T): (r: nat)
      reads this, arr
      requires Valid()
      ensures r <= Size()
      ensures r < Size() ==> Contents()[r] == x
      ensures r == Size() <==> x !in Contents()
    {
      IndexOf(vec, x)
    }

    /** The length of the singly linked sequence. The list keeps no count,
        so the length is counted up to one item at a time. */
    method SllSize() returns (n: nat)
      ensures n == |sll|
    {
      n := 0;
      while n < |sll|
        invariant n <= |sll|
      {
        n := n + 1;
      }
    }

    /** The self-check: compares the four lengths, then walks the four
        representations in lockstep comparing items. */
    method ContainersAreConsistent() returns (ok: bool)
      requires arrSize <= arr.Length
      ensures ok <==> Consistent()
    {
      var sllSize := SllSize();
      if arrSize != |vec| || arrSize != |dll| || arrSize != sllSize {
        return false;
      }
      var i := 0;
      while i < |vec|
        invariant i <= |vec|
        invariant forall j :: 0 <= j < i ==> arr[j] == vec[j] && arr[j] == dll[j] && arr[j] == sll[j]
      {
        if arr[i] != vec[i] || arr[i] != dll[i] || arr[i] != sll[i] {
          return false;
        }
        i := i + 1;
      }
      return true;
    }

    /** Lists are equal exactly when they have the same length and equal items
        at every offset. */
    function Equals(other: GroceryList<T>): (r: bool)
      reads this, arr, other, other.arr
      requires Valid() && other.Valid()
      ensures r <==> Contents() == other.Contents()
    {
      |vec| == |other.vec| && forall i :: 0 <= i < |vec| ==> vec[i] == other.vec[i]
    }

    /** Three-way comparison: lexicographic over the items under `cmp`, then by
        size. The size comparison never decides: the lexicographic comparison
        already orders a proper prefix first. */
    function Compare(other: GroceryList<T>, cmp: (T, T) -> Ordering): (r: Ordering)
      reads this, arr, other, other.arr
      requires Valid() && other.Valid()
      ensures r == LexCompare(Contents(), other.Contents(), cmp)
    {
      var c := LexCompare(vec, other.vec, cmp);
      LexEquivalentSameSize(vec, other.vec, cmp);
      if c != Equivalent then c else CompareSizes(|vec|, |other.vec|)
    }

    // ---------------------------------------------------------- modifiers

    /** Insertion of `x` so that it becomes the item at offset `k`, in all four
        representations; the refusals and their order are those of
        `ListSpec.Insert`. */
    method Insert(x: T, k: nat) returns (err: Option<Error>)
      requires Valid()
      modifies this, arr
      ensures Valid() && arr == old(arr)
      ensures Outcome(Contents(), err) == ListSpec.Insert(old(Contents()), Capacity(), x, k)
    {
      if k > Size() {
        return Some(InvalidOffset);
      }
      if Find(x) != Size() {
        return None;
      }
      if arrSize >= arr.Length {
        return Some(CapacityExceeded);
      }
      InsertNewItem(x, k);
      err := None;
    }

    /** The four insertions of a new item into a list with room, at a valid
        offset; the consistency check that follows them always succeeds. */
    method InsertNewItem(x: T, k: nat)
      requires Valid() && x !in Contents() && k <= Size() && Size() < Capacity()
      modifies this, arr
      ensures Valid() && arr == old(arr)
      ensures Contents() == InsertAt(old(Contents()), k, x)
    {
      ghost var before := vec;
      ghost var after := InsertAt(before, k, x);
      InsertNew(before, Capacity(), x, k);

      // Bounded array: shift `[k, size]` one slot back, store, count.
      assert arr[..arrSize] == before;
      InsertIntoArray(arr, arrSize, k, x);
      arrSize := arrSize + 1;
      assert arr[..arrSize] == after;
      // Vector: positional insertion.
      vec := InsertAt(vec, k, x);
      // Doubly linked list: splice before the node at offset `k`.
      dll := InsertAt(dll, k, x);
      // Singly linked list: insert after the node at offset `k - 1` (after the
      // position before the front when `k` is 0).
      sll := InsertAt(sll, k, x);

      assert vec == after && dll == after && sll == after;
      assert forall i :: 0 <= i < arrSize ==> arr[i] == after[i];
      var ok := ContainersAreConsistent();
      assert ok;
    }

    /** Insertion at the front (`Top`, offset 0) or the back (`Bottom`, offset
        `Size()`). */
    method InsertAtPosition(x: T, p: Position) returns (err: Option<Error>)
      requires Valid()
      modifies this, arr
      ensures Valid() && arr == old(arr)
      ensures Outcome(Contents(), err) ==
                ListSpec.Insert(old(Contents()), Capacity(), x, if p == Top then 0 else |old(Contents())|)
    {
      if p == Top {
        err := Insert(x, 0);
      } else {
        err := Insert(x, Size());
      }
    }

    /** Removal of the item at offset `k` from all four representations; an
        offset at or past the end changes nothing. */
    method Remove(k: nat)
      requires Valid()
      modifies this, arr
      ensures Valid() && arr == old(arr)
      ensures Contents() == ListSpec.Remove(old(Contents()), k)
    {
      if k >= Size() {
        return;
      }
      ghost var before := vec;
      RemoveKeepsDistinct(before, k);

      // Bounded array: shift `[k + 1, size)` one slot forward, uncount.
      ghost var after := RemoveAt(before, k);
      assert arr[..arrSize] == before;
      RemoveFromArray(arr, arrSize, k);
      arrSize := arrSize - 1;
      assert arr[..arrSize] == after;
      // Vector: positional erase.
      vec := RemoveAt(vec, k);
      // Doubly linked list: unlink the node at offset `k`.
      dll := RemoveAt(dll, k);
      // Singly linked list: erase after the node at offset `k - 1`.
      sll := RemoveAt(sll, k);

      assert vec == after && dll == after && sll == after;
      assert forall i :: 0 <= i < arrSize ==> arr[i] == after[i];

      var ok := ContainersAreConsistent();
      assert ok;
    }

    /** Removal of `x`, by way of its offset; an absent item gives the size
        as offset, which removes nothing. */
    method RemoveItem(x: T)
      requires Valid()
      modifies this, arr
      ensures Valid() && arr == old(arr)
      ensures Contents() == ListSpec.RemoveItem(old(Contents()), x)
    {
      Remove(Find(x));
    }

    /** `x` moved to the front if present: removed, then inserted at `Top`. */
    method MoveToTop(x: T)
      requires Valid()
      modifies this, arr
      ensures Valid() && arr == old(arr)
      ensures Contents() == ListSpec.MoveToTop(old(Contents()), x)
    {
      var pos := Find(x);
      if pos != Size() {
        ghost var before := vec;
        Remove(pos);
        MoveToTopInsertSucceeds(before, Capacity(), x);
        var err := InsertAtPosition(x, Top);
        assert err == None;
      }
    }

    /** `+=` with a batch: each item inserted at the back in turn. The first
        refusal stops the loop and is reported; what was inserted before it
        stays. */
    method AppendItems(items: seq<T>) returns (err: Option<Error>)
      requires Valid()
      modifies this, arr
      ensures Valid() && arr == old(arr)
      ensures Outcome(Contents(), err) == ListSpec.AppendAll(old(Contents()), Capacity(), items)
    {
      var i := 0;
      while i < |items|
        invariant Valid() && arr == old(arr)
        invariant i <= |items|
        invariant ListSpec.AppendAll(old(Contents()), Capacity(), items)
                  == ListSpec.AppendAll(Contents(), Capacity(), items[i..])
      {
        assert items[i..][0] == items[i] && items[i..][1..] == items[i + 1..];
        err := InsertAtPosition(items[i], Bottom);
        if err.Some? {
          return;
        }
        i := i + 1;
      }
      var ok := ContainersAreConsistent();
      assert ok;
      err := None;
    }

    /** `+=` with another list: its items, front first, inserted at the back in
        turn. Appending a list to itself adds nothing, since every item is a
        duplicate (see `ListSpec.AppendAllPresent`). */
    method AppendList(other: GroceryList<T>) returns (err: Option<Error>)
      requires Valid() && other.Valid()
      modifies this, arr
      ensures Valid() && arr == old(arr)
      ensures Outcome(Contents(), err) ==
                ListSpec.AppendAll(old(Contents()), Capacity(), old(other.Contents()))
    {
      err := AppendItems(other.vec);
    }
  }
}
