/** The logical grocery list as a sequence of items, front (offset 0) first.
    Every operation of the list class is specified here on plain sequences;
    the class in grocery_list.dfy is proved to follow these functions in all
    four of its representations. */
module ListSpec {

  /** The two error kinds an operation can report to its caller. */
  datatype Error = InvalidOffset | CapacityExceeded

  datatype Option<T> = None | Some(value: T)

  /** The list after an operation, and the error that stopped it, if any. */
  datatype Outcome<T> = Outcome(items: seq<T>, error: Option<Error>)

  /** No item occurs twice. */
  ghost predicate Distinct<T>(s: seq<T>) {
    forall i, j :: 0 <= i < j < |s| ==> s[i] != s[j]
  }

  /** Offset of the first item equal to `x`, or `|s|` when there is none. */
  function IndexOf<T(==)>(s: seq<T>, x: T): (r: nat)
    ensures r <= |s|
    ensures r < |s| ==> s[r] == x
    ensures forall j :: 0 <= j < r ==> s[j] != x
    ensures r == |s| <==> x !in s
  {
    if s == [] then 0
    else if s[0] == x then 0
    else 1 + IndexOf(s[1..], x)
  }

  /** `x` placed so that it becomes the item at offset `k`. */
  function InsertAt<T>(s: seq<T>, k: nat, x: T): (r: seq<T>)
    requires k <= |s|
  {
    s[..k] + [x] + s[k..]
  }

  /** The item at offset `k` taken out, later items moved one toward the front. */
  function RemoveAt<T>(s: seq<T>, k: nat): (r: seq<T>)
    requires k < |s|
  {
    s[..k] + s[k + 1..]
  }

  /** One insertion of `x` at offset `k` into a list of capacity `cap`:
      the offset is checked first, then duplicates are dropped silently,
      then the capacity is checked. */
  function Insert<T(==)>(s: seq<T>, cap: nat, x: T, k: nat): (r: Outcome<T>)
  {
    if k > |s| then Outcome(s, Some(InvalidOffset))
    else if IndexOf(s, x) != |s| then Outcome(s, None)
    else if |s| >= cap then Outcome(s, Some(CapacityExceeded))
    else Outcome(InsertAt(s, k, x), None)
  }

  /** Removal by offset; an offset at or past the end changes nothing. */
  function Remove<T>(s: seq<T>, k: nat): (r: seq<T>)
  {
    if k >= |s| then s else RemoveAt(s, k)
  }

  /** Removal of the first item equal to `x`, by way of its offset. */
  function RemoveItem<T(==)>(s: seq<T>, x: T): (r: seq<T>)
  {
    Remove(s, IndexOf(s, x))
  }

  /** `x` moved to the front if present. */
  function MoveToTop<T(==)>(s: seq<T>, x: T): (r: seq<T>)
  {
    if IndexOf(s, x) != |s| then [x] + RemoveAt(s, IndexOf(s, x)) else s
  }

  /** Every item of `items` inserted at the back in turn; the first error
      stops the loop and keeps what was inserted before it. */
  function AppendAll<T(==)>(s: seq<T>, cap: nat, items: seq<T>): (r: Outcome<T>)
    decreases |items|
  {
    if items == [] then Outcome(s, None)
    else
      var step := Insert(s, cap, items[0], |s|);
      if step.error.Some? then step else AppendAll(step.items, cap, items[1..])
  }

  /** The items of `items` not in `seen`, first occurrences only, in order:
      an independent statement of what appending `items` adds. */
  function NewItems<T(==)>(seen: seq<T>, items: seq<T>): (r: seq<T>)
    ensures forall y :: y in r ==> y in items && y !in seen
    decreases |items|
  {
    if items == [] then []
    else if items[0] in seen then NewItems(seen, items[1..])
    else [items[0]] + NewItems(seen + [items[0]], items[1..])
  }

  // ---------------------------------------------------------------- find

  /** In a list without duplicates the offset of the item at `i` is `i`. */
  lemma {:induction false} IndexOfDistinct<T>(s: seq<T>, i: nat)
    requires Distinct(s) && i < |s|
    ensures IndexOf(s, s[i]) == i
  {
  }

  // -------------------------------------------------------------- insert

  /** The three refusals of insert: an offset past the end, a duplicate and a
      full list. The duplicate check comes before the capacity check, so a
      duplicate sent to a full list is silently dropped. None of them changes
      the list. */
  lemma InsertRefusals<T>(s: seq<T>, cap: nat, x: T, k: nat)
    ensures k > |s| ==> Insert(s, cap, x, k) == Outcome(s, Some(InvalidOffset))
    ensures k <= |s| && x in s ==> Insert(s, cap, x, k) == Outcome(s, None)
    ensures k <= |s| && x !in s && |s| >= cap ==>
              Insert(s, cap, x, k) == Outcome(s, Some(CapacityExceeded))
    ensures Insert(s, cap, x, k).error.Some? ==> Insert(s, cap, x, k).items == s
  {
  }

  /** Inserting at the back (BOTTOM) is inserting at offset `|s|`, and the front
      (TOP) is offset 0: both are always valid offsets. */
  lemma InsertEnds<T>(s: seq<T>, cap: nat, x: T)
    requires x !in s && |s| < cap
    ensures Insert(s, cap, x, |s|) == Outcome(s + [x], None)
    ensures Insert(s, cap, x, 0) == Outcome([x] + s, None)
  {
  }

  /** A successful insert of a new item: the list grows by one, keeps its
      items unique, `x` is found at `k`, and every other item keeps its offset
      if it was before `k` and moves back by one otherwise. */
  lemma {:induction false} InsertNew<T>(s: seq<T>, cap: nat, x: T, k: nat)
    requires Distinct(s) && x !in s && k <= |s| < cap
    ensures Insert(s, cap, x, k) == Outcome(InsertAt(s, k, x), None)
    ensures |InsertAt(s, k, x)| == |s| + 1
    ensures Distinct(InsertAt(s, k, x))
    ensures IndexOf(InsertAt(s, k, x), x) == k
    ensures forall i :: 0 <= i < |s| ==>
              IndexOf(InsertAt(s, k, x), s[i]) == if i < k then i else i + 1
  {
    var r := InsertAt(s, k, x);
    InsertAtDistinct(s, k, x);
    assert r[k] == x;
    IndexOfDistinct(r, k);
    forall i | 0 <= i < |s|
      ensures IndexOf(r, s[i]) == if i < k then i else i + 1
    {
      IndexOfDistinct(r, if i < k then i else i + 1);
    }
  }

  /** Placing a new item into a list without duplicates gives a list without
      duplicates, in which the old items sit at their old offsets before `k`
      and one further back from `k` on. */
  lemma InsertAtDistinct<T>(s: seq<T>, k: nat, x: T)
    requires Distinct(s) && x !in s && k <= |s|
    ensures Distinct(InsertAt(s, k, x))
    ensures forall i :: 0 <= i < |s| ==> InsertAt(s, k, x)[if i < k then i else i + 1] == s[i]
  {
    var r := InsertAt(s, k, x);
    assert forall i :: 0 <= i < k ==> r[i] == s[i];
    assert r[k] == x;
    assert forall i :: k < i < |r| ==> r[i] == s[i - 1];
    forall i, j | 0 <= i < j < |r| ensures r[i] != r[j] {
      if j == k || i == k {
        assert x !in s;
      }
    }
  }

  /** Insert keeps the list free of duplicates whatever the outcome. */
  lemma InsertKeepsDistinct<T>(s: seq<T>, cap: nat, x: T, k: nat)
    requires Distinct(s)
    ensures Distinct(Insert(s, cap, x, k).items)
    ensures |Insert(s, cap, x, k).items| <= if |s| < cap then cap else |s|
  {
    if k <= |s| && x !in s && |s| < cap {
      InsertNew(s, cap, x, k);
    }
  }

  // -------------------------------------------------------------- remove

  /** Removing the item found for `x` from a list without duplicates leaves a
      list in which `x` is no longer found: `find` returns the new size. */
  lemma {:induction false} RemoveFound<T>(s: seq<T>, x: T)
    requires Distinct(s) && x in s
    ensures |RemoveItem(s, x)| == |s| - 1
    ensures Distinct(RemoveItem(s, x))
    ensures IndexOf(RemoveItem(s, x), x) == |RemoveItem(s, x)|
  {
    var k := IndexOf(s, x);
    var r := RemoveAt(s, k);
    assert forall i :: 0 <= i < k ==> r[i] == s[i];
    assert forall i :: k <= i < |r| ==> r[i] == s[i + 1];
    forall i | 0 <= i < |r| ensures r[i] != x {
      if i >= k { IndexOfDistinct(s, k); assert s[k] == x && s[i + 1] == r[i]; }
    }
  }

  /** Removal by offset: past the end nothing changes, otherwise exactly the
      item at `k` leaves and the others keep their order. */
  lemma RemoveOffset<T>(s: seq<T>, k: nat)
    ensures k >= |s| ==> Remove(s, k) == s
    ensures k < |s| ==> |Remove(s, k)| == |s| - 1
    ensures k < |s| ==> forall i :: 0 <= i < |s| - 1 ==>
              Remove(s, k)[i] == if i < k then s[i] else s[i + 1]
  {
  }

  /** Removing keeps the list free of duplicates. */
  lemma RemoveKeepsDistinct<T>(s: seq<T>, k: nat)
    requires Distinct(s)
    ensures Distinct(Remove(s, k))
  {
    if k < |s| {
      var r := RemoveAt(s, k);
      forall i, j | 0 <= i < j < |r| ensures r[i] != r[j] {
        var i', j' := if i < k then i else i + 1, if j < k then j else j + 1;
        assert r[i] == s[i'] && r[j] == s[j'];
      }
    }
  }

  // --------------------------------------------------------- move to top

  /** Moving a present item to the top: it ends at offset 0, the size is the
      same, the same items are held, and with `x` taken out the others are in
      their old relative order. Moving an absent item changes nothing. */
  lemma {:induction false} MoveToTopFacts<T>(s: seq<T>, x: T)
    requires Distinct(s)
    ensures x !in s ==> MoveToTop(s, x) == s
    ensures x in s ==> |MoveToTop(s, x)| == |s| && MoveToTop(s, x)[0] == x
    ensures x in s ==> RemoveItem(MoveToTop(s, x), x) == RemoveItem(s, x)
    ensures multiset(MoveToTop(s, x)) == multiset(s)
    ensures Distinct(MoveToTop(s, x))
  {
    if x in s {
      var k := IndexOf(s, x);
      var rest := RemoveAt(s, k);
      RemoveFound(s, x);
      var m := [x] + rest;
      assert IndexOf(m, x) == 0;
      assert RemoveAt(m, 0) == rest;
      assert s == s[..k] + [x] + s[k + 1..];
      calc {
        multiset(m);
        multiset([x]) + multiset(s[..k] + s[k + 1..]);
        multiset(s[..k]) + multiset([x]) + multiset(s[k + 1..]);
        multiset(s);
      }
      assert Distinct(m) by {
        forall i, j | 0 <= i < j < |m| ensures m[i] != m[j] {
          if i == 0 { assert m[j] == rest[j - 1] && rest[j - 1] in rest; }
          else { assert m[i] == rest[i - 1] && m[j] == rest[j - 1]; }
        }
      }
    }
  }

  /** Moving to the top never needs spare capacity: it removes before it
      inserts, so the insert at offset 0 of the removed item always succeeds. */
  lemma MoveToTopInsertSucceeds<T>(s: seq<T>, cap: nat, x: T)
    requires Distinct(s) && |s| <= cap && x in s
    ensures Insert(RemoveItem(s, x), cap, x, 0) == Outcome(MoveToTop(s, x), None)
  {
    var k := IndexOf(s, x);
    var rest := RemoveAt(s, k);
    assert RemoveItem(s, x) == rest;
    RemoveFound(s, x);
    assert IndexOf(rest, x) == |rest| && |rest| < cap;
    assert InsertAt(rest, 0, x) == [x] + rest;
  }

  // ------------------------------------------------------------- append

  /** Appending a list's items to itself adds nothing (every one is a
      duplicate), so iterating over a snapshot and over the live list agree. */
  lemma {:induction false} AppendAllPresent<T>(s: seq<T>, cap: nat, items: seq<T>)
    requires forall y :: y in items ==> y in s
    ensures AppendAll(s, cap, items) == Outcome(s, None)
    decreases |items|
  {
    if items != [] {
      assert items[0] in s;
      AppendAllPresent(s, cap, items[1..]);
    }
  }

  /** What `+=` does, stated without reference to insert: the new items (those
      not yet present, first occurrences, in order) are appended while the
      capacity lasts; if there are more new items than room, exactly as many
      as fit were appended and the capacity error is reported. Duplicates
      never cause the error. */
  lemma {:induction false} AppendAllIsNewItems<T>(s: seq<T>, cap: nat, items: seq<T>)
    requires Distinct(s) && |s| <= cap
    ensures var n := NewItems(s, items);
            AppendAll(s, cap, items) ==
              if |s| + |n| <= cap then Outcome(s + n, None)
              else Outcome(s + n[..cap - |s|], Some(CapacityExceeded))
    decreases |items|
  {
    if items != [] {
      var x := items[0];
      if x in s {
        AppendAllIsNewItems(s, cap, items[1..]);
      } else if |s| >= cap {
        assert NewItems(s, items)[..0] == [];
      } else {
        InsertNew(s, cap, x, |s|);
        AppendAllIsNewItems(s + [x], cap, items[1..]);
        AppendNewStep(s, cap, x, items[1..]);
      }
    }
  }

  /** Unfolding both sides for a new first item that fits: it is appended,
      and it is the first of the new items. */
  lemma AppendFirstNew<T>(s: seq<T>, cap: nat, x: T, rest: seq<T>)
    requires x !in s && |s| < cap
    ensures AppendAll(s, cap, [x] + rest) == AppendAll(s + [x], cap, rest)
    ensures NewItems(s, [x] + rest) == [x] + NewItems(s + [x], rest)
  {
    assert ([x] + rest)[0] == x && ([x] + rest)[1..] == rest;
    assert InsertAt(s, |s|, x) == s + [x];
  }

  /** The step of AppendAllIsNewItems for a new first item that fits. */
  lemma AppendNewStep<T>(s: seq<T>, cap: nat, x: T, rest: seq<T>)
    requires x !in s && |s| < cap
    requires var n' := NewItems(s + [x], rest);
             AppendAll(s + [x], cap, rest) ==
               if |s| + 1 + |n'| <= cap then Outcome(s + [x] + n', None)
               else Outcome(s + [x] + n'[..cap - |s| - 1], Some(CapacityExceeded))
    ensures var n := NewItems(s, [x] + rest);
            AppendAll(s, cap, [x] + rest) ==
              if |s| + |n| <= cap then Outcome(s + n, None)
              else Outcome(s + n[..cap - |s|], Some(CapacityExceeded))
  {
    var n' := NewItems(s + [x], rest);
    AppendFirstNew(s, cap, x, rest);
    if |s| + 1 + |n'| > cap {
      assert ([x] + n')[..cap - |s|] == [x] + n'[..cap - |s| - 1];
      assert s + [x] + n'[..cap - |s| - 1] == s + ([x] + n')[..cap - |s|];
    } else {
      assert s + [x] + n' == s + ([x] + n');
    }
  }

  /** The other direction of `NewItems`: every item of the batch is either
      already seen or among the new items, and the new items extend a list
      without duplicates to a list without duplicates. So a batch builds a
      list holding each of its distinct values exactly once. */
  lemma {:induction false} NewItemsComplete<T>(seen: seq<T>, items: seq<T>)
    requires Distinct(seen)
    ensures forall y :: y in items ==> y in seen + NewItems(seen, items)
    ensures Distinct(seen + NewItems(seen, items))
    decreases |items|
  {
    if items != [] {
      var x := items[0];
      if x in seen {
        NewItemsComplete(seen, items[1..]);
        forall y | y in items ensures y in seen + NewItems(seen, items) {
          if y != x { assert y in items[1..]; }
        }
      } else {
        var seen' := seen + [x];
        assert Distinct(seen') by {
          forall i, j | 0 <= i < j < |seen'| ensures seen'[i] != seen'[j] {
            if j == |seen| { assert seen'[i] in seen; }
          }
        }
        NewItemsComplete(seen', items[1..]);
        assert seen + NewItems(seen, items) == seen' + NewItems(seen', items[1..]);
        forall y | y in items ensures y in seen + NewItems(seen, items) {
          if y != x { assert y in items[1..]; }
        }
      }
    }
  }

  /** Appending keeps the list free of duplicates, whatever the outcome. */
  lemma {:induction false} AppendAllKeepsDistinct<T>(s: seq<T>, cap: nat, items: seq<T>)
    requires Distinct(s)
    ensures Distinct(AppendAll(s, cap, items).items)
    decreases |items|
  {
    if items != [] {
      InsertKeepsDistinct(s, cap, items[0], |s|);
      AppendAllKeepsDistinct(Insert(s, cap, items[0], |s|).items, cap, items[1..]);
    }
  }

  /** Constructing from a batch: duplicates collapse to their first
      occurrence, order is kept (for example [A, B, A, C] gives [A, B, C]). */
  lemma ConstructFromBatch(cap: nat)
    requires cap >= 3
    ensures AppendAll([], cap, [10, 20, 10, 30]) == Outcome([10, 20, 30], None)
  {
    var items: seq<int> := [10, 20, 10, 30];
    assert items[1..] == [20, 10, 30] && items[1..][1..] == [10, 30];
    assert items[1..][1..][1..] == [30] && items[1..][1..][1..][1..] == [];
    assert NewItems([10, 20], [30]) == [30];
    assert NewItems([10, 20], [10, 30]) == [30];
    assert NewItems([10], [20, 10, 30]) == [20, 30];
    assert NewItems([], items) == [10, 20, 30];
    AppendAllIsNewItems([], cap, items);
  }

  /** A worked case with capacity 3: A at the back, B at the top and C at
      offset 1 give [B, C, A]; a fourth, new item then reports the capacity
      error and leaves [B, C, A]. */
  lemma CapacityThreeScenario()
    ensures var s1 := Insert([], 3, 'A', 0).items;
            var s2 := Insert(s1, 3, 'B', 0).items;
            var s3 := Insert(s2, 3, 'C', 1).items;
            s3 == ['B', 'C', 'A'] &&
            Insert(s3, 3, 'D', |s3|) == Outcome(['B', 'C', 'A'], Some(CapacityExceeded))
  {
    assert Insert([], 3, 'A', 0).items == ['A'];
    assert Insert(['A'], 3, 'B', 0).items == ['B', 'A'];
    assert Insert(['B', 'A'], 3, 'C', 1).items == ['B', 'C', 'A'];
  }

  // ------------------------------------------------------------ compare

  /** A three-way result, as `std::weak_ordering` gives it. */
  datatype Ordering = Less | Equivalent | Greater

  function Flip(o: Ordering): (r: Ordering)
  {
    match o
    case Less => Greater
    case Equivalent => Equivalent
    case Greater => Less
  }

  /** Three-way lexicographic comparison of two lists under an item
      comparison `cmp`: the first position where the items are not
      equivalent decides; otherwise the shorter list comes first. */
  function LexCompare<T>(a: seq<T>, b: seq<T>, cmp: (T, T) -> Ordering): (r: Ordering)
    decreases |a|
  {
    if a == [] && b == [] then Equivalent
    else if a == [] then Less
    else if b == [] then Greater
    else if cmp(a[0], b[0]) != Equivalent then cmp(a[0], b[0])
    else LexCompare(a[1..], b[1..], cmp)
  }

  /** Three-way comparison of sizes. */
  function CompareSizes(m: nat, n: nat): (r: Ordering)
  {
    if m < n then Less else if m > n then Greater else Equivalent
  }

  /** The lexicographic comparison reports equivalence only for lists of the
      same length, so a size comparison after it can never change the result. */
  lemma {:induction false} LexEquivalentSameSize<T>(a: seq<T>, b: seq<T>, cmp: (T, T) -> Ordering)
    ensures LexCompare(a, b, cmp) == Equivalent ==> |a| == |b|
    decreases |a|
  {
    if a != [] && b != [] && cmp(a[0], b[0]) == Equivalent {
      LexEquivalentSameSize(a[1..], b[1..], cmp);
    }
  }

  /** When item equivalence is item equality, two lists compare equivalent
      exactly when they are equal: `<=>` agrees with `==`. */
  lemma {:induction false} LexEquivalentIffEqual<T>(a: seq<T>, b: seq<T>, cmp: (T, T) -> Ordering)
    requires forall x, y :: cmp(x, y) == Equivalent <==> x == y
    ensures LexCompare(a, b, cmp) == Equivalent <==> a == b
    decreases |a|
  {
    if a != [] && b != [] {
      LexEquivalentIffEqual(a[1..], b[1..], cmp);
      if cmp(a[0], b[0]) == Equivalent {
        assert a[0] == b[0];
        assert a == [a[0]] + a[1..] && b == [b[0]] + b[1..];
      }
    }
  }

  /** Swapping the operands flips the result when the item comparison is
      antisymmetric. */
  lemma {:induction false} LexAntisymmetric<T>(a: seq<T>, b: seq<T>, cmp: (T, T) -> Ordering)
    requires forall x, y :: cmp(y, x) == Flip(cmp(x, y))
    ensures LexCompare(b, a, cmp) == Flip(LexCompare(a, b, cmp))
    decreases |a|
  {
    if a != [] && b != [] {
      assert cmp(b[0], a[0]) == Flip(cmp(a[0], b[0]));
      LexAntisymmetric(a[1..], b[1..], cmp);
    }
  }
}
