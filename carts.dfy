/** The driver's use of stacks and a queue: grocery items moved carefully from
    a broken cart to a working one by way of a spare (the three-peg
    relocation), then unloaded from the working cart onto the checkout
    counter's conveyor belt. */
module Carts {

  /** A cart is a stack of items; the top is the last item of `items`.
      `marks` are ghost labels travelling with the items: the starter gives
      each item of the source cart its height in that cart (0 at the bottom)
      and every item already in the destination a negative label, so a cart
      whose labels rise from bottom to top never holds an item on top of one
      that was above it in the source cart. */
  class Cart<T> {
    var items: seq<T>
    ghost var marks: seq<int>

    ghost predicate Valid()
      reads this
    {
      |marks| == |items|
    }

    constructor ()
      ensures Valid() && items == [] && marks == []
    {
      items, marks := [], [];
    }

    function Top(): (x: T)
      reads this
      requires items != []
      ensures x == items[|items| - 1]
    {
      items[|items| - 1]
    }

    method Push(x: T, ghost m: int)
      requires Valid()
      modifies this
      ensures Valid()
      ensures items == old(items) + [x] && marks == old(marks) + [m]
    {
      items, marks := items + [x], marks + [m];
    }

    method Pop()
      requires Valid() && items != []
      modifies this
      ensures Valid()
      ensures items == old(items)[..|old(items)| - 1] && marks == old(marks)[..|old(marks)| - 1]
    {
      items, marks := items[..|items| - 1], marks[..|marks| - 1];
    }
  }

  /** A queue: the front is the first item of `items`. */
  class Queue<T> {
    var items: seq<T>

    constructor ()
      ensures items == []
    {
      items := [];
    }

    method Push(x: T)
      modifies this
      ensures items == old(items) + [x]
    {
      items := items + [x];
    }
  }

  /** From position `cut` up, the labels are `low, low + 1, ...`: the items
      there are a run of consecutive items of the source cart. */
  ghost predicate RunFrom(ms: seq<int>, cut: nat, low: int) {
    cut <= |ms| && forall i :: cut <= i < |ms| ==> Label(ms, i) == low + (i - cut)
  }

  /** The label at position `i` of a cart. */
  ghost function Label(ms: seq<int>, i: nat): int
    requires i < |ms|
  {
    ms[i]
  }

  /** The label of the top item of a cart, or -1 for an empty cart: the
      cart floor counts as lower than every item of the source cart. */
  ghost function TopLabel(ms: seq<int>): int
  {
    if |ms| == 0 then -1 else ms[|ms| - 1]
  }

  /** An item labelled `m` may be placed on a cart whose labels are `ms`: the
      item it lands on was lower in the source cart than the item itself
      (or came from elsewhere), or the cart is empty. */
  ghost predicate MayPlace(ms: seq<int>, m: int) {
    TopLabel(ms) < m
  }

  function Pow2(n: nat): (r: nat)
    ensures r >= 1
  {
    if n == 0 then 1 else 2 * Pow2(n - 1)
  }

  /** One move: the top item of `from` pushed onto `to` and popped from
      `from`. The requirement on the labels is the care taken: no item is
      ever placed on an item that was above it in the source cart. */
  method MoveOne<T>(from: Cart<T>, to: Cart<T>)
    requires from != to && from.Valid() && to.Valid()
    requires from.items != []
    requires MayPlace(to.marks, from.marks[|from.marks| - 1])
    modifies from, to
    ensures from.Valid() && to.Valid()
    ensures from.items == old(from.items)[..|old(from.items)| - 1]
    ensures from.marks == old(from.marks)[..|old(from.marks)| - 1]
    ensures to.items == old(to.items) + [old(from.items)[|old(from.items)| - 1]]
    ensures to.marks == old(to.marks) + [old(from.marks)[|old(from.marks)| - 1]]
  {
    to.Push(from.Top(), from.marks[|from.marks| - 1]);
    from.Pop();
  }

  /** The recursive relocation of the top `quantity` items of `broken` onto
      `working`, using `spare`. The top `quantity` items leave `broken` and
      sit on `working` in the same order, `spare` ends as it began, every
      single move is careful, and there are `2^quantity - 1` moves. The
      quantity must be at least 1: the only base case is 1, and 0 would
      wrap around when decremented. */
  method CarefullyMove<T>(quantity: nat, broken: Cart<T>, working: Cart<T>, spare: Cart<T>,
                          ghost low: int)
    returns (ghost moves: nat)
    requires broken != working && working != spare && broken != spare
    requires broken.Valid() && working.Valid() && spare.Valid()
    requires 1 <= quantity <= |broken.items|
    requires var cut := |broken.marks| - quantity;
             RunFrom(broken.marks, cut, low) && MayPlace(broken.marks[..cut], low)
    requires MayPlace(working.marks, low) && MayPlace(spare.marks, low)
    modifies broken, working, spare
    ensures broken.Valid() && working.Valid() && spare.Valid()
    ensures var cut := |old(broken.items)| - quantity;
            broken.items == old(broken.items)[..cut] &&
            working.items == old(working.items) + old(broken.items)[cut..] &&
            broken.marks == old(broken.marks)[..cut] &&
            working.marks == old(working.marks) + old(broken.marks)[cut..]
    ensures spare.items == old(spare.items) && spare.marks == old(spare.marks)
    ensures moves == Pow2(quantity) - 1
    decreases quantity
  {
    ghost var b, bm := broken.items, broken.marks;
    ghost var w, wm := working.items, working.marks;
    ghost var sp, sm := spare.items, spare.marks;
    ghost var cut := |b| - quantity;
    if quantity == 1 {
      assert Label(bm, cut) == low;
      MoveOne(broken, working);
      moves := 1;
      assert b[cut..] == [b[cut]] && bm[cut..] == [bm[cut]];
    } else {
      ghost var half := Pow2(quantity - 1);
      assert Pow2(quantity) == 2 * half;
      RunRest(bm, cut, low);
      var first := CarefullyMove(quantity - 1, broken, spare, working, low + 1);
      ghost var sp1, sm1 := spare.items, spare.marks;
      ghost var b1, bm1 := broken.items, broken.marks;
      assert sp1 == sp + b[cut + 1..] && sm1 == sm + bm[cut + 1..];
      assert b1 == b[..cut + 1] && bm1 == bm[..cut + 1];
      MoveOne(broken, working);
      ghost var w2, wm2 := working.items, working.marks;
      Unstack(b, cut, b1, broken.items);
      Unstack(bm, cut, bm1, broken.marks);
      assert sm1[..|sm|] == sm;
      RunMoved(bm, cut + 1, low + 1, sm);
      var second := CarefullyMove(quantity - 1, spare, working, broken, low + 1);
      moves := first + 1 + second;
      Restack(b, w, sp, cut, sp1, w2, working.items, spare.items);
      Restack(bm, wm, sm, cut, sm1, wm2, working.marks, spare.marks);
    }
  }

  /** A run's bottom label is `low` and the run above it starts at
      `low + 1`. */
  lemma RunRest(ms: seq<int>, cut: nat, low: int)
    requires RunFrom(ms, cut, low) && cut < |ms|
    ensures ms[cut] == low && RunFrom(ms, cut + 1, low + 1)
  {
    assert Label(ms, cut) == low;
    forall i | cut + 1 <= i < |ms| ensures Label(ms, i) == low + 1 + (i - (cut + 1)) {
      assert Label(ms, i) == low + (i - cut);
    }
  }

  /** A run moved on top of other items is still a run. */
  lemma RunMoved(ms: seq<int>, cut: nat, low: int, below: seq<int>)
    requires RunFrom(ms, cut, low)
    ensures RunFrom(below + ms[cut..], |below|, low)
  {
    var s := below + ms[cut..];
    forall i | |below| <= i < |s| ensures Label(s, i) == low + (i - |below|) {
      assert s[i] == ms[cut + (i - |below|)];
      assert Label(ms, cut + (i - |below|)) == low + (i - |below|);
    }
  }

  /** After the first recursive call and the single move, `broken` has lost
      its top `|b| - cut` items. */
  lemma Unstack<X>(b: seq<X>, cut: nat, b1: seq<X>, b2: seq<X>)
    requires cut < |b|
    requires b1 == b[..cut + 1] && b2 == b1[..|b1| - 1]
    ensures b2 == b[..cut] && b1[|b1| - 1] == b[cut]
  {
  }

  /** After the second recursive call, the spare holds what it held at the
      start and `working` holds its old items with `b[cut..]` on top. */
  lemma Restack<X>(b: seq<X>, w: seq<X>, sp: seq<X>, cut: nat,
                   sp1: seq<X>, w2: seq<X>, wEnd: seq<X>, spEnd: seq<X>)
    requires cut < |b|
    requires sp1 == sp + b[cut + 1..]
    requires w2 == w + [b[cut]]
    requires wEnd == w2 + sp1[|sp1| - (|b| - cut - 1)..]
    requires spEnd == sp1[..|sp1| - (|b| - cut - 1)]
    ensures wEnd == w + b[cut..] && spEnd == sp
  {
    assert sp1[|sp1| - (|b| - cut - 1)..] == b[cut + 1..];
    assert b[cut..] == [b[cut]] + b[cut + 1..];
  }

  /** The starter: every item of `from` moved onto `to` through a fresh spare
      cart. `from` ends empty and `to` holds its old items with all of
      `from`'s on top, in their original order. `from` must not be empty. */
  method CarefullyMoveAll<T>(from: Cart<T>, to: Cart<T>) returns (ghost moves: nat)
    requires from != to && from.Valid() && to.Valid()
    requires from.items != []
    modifies from, to
    ensures from.Valid() && to.Valid()
    ensures from.items == [] && to.items == old(to.items) + old(from.items)
    ensures moves == Pow2(|old(from.items)|) - 1
  {
    var below, count := |to.items|, |from.items|;
    to.marks := seq(below, i => -1);
    from.marks := seq(count, i => i);
    var spare := new Cart();
    assert from.marks[..0] == [];
    moves := CarefullyMove(count, from, to, spare, 0);
  }

  /** `s` with its order reversed. */
  function Reversed<T>(s: seq<T>): (r: seq<T>)
    ensures |r| == |s|
    ensures forall i :: 0 <= i < |s| ==> r[i] == s[|s| - 1 - i]
  {
    if s == [] then [] else Reversed(s[1..]) + [s[0]]
  }

  /** Unloading a cart onto the conveyor belt, top item first, until the cart
      is empty: the belt receives the cart's items from top to bottom, so
      the former top is first in line. */
  method Checkout<T>(cart: Cart<T>, counter: Queue<T>)
    requires cart.Valid()
    modifies cart, counter
    ensures cart.items == []
    ensures counter.items == old(counter.items) + Reversed(old(cart.items))
  {
    ghost var all := cart.items;
    while cart.items != []
      invariant cart.Valid()
      invariant |cart.items| <= |all| && cart.items == all[..|cart.items|]
      invariant counter.items == old(counter.items) + Reversed(all[|cart.items|..])
      decreases |cart.items|
    {
      ghost var n := |cart.items|;
      assert Reversed(all[n - 1..]) == Reversed(all[n..]) + [all[n - 1]];
      counter.Push(cart.Top());
      cart.Pop();
    }
  }

  /** The driver's sequence: the broken cart's items moved carefully to a new
      working cart, which is then unloaded onto an empty checkout counter. The
      belt ends holding the items from the top of the broken cart down. */
  method MoveThenCheckout<T>(myCart: Cart<T>) returns (counter: Queue<T>)
    requires myCart.Valid() && myCart.items != []
    modifies myCart
    ensures myCart.items == []
    ensures counter.items == Reversed(old(myCart.items))
    ensures counter.items[0] == old(myCart.items)[|old(myCart.items)| - 1]
  {
    var workingCart := new Cart();
    ghost var moves := CarefullyMoveAll(myCart, workingCart);
    counter := new Queue();
    Checkout(workingCart, counter);
  }
}
