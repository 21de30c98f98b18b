/** `calculateTotal`: the cart's total in cents, accumulated left to right as
    `reduce((sum, item) => sum + item.quantity * item.products.price, 0)` does. */
module CartTotal {
  import opened Store
  import opened CartView

  /** An item's line subtotal: quantity times unit price. */
  function Subtotal(item: CartItem): int
  {
    item.quantity * item.product.price
  }

  /** The reference sum of the subtotals, Σ over the items. */
  function SumOfSubtotals(items: seq<CartItem>): int
  {
    if items == [] then 0 else Subtotal(items[0]) + SumOfSubtotals(items[1..])
  }

  /** The accumulator loop of `reduce`, starting from `acc`. */
  function Accumulate(acc: int, items: seq<CartItem>): (sum: int)
    ensures sum == acc + SumOfSubtotals(items)
    decreases |items|
  {
    if items == [] then acc else Accumulate(acc + Subtotal(items[0]), items[1..])
  }

  /** `calculateTotal()`. */
  function Total(items: seq<CartItem>): (total: int)
    ensures items == [] ==> total == 0
  {
    Accumulate(0, items)
  }

  /** The total is the sum of the per-item subtotals. */
  lemma TotalIsSumOfSubtotals(items: seq<CartItem>)
    ensures Total(items) == SumOfSubtotals(items)
    ensures forall x: CartItem :: Total([x]) == Subtotal(x)
  {
  }

  lemma {:induction false} SumAppend(a: seq<CartItem>, b: seq<CartItem>)
    ensures SumOfSubtotals(a + b) == SumOfSubtotals(a) + SumOfSubtotals(b)
  {
    if a == [] {
      assert a + b == b;
    } else {
      assert (a + b)[1..] == a[1..] + b;
      SumAppend(a[1..], b);
    }
  }

  /** The total splits over concatenated carts. */
  lemma TotalAppend(a: seq<CartItem>, b: seq<CartItem>)
    ensures Total(a + b) == Total(a) + Total(b)
  {
    SumAppend(a, b);
  }

  /** The total does not depend on the order of the items. */
  lemma TotalOrderIndependent(a: seq<CartItem>, b: seq<CartItem>)
    requires multiset(a) == multiset(b)
    ensures Total(a) == Total(b)
  {
    SumPermutation(a, b);
  }

  lemma {:induction false} SumPermutation(a: seq<CartItem>, b: seq<CartItem>)
    requires multiset(a) == multiset(b)
    ensures SumOfSubtotals(a) == SumOfSubtotals(b)
    decreases |a|
  {
    if a != [] {
      assert a[0] in multiset(b) by { assert a[0] in multiset(a); }
      var k :| 0 <= k < |b| && b[k] == a[0];
      var b' := b[..k] + b[k + 1..];
      RemoveMatching(a, b, k);
      SumPermutation(a[1..], b');
      SumRemoveAt(b, k);
    }
  }

  /** Removing one element from each of two permutations of each other. */
  lemma RemoveMatching(a: seq<CartItem>, b: seq<CartItem>, k: nat)
    requires multiset(a) == multiset(b)
    requires a != [] && k < |b| && b[k] == a[0]
    ensures multiset(a[1..]) == multiset(b[..k] + b[k + 1..])
  {
    var x := a[0];
    assert a == [x] + a[1..];
    assert b == b[..k] + [x] + b[k + 1..];
    calc {
      multiset(a[1..]);
      multiset(a) - multiset{x};
      multiset(b) - multiset{x};
      multiset(b[..k]) + multiset(b[k + 1..]);
      multiset(b[..k] + b[k + 1..]);
    }
  }

  /** The sum with the element at `k` taken out. */
  lemma SumRemoveAt(b: seq<CartItem>, k: nat)
    requires k < |b|
    ensures SumOfSubtotals(b) == Subtotal(b[k]) + SumOfSubtotals(b[..k] + b[k + 1..])
  {
    assert b == b[..k] + ([b[k]] + b[k + 1..]);
    SumAppend(b[..k], [b[k]] + b[k + 1..]);
    SumAppend([b[k]], b[k + 1..]);
    SumAppend(b[..k], b[k + 1..]);
    assert SumOfSubtotals([b[k]]) == Subtotal(b[k]);
  }

  /** With positive quantities and non-negative prices, the total is non-negative. */
  lemma {:induction false} TotalNonNegative(items: seq<CartItem>)
    requires AllPositive(items)
    requires forall i :: 0 <= i < |items| ==> items[i].product.price >= 0
    ensures Total(items) >= 0
  {
    if items != [] {
      assert AllPositive(items[1..]) by {
        forall i | 0 <= i < |items[1..]| ensures items[1..][i].quantity >= 1 {
          assert items[1..][i] == items[i + 1];
        }
      }
      TotalNonNegative(items[1..]);
      assert Subtotal(items[0]) >= 0 by {
        assert items[0].quantity >= 1 && items[0].product.price >= 0;
      }
    }
  }

  /** Removing the item at `i` (ids distinct) lowers the total by exactly its subtotal. */
  lemma TotalAfterRemove(items: seq<CartItem>, i: nat)
    requires i < |items| && DistinctIds(items)
    ensures Total(RemoveItem(items, items[i].id, Ok)) == Total(items) - Subtotal(items[i])
  {
    var id := items[i].id;
    var pre, post := items[..i], items[i + 1..];
    assert items == pre + ([items[i]] + post);
    assert forall j :: 0 <= j < |pre| ==> pre[j] == items[j];
    assert forall j :: 0 <= j < |post| ==> post[j] == items[i + 1 + j];
    assert !HasId(pre, id);
    assert !HasId(post, id);
    WithoutAppend(pre, [items[i]] + post, id);
    WithoutAppend([items[i]], post, id);
    assert Without([items[i]], id) == [];
    assert RemoveItem(items, id, Ok) == pre + post;
    SumRemoveAt(items, i);
  }

  /** Setting the quantity of the item at `i` (ids distinct) to `q > 0` changes the total
      by the difference of the two subtotals. */
  lemma TotalAfterUpdate(items: seq<CartItem>, i: nat, q: int)
    requires i < |items| && DistinctIds(items) && q > 0
    ensures Total(UpdateQuantity(items, items[i].id, q, Ok))
         == Total(items) + (q - items[i].quantity) * items[i].product.price
  {
    var r := UpdateQuantity(items, items[i].id, q, Ok);
    var updated := items[i].(quantity := q);
    assert r == items[..i] + [updated] + items[i + 1..];
    assert r[..i] + r[i + 1..] == items[..i] + items[i + 1..];
    SumRemoveAt(items, i);
    SumRemoveAt(r, i);
    assert Subtotal(updated) - Subtotal(items[i]) == (q - items[i].quantity) * items[i].product.price;
  }
}
