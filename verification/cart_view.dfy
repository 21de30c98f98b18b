/** The cart page's in-memory list of line items (`cartItems`) and the transitions
    applied to it: the initial load, `updateQuantity` and `removeItem`. Each
    transition issues one write to the `cart_items` table and touches the list only
    when that write succeeded. Prices are integer cents. */
module CartView {
  import opened Wrappers
  import opened Store

  /** The product columns joined into a cart row: (id, name, price). */
  datatype Product = Product(id: ProductId, name: string, price: int)

  /** One element of `cartItems`: the row id, its quantity and the joined product. */
  datatype CartItem = CartItem(id: RowId, quantity: int, product: Product)

  /** A row as the joined query returns it: `products` is null when the referenced
      product no longer resolves. */
  datatype FetchedRow = FetchedRow(id: RowId, quantity: int, product: Option<Product>)

  /** Outcome of the joined list query: an error, or `data` (which may itself be null). */
  datatype FetchResult = FetchErr | FetchOk(data: Option<seq<FetchedRow>>)

  /** Every item's quantity is at least one. */
  predicate AllPositive(items: seq<CartItem>)
  {
    forall i :: 0 <= i < |items| ==> items[i].quantity >= 1
  }

  /** No two items carry the same row id. */
  predicate DistinctIds(items: seq<CartItem>)
  {
    forall i, j :: 0 <= i < j < |items| ==> items[i].id != items[j].id
  }

  /** Some item carries row id `id`. */
  predicate HasId(items: seq<CartItem>, id: RowId)
  {
    exists i :: 0 <= i < |items| && items[i].id == id
  }

  /** The row a cart item was built from. */
  function AsFetched(item: CartItem): FetchedRow
  {
    FetchedRow(item.id, item.quantity, Some(item.product))
  }

  /** The rows whose product resolved, in the order they were fetched. */
  function KeepResolved(rows: seq<FetchedRow>): (items: seq<CartItem>)
    ensures |items| <= |rows|
    ensures forall i :: 0 <= i < |items| ==> AsFetched(items[i]) in rows
    ensures forall r :: r in rows && r.product.Some? ==> CartItem(r.id, r.quantity, r.product.value) in items
  {
    if rows == [] then []
    else
      var rest := KeepResolved(rows[1..]);
      match rows[0].product
      case Some(p) => [CartItem(rows[0].id, rows[0].quantity, p)] + rest
      case None => rest
  }

  /** The list after the initial load: empty when nobody is signed in (no query is
      made), after a failed query or with a null `data`; otherwise the fetched rows
      whose product is not null. */
  function Load(signedIn: bool, fetch: FetchResult): (items: seq<CartItem>)
    ensures !signedIn || fetch.FetchErr? || (fetch.FetchOk? && fetch.data.None?) ==> items == []
    ensures signedIn && fetch.FetchOk? && fetch.data.Some? ==>
      && |items| <= |fetch.data.value|
      && (forall i :: 0 <= i < |items| ==> AsFetched(items[i]) in fetch.data.value)
      && (forall r :: r in fetch.data.value && r.product.Some? ==> CartItem(r.id, r.quantity, r.product.value) in items)
  {
    if !signedIn then []
    else
      match fetch
      case FetchErr => []
      case FetchOk(data) =>
        match data
        case None => []
        case Some(rows) => KeepResolved(rows)
  }

  /** Loading keeps fetch order: the filter distributes over concatenation. */
  lemma {:induction false} KeepResolvedAppend(a: seq<FetchedRow>, b: seq<FetchedRow>)
    ensures KeepResolved(a + b) == KeepResolved(a) + KeepResolved(b)
  {
    if a == [] {
      assert a + b == b;
    } else {
      assert (a + b)[1..] == a[1..] + b;
      KeepResolvedAppend(a[1..], b);
    }
  }

  /** Loading keeps every row exactly when every product resolved. */
  lemma {:induction false} KeepResolvedAll(rows: seq<FetchedRow>)
    ensures |KeepResolved(rows)| == |rows| <==> forall i :: 0 <= i < |rows| ==> rows[i].product.Some?
  {
    if rows != [] {
      KeepResolvedAll(rows[1..]);
      if rows[0].product.Some? {
        assert forall i :: 1 <= i < |rows| ==> rows[i] == rows[1..][i - 1];
      }
    }
  }

  /** `prev.filter(item => item.id !== id)`. */
  function Without(items: seq<CartItem>, id: RowId): (r: seq<CartItem>)
    ensures |r| <= |items|
    ensures forall i :: 0 <= i < |r| ==> r[i].id != id && r[i] in items
    ensures forall it :: it in items && it.id != id ==> it in r
    ensures !HasId(items, id) ==> r == items
  {
    if items == [] then []
    else
      var rest := Without(items[1..], id);
      if items[0].id == id then rest
      else
        assert !HasId(items, id) ==> !HasId(items[1..], id) by {
          if HasId(items[1..], id) {
            var i :| 0 <= i < |items[1..]| && items[1..][i].id == id;
            assert items[i + 1].id == id;
          }
        }
        [items[0]] + rest
  }

  /** `prev.map(item => item.id === id ? { ...item, quantity: q } : item)`. */
  function WithQuantity(items: seq<CartItem>, id: RowId, q: int): (r: seq<CartItem>)
    ensures |r| == |items|
    ensures forall i :: 0 <= i < |r| ==>
      && r[i].id == items[i].id
      && r[i].product == items[i].product
      && r[i].quantity == (if items[i].id == id then q else items[i].quantity)
    ensures !HasId(items, id) ==> r == items
  {
    seq(|items|, i requires 0 <= i < |items| =>
      if items[i].id == id then items[i].(quantity := q) else items[i])
  }

  /** `removeItem(id)`: a delete of row `id`; on success the item leaves the list. */
  function RemoveItem(items: seq<CartItem>, id: RowId, res: StoreResult): (r: seq<CartItem>)
    ensures res == Err ==> r == items
    ensures res == Ok ==>
      && !HasId(r, id)
      && |r| <= |items|
      && (forall it :: it in r ==> it in items)
      && (forall it :: it in items && it.id != id ==> it in r)
    ensures AllPositive(items) ==> AllPositive(r)
    ensures DistinctIds(items) ==> DistinctIds(r)
  {
    if res == Ok then
      var r := Without(items, id);
      assert DistinctIds(items) ==> DistinctIds(r) by {
        if DistinctIds(items) { WithoutKeepsDistinct(items, id); }
      }
      r
    else items
  }

  /** Removal keeps the relative order of the remaining items: it distributes over
      concatenation. */
  lemma {:induction false} RemoveItemKeepsOrder(a: seq<CartItem>, b: seq<CartItem>, id: RowId, res: StoreResult)
    ensures RemoveItem(a + b, id, res) == RemoveItem(a, id, res) + RemoveItem(b, id, res)
  {
    if res == Ok {
      WithoutAppend(a, b, id);
    }
  }

  lemma {:induction false} WithoutAppend(a: seq<CartItem>, b: seq<CartItem>, id: RowId)
    ensures Without(a + b, id) == Without(a, id) + Without(b, id)
  {
    if a == [] {
      assert a + b == b;
    } else {
      assert (a + b)[1..] == a[1..] + b;
      WithoutAppend(a[1..], b, id);
    }
  }

  lemma {:induction false} WithoutKeepsDistinct(items: seq<CartItem>, id: RowId)
    requires DistinctIds(items)
    ensures DistinctIds(Without(items, id))
  {
    if items != [] {
      DistinctTail(items);
      WithoutKeepsDistinct(items[1..], id);
      if items[0].id != id {
        var rest := Without(items[1..], id);
        forall j | 0 <= j < |rest|
          ensures items[0].id != rest[j].id
        {
          NotHeadId(items, rest[j]);
        }
        DistinctCons(items[0], rest);
      }
    }
  }

  lemma DistinctTail(items: seq<CartItem>)
    requires items != [] && DistinctIds(items)
    ensures DistinctIds(items[1..])
  {
  }

  lemma NotHeadId(items: seq<CartItem>, it: CartItem)
    requires items != [] && DistinctIds(items) && it in items[1..]
    ensures it.id != items[0].id
  {
  }

  lemma DistinctCons(x: CartItem, rest: seq<CartItem>)
    requires DistinctIds(rest)
    requires forall j :: 0 <= j < |rest| ==> x.id != rest[j].id
    ensures DistinctIds([x] + rest)
  {
  }

  /** `updateQuantity(id, q)`: a quantity of zero or less goes through `removeItem`;
      otherwise row `id` is updated and, on success, the item's quantity becomes `q`. */
  function UpdateQuantity(items: seq<CartItem>, id: RowId, q: int, res: StoreResult): (r: seq<CartItem>)
    ensures q <= 0 ==> r == RemoveItem(items, id, res)
    ensures res == Err ==> r == items
    ensures q > 0 && res == Ok ==>
      && |r| == |items|
      && forall i :: 0 <= i < |r| ==>
        && r[i].id == items[i].id
        && r[i].product == items[i].product
        && r[i].quantity == (if items[i].id == id then q else items[i].quantity)
    ensures !HasId(items, id) ==> r == items
    ensures AllPositive(items) ==> AllPositive(r)
    ensures DistinctIds(items) ==> DistinctIds(r)
  {
    if q <= 0 then RemoveItem(items, id, res)
    else if res == Ok then WithQuantity(items, id, q)
    else items
  }

  /** The write `updateQuantity(id, q)` issues. */
  function QuantityOp(id: RowId, q: int): (op: Op)
    ensures !op.Insert? && op.id == id
    ensures op.Delete? <==> q <= 0
    ensures op.Update? ==> op.quantity == q && q >= 1
  {
    if q <= 0 then Delete(id) else Update(id, q)
  }

  /** The ➖ control: `updateQuantity(item.id, item.quantity - 1)`. */
  function Decrement(items: seq<CartItem>, i: nat, res: StoreResult): (r: seq<CartItem>)
    requires i < |items|
    ensures res == Ok && items[i].quantity <= 1 ==> !HasId(r, items[i].id)
    ensures res == Ok && items[i].quantity > 1 && DistinctIds(items) ==>
      |r| == |items| && r[i].quantity == items[i].quantity - 1
    ensures AllPositive(items) ==> AllPositive(r)
  {
    UpdateQuantity(items, items[i].id, items[i].quantity - 1, res)
  }

  /** The ➕ control: `updateQuantity(item.id, item.quantity + 1)`. */
  function Increment(items: seq<CartItem>, i: nat, res: StoreResult): (r: seq<CartItem>)
    requires i < |items|
    ensures res == Ok && DistinctIds(items) && items[i].quantity >= 0 ==>
      && |r| == |items|
      && r[i].quantity == items[i].quantity + 1
      && forall j :: 0 <= j < |r| && j != i ==> r[j] == items[j]
    ensures AllPositive(items) ==> AllPositive(r)
  {
    UpdateQuantity(items, items[i].id, items[i].quantity + 1, res)
  }

  /** The list mirrors the table: ids are distinct and each item's row exists with the
      item's quantity. */
  predicate MirrorsTable(items: seq<CartItem>, t: Table)
  {
    && DistinctIds(items)
    && forall i :: 0 <= i < |items| ==> items[i].id in t.rows && t.rows[items[i].id].quantity == items[i].quantity
  }

  /** The joined query returned rows of `t` as stored: no row twice, and each with the
      table's id and quantity. */
  predicate FetchedFrom(rows: seq<FetchedRow>, t: Table)
  {
    && (forall i, j :: 0 <= i < j < |rows| ==> rows[i].id != rows[j].id)
    && (forall r :: r in rows ==> r.id in t.rows && t.rows[r.id].quantity == r.quantity)
  }

  /** The list starts in step with the table: a successful load of rows fetched from
      `t` mirrors `t`, and holds positive quantities when the table does. */
  lemma LoadMirrorsTable(rows: seq<FetchedRow>, t: Table)
    requires FetchedFrom(rows, t)
    ensures MirrorsTable(Load(true, FetchOk(Some(rows))), t)
    ensures PositiveQuantities(t) ==> AllPositive(Load(true, FetchOk(Some(rows))))
  {
    KeepResolvedDistinct(rows);
  }

  lemma {:induction false} KeepResolvedDistinct(rows: seq<FetchedRow>)
    requires forall i, j :: 0 <= i < j < |rows| ==> rows[i].id != rows[j].id
    ensures DistinctIds(KeepResolved(rows))
  {
    if rows != [] {
      var rest := KeepResolved(rows[1..]);
      assert forall i, j :: 0 <= i < j < |rows[1..]| ==> rows[1..][i].id != rows[1..][j].id by {
        forall i, j | 0 <= i < j < |rows[1..]| ensures rows[1..][i].id != rows[1..][j].id {
          assert rows[1..][i] == rows[i + 1] && rows[1..][j] == rows[j + 1];
        }
      }
      KeepResolvedDistinct(rows[1..]);
      if rows[0].product.Some? {
        forall j | 0 <= j < |rest| ensures rows[0].id != rest[j].id {
          var k :| 0 <= k < |rows[1..]| && rows[1..][k] == AsFetched(rest[j]);
          assert rows[k + 1] == AsFetched(rest[j]);
        }
        DistinctCons(CartItem(rows[0].id, rows[0].quantity, rows[0].product.value), rest);
      }
    }
  }

  /** Keeping the list in step with the table: whatever the outcome of the write (an
      error meaning the write took no effect, as `Apply` has it),
      `updateQuantity` leaves the list mirroring the table the write produced. */
  lemma UpdateQuantityKeepsMirror(items: seq<CartItem>, t: Table, id: RowId, q: int, res: StoreResult)
    requires MirrorsTable(items, t)
    ensures MirrorsTable(UpdateQuantity(items, id, q, res), Apply(t, QuantityOp(id, q), res))
  {
    var r := UpdateQuantity(items, id, q, res);
    var t' := Apply(t, QuantityOp(id, q), res);
    if res == Ok {
      if q <= 0 {
        forall i | 0 <= i < |r|
          ensures r[i].id in t'.rows && t'.rows[r[i].id].quantity == r[i].quantity
        {
          assert r[i] in r;
          var j :| 0 <= j < |items| && items[j] == r[i];
        }
      } else {
        forall i | 0 <= i < |r|
          ensures r[i].id in t'.rows && t'.rows[r[i].id].quantity == r[i].quantity
        {
          assert items[i].id in t.rows;
        }
      }
    }
  }

  /** The same for `removeItem`. */
  lemma RemoveItemKeepsMirror(items: seq<CartItem>, t: Table, id: RowId, res: StoreResult)
    requires MirrorsTable(items, t)
    ensures MirrorsTable(RemoveItem(items, id, res), Apply(t, Delete(id), res))
  {
    UpdateQuantityKeepsMirror(items, t, id, 0, res);
  }
}
