/** `handleAddToCart` of the catalog page: merge-on-add against the `cart_items` table.
    The lookup and the write are remote calls whose outcomes are inputs; the write's
    outcome is never inspected by the page, which acknowledges every attempt. */
module AddToCart {
  import opened Wrappers
  import opened Store

  /** The remote calls the handler makes, in order. */
  datatype Call = Select(user: UserId, product: ProductId) | Write(op: Op)

  /** One press of "add to cart": the calls issued, the table afterwards, and whether
      the confirmation modal opens. */
  datatype AddOutcome = AddOutcome(calls: seq<Call>, table: Table, acknowledged: bool)

  /** `if (!userId) return;`: a missing or empty user id stops the handler. */
  predicate SignedIn(session: Option<UserId>)
  {
    session.Some? && session.value != ""
  }

  /** The write chosen from what the lookup returned: only whether `existing` came back
      decides the branch; the lookup's `error` is never consulted. */
  function MergeOp(t: Table, user: UserId, product: ProductId, lookup: StoreResult): (op: Op)
    ensures op.Update? <==> lookup == Ok && |Matching(t, user, product)| == 1
    ensures op.Update? ==> Matching(t, user, product) == {op.id} && op.quantity == t.rows[op.id].quantity + 1
    ensures op.Insert? ==> op.row == Row(user, product, 1)
    ensures !op.Delete?
  {
    match LookupSingle(t, user, product, lookup)
    case Some(id) => Update(id, t.rows[id].quantity + 1)
    case None => Insert(Row(user, product, 1))
  }

  /** `handleAddToCart(product)` as written. */
  function HandleAddToCart(session: Option<UserId>, product: ProductId, t: Table,
                           lookup: StoreResult, write: StoreResult): (out: AddOutcome)
    ensures !SignedIn(session) ==> out == AddOutcome([], t, false)
    ensures SignedIn(session) ==>
      var op := MergeOp(t, session.value, product, lookup);
      && out.calls == [Select(session.value, product), Write(op)]
      && out.table == Apply(t, op, write)
      && out.acknowledged
    ensures WellFormed(t) ==> WellFormed(out.table)
  {
    if !SignedIn(session) then AddOutcome([], t, false)
    else
      var op := MergeOp(t, session.value, product, lookup);
      AddOutcome([Select(session.value, product), Write(op)], Apply(t, op, write), true)
  }

  /** Rows of other users and other products are untouched by an add, and every row the
      add creates belongs to the (user, product) pair. */
  lemma AddTouchesOnlyItsPair(session: Option<UserId>, product: ProductId, t: Table,
                              lookup: StoreResult, write: StoreResult)
    requires WellFormed(t) && SignedIn(session)
    ensures var t' := HandleAddToCart(session, product, t, lookup, write).table;
      && (forall k :: k in t.rows && (t.rows[k].user != session.value || t.rows[k].product != product) ==>
            k in t'.rows && t'.rows[k] == t.rows[k])
      && (forall k :: k in t'.rows && k !in t.rows ==> t'.rows[k] == Row(session.value, product, 1))
      && t.rows.Keys <= t'.rows.Keys
  {
  }

  /** Merge: with exactly one row for the pair and a successful lookup, the add issues one
      update of that row to its quantity plus one and inserts nothing. */
  lemma AddMergesIntoExistingRow(user: UserId, product: ProductId, t: Table, id: RowId, write: StoreResult)
    requires user != "" && Matching(t, user, product) == {id}
    ensures var out := HandleAddToCart(Some(user), product, t, Ok, write);
      && out.calls == [Select(user, product), Write(Update(id, t.rows[id].quantity + 1))]
      && (forall c :: c in out.calls ==> !(c.Write? && c.op.Insert?))
      && (write == Ok ==> Matching(out.table, user, product) == {id}
                          && out.table.rows[id].quantity == t.rows[id].quantity + 1)
  {
    var out := HandleAddToCart(Some(user), product, t, Ok, write);
    assert |Matching(t, user, product)| == 1;
    if write == Ok {
      assert Matching(out.table, user, product) == {id};
    }
  }

  /** Insert: with no row for the pair, the add inserts exactly one row with quantity one. */
  lemma AddInsertsNewRow(user: UserId, product: ProductId, t: Table, lookup: StoreResult, write: StoreResult)
    requires user != "" && WellFormed(t) && Matching(t, user, product) == {}
    ensures var out := HandleAddToCart(Some(user), product, t, lookup, write);
      && out.calls == [Select(user, product), Write(Insert(Row(user, product, 1)))]
      && (write == Ok ==> Matching(out.table, user, product) == {t.nextId}
                          && out.table.rows[t.nextId] == Row(user, product, 1))
  {
    var out := HandleAddToCart(Some(user), product, t, lookup, write);
    assert |Matching(t, user, product)| == 0;
    if write == Ok {
      assert Matching(out.table, user, product) == {t.nextId};
    }
  }

  /** After a successful lookup, an add never creates a second row for a pair: the
      table stays free of duplicates whatever the write's outcome. */
  lemma AddKeepsNoDuplicates(session: Option<UserId>, product: ProductId, t: Table, write: StoreResult)
    requires WellFormed(t) && NoDuplicates(t)
    ensures NoDuplicates(HandleAddToCart(session, product, t, Ok, write).table)
  {
    if SignedIn(session) {
      var user := session.value;
      var t' := HandleAddToCart(session, product, t, Ok, write).table;
      var op := MergeOp(t, user, product, Ok);
      if op.Insert? && write == Ok {
        assert |Matching(t, user, product)| != 1;
        assert Matching(t, user, product) == {} by {
          if k :| k in Matching(t, user, product) {
            assert Matching(t, user, product) == {k};
          }
        }
      }
    }
  }

  /** Every stored quantity stays at least one under any add. */
  lemma AddKeepsQuantitiesPositive(session: Option<UserId>, product: ProductId, t: Table,
                                   lookup: StoreResult, write: StoreResult)
    requires WellFormed(t) && PositiveQuantities(t)
    ensures PositiveQuantities(HandleAddToCart(session, product, t, lookup, write).table)
  {
  }

  /** `n` successive adds of the same product, each call succeeding. */
  function AddTimes(user: UserId, product: ProductId, t: Table, n: nat): (t': Table)
    ensures WellFormed(t) ==> WellFormed(t')
  {
    if n == 0 then t else HandleAddToCart(Some(user), product, AddTimes(user, product, t, n - 1), Ok, Ok).table
  }

  /** Starting with no row for the pair, `n >= 1` successive adds leave exactly one row
      for it, with quantity `n`. */
  lemma {:induction false} AddTimesCounts(user: UserId, product: ProductId, t: Table, n: nat)
    requires user != "" && WellFormed(t) && Matching(t, user, product) == {} && n >= 1
    ensures var t' := AddTimes(user, product, t, n);
      && |Matching(t', user, product)| == 1
      && t'.rows[TheElement(Matching(t', user, product))].quantity == n
  {
    if n == 1 {
      AddInsertsNewRow(user, product, t, Ok, Ok);
    } else {
      AddTimesCounts(user, product, t, n - 1);
      var prev := AddTimes(user, product, t, n - 1);
      assert AddTimes(user, product, t, n) == HandleAddToCart(Some(user), product, prev, Ok, Ok).table;
      var id := TheElement(Matching(prev, user, product));
      assert prev.rows[id].quantity == n - 1;
      AddMergesIntoExistingRow(user, product, prev, id, Ok);
    }
  }

  // ---------------------------------------------------------------------------
  // The lookup's error is never consulted. A lookup that fails in transport leaves
  // `existing` null, so the handler inserts a second row for a pair that already has
  // one. Once a pair has two rows, `.single()` matches neither, so every later add
  // inserts again. This assumes `cart_items` has no unique index on
  // (user_id, product_id); the table's schema is not part of this model.

  /** A failed lookup on a cart that already holds the product duplicates its row. */
  lemma LookupErrorDuplicatesRow()
    ensures var t := Table(map[0 := Row("u", "p", 1)], 1);
      var t' := HandleAddToCart(Some("u"), "p", t, Err, Ok).table;
      && NoDuplicates(t)
      && !NoDuplicates(t')
      && |Matching(t', "u", "p")| == 2
  {
    var t := Table(map[0 := Row("u", "p", 1)], 1);
    var t' := HandleAddToCart(Some("u"), "p", t, Err, Ok).table;
    assert t'.rows == map[0 := Row("u", "p", 1), 1 := Row("u", "p", 1)];
    assert Matching(t', "u", "p") == {0, 1};
  }

  /** Once duplicated, a pair keeps gaining rows: even a successful lookup finds no
      single row, so the add inserts yet another. */
  lemma DuplicatesGrow(user: UserId, product: ProductId, t: Table)
    requires user != "" && WellFormed(t) && |Matching(t, user, product)| >= 2
    ensures |Matching(HandleAddToCart(Some(user), product, t, Ok, Ok).table, user, product)|
         == |Matching(t, user, product)| + 1
  {
    var t' := HandleAddToCart(Some(user), product, t, Ok, Ok).table;
    assert Matching(t', user, product) == Matching(t, user, product) + {t.nextId};
  }

  /** The corrected handler fails closed: a lookup that fails in transport (`Err`)
      aborts before any write, and only a successful write is acknowledged. A lookup
      that goes through but matches no row still inserts. The page cannot get this by
      adding `if (error) return`, because `.single()` also reports an error when no row
      matches, so that check would refuse every first add of a product. It needs
      `.maybeSingle()` (no error on zero rows) or a test of the error code. */
  function HandleAddToCartFailClosed(session: Option<UserId>, product: ProductId, t: Table,
                                     lookup: StoreResult, write: StoreResult): (out: AddOutcome)
    ensures !SignedIn(session) ==> out == AddOutcome([], t, false)
    ensures SignedIn(session) && lookup == Err ==>
      out == AddOutcome([Select(session.value, product)], t, false)
    ensures out.acknowledged <==> SignedIn(session) && lookup == Ok && write == Ok
    ensures lookup == Ok && write == Ok ==> out == HandleAddToCart(session, product, t, lookup, write)
  {
    if !SignedIn(session) then AddOutcome([], t, false)
    else if lookup == Err then AddOutcome([Select(session.value, product)], t, false)
    else
      var out := HandleAddToCart(session, product, t, lookup, write);
      out.(acknowledged := write == Ok)
  }

  /** With the correction, no outcome of either call can duplicate a row. */
  lemma FailClosedKeepsNoDuplicates(session: Option<UserId>, product: ProductId, t: Table,
                                    lookup: StoreResult, write: StoreResult)
    requires WellFormed(t) && NoDuplicates(t)
    ensures NoDuplicates(HandleAddToCartFailClosed(session, product, t, lookup, write).table)
  {
    if lookup == Ok {
      AddKeepsNoDuplicates(session, product, t, write);
    }
  }
}
