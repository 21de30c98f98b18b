/** The `cart_items` table of the persistence backend as both cart pages use it.
    Rows are keyed by an identity the backend assigns on insert. Every remote call
    either succeeds or fails, and which one happens is decided by the backend, so
    the outcome is an input (`StoreResult`) of each operation. */
module Store {
  import opened Wrappers

  type RowId = nat
  type UserId = string
  type ProductId = string

  /** One `cart_items` row: (user_id, product_id, quantity). */
  datatype Row = Row(user: UserId, product: ProductId, quantity: int)

  /** The table together with the identity the backend hands to the next insert. */
  datatype Table = Table(rows: map<RowId, Row>, nextId: RowId)

  /** Outcome of one remote call at the transport level: `Ok` when the call reached the
      backend and ran, `Err` when it failed and took no effect (network, authorisation,
      a rejected write). A write that the backend committed but whose response was lost
      also reports an error to the page, but it is not modelled: `Err` always means the
      table is unchanged (see `Apply`).
      For a `.single()` lookup, the backend also reports an error when no row or several
      rows match; that error is not a transport failure and is not `Err` here. It is
      folded into the lookup's result, which is then `None` (see `LookupSingle`). */
  datatype StoreResult = Ok | Err

  /** The single-row writes the pages issue. */
  datatype Op =
    | Update(id: RowId, quantity: int)   // update({ quantity }).eq('id', id)
    | Delete(id: RowId)                  // delete().eq('id', id)
    | Insert(row: Row)                   // insert([row]); the backend assigns the id

  /** Every row was created by an insert, so its id is below the next id. */
  predicate WellFormed(t: Table)
  {
    forall k :: k in t.rows ==> k < t.nextId
  }

  /** The rows of `user` for `product`. */
  function Matching(t: Table, user: UserId, product: ProductId): (ks: set<RowId>)
    ensures forall k :: k in ks <==> k in t.rows && t.rows[k].user == user && t.rows[k].product == product
  {
    set k | k in t.rows && t.rows[k].user == user && t.rows[k].product == product
  }

  /** No two rows share a (user, product) pair. */
  predicate NoDuplicates(t: Table)
  {
    forall k1, k2 ::
      (k1 in t.rows && k2 in t.rows && t.rows[k1].user == t.rows[k2].user && t.rows[k1].product == t.rows[k2].product)
      ==> k1 == k2
  }

  /** Every stored quantity is at least one. */
  predicate PositiveQuantities(t: Table)
  {
    forall k :: k in t.rows ==> t.rows[k].quantity >= 1
  }

  /** Applying one write. A failed call changes nothing; an update or delete whose
      id matches no row affects no row (the `.eq('id', ..)` filter selects nothing). */
  function Apply(t: Table, op: Op, res: StoreResult): (t': Table)
    ensures res == Err ==> t' == t
    ensures WellFormed(t) ==> WellFormed(t')
    ensures res == Ok && op.Update? ==>
      && t'.nextId == t.nextId
      && t'.rows.Keys == t.rows.Keys
      && (forall k :: k in t.rows && k != op.id ==> t'.rows[k] == t.rows[k])
      && (op.id in t.rows ==> t'.rows[op.id] == Row(t.rows[op.id].user, t.rows[op.id].product, op.quantity))
    ensures res == Ok && op.Delete? ==>
      && t'.nextId == t.nextId
      && op.id !in t'.rows
      && t'.rows.Keys == t.rows.Keys - {op.id}
      && (forall k :: k in t'.rows ==> t'.rows[k] == t.rows[k])
    ensures res == Ok && op.Insert? ==>
      && t'.nextId == t.nextId + 1
      && t'.rows.Keys == t.rows.Keys + {t.nextId}
      && t'.rows[t.nextId] == op.row
      && (WellFormed(t) ==> forall k :: k in t.rows ==> t'.rows[k] == t.rows[k])
  {
    if res == Err then t
    else
      match op
      case Update(id, q) =>
        if id in t.rows then t.(rows := t.rows[id := t.rows[id].(quantity := q)]) else t
      case Delete(id) =>
        t.(rows := t.rows - {id})
      case Insert(row) =>
        Table(t.rows[t.nextId := row], t.nextId + 1)
  }

  /** The only element of a one-element set. */
  function TheElement<T(==)>(s: set<T>): (x: T)
    requires |s| == 1
    ensures s == {x}
  {
    SingletonMembers(s);
    var x :| x in s;
    x
  }

  lemma SingletonMembers<T>(s: set<T>)
    requires |s| == 1
    ensures forall a, b :: a in s && b in s ==> a == b
  {
    forall a, b | a in s && b in s
      ensures a == b
    {
      var rest := s - {a};
      assert s == rest + {a};
      assert rest * {a} == {};
      assert |rest| == 0;
      assert b in rest || b == a;
    }
  }

  /** `select('*').eq('user_id', user).eq('product_id', product).single()`: the lookup
      returns a row only when the call goes through (`res == Ok`) and exactly one row
      matches. With no match or several matches, `.single()` sets `error` (code
      PGRST116) and leaves `data` null. That case is modelled by `res == Ok` together
      with a result of `None`, and a transport failure by `res == Err`. Both give a
      null `existing`. */
  function LookupSingle(t: Table, user: UserId, product: ProductId, res: StoreResult): (existing: Option<RowId>)
    ensures existing.Some? <==> res == Ok && |Matching(t, user, product)| == 1
    ensures existing.Some? ==> Matching(t, user, product) == {existing.value}
  {
    if res.Err? then None
    else
      if |Matching(t, user, product)| == 1 then Some(TheElement(Matching(t, user, product))) else None
  }
}
