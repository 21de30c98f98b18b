# Cart and order composition, modelled in Dafny

This project models the cart logic of a small storefront (a Next.js app over a
Supabase backend). It covers two pages:

- The cart page (`src/app/cart/page.tsx`). It loads the user's `cart_items` rows joined
  with their products and drops rows whose product no longer resolves. It changes
  quantities with `updateQuantity` and removes items with `removeItem`. A quantity of
  zero or less goes through `removeItem`, and the in-memory list changes only when the
  backend call reports no error. The page computes the cart total with
  `calculateTotal`. At checkout it builds an order message and a `wa.me` deep link.
- The catalog page (`src/app/page.tsx`), whose `handleAddToCart` merges on add. It looks
  up the row for (user, product). If that row exists, it updates it to quantity + 1.
  Otherwise it inserts a new row with quantity 1.

Pure functions over immutable values stand in for every React state update. Each
backend call is an abstract operation whose outcome (`Ok` or `Err`) is an input. Money
is integer cents.

Modules, one per file:

- `Wrappers` (`wrappers.dfy`): `Option`.
- `Store` (`store.dfy`): the `cart_items` table as a map from row id to
  (user, product, quantity), the single-row writes, and the `.single()` lookup.
- `CartView` (`cart_view.dfy`): the cart page's list and its transitions, and the
  invariant that the list mirrors the table.
- `CartTotal` (`cart_total.dfy`): `calculateTotal` as a left fold, and its algebra.
- `Text` (`text.dfy`): the decimal rendering of quantities and of `toFixed(2)` amounts,
  with parsers that read them back.
- `UriEncoding` (`uri_encoding.dfy`): `encodeURIComponent` (section 19.2.6.5 of
  ECMA-262) on strings of Unicode scalar values, with the matching
  `decodeURIComponent`.
- `Order` (`order.dfy`): item lines, the message, and the checkout link.
- `AddToCart` (`add_to_cart.dfy`): `handleAddToCart`, and the fail-closed correction
  described under Findings.

Behaviour worth noting, as the code of `src/app/page.tsx` and `src/app/cart/page.tsx` has it:

- Add to cart: a failed existence lookup falls through to the insert path (see
  Findings). The confirmation modal also opens whatever the write's outcome.
- Checkout with an empty cart: the button is not rendered at all, because the whole
  order block sits behind `cartItems.length > 0`. The page has no separate refusal.
- Line subtotals: the code computes `price * quantity`, which has the same value as
  `quantity * price`.

## Model

| member | source | states |
|---|---|---|
| CartView.KeepResolved | src/app/cart/page.tsx:57 | keeps only the fetched rows whose product is present; never grows; every kept item comes from a row, and every resolved row appears |
| CartView.Load | src/app/cart/page.tsx:26-61 | the list is empty when no user is signed in, when the query fails, or when `data` is null; otherwise it holds exactly the rows whose `products` is non-null |
| CartView.KeepResolvedAppend | src/app/cart/page.tsx:57 | loading keeps fetch order: the filter distributes over concatenation |
| CartView.KeepResolvedAll | src/app/cart/page.tsx:57 | the loaded list is as long as the fetch exactly when every row's product resolved |
| CartView.Without | src/app/cart/page.tsx:101 | the filter removes every item with the id, keeps every other item, and changes nothing when the id is absent |
| CartView.WithQuantity | src/app/cart/page.tsx:86-90 | the map keeps length, ids and products; only items with the id get the new quantity; an absent id changes nothing |
| CartView.RemoveItem | src/app/cart/page.tsx:94-103 | on error the list is unchanged; on success no item keeps the id, nothing is added and every other item stays; positivity and distinct ids are preserved |
| CartView.RemoveItemKeepsOrder | src/app/cart/page.tsx:101 | removal keeps the relative order of the remaining items |
| CartView.WithoutKeepsDistinct | src/app/cart/page.tsx:101 | removal never introduces a repeated id |
| CartView.UpdateQuantity | src/app/cart/page.tsx:74-92 | a quantity of zero or less has exactly the effect of `removeItem`; on error the list is unchanged; otherwise only the matching item's quantity becomes `q`, with length, order and other items kept; every quantity stays at least 1 |
| CartView.QuantityOp | src/app/cart/page.tsx:74-83 | the write issued is a delete of the row when `q <= 0`, and otherwise an update of that row to `q >= 1` |
| CartView.Decrement | src/app/cart/page.tsx:149-154 | the ➖ control removes an item of quantity 1 and otherwise lowers it by one; positivity is kept |
| CartView.Increment | src/app/cart/page.tsx:156-161 | the ➕ control raises the item by one and leaves every other item unchanged; positivity is kept |
| CartView.UpdateQuantityKeepsMirror | src/app/cart/page.tsx:74-92 | after any outcome of the write as `Store.Apply` models it (an error leaves the table unchanged), the list still mirrors the table: ids distinct, each item's row present with the item's quantity |
| CartView.RemoveItemKeepsMirror | src/app/cart/page.tsx:94-103 | the same for `removeItem` and the delete it issues |
| CartView.LoadMirrorsTable | src/app/cart/page.tsx:39-58 | a successful load of rows read from the table, each once and with its stored quantity, gives a list that mirrors the table (distinct ids, matching quantities); the list's quantities are positive when the table's are, so the list invariants hold from the first render |
| Store.Apply | src/app/cart/page.tsx:80-83 | a failed write changes nothing; an update changes only that row's quantity; a delete removes only that row; an insert adds one row under a fresh id |
| Store.LookupSingle | src/app/page.tsx:62-67 | the lookup yields a row only when the call succeeds and exactly one row matches (user, product) |
| CartTotal.Accumulate | src/app/cart/page.tsx:69-71 | the `reduce` accumulator ends at its start value plus the sum of the item subtotals |
| CartTotal.Total | src/app/cart/page.tsx:68-72 | the total of an empty cart is 0 |
| CartTotal.TotalIsSumOfSubtotals | src/app/cart/page.tsx:68-72 | the total equals the sum of the per-item `quantity * price` subtotals |
| CartTotal.TotalAppend | src/app/cart/page.tsx:68-72 | the total splits over concatenated carts |
| CartTotal.TotalOrderIndependent | src/app/cart/page.tsx:68-72 | two carts holding the same items in any order have the same total |
| CartTotal.SumPermutation | src/app/cart/page.tsx:69-71 | the sum of subtotals is invariant under permutation |
| CartTotal.TotalNonNegative | src/app/cart/page.tsx:68-72 | with quantities of at least 1 and non-negative prices, the total is non-negative |
| CartTotal.TotalAfterRemove | src/app/cart/page.tsx:94-103 | removing one item lowers the total by exactly its subtotal |
| CartTotal.TotalAfterUpdate | src/app/cart/page.tsx:74-92 | setting one item's quantity to `q > 0` changes the total by `(q - old) * price` |
| Text.NatRoundTrip | src/app/cart/page.tsx:217 | a rendered quantity reads back as the same number |
| Text.IntRoundTrip | src/app/cart/page.tsx:217 | the same for negative quantities, rendered with a leading minus |
| Text.IntToString | src/app/cart/page.tsx:217 | `${item.quantity}`: at least one character, every character a digit except a leading `-`; `IntRoundTrip` states that it reads back |
| Text.FormatCents | src/app/cart/page.tsx:217-219 | an amount is rendered with a point three places from the end followed by two digits, and every other character is a digit or a leading `-` |
| Text.FormatCentsShape | src/app/cart/page.tsx:217-219 | the rest of the `toFixed(2)` shape: that point is the only one, the `-` appears exactly for a negative amount, and the whole part is non-empty with no leading zero |
| Text.CentsRoundTrip | src/app/cart/page.tsx:217-219 | a rendered amount reads back as the same number of cents |
| Text.SplitJoin | src/app/cart/page.tsx:221 | splitting undoes joining when no part holds the separator's first character |
| Text.Join | src/app/cart/page.tsx:221 | `.join('%0A')`; it has no contract of its own, and its meaning is stated by `Text.JoinEnds` and `Text.SplitJoin` |
| Text.JoinEnds | src/app/cart/page.tsx:221 | a join of no parts is empty; otherwise it starts with the first part and ends with the last |
| Order.OrderLine | src/app/cart/page.tsx:216-219 | each item line starts with `- ` |
| Order.OrderLineRoundTrip | src/app/cart/page.tsx:216-219 | each item line reads back as the item's name, quantity and subtotal, whatever the name holds |
| Order.OrderLines | src/app/cart/page.tsx:214-221 | `orderLines`; it has no contract of its own, and its meaning is stated by `Order.OrderLinesEnds` and `Order.OrderLinesRoundTrip` |
| Order.OrderLinesEnds | src/app/cart/page.tsx:214-221 | the products field is empty for an empty cart; otherwise it starts with the first item's line and ends with the last item's line |
| Order.OrderLinesRoundTrip | src/app/cart/page.tsx:214-221 | the products field reads back as one entry per item, in cart order, when no name holds `%` |
| Order.Message | src/app/cart/page.tsx:223-228 | `message` starts with the customer label and the customer's name, ends with the trailer, and is at least as long as its header, products field, total label and trailer together; `MessageTotal` and `MessageProducts` state that its fields read back |
| Order.MessageTotal | src/app/cart/page.tsx:223-228 | the message's total field reads back as `calculateTotal` of the cart |
| Order.MessageProducts | src/app/cart/page.tsx:223-228 | between the e-mail field and the total field, the message carries the product lines in cart order |
| Order.WidgetGadgetOrder | src/app/cart/page.tsx:214-228 | 2 × R$ 19.90 plus 1 × R$ 5.00 totals `44.80`; the lines carry `39.80` and `5.00`, joined by `%0A` |
| Order.Checkout | src/app/cart/page.tsx:168-231 | a link exists exactly when the cart is non-empty and both name and number are non-empty; it starts with `https://wa.me/55` + number + `?text=`; its text parameter holds only unreserved characters and `%`, and decodes back to the message |
| UriEncoding.DecodeEncode | src/app/cart/page.tsx:230 | decoding the escaped message gives back the message |
| UriEncoding.Encode | src/app/cart/page.tsx:230 | `encodeURIComponent` never shortens its input; `DecodeEncode` states that it is undone by decoding, and `EncodeIsUriSafe` what it may emit |
| UriEncoding.EncodeIsUriSafe | src/app/cart/page.tsx:230 | every character of the escaped text is unreserved or `%` |
| UriEncoding.Utf8RoundTrip | src/app/cart/page.tsx:230 | each character's UTF-8 bytes decode back to the character |
| UriEncoding.EncodesPercentSeparator | src/app/cart/page.tsx:221-230 | the literal `%0A` separator reaches the link as `%250A` |
| UriEncoding.EncodesEmoji | src/app/cart/page.tsx:224-230 | the 👤 label becomes `%F0%9F%91%A4` |
| AddToCart.MergeOp | src/app/page.tsx:62-82 | the write is an update to quantity + 1 exactly when the lookup succeeded and found one row, and otherwise an insert of (user, product, 1); the lookup error is never consulted |
| AddToCart.SignedIn | src/app/page.tsx:60 | `if (!userId) return;` treats both a missing and an empty user id as signed out; it is a predicate with no contract of its own, and `HandleAddToCart`'s first ensures states its effect (no calls, no change, no acknowledgement) |
| AddToCart.HandleAddToCart | src/app/page.tsx:59-86 | with no user id, there are no calls, no change and no acknowledgement; otherwise a lookup then exactly one write, and the modal opens whatever the write's outcome |
| AddToCart.AddTouchesOnlyItsPair | src/app/page.tsx:62-82 | rows of other users and other products are unchanged, and the only row an add can create belongs to the pair |
| AddToCart.AddMergesIntoExistingRow | src/app/page.tsx:62-73 | with one existing row, the add issues one update of that row to quantity + 1 and no insert |
| AddToCart.AddInsertsNewRow | src/app/page.tsx:74-81 | with no existing row, the add inserts exactly one row (user, product, 1) |
| AddToCart.AddKeepsNoDuplicates | src/app/page.tsx:62-82 | after a successful lookup, no outcome of the write creates a second row for a pair |
| AddToCart.AddKeepsQuantitiesPositive | src/app/page.tsx:69-81 | every stored quantity stays at least 1 |
| AddToCart.AddTimesCounts | src/app/page.tsx:59-86 | starting with no row for the pair, `n` successful adds leave exactly one row for it, with quantity `n` |
| AddToCart.LookupErrorDuplicatesRow | src/app/page.tsx:62-82 | a lookup that fails in transport, on a cart that already holds the product, inserts a duplicate row |
| AddToCart.DuplicatesGrow | src/app/page.tsx:62-82 | once a pair has two rows, each add inserts one more |
| AddToCart.HandleAddToCartFailClosed | src/app/page.tsx:59-86 | corrected handler: a lookup that fails in transport aborts before any write, while one that matches no row still inserts; only a successful write is acknowledged; on success it agrees with the page |
| AddToCart.FailClosedKeepsNoDuplicates | src/app/page.tsx:59-86 | with the correction, no outcome of either call can duplicate a row |

## Left out

- React rendering, `useState`/`useEffect`, loading flags and JSX markup. Each state
  update is a pure function on sequences.
- Supabase I/O (`from(...)`, `auth.getUser`, sessions). Each call's outcome is an input.
  Whether a user is signed in is an input. The row id a new insert receives is the
  table's `nextId` counter, standing in for the identity the backend assigns.
- The joined list query itself. `Load` takes the fetched rows as input, so the order in
  which the backend returns rows is not modelled.
- The products listing and the login check of the catalog page, and the auth, header
  and layout files. They are thin wrappers over the backend or pure layout.
- Floating-point arithmetic and JavaScript's rounding in `toFixed(2)`. Money is exact
  integer cents. JavaScript's exponent notation for numbers of 1e21 and above is not
  modelled.
- `window.open`, `router.push` and the modal's `setTimeout`. The model records only
  whether the modal opens.
- Overlapping requests. The page does not serialize them: two adds whose lookups both
  run before either write would both insert. When a row already exists, both adds read
  the same quantity `q` and both write `q + 1`, so one increment is lost. The model
  covers sequential calls only.
- Lone UTF-16 surrogates, for which `encodeURIComponent` throws. Dafny characters are
  Unicode scalar values, so such strings cannot be written here.
- Order.OrderLinesRoundTrip: assumes no product name holds `%`. Only `%0A` really breaks
  the round trip, because a name containing it cannot be told apart from a line break in
  the joined text. Names with a `%` but no `%0A` would also read back. The requirement is
  kept broader because the splitting lemma (`Text.SplitJoin`) uses the simpler condition
  that the separator's first character occurs in no part. The narrower one would also need
  to show that no occurrence of `%0A` straddles a line and the separator that follows it.
- Order.MessageProducts: reads the products field given the customer and e-mail fields.
  Those free-text fields are concatenated with no delimiter, so the message alone
  cannot be split into them. It also inherits the requirement of
  `Order.OrderLinesRoundTrip` that no product name holds `%`.
- Store.Apply: an `Err` is taken to mean that the write did not take effect. A write that
  the backend committed before its response was lost is not modelled. The page reports
  such a write as an error and leaves `cartItems` alone, so afterwards the list no longer
  mirrors the table. `CartView.UpdateQuantityKeepsMirror` and
  `CartView.RemoveItemKeepsMirror` hold for every outcome only under this reading.
- CartView.Load: states membership both ways and never-grows. Order is stated
  separately by `KeepResolvedAppend`, and exact length by `KeepResolvedAll`.

## Findings

| source | as written | input that shows it | evidently intended | confidence | as-written member | corrected member |
|---|---|---|---|---|---|---|
| src/app/page.tsx:62-82 | the lookup's `error` is never read, so a lookup that fails in transport leaves `existing` null and the handler inserts a new row; the modal then opens whatever the write's outcome | table `{0: (u, p, 1)}`; lookup fails; insert succeeds: the pair now has two rows, and every later add inserts another because `.single()` matches neither | merge-not-duplicate: abort the add when the lookup fails in transport, and acknowledge only a successful write. A bare `if (error) return` is not this, because `.single()` reports an error (PGRST116) whenever no row matches, so it would refuse every first add. The correction needs `.maybeSingle()` or a check of the error code. The duplicate row appears only if `cart_items` has no unique index on (user_id, product_id), and no schema for it is part of this model | not executed; medium | AddToCart.LookupErrorDuplicatesRow | AddToCart.FailClosedKeepsNoDuplicates |

The corrected handler is `AddToCart.HandleAddToCartFailClosed`. When every call
succeeds it agrees with the page, so `AddTimesCounts` holds for both.
