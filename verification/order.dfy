/** The checkout of the cart page: one text line per item, the order message with its
    fixed field order, and the WhatsApp deep link that carries the escaped message. */
module Order {
  import opened Wrappers
  import opened Store
  import opened CartView
  import opened CartTotal
  import opened Text
  import opened UriEncoding

  /** Joins the item lines; it is a literal escape sequence, not a line break. */
  const LineSeparator: string := "%0A"
  const ClientLabel: string := "👤 Cliente: "
  const EmailLabel: string := "📧 Email: "
  const ProductsLabel: string := "📦 PRODUTOS: "
  const TotalLabel: string := "💰 TOTAL: R$ "
  const Trailer: string := "---Pedido via STG Catalog"
  const LinkPrefix: string := "https://wa.me/55"
  const TextParameter: string := "?text="

  /** `- name - Qtd: q - R$ subtotal`. */
  function OrderLine(item: CartItem): (line: string)
    ensures |line| >= 2 && line[..2] == "- "
  {
    "- " + item.product.name + " - Qtd: " + IntToString(item.quantity) + " - R$ " + FormatCents(Subtotal(item))
  }

  function OrderLineList(items: seq<CartItem>): (lines: seq<string>)
    ensures |lines| == |items|
    ensures forall i :: 0 <= i < |items| ==> lines[i] == OrderLine(items[i])
  {
    seq(|items|, i requires 0 <= i < |items| => OrderLine(items[i]))
  }

  /** `orderLines`: the item lines joined by the literal `%0A`. */
  function OrderLines(items: seq<CartItem>): string
  {
    Join(OrderLineList(items), LineSeparator)
  }

  /** The products field is empty for an empty cart; otherwise it starts with the first
      item's line and ends with the last item's line. */
  lemma OrderLinesEnds(items: seq<CartItem>)
    ensures items == [] ==> OrderLines(items) == ""
    ensures items != [] ==> OrderLine(items[0]) <= OrderLines(items)
    ensures items != [] ==>
      var r, last := OrderLines(items), OrderLine(items[|items| - 1]);
      |last| <= |r| && r[|r| - |last|..] == last
  {
    var lines := OrderLineList(items);
    JoinEnds(lines, LineSeparator);
    if items != [] {
      JoinBetween(lines, LineSeparator, OrderLine(items[0]), OrderLine(items[|items| - 1]));
    }
  }

  /** What a reader of one item line learns: name, quantity and subtotal in cents. */
  datatype LineEntry = LineEntry(name: string, quantity: int, subtotal: int)

  function EntryOf(item: CartItem): LineEntry
  {
    LineEntry(item.product.name, item.quantity, Subtotal(item))
  }

  /** The entries of a cart, in cart order. */
  function Entries(items: seq<CartItem>): (es: seq<LineEntry>)
    ensures |es| == |items|
    ensures forall i :: 0 <= i < |items| ==> es[i] == EntryOf(items[i])
  {
    if items == [] then [] else [EntryOf(items[0])] + Entries(items[1..])
  }

  /** Reads an item line from its right end, so the product name may hold anything:
      first the subtotal after the last space, then the quantity and name. */
  function ParseOrderLine(line: string): Option<LineEntry>
  {
    var (p1, amount) :- SplitAtLast(line, ' ');
    var subtotal :- ParseCents(amount);
    var rest :- StripSuffix(p1, " - R$");
    var (name, quantity) :- ParseNameAndQuantity(rest);
    Some(LineEntry(name, quantity, subtotal))
  }

  /** Reads `- name - Qtd: q`. */
  function ParseNameAndQuantity(s: string): Option<(string, int)>
  {
    var (p3, qty) :- SplitAtLast(s, ' ');
    var quantity :- ParseInt(qty);
    var p4 :- StripSuffix(p3, " - Qtd:");
    var name :- StripPrefix(p4, "- ");
    Some((name, quantity))
  }

  function ParseLines(lines: seq<string>): Option<seq<LineEntry>>
  {
    if lines == [] then Some([])
    else
      var e :- ParseOrderLine(lines[0]);
      var es :- ParseLines(lines[1..]);
      Some([e] + es)
  }

  /** Reads the product field back into entries. */
  function ParseOrderLines(s: string): Option<seq<LineEntry>>
  {
    if s == "" then Some([]) else ParseLines(Split(s, LineSeparator))
  }

  lemma NoSpaceInNumbers(q: int, cents: int)
    ensures ' ' !in IntToString(q) && ' ' !in FormatCents(cents)
    ensures '%' !in IntToString(q) && '%' !in FormatCents(cents)
  {
  }

  /** Each item line reads back as the item's name, quantity and subtotal. */
  lemma OrderLineRoundTrip(item: CartItem)
    ensures ParseOrderLine(OrderLine(item)) == Some(EntryOf(item))
  {
    var name, qs, cs := item.product.name, IntToString(item.quantity), FormatCents(Subtotal(item));
    NoSpaceInNumbers(item.quantity, Subtotal(item));
    var head := "- " + name + " - Qtd: " + qs;
    assert OrderLine(item) == (head + " - R$") + [' '] + cs;
    SplitAtLastOf(head + " - R$", ' ', cs);
    CentsRoundTrip(Subtotal(item));
    assert StripSuffix(head + " - R$", " - R$") == Some(head);
    NameAndQuantityRoundTrip(name, item.quantity);
  }

  lemma NameAndQuantityRoundTrip(name: string, quantity: int)
    ensures ParseNameAndQuantity("- " + name + " - Qtd: " + IntToString(quantity)) == Some((name, quantity))
  {
    var qs := IntToString(quantity);
    NoSpaceInNumbers(quantity, 0);
    var p4 := "- " + name;
    assert "- " + name + " - Qtd: " + qs == (p4 + " - Qtd:") + [' '] + qs;
    SplitAtLastOf(p4 + " - Qtd:", ' ', qs);
    IntRoundTrip(quantity);
    assert StripSuffix(p4 + " - Qtd:", " - Qtd:") == Some(p4);
    assert StripPrefix(p4, "- ") == Some(name);
  }

  /** The product field reads back as one entry per item, in cart order, provided no
      product name holds a `%` (the first character of the separator). */
  lemma OrderLinesRoundTrip(items: seq<CartItem>)
    requires forall i :: 0 <= i < |items| ==> '%' !in items[i].product.name
    ensures ParseOrderLines(OrderLines(items)) == Some(Entries(items))
  {
    var lines := OrderLineList(items);
    if items != [] {
      forall i | 0 <= i < |lines| ensures LineSeparator[0] !in lines[i] {
        NoPercentInLine(items[i]);
      }
      SplitJoin(lines, LineSeparator);
      ParseLinesRoundTrip(items);
    }
  }

  lemma NoPercentInLine(item: CartItem)
    requires '%' !in item.product.name
    ensures '%' !in OrderLine(item)
  {
    NoSpaceInNumbers(item.quantity, Subtotal(item));
  }

  lemma {:induction false} ParseLinesRoundTrip(items: seq<CartItem>)
    ensures ParseLines(OrderLineList(items)) == Some(Entries(items))
  {
    if items != [] {
      OrderLineRoundTrip(items[0]);
      ParseLinesRoundTrip(items[1..]);
      assert OrderLineList(items)[1..] == OrderLineList(items[1..]);
    }
  }

  /** The fields before the products: customer, then e-mail (empty when the session
      has none). */
  function Header(customer: string, email: Option<string>): (h: string)
    ensures ClientLabel + customer <= h
  {
    ClientLabel + customer + EmailLabel + email.GetOr("") + ProductsLabel
  }

  /** The fields after the products: the total, then the trailer. */
  function Footer(total: int): (f: string)
    ensures |f| >= |TotalLabel| + |Trailer|
    ensures f[|f| - |Trailer|..] == Trailer
  {
    TotalLabel + FormatCents(total) + Trailer
  }

  /** `message`: customer, e-mail, products, total, trailer, in that order and with no
      separators between the fields. */
  function Message(customer: string, email: Option<string>, items: seq<CartItem>): (m: string)
    ensures ClientLabel + customer <= m
    ensures |Trailer| <= |m| && m[|m| - |Trailer|..] == Trailer
    ensures |m| >= |Header(customer, email)| + |OrderLines(items)| + |TotalLabel| + |Trailer|
  {
    var h := Header(customer, email);
    var f := Footer(Total(items));
    ConcatEnds(ClientLabel + customer, h, OrderLines(items), Trailer, f);
    h + OrderLines(items) + f
  }

  /** A join starts with its first part and ends with its last, named here. */
  lemma JoinBetween(parts: seq<string>, sep: string, first: string, last: string)
    requires |parts| >= 1 && parts[0] == first && parts[|parts| - 1] == last
    ensures first <= Join(parts, sep)
    ensures |last| <= |Join(parts, sep)| && Join(parts, sep)[|Join(parts, sep)| - |last|..] == last
  {
    JoinEnds(parts, sep);
  }

  /** A prefix of the first of three pieces begins their concatenation, and a suffix of
      the last one ends it. */
  lemma ConcatEnds(p: string, a: string, b: string, t: string, c: string)
    requires p <= a
    requires |t| <= |c| && c[|c| - |t|..] == t
    ensures p <= a + b + c
    ensures |t| <= |a + b + c| && (a + b + c)[|a + b + c| - |t|..] == t
  {
  }

  /** Reads the total field back from the end of a message. */
  function ReadTotal(message: string): Option<int>
  {
    var body :- StripSuffix(message, Trailer);
    var (_, amount) :- SplitAtLast(body, ' ');
    ParseCents(amount)
  }

  /** Reads the product field back, given the customer and e-mail fields. */
  function ReadProducts(message: string, customer: string, email: Option<string>): Option<seq<LineEntry>>
  {
    var total :- ReadTotal(message);
    var body :- StripSuffix(message, Footer(total));
    var products :- StripPrefix(body, Header(customer, email));
    ParseOrderLines(products)
  }

  /** The total field of the message is the cart's total as `calculateTotal` computes it. */
  lemma MessageTotal(customer: string, email: Option<string>, items: seq<CartItem>)
    ensures ReadTotal(Message(customer, email, items)) == Some(Total(items))
  {
    ReadTotalOf(Header(customer, email) + OrderLines(items), Total(items));
  }

  /** Whatever precedes it, a footer reads back as its total. */
  lemma ReadTotalOf(prefix: string, total: int)
    ensures ReadTotal(prefix + Footer(total)) == Some(total)
  {
    var cs := FormatCents(total);
    var head := prefix + "💰 TOTAL: R$";
    assert TotalLabel == "💰 TOTAL: R$" + [' '];
    var body := head + [' '] + cs;
    assert prefix + Footer(total) == body + Trailer;
    assert StripSuffix(body + Trailer, Trailer) == Some(body);
    NoSpaceInNumbers(0, total);
    SplitAtLastOf(head, ' ', cs);
    CentsRoundTrip(total);
  }

  /** The product field of the message reads back as one entry per item, in cart order. */
  lemma MessageProducts(customer: string, email: Option<string>, items: seq<CartItem>)
    requires forall i :: 0 <= i < |items| ==> '%' !in items[i].product.name
    ensures ReadProducts(Message(customer, email, items), customer, email) == Some(Entries(items))
  {
    MessageTotal(customer, email, items);
    ReadProductsField(Header(customer, email), OrderLines(items), Total(items), customer, email);
    OrderLinesRoundTrip(items);
  }

  lemma ReadProductsField(header: string, products: string, total: int, customer: string, email: Option<string>)
    requires header == Header(customer, email)
    requires ReadTotal(header + products + Footer(total)) == Some(total)
    ensures ReadProducts(header + products + Footer(total), customer, email) == ParseOrderLines(products)
  {
    var m := header + products + Footer(total);
    assert StripSuffix(m, Footer(total)) == Some(header + products);
    assert StripPrefix(header + products, header) == Some(products);
  }

  /** The "Finalizar pedido" action. It exists only while the cart has items, it is
      disabled while the name or the WhatsApp number is empty, and otherwise it yields
      `https://wa.me/55<number>?text=<encodeURIComponent(message)>`. */
  function Checkout(items: seq<CartItem>, customer: string, number: string, email: Option<string>): (link: Option<string>)
    ensures link.Some? <==> |items| > 0 && customer != "" && number != ""
    ensures link.Some? ==>
      var head := LinkPrefix + number + TextParameter;
      && |head| <= |link.value|
      && link.value[..|head|] == head
      && Decode(link.value[|head|..]) == Some(Message(customer, email, items))
      && UriSafe(link.value[|head|..])
  {
    if |items| == 0 || customer == "" || number == "" then None
    else
      var message := Message(customer, email, items);
      var head := LinkPrefix + number + TextParameter;
      var link := head + Encode(message);
      DecodeEncode(message);
      EncodeIsUriSafe(message);
      assert link[|head|..] == Encode(message);
      Some(link)
  }

  const Widgets: CartItem := CartItem(1, 2, Product("w", "Widget", 1990))
  const Gadget: CartItem := CartItem(2, 1, Product("g", "Gadget", 500))

  /** A cart of two Widgets at R$ 19.90 and one Gadget at R$ 5.00 totals R$ 44.80, and
      its lines carry the subtotals 39.80 and 5.00. */
  lemma WidgetGadgetOrder()
    ensures Total([Widgets, Gadget]) == 4480
    ensures FormatCents(Total([Widgets, Gadget])) == "44.80"
    ensures OrderLines([Widgets, Gadget]) == OrderLine(Widgets) + "%0A" + OrderLine(Gadget)
    ensures OrderLine(Widgets) == "- Widget - Qtd: 2 - R$ 39.80"
    ensures OrderLine(Gadget) == "- Gadget - Qtd: 1 - R$ 5.00"
  {
    ExampleTotal();
    ExampleLines();
    FormatExamples();
    ExampleJoin();
  }

  lemma ExampleTotal()
    ensures Total([Widgets, Gadget]) == 4480
  {
    TotalAppend([Widgets], [Gadget]);
    assert [Widgets] + [Gadget] == [Widgets, Gadget];
  }

  lemma ExampleJoin()
    ensures OrderLines([Widgets, Gadget]) == OrderLine(Widgets) + "%0A" + OrderLine(Gadget)
  {
    var a, b := OrderLine(Widgets), OrderLine(Gadget);
    assert OrderLineList([Widgets, Gadget]) == [a, b];
    assert Join([a, b], LineSeparator) == a + LineSeparator + b;
  }

  lemma ExampleLines()
    ensures OrderLine(Widgets) == "- Widget - Qtd: 2 - R$ 39.80"
    ensures OrderLine(Gadget) == "- Gadget - Qtd: 1 - R$ 5.00"
  {
    WidgetLine();
    GadgetLine();
  }

  lemma WidgetLine()
    ensures OrderLine(Widgets) == "- Widget - Qtd: 2 - R$ 39.80"
  {
    FormatExamples();
    assert Subtotal(Widgets) == 3980;
  }

  lemma GadgetLine()
    ensures OrderLine(Gadget) == "- Gadget - Qtd: 1 - R$ 5.00"
  {
  }

  lemma FormatExamples()
    ensures IntToString(2) == "2" && IntToString(1) == "1"
    ensures FormatCents(3980) == "39.80" && FormatCents(500) == "5.00" && FormatCents(4480) == "44.80"
  {
    assert NatToString(44) == "44" && NatToString(39) == "39";
  }
}
