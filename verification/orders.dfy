/** The cart of `PizzaStoreApp` (main.py): an ordered list of
    (name, quantity, cost) lines that is added to, summed, cleared and
    confirmed. */
module Orders {
  import opened Wrappers
  import opened Prices

  /** One cart line: the pizza, how many, and what they cost together. The
      quantity is whatever the caller passes; the 1 to 10 range belongs to the
      quantity widget, not to the cart. */
  datatype LineItem = LineItem(name: string, qty: int, cost: Pence)

  type Cart = seq<LineItem>

  /** Adding a pizza the price map does not know: `self.pizza_prices[pizza_name]`
      raises `KeyError` before anything is appended. */
  datatype CartError = UnknownItem(name: string)

  /** The dialogs the cart raises once it has been emptied. */
  datatype Notice = CartIsEmpty | OrderPlaced

  /** The two states of the cart as the order flow sees them. */
  datatype State = Empty | HasItems

  function StateOf(cart: Cart): State {
    if |cart| == 0 then Empty else HasItems
  }

  /** The grand total: the line costs added up in cart order, as the loop in
      `update_order_details` does, starting from 0. */
  function Total(cart: Cart): Pence
  {
    if |cart| == 0 then 0 else Total(cart[..|cart| - 1]) + cart[|cart| - 1].cost
  }

  /** The total of two carts one after the other is the sum of their totals. */
  lemma {:induction false} TotalAppend(a: Cart, b: Cart)
    ensures Total(a + b) == Total(a) + Total(b)
  {
    if |b| == 0 {
      assert a + b == a;
    } else {
      var init := b[..|b| - 1];
      TotalAppend(a, init);
      assert (a + b)[..|a + b| - 1] == a + init;
    }
  }

  /** `add_to_cart`: appends one line priced at the unit price times the
      quantity; an unknown name fails and leaves no line behind. */
  function AddToCart(prices: map<string, Pence>, cart: Cart, name: string, qty: int): (r: Result<Cart, CartError>)
    ensures r.Failure? <==> name !in prices
    ensures r.Failure? ==> r.error == UnknownItem(name)
    ensures r.Success? ==>
      && |r.value| == |cart| + 1
      && r.value[..|cart|] == cart
      && r.value[|cart|] == LineItem(name, qty, prices[name] * qty)
      && Total(r.value) == Total(cart) + prices[name] * qty
      && StateOf(r.value) == HasItems
  {
    if name in prices then
      var cart' := cart + [LineItem(name, qty, prices[name] * qty)];
      assert cart'[..|cart|] == cart;
      Success(cart')
    else
      Failure(UnknownItem(name))
  }

  /** `clear_cart`: the cart is emptied whatever it held, and the user is told so. */
  function ClearCart(cart: Cart): (r: (Cart, Notice))
    ensures StateOf(r.0) == Empty && Total(r.0) == 0
    ensures r.1 == CartIsEmpty
  {
    ([], CartIsEmpty)
  }

  /** `confirm_order`: a cart with lines is emptied and the order announced; an
      empty cart is left as it is, silently. */
  function ConfirmOrder(cart: Cart): (r: (Cart, Option<Notice>))
    ensures StateOf(r.0) == Empty && Total(r.0) == 0
    ensures StateOf(cart) == HasItems <==> r.1 == Some(OrderPlaced)
    ensures StateOf(cart) == Empty ==> r.0 == cart && r.1 == None
  {
    if |cart| > 0 then ([], Some(OrderPlaced)) else (cart, None)
  }

  /** Confirming twice in a row: the second confirmation changes nothing and
      announces nothing. */
  lemma ConfirmTwice(cart: Cart)
    ensures ConfirmOrder(ConfirmOrder(cart).0) == (ConfirmOrder(cart).0, None)
  {
  }

  /** The loop of `update_order_details` that sums the costs of the lines. */
  method GrandTotal(cart: Cart) returns (total: Pence)
    ensures total == Total(cart)
    ensures |cart| == 0 ==> total == 0
  {
    total := 0;
    var i := 0;
    while i < |cart|
      invariant 0 <= i <= |cart|
      invariant total == Total(cart[..i])
    {
      assert cart[..i + 1][..i] == cart[..i];
      total := total + cart[i].cost;
      i := i + 1;
    }
    assert cart[..i] == cart;
  }

  // ---------------------------------------------------------------------------
  // The total described by the price map rather than by the stored costs.

  /** Every line names a known pizza and costs its unit price times its quantity. */
  ghost predicate PricedBy(prices: map<string, Pence>, cart: Cart) {
    forall i :: 0 <= i < |cart| ==>
      cart[i].name in prices && cart[i].cost == prices[cart[i].name] * cart[i].qty
  }

  /** The sum, over the lines, of unit price times quantity. */
  ghost function PriceSum(prices: map<string, Pence>, cart: Cart): Pence
    requires forall i :: 0 <= i < |cart| ==> cart[i].name in prices
  {
    if |cart| == 0 then 0 else prices[cart[0].name] * cart[0].qty + PriceSum(prices, cart[1..])
  }

  /** For a cart built from the price map, the grand total is the sum of unit
      price times quantity over its lines. */
  lemma {:induction false} TotalIsPriceSum(prices: map<string, Pence>, cart: Cart)
    requires PricedBy(prices, cart)
    ensures Total(cart) == PriceSum(prices, cart)
  {
    if |cart| > 0 {
      var rest := cart[1..];
      TotalIsPriceSum(prices, rest);
      assert cart == [cart[0]] + rest;
      TotalAppend([cart[0]], rest);
      assert [cart[0]][..0] == [];
    }
  }

  /** Adding keeps every line priced by the map. */
  lemma AddKeepsPriced(prices: map<string, Pence>, cart: Cart, name: string, qty: int)
    requires PricedBy(prices, cart)
    requires AddToCart(prices, cart, name, qty).Success?
    ensures PricedBy(prices, AddToCart(prices, cart, name, qty).value)
  {
    var cart' := AddToCart(prices, cart, name, qty).value;
    forall i | 0 <= i < |cart'|
      ensures cart'[i].name in prices && cart'[i].cost == prices[cart'[i].name] * cart'[i].qty
    {
      if i < |cart| {
        assert cart'[i] == cart'[..|cart|][i];
      }
    }
  }
}
