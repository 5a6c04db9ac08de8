/** The application as the user drives it: the price map loaded once at start
    and the cart changed by the "Add to Cart", "Cancel" and "Confirm" buttons. */
module Session {
  import opened Wrappers
  import opened Prices
  import opened Catalog
  import opened Orders

  /** The state `PizzaStoreApp` keeps: `pizza_prices` and `cart`. */
  datatype App = App(prices: map<string, Pence>, cart: Cart)

  /** The buttons that reach the cart. */
  datatype Action = Add(name: string, qty: int) | Cancel | Confirm

  /** What the user sees after a button: the refreshed order panel, a dialog,
      nothing, or the error an unknown pizza raises. */
  datatype Outcome = Updated | Announced(notice: Notice) | Silent | Failed(error: CartError)

  /** `PizzaStoreApp.__init__`: the prices are loaded and the cart starts empty. */
  function Start(source: Source, parse: string -> Option<Pence>): (app: App)
    ensures StateOf(app.cart) == Empty
    ensures source.Missing? ==> app.prices == map[]
    ensures app.prices == Load(source, parse).prices
    ensures PricedBy(app.prices, app.cart)
  {
    App(Load(source, parse).prices, [])
  }

  /** One button press. The price map never changes; only the cart does. */
  function Step(app: App, action: Action): (r: (App, Outcome))
    ensures r.0.prices == app.prices
    ensures action.Cancel? ==> r.0.cart == [] && r.1 == Announced(CartIsEmpty)
    ensures action.Confirm? ==> r.0.cart == [] && (r.1 == Announced(OrderPlaced) <==> |app.cart| > 0)
    ensures action.Add? && action.name !in app.prices ==> r == (app, Failed(UnknownItem(action.name)))
    ensures action.Add? && action.name in app.prices ==>
      r == (App(app.prices, app.cart + [LineItem(action.name, action.qty, app.prices[action.name] * action.qty)]), Updated)
    ensures action.Add? && action.name in app.prices ==>
      Total(r.0.cart) == Total(app.cart) + app.prices[action.name] * action.qty
    ensures action.Confirm? && |app.cart| == 0 ==> r == (app, Silent)
  {
    match action
    case Add(name, qty) =>
      (match AddToCart(app.prices, app.cart, name, qty)
       case Success(cart) => (App(app.prices, cart), Updated)
       case Failure(e) => (app, Failed(e)))
    case Cancel =>
      var (cart, notice) := ClearCart(app.cart);
      (App(app.prices, cart), Announced(notice))
    case Confirm =>
      var (cart, notice) := ConfirmOrder(app.cart);
      (App(app.prices, cart), if notice.Some? then Announced(notice.value) else Silent)
  }

  /** A sequence of button presses, first to last. */
  function Run(app: App, actions: seq<Action>): App
    decreases |actions|
  {
    if |actions| == 0 then app else Run(Step(app, actions[0]).0, actions[1..])
  }

  /** Whatever the user does, every cart line stays priced by the map, so the
      grand total is always the sum of unit price times quantity. */
  lemma {:induction false} RunKeepsTotalPriced(app: App, actions: seq<Action>)
    requires PricedBy(app.prices, app.cart)
    ensures Run(app, actions).prices == app.prices
    ensures PricedBy(app.prices, Run(app, actions).cart)
    ensures Total(Run(app, actions).cart) == PriceSum(app.prices, Run(app, actions).cart)
    decreases |actions|
  {
    if |actions| == 0 {
      TotalIsPriceSum(app.prices, app.cart);
    } else {
      var next := Step(app, actions[0]).0;
      if actions[0].Add? && actions[0].name in app.prices {
        AddKeepsPriced(app.prices, app.cart, actions[0].name, actions[0].qty);
      }
      RunKeepsTotalPriced(next, actions[1..]);
    }
  }

  /** With Margherita at 5.00 and Pepperoni at 6.50, two Margheritas make 10.00, a Pepperoni more makes
      16.50, and Cancel brings the total back to 0. */
  lemma ExampleOrder()
    ensures var app := App(map["Margherita" := 500, "Pepperoni" := 650], []);
      && Total(Run(app, [Add("Margherita", 2)]).cart) == 1000
      && Total(Run(app, [Add("Margherita", 2), Add("Pepperoni", 1)]).cart) == 1650
      && Total(Run(app, [Add("Margherita", 2), Add("Pepperoni", 1), Cancel]).cart) == 0
  {
    var app := App(map["Margherita" := 500, "Pepperoni" := 650], []);
    var a1 := Step(app, Add("Margherita", 2)).0;
    var a2 := Step(a1, Add("Pepperoni", 1)).0;
    assert [Add("Margherita", 2), Add("Pepperoni", 1)][1..] == [Add("Pepperoni", 1)];
    assert [Add("Margherita", 2), Add("Pepperoni", 1), Cancel][1..] == [Add("Pepperoni", 1), Cancel];
    assert [Add("Pepperoni", 1), Cancel][1..] == [Cancel];
  }
}
