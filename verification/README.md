# Pizza store: price list and cart

A Dafny model of the logic inside the pizza store's single module, `main.py`.
That module is a tkinter storefront. The model keeps the two parts of it that
are more than widget code:

- **Loading the price list** (`load_pizza_prices`). The rows of the price file
  become a map from pizza name to unit price.
  - A row with fewer than two fields is skipped and reported.
  - A row whose price does not read as a number is skipped and reported.
  - The name is stripped of whitespace.
  - A later row with the same name replaces an earlier one.
  - A missing file gives an empty map and an error dialog.
- **The cart** (`add_to_cart`, the total in `update_order_details`,
  `clear_cart`, `confirm_order`). The cart is an ordered list of
  (name, quantity, cost) lines.
  - Adding appends one line costing unit price × quantity.
  - The grand total is the sum of the line costs.
  - Cancel always empties the cart.
  - Confirm empties a cart that has lines and does nothing to an empty one.

Modules:

- `Wrappers` (wrappers.dfy): `Option` and `Result`.
- `Text` (text.dfy): trimming of blanks from both ends, used with the
  characters for which `str.isspace()` holds (`str.strip()`) and with the
  smaller set `float()` trims, plus decimal digit strings.
- `Prices` (prices.dfy): prices as whole pence (`Pence = int`). It holds a
  decimal reader `ParseDecimal` that stands in for `float()`, and the
  two-decimal spelling `FormatPrice`, which matches `{:.2f}` on whole pence.
- `Catalog` (catalog.dfy): the loader. It takes the rows already split into
  fields. The price reader is a parameter `parse: string -> Option<Pence>`, so
  every property of the loader holds for any reading of the price column.
  `None` stands for `float()` raising `ValueError`. The printed skip messages
  and the missing-file dialog become `Diagnostic` values.
- `Orders` (orders.dfy): the cart, its total, and its add, clear and confirm
  operations.
- `Session` (session.dfy): the application state (prices and cart) and the
  button presses that change it.

Behaviour of the code that the model keeps as it is:

- `add_to_cart` checks nothing about the quantity, so any integer quantity is
  accepted. The 1–10 range belongs only to the Spinbox widget.
- A missing price file shows an error dialog and leaves the loader with an
  empty map. The model returns an empty map plus a `PriceFileNotFound` report.
- Confirming an empty cart is a silent no-op, with no dialog and no redraw.
- Adding an unknown name raises `KeyError` when `pizza_prices` is indexed,
  before anything is appended. The model returns `Failure(UnknownItem(name))`
  and leaves the cart unchanged.
- Names are stripped with `str.strip()`, which removes every character for
  which `str.isspace()` holds. Prices are read with `float()`, which trims
  less: it keeps the separators U+001C to U+001F. So a price field starting
  with U+001C is rejected even though a name field starting with it is
  stripped.

## Model

| member | source | states |
|---|---|---|
| Text.Strip | main.py:14 | `str.strip()`: the stored name is no longer than the field and has no whitespace at either end. Text.TrimPiece and Text.TrimExact pin down which characters it keeps. |
| Text.TrimPiece | main.py:14-16 | Trimming, as `str.strip()` and `float()` do it, only cuts blanks off the two ends: what remains is a piece of the field with nothing but blanks before and after it. |
| Text.TrimExact | main.py:14-16 | Blanks, then a core with no blank at either end, then blanks, trim to exactly that core. |
| Text.StripIdempotent | main.py:14 | Stripping a stripped name changes nothing. |
| Text.TrimTrimmed | main.py:14-16 | A field with no blank at its ends is left as it is: a name is stored under itself. |
| Prices.ParseDecimal | main.py:16 | A price that reads comes from a field that is not blank once `float()`'s whitespace is trimmed. A negative price is read only when the trimmed field starts with a minus. Prices.ParseDecimalReads and Prices.ParseDecimalSound pin down every value. |
| Prices.ParseUnsignedReads | main.py:16 | Every numeral reads as its `Amount`: its digits with the point dropped and the fraction padded with zeros to two places, read as one whole number of pence. That is 100 × the pounds digits plus the digits after the point read as hundredths, a single digit counting tens. A numeral is digits, then optionally a point and at most two digits, with at least one digit ("5" is 500, "6.5" is 650, "7." is 700, ".99" is 99). |
| Prices.AmountSplit | main.py:16 | The padded reading of a numeral equals 100 × its pounds digits plus its fraction read as hundredths, so "6.5" is 650 and ".05" is 5, as `float()` gives them in pence. |
| Prices.ParseUnsignedSound | main.py:16 | Whatever the unsigned reader accepts is such a numeral, read as its amount. |
| Prices.SplitSignJoin | main.py:16 | The sign split cuts at most one "+" or "-" off the front, and it says negative exactly when it cut a "-". |
| Prices.ParseDecimalReads | main.py:16 | A field of whitespace `float()` trims, an optional sign, a numeral and more such whitespace reads as the numeral's amount, negated for a minus. This is the number `float()` gives, in pence. |
| Prices.ParseDecimalSound | main.py:15-19 | Every field that reads has that form and reads as that signed amount. Any other field is rejected, so its row is skipped. |
| Prices.ParseFormatRoundTrip | main.py:16 | Every price in pence, written with two decimals by `FormatPrice` and read back, gives the same price. |
| Prices.SpellingReads | main.py:114 | The two-decimal spelling of an amount of pence, as the order panel writes a cost, reads back as that amount. |
| Prices.PoundsAndPence | main.py:16 | A field a.bc of three digits reads as 100·a + 10·b + c pence. |
| Prices.NoNumberStart | main.py:15-19 | A price field does not read, so its row is rejected, when its first character is ASCII and is not a digit, a sign, a point or whitespace `float()` trims, and the trimmed field is not "inf", "infinity" or "nan" in any case. `float()` rejects such a field too. |
| Prices.LetterIsNoPrice | main.py:15-19 | A price field starting with a letter that is not, after trimming, "inf", "infinity" or "nan" in any case ("notanumber") does not read, so its row is rejected. |
| Prices.SeparatorIsNoPrice | main.py:14-19 | A price field starting with a separator U+001C to U+001F does not read, although `str.strip()` would remove that character from a name. |
| Prices.ExamplePrices | main.py:16 | "5.00" reads as 500 pence and "6.50" as 650. |
| Catalog.Diagnose | main.py:13-21 | A row is reported exactly when it is not well-formed, meaning it lacks two fields or its price does not read. It gets at most one report: `MalformedRow` when it has fewer than two fields, else `InvalidPrice`. |
| Catalog.LoadRow | main.py:13-21 | A well-formed row maps its stripped name to its price and leaves every other name as it was. Any other row leaves the map unchanged and adds one report. |
| Catalog.LoadRowsKeys | main.py:12-17 | The names loaded by the loop (`LoadRows`) are exactly the stripped names of the well-formed rows. |
| Catalog.LoadRowsLastWins | main.py:14-17 | In the map loaded by the loop (`LoadRows`), a name's price is the one in the last well-formed row with that name. |
| Catalog.LoadRowsReports | main.py:18-21 | The loop (`LoadRows`) reports every rejected row once, in file order. |
| Catalog.RejectedRowIgnored | main.py:12-21 | A rejected row anywhere in the file changes no price: the rows after it load the same prices as if it were absent. Its report is still added. |
| Catalog.Load | main.py:22-25 | A missing file loads an empty map and reports that the file is missing. |
| Catalog.LoadPizzaPrices | main.py:7-25 | The loading loop. The result's names are those of the well-formed rows, the last well-formed row wins, the rejected rows are reported in order, and a missing file gives an empty map. |
| Catalog.ExampleCatalog | main.py:12-21 | A file of two good rows, then a one-field row, then a row with an unreadable price (as Margherita at 5.00, Pepperoni at 6.50, "BadRow", and Veggie at "notanumber"): the two good rows load and the other two are reported in that order. |
| Catalog.PriceListExample | main.py:7-21 | Read with `ParseDecimal`, the list ["Margherita", "5.00"], ["Pepperoni", "6.50"], ["BadRow"], ["Veggie", "notanumber"] loads Margherita at 500 and Pepperoni at 650. It reports "BadRow" as malformed and Veggie's price as invalid, in that order. |
| Orders.TotalAppend | main.py:112-115 | The grand total (`Total`) of two carts placed one after the other is the sum of their totals. |
| Orders.GrandTotal | main.py:112-115 | The summing loop computes the grand total, which is 0 for an empty cart. |
| Orders.AddToCart | main.py:104-105 | Adding fails exactly when the name has no price. Otherwise one line (name, qty, price·qty) is appended at the end, earlier lines are untouched, and the total rises by price·qty. |
| Orders.ClearCart | main.py:121-124 | Cancel leaves the cart empty with total 0, whatever it held, and says the cart is empty. |
| Orders.ConfirmOrder | main.py:126-130 | Confirm always leaves the cart empty. It announces the order exactly when the cart had lines, and an empty cart is left as it is. |
| Orders.ConfirmTwice | main.py:126-128 | A second confirm in a row changes nothing and announces nothing. |
| Orders.TotalIsPriceSum | main.py:104-115 | For a cart whose lines were priced from the map, the grand total (`Total`) is the sum of unit price × quantity. |
| Orders.AddKeepsPriced | main.py:104-105 | Adding keeps every line priced from the map. |
| Session.Start | main.py:35-37 | At start the cart is empty. The prices are exactly those the loader returns for the file, so `Catalog.LoadPizzaPrices`'s key-set, last-wins and report properties hold of them. A missing file gives no prices. |
| Session.Step | main.py:104-130 | A button never changes the prices. Cancel and Confirm leave the cart empty. Confirm announces only for a cart with lines. An unknown pizza changes nothing. Adding a known pizza appends exactly the line (name, qty, price·qty), raises the total by price·qty, and redraws the order panel. Confirming an empty cart changes nothing and shows nothing. |
| Session.RunKeepsTotalPriced | main.py:104-130 | After any sequence of adds, cancels and confirms, the prices are unchanged and the total equals the sum of unit price × quantity. |
| Session.ExampleOrder | main.py:104-122 | With Margherita at 5.00 and Pepperoni at 6.50: two Margheritas total 10.00, one more Pepperoni makes 16.50, and Cancel brings it to 0. |

## Left out

- Widget construction, packing, grid layout and the four-column wrap in `show_pizzas`, `show_pizza_details`, `clear_pizzas` and `quit_app`: presentation only.
- Image opening and resizing, and the `os.path.exists` checks: foreign library calls and file system access.
- `open` and `csv.reader`: the model receives the rows already split into fields. `Source.Missing` stands for `FileNotFoundError`. Other I/O errors propagate out of the code uncaught and are not modelled.
- Prices.ParseDecimal: reads only an optional sign, ASCII digits, and an optional point with at most two more digits, with the whitespace `float()` trims allowed around it. `float()` also accepts exponents, `inf`, `infinity`, `nan`, underscores between digits, longer fractions, and decimal digits from other scripts ("５.００", "٥"), which it first maps to ASCII. This reader rejects all of those, so it loads fewer rows than the code does (`Prices.OtherStartRejected` shows a field starting with "５", "i" or "n" is rejected). `Prices.ParseDecimalSound` shows that every field it accepts is whitespace, an optional sign, ASCII digits with at most one point and at most two decimals, and whitespace. `float()` reads each such field as the same number. Every loader property is stated for an arbitrary `parse`, so none of them depends on this choice.
- Floating-point arithmetic: prices and costs are exact whole pence. The rounding of `price * quantity` and of the running float total is not modelled.
- The insertion order of the Python dict, which decides the order of the thumbnails, is not modelled. The price map is unordered.
- The Spinbox text-to-integer conversion `int(quantity.get())` and its 1–10 range: UI input. The cart takes any integer quantity.
- Dialogs and printed messages are modelled only as returned values (`Notice`, `Diagnostic`, `Outcome`). The redraw of the order panel is `Updated` after an add. After Cancel and after a Confirm of a cart with lines the panel is redrawn and then a dialog shown; `Announced` stands for both.
