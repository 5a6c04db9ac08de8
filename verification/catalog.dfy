/** Loading the price list: `load_pizza_prices` (main.py) turns the rows of
    the price file into a map from pizza name to unit price. The rows arrive
    already split into fields, and reading the price column is a parameter
    `parse`, the counterpart of `float()`: `None` where `float()` raises. */
module Catalog {
  import opened Wrappers
  import opened Text
  import opened Prices

  /** One record of the price file, split into its fields. */
  type Row = seq<string>

  /** The price file: present with its rows, or missing. */
  datatype Source = Missing | Found(rows: seq<Row>)

  /** What the loader reports instead of loading: the printed skip messages and
      the error dialog for a missing file. */
  datatype Diagnostic =
    | MalformedRow(row: Row)
    | InvalidPrice(row: Row)
    | PriceFileNotFound

  /** The loader's result: the price map and the reports, in the order made. */
  datatype Loaded = Loaded(prices: map<string, Pence>, diagnostics: seq<Diagnostic>)

  /** A row the loader accepts: a name, a price that parses, any further fields. */
  predicate WellFormed(row: Row, parse: string -> Option<Pence>) {
    |row| >= 2 && parse(row[1]).Some?
  }

  /** The key a row is stored under: its first field, stripped. */
  function NameOf(row: Row): string
    requires |row| >= 1
  {
    Strip(row[0])
  }

  /** What the loader reports about one row: nothing for a well-formed one. */
  function Diagnose(row: Row, parse: string -> Option<Pence>): (d: seq<Diagnostic>)
    ensures |d| == 0 <==> WellFormed(row, parse)
    ensures |d| <= 1
    ensures |d| == 1 ==> d[0] == (if |row| < 2 then MalformedRow(row) else InvalidPrice(row))
  {
    if |row| < 2 then [MalformedRow(row)]
    else if parse(row[1]).None? then [InvalidPrice(row)]
    else []
  }

  /** One turn of the loader's loop: a well-formed row stores its price under
      its name, replacing any earlier price; any other row leaves the map alone
      and is reported. */
  function LoadRow(acc: Loaded, row: Row, parse: string -> Option<Pence>): (r: Loaded)
    ensures r.diagnostics == acc.diagnostics + Diagnose(row, parse)
    ensures !WellFormed(row, parse) ==> r.prices == acc.prices
    ensures WellFormed(row, parse) ==>
      && r.prices.Keys == acc.prices.Keys + {NameOf(row)}
      && r.prices[NameOf(row)] == parse(row[1]).value
      && forall name :: name in acc.prices && name != NameOf(row) ==> r.prices[name] == acc.prices[name]
  {
    if |row| >= 2 then
      match parse(row[1])
      case Some(price) => Loaded(acc.prices[Strip(row[0]) := price], acc.diagnostics)
      case None => Loaded(acc.prices, acc.diagnostics + [InvalidPrice(row)])
    else
      Loaded(acc.prices, acc.diagnostics + [MalformedRow(row)])
  }

  /** The loop over all rows, in file order, from an empty map. */
  function LoadRows(rows: seq<Row>, parse: string -> Option<Pence>): Loaded
  {
    if |rows| == 0 then Loaded(map[], [])
    else LoadRow(LoadRows(rows[..|rows| - 1], parse), rows[|rows| - 1], parse)
  }

  // ---------------------------------------------------------------------------
  // The loader's result described without the loop.

  /** The names of the well-formed rows. */
  ghost function Names(rows: seq<Row>, parse: string -> Option<Pence>): set<string> {
    set i | 0 <= i < |rows| && WellFormed(rows[i], parse) :: NameOf(rows[i])
  }

  /** Row `i` is well-formed and no later well-formed row has its name. */
  ghost predicate LastFor(rows: seq<Row>, parse: string -> Option<Pence>, i: int)
    requires 0 <= i < |rows|
  {
    && WellFormed(rows[i], parse)
    && forall j :: i < j < |rows| && WellFormed(rows[j], parse) ==> NameOf(rows[j]) != NameOf(rows[i])
  }

  /** The reports, one per rejected row, in file order. */
  function Rejections(rows: seq<Row>, parse: string -> Option<Pence>): seq<Diagnostic> {
    if |rows| == 0 then [] else Diagnose(rows[0], parse) + Rejections(rows[1..], parse)
  }

  lemma {:induction false} RejectionsAppend(rows: seq<Row>, row: Row, parse: string -> Option<Pence>)
    ensures Rejections(rows + [row], parse) == Rejections(rows, parse) + Diagnose(row, parse)
  {
    if |rows| > 0 {
      assert (rows + [row])[1..] == rows[1..] + [row];
      RejectionsAppend(rows[1..], row, parse);
    } else {
      assert rows + [row] == [row];
    }
  }

  /** The loaded map holds exactly the names of the well-formed rows. */
  lemma {:induction false} LoadRowsKeys(rows: seq<Row>, parse: string -> Option<Pence>)
    ensures LoadRows(rows, parse).prices.Keys == Names(rows, parse)
  {
    if |rows| == 0 {
      assert Names(rows, parse) == {};
    } else {
      var init := rows[..|rows| - 1];
      LoadRowsKeys(init, parse);
      NamesSnoc(init, rows[|rows| - 1], parse);
      assert init + [rows[|rows| - 1]] == rows;
    }
  }

  /** One more row adds its name to the names exactly when it is well-formed. */
  lemma NamesSnoc(rows: seq<Row>, row: Row, parse: string -> Option<Pence>)
    ensures Names(rows + [row], parse) == Names(rows, parse) + (if WellFormed(row, parse) then {NameOf(row)} else {})
  {
    var all := rows + [row];
    forall name | name in Names(all, parse)
      ensures name in Names(rows, parse) || (WellFormed(row, parse) && name == NameOf(row))
    {
      var i :| 0 <= i < |all| && WellFormed(all[i], parse) && NameOf(all[i]) == name;
      if i < |rows| {
        assert all[i] == rows[i];
      }
    }
    forall name | name in Names(rows, parse)
      ensures name in Names(all, parse)
    {
      var i :| 0 <= i < |rows| && WellFormed(rows[i], parse) && NameOf(rows[i]) == name;
      assert all[i] == rows[i];
    }
    if WellFormed(row, parse) {
      assert all[|rows|] == row;
    }
  }

  /** Each loaded name carries the price of the last well-formed row of that
      name: a later row overwrites an earlier one. */
  lemma {:induction false} LoadRowsLastWins(rows: seq<Row>, parse: string -> Option<Pence>)
    ensures forall i :: 0 <= i < |rows| && LastFor(rows, parse, i) ==>
      && NameOf(rows[i]) in LoadRows(rows, parse).prices
      && LoadRows(rows, parse).prices[NameOf(rows[i])] == parse(rows[i][1]).value
  {
    if |rows| > 0 {
      var init := rows[..|rows| - 1];
      LoadRowsLastWins(init, parse);
      var after := LoadRows(rows, parse).prices;
      forall i | 0 <= i < |rows| && LastFor(rows, parse, i)
        ensures NameOf(rows[i]) in after && after[NameOf(rows[i])] == parse(rows[i][1]).value
      {
        if i < |init| {
          assert rows[i] == init[i];
          assert LastFor(init, parse, i) by {
            forall j | i < j < |init| && WellFormed(init[j], parse)
              ensures NameOf(init[j]) != NameOf(init[i])
            {
              assert rows[j] == init[j];
            }
          }
        }
      }
    }
  }

  /** Every rejected row is reported once, in file order. */
  lemma {:induction false} LoadRowsReports(rows: seq<Row>, parse: string -> Option<Pence>)
    ensures LoadRows(rows, parse).diagnostics == Rejections(rows, parse)
  {
    if |rows| > 0 {
      var init := rows[..|rows| - 1];
      assert rows == init + [rows[|rows| - 1]];
      LoadRowsReports(init, parse);
      RejectionsAppend(init, rows[|rows| - 1], parse);
    }
  }

  /** A rejected row changes no price: the rows after it load the same prices
      as if it were not there. Its report is still added. */
  lemma {:induction false} RejectedRowIgnored(before: seq<Row>, row: Row, after: seq<Row>, parse: string -> Option<Pence>)
    requires !WellFormed(row, parse)
    ensures LoadRows(before + [row] + after, parse).prices == LoadRows(before + after, parse).prices
  {
    if |after| == 0 {
      assert before + [row] + after == before + [row];
      assert before + after == before;
      LoadRowsSnoc(before, row, parse);
    } else {
      var init := after[..|after| - 1];
      var x := after[|after| - 1];
      RejectedRowIgnored(before, row, init, parse);
      assert before + [row] + after == (before + [row] + init) + [x];
      assert before + after == (before + init) + [x];
      LoadRowsSnoc(before + [row] + init, x, parse);
      LoadRowsSnoc(before + init, x, parse);
    }
  }

  /** `load_pizza_prices` as a value: a missing file loads nothing and reports
      that it is missing; a present one loads its rows in order. */
  function Load(source: Source, parse: string -> Option<Pence>): (r: Loaded)
    ensures source.Missing? ==> r.prices == map[] && r.diagnostics == [PriceFileNotFound]
  {
    match source
    case Missing => Loaded(map[], [PriceFileNotFound])
    case Found(rows) => LoadRows(rows, parse)
  }

  /** Loading one more row is one more turn of the loop. */
  lemma LoadRowsSnoc(rows: seq<Row>, row: Row, parse: string -> Option<Pence>)
    ensures LoadRows(rows + [row], parse) == LoadRow(LoadRows(rows, parse), row, parse)
  {
    assert (rows + [row])[..|rows|] == rows;
  }

  /** A well-formed row read after `rows` stores its price under its name. */
  lemma LoadGoodRow(rows: seq<Row>, row: Row, parse: string -> Option<Pence>, name: string, price: Pence)
    requires |row| >= 2 && parse(row[1]) == Some(price) && Strip(row[0]) == name
    ensures LoadRows(rows + [row], parse) == Loaded(LoadRows(rows, parse).prices[name := price], LoadRows(rows, parse).diagnostics)
  {
    LoadRowsSnoc(rows, row, parse);
  }

  /** A rejected row read after `rows` only adds its report. */
  lemma LoadRejectedRow(rows: seq<Row>, row: Row, parse: string -> Option<Pence>)
    requires !WellFormed(row, parse)
    ensures LoadRows(rows + [row], parse) == Loaded(LoadRows(rows, parse).prices, LoadRows(rows, parse).diagnostics + Diagnose(row, parse))
  {
    LoadRowsSnoc(rows, row, parse);
  }

  /** Two rows that read, on their own, load both names and report nothing. */
  lemma LoadTwoGoodRows(r0: Row, r1: Row, parse: string -> Option<Pence>, n0: string, n1: string, p0: Pence, p1: Pence)
    requires |r0| >= 2 && parse(r0[1]) == Some(p0) && Strip(r0[0]) == n0
    requires |r1| >= 2 && parse(r1[1]) == Some(p1) && Strip(r1[0]) == n1
    ensures LoadRows([r0, r1], parse) == Loaded(map[n0 := p0, n1 := p1], [])
  {
    assert LoadRows([r0], parse) == Loaded(map[n0 := p0], []) by {
      LoadGoodRow([], r0, parse, n0, p0);
      assert [] + [r0] == [r0];
    }
    LoadGoodRow([r0], r1, parse, n1, p1);
    assert [r0] + [r1] == [r0, r1];
  }

  /** A price file of two rows that read, then a row too short to hold a
      price, then a row whose price does not read: the two good rows are
      loaded and the other two reported, in order. With `ParseDecimal`, the
      rows ["Margherita", "5.00"], ["Pepperoni", "6.50"], ["BadRow"] and
      ["Veggie", "notanumber"] form such a file (`ExamplePrices`,
      `TrimTrimmed`, `LetterIsNoPrice`). */
  lemma ExampleCatalog(r0: Row, r1: Row, r2: Row, r3: Row, parse: string -> Option<Pence>, n0: string, n1: string, p0: Pence, p1: Pence)
    requires |r0| >= 2 && parse(r0[1]) == Some(p0) && Strip(r0[0]) == n0
    requires |r1| >= 2 && parse(r1[1]) == Some(p1) && Strip(r1[0]) == n1
    requires |r2| < 2
    requires |r3| >= 2 && parse(r3[1]) == None
    ensures Load(Found([r0, r1, r2, r3]), parse) == Loaded(map[n0 := p0, n1 := p1], [MalformedRow(r2), InvalidPrice(r3)])
  {
    var prices := map[n0 := p0, n1 := p1];
    assert LoadRows([r0, r1, r2], parse) == Loaded(prices, [MalformedRow(r2)]) by {
      LoadTwoGoodRows(r0, r1, parse, n0, n1, p0, p1);
      LoadRejectedRow([r0, r1], r2, parse);
      assert [r0, r1] + [r2] == [r0, r1, r2];
    }
    assert LoadRows([r0, r1, r2, r3], parse) == Loaded(prices, [MalformedRow(r2), InvalidPrice(r3)]) by {
      LoadRejectedRow([r0, r1, r2], r3, parse);
      assert [r0, r1, r2] + [r3] == [r0, r1, r2, r3];
    }
  }

  /** The price list Margherita at "5.00", Pepperoni at "6.50", a row "BadRow"
      with no price, and Veggie at "notanumber", read with `ParseDecimal`. */
  lemma PriceListExample()
    ensures Load(Found([["Margherita", "5.00"], ["Pepperoni", "6.50"], ["BadRow"], ["Veggie", "notanumber"]]), ParseDecimal)
         == Loaded(map["Margherita" := 500, "Pepperoni" := 650], [MalformedRow(["BadRow"]), InvalidPrice(["Veggie", "notanumber"])])
  {
    ExamplePrices();
    ExampleNames();
    ExampleBadPrice();
    ExampleCatalog(["Margherita", "5.00"], ["Pepperoni", "6.50"], ["BadRow"], ["Veggie", "notanumber"],
                   ParseDecimal, "Margherita", "Pepperoni", 500, 650);
  }

  /** The two pizza names of the price list are stored as written. */
  lemma ExampleNames()
    ensures Strip("Margherita") == "Margherita" && Strip("Pepperoni") == "Pepperoni"
  {
    TrimTrimmed(IsSpace, "Margherita");
    TrimTrimmed(IsSpace, "Pepperoni");
  }

  /** Veggie's price "notanumber" does not read. */
  lemma ExampleBadPrice()
    ensures ParseDecimal("notanumber") == None
  {
    TrimTrimmed(IsNumberSpace, "notanumber");
    assert |LowerAscii("notanumber")| == 10;
    LetterIsNoPrice("notanumber");
  }

  /** `load_pizza_prices`: the price map and the reports, read from the rows in
      order; a missing file loads nothing and reports that it is missing. */
  method LoadPizzaPrices(source: Source, parse: string -> Option<Pence>) returns (prices: map<string, Pence>, diagnostics: seq<Diagnostic>)
    ensures source.Missing? ==> prices == map[] && diagnostics == [PriceFileNotFound]
    ensures source.Found? ==> prices.Keys == Names(source.rows, parse)
    ensures source.Found? ==> forall i :: 0 <= i < |source.rows| && LastFor(source.rows, parse, i) ==>
      prices[NameOf(source.rows[i])] == parse(source.rows[i][1]).value
    ensures source.Found? ==> diagnostics == Rejections(source.rows, parse)
    ensures Loaded(prices, diagnostics) == Load(source, parse)
  {
    prices := map[];
    diagnostics := [];
    if source.Missing? {
      diagnostics := [PriceFileNotFound];
      return;
    }
    var rows := source.rows;
    var i := 0;
    while i < |rows|
      invariant 0 <= i <= |rows|
      invariant Loaded(prices, diagnostics) == LoadRows(rows[..i], parse)
    {
      var row := rows[i];
      assert rows[..i + 1][..i] == rows[..i];
      if |row| >= 2 {
        var name := Strip(row[0]);
        match parse(row[1])
        case Some(price) =>
          prices := prices[name := price];
        case None =>
          diagnostics := diagnostics + [InvalidPrice(row)];
      } else {
        diagnostics := diagnostics + [MalformedRow(row)];
      }
      i := i + 1;
    }
    assert rows[..i] == rows;
    LoadRowsKeys(rows, parse);
    LoadRowsLastWins(rows, parse);
    LoadRowsReports(rows, parse);
  }
}
