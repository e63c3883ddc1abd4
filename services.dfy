/** The shopping-list download: the join rows of every recipe in the user's
    shopping list are folded into a table keyed by ingredient name (amounts
    added up, the unit of the last row kept, names in the order they first
    appear), and the table is printed one line per name under a fixed
    header. */
module Services {
  import opened Common
  import opened Strings
  import opened ApiModels
  import opened Store

  const Header: string := "Список покупок \n\n"

  /** One value row of the cart query: ingredient name, unit and amount. */
  datatype CartRow = CartRow(name: string, unit: string, amount: int)

  /** One printed line: an ingredient, its total and its unit. */
  datatype Line = Line(name: string, amount: int, unit: string)

  // ---- the query ----

  function IngredientIdIs(id: nat): Ingredient -> bool {
    (i: Ingredient) => i.id == id
  }

  function FindIngredient(t: seq<Ingredient>, id: nat): Option<Ingredient> {
    FirstMatch(t, IngredientIdIs(id))
  }

  /** What a join row contributes to `user`'s list: its ingredient's name
      and unit with the row's amount, when the row's recipe is in that
      user's shopping list (and its ingredient exists, as the join needs). */
  function CartRowOf(row: RecipeIngredient, ingredients: seq<Ingredient>, shopping: set<Bookmark>, user: nat): (c: Option<CartRow>)
    ensures c.Some? <==> Bookmark(user, row.recipe) in shopping && HasIngredient(ingredients, row.ingredient)
    ensures c.Some? ==> c.value.amount == row.amount
    ensures c.Some? ==> exists k :: 0 <= k < |ingredients| && ingredients[k].id == row.ingredient
                           && c.value.name == ingredients[k].name && c.value.unit == ingredients[k].measurementUnit
  {
    if Bookmark(user, row.recipe) in shopping then
      match FindIngredient(ingredients, row.ingredient)
      case Some(i) => Some(CartRow(i.name, i.measurementUnit, row.amount))
      case None => None
    else None
  }

  /** `RecipeIngredient.objects.filter(recipe__shoping_list__user=user)
      .values(name, unit, amount)`, in table order. */
  function CartRows(rows: seq<RecipeIngredient>, ingredients: seq<Ingredient>, shopping: set<Bookmark>, user: nat): seq<CartRow>
    decreases |rows|
  {
    if rows == [] then []
    else
      var rest := CartRows(rows[1..], ingredients, shopping, user);
      match CartRowOf(rows[0], ingredients, shopping, user)
      case Some(c) => [c] + rest
      case None => rest
  }

  /** A value row is in the query's result exactly when some join row
      contributes it; in particular only rows of recipes in this user's
      shopping list can contribute. */
  lemma {:induction false} CartRowsFromCart(rows: seq<RecipeIngredient>, ingredients: seq<Ingredient>, shopping: set<Bookmark>, user: nat)
    ensures forall c :: c in CartRows(rows, ingredients, shopping, user) <==>
              exists k :: 0 <= k < |rows| && CartRowOf(rows[k], ingredients, shopping, user) == Some(c)
    decreases |rows|
  {
    if rows != [] {
      CartRowsFromCart(rows[1..], ingredients, shopping, user);
      forall c ensures c in CartRows(rows, ingredients, shopping, user) <==>
                 exists k :: 0 <= k < |rows| && CartRowOf(rows[k], ingredients, shopping, user) == Some(c)
      {
        if exists k :: 0 <= k < |rows| && CartRowOf(rows[k], ingredients, shopping, user) == Some(c) {
          var k :| 0 <= k < |rows| && CartRowOf(rows[k], ingredients, shopping, user) == Some(c);
          if k > 0 {
            assert rows[1..][k - 1] == rows[k];
          }
        }
        if c in CartRows(rows[1..], ingredients, shopping, user) {
          var k :| 0 <= k < |rows[1..]| && CartRowOf(rows[1..][k], ingredients, shopping, user) == Some(c);
          assert rows[k + 1] == rows[1..][k];
        }
      }
    }
  }

  /** The query's result is the contributions of the join rows taken one at
      a time in table order: a single join row yields its own value row or
      nothing, and the rows of a concatenation are those of its parts in
      sequence, so each join row contributes exactly once, at its place. */
  lemma {:induction false} CartRowsConcat(a: seq<RecipeIngredient>, b: seq<RecipeIngredient>, ingredients: seq<Ingredient>,
                                          shopping: set<Bookmark>, user: nat)
    ensures CartRows(a + b, ingredients, shopping, user) == CartRows(a, ingredients, shopping, user) + CartRows(b, ingredients, shopping, user)
    ensures |a| == 1 ==>
              CartRows(a, ingredients, shopping, user) ==
              (match CartRowOf(a[0], ingredients, shopping, user) case Some(c) => [c] case None => [])
    decreases |a|
  {
    if a != [] {
      assert (a + b)[0] == a[0];
      assert (a + b)[1..] == a[1..] + b;
      CartRowsConcat(a[1..], b, ingredients, shopping, user);
      var ra, rb := CartRows(a[1..], ingredients, shopping, user), CartRows(b, ingredients, shopping, user);
      match CartRowOf(a[0], ingredients, shopping, user)
      case Some(c) => assert [c] + (ra + rb) == ([c] + ra) + rb;
      case None =>
    } else {
      assert a + b == b;
    }
  }

  // ---- the aggregation, as functions over the value rows ----

  /** The distinct names, in the order in which each first occurs. */
  function Names(rows: seq<CartRow>): seq<string>
    decreases |rows|
  {
    if rows == [] then []
    else
      var ns := Names(rows[..|rows| - 1]);
      var n := rows[|rows| - 1].name;
      if n in ns then ns else ns + [n]
  }

  /** The sum of the amounts of the rows named `name`. */
  function Total(rows: seq<CartRow>, name: string): int
    decreases |rows|
  {
    if rows == [] then 0
    else
      var last := rows[|rows| - 1];
      Total(rows[..|rows| - 1], name) + (if last.name == name then last.amount else 0)
  }

  /** The unit of the last row named `name`; `""` (the default entry's unit)
      when there is none. */
  function LastUnit(rows: seq<CartRow>, name: string): string
    decreases |rows|
  {
    if rows == [] then ""
    else if rows[|rows| - 1].name == name then rows[|rows| - 1].unit
    else LastUnit(rows[..|rows| - 1], name)
  }

  /** One line per distinct name, in first-occurrence order. */
  function ShoppingLines(rows: seq<CartRow>): seq<Line> {
    var ns := Names(rows);
    seq(|ns|, j requires 0 <= j < |ns| => Line(ns[j], Total(rows, ns[j]), LastUnit(rows, ns[j])))
  }

  /** `f"{name} - {amount} {unit}\n"` */
  function FormatLine(l: Line): string {
    l.name + " - " + IntToString(l.amount) + " " + l.unit + "\n"
  }

  /** The lines as printed, one string each. */
  function RenderLines(lines: seq<Line>): (r: seq<string>)
    ensures |r| == |lines|
  {
    seq(|lines|, j requires 0 <= j < |lines| => FormatLine(lines[j]))
  }

  /** The text of the downloaded file. */
  function ShoppingText(rows: seq<CartRow>): string {
    Header + Concat(RenderLines(ShoppingLines(rows)))
  }

  // ---- the operation ----

  /** The first loop of `list_to_txt`: fold the value rows into an
      insertion-ordered table keyed by name (the key sequence and the map of
      a Python dict), adding up amounts and keeping the latest unit. */
  method Tally(rows: seq<CartRow>) returns (keys: seq<string>, data: map<string, (int, string)>)
    ensures keys == Names(rows)
    ensures forall k :: k in data <==> k in keys
    ensures forall k :: k in data ==> data[k] == (Total(rows, k), LastUnit(rows, k))
  {
    keys, data := [], map[];
    var i := 0;
    while i < |rows|
      invariant 0 <= i <= |rows|
      invariant TallyOf(rows[..i], keys, data)
    {
      var row := rows[i];
      TakeSnoc(rows, i);
      TallyStep(rows[..i], row, keys, data);
      keys, data := AddRow(keys, data, row);
      i := i + 1;
    }
    TakeAll(rows);
  }

  /** The loop body: `data[name]` of a defaultdict whose factory gives
      amount 0 and unit "", then the amount added and the unit replaced. A
      new name joins the key order at the end. */
  method AddRow(keys: seq<string>, data: map<string, (int, string)>, row: CartRow)
    returns (keys': seq<string>, data': map<string, (int, string)>)
    ensures var cur := if row.name in data then data[row.name] else (0, "");
            keys' == (if row.name in data then keys else keys + [row.name])
            && data' == data[row.name := (cur.0 + row.amount, row.unit)]
  {
    var cur := if row.name in data then data[row.name] else (0, "");
    keys' := keys;
    if row.name !in data {
      keys' := keys + [row.name];
    }
    data' := data[row.name := (cur.0 + row.amount, row.unit)];
  }

  /** `keys` and `data` are the table the first loop has built from `rows`;
      a name not in it has the defaultdict's zero amount and empty unit. */
  ghost predicate TallyOf(rows: seq<CartRow>, keys: seq<string>, data: map<string, (int, string)>) {
    && keys == Names(rows)
    && (forall k :: k in data <==> k in keys)
    && (forall k :: k in data ==> data[k] == (Total(rows, k), LastUnit(rows, k)))
    && (forall k :: k !in data ==> Total(rows, k) == 0 && LastUnit(rows, k) == "")
  }

  /** One turn of the first loop keeps the table in step with the rows. */
  lemma TallyStep(rows: seq<CartRow>, row: CartRow, keys: seq<string>, data: map<string, (int, string)>)
    requires TallyOf(rows, keys, data)
    ensures var cur := if row.name in data then data[row.name] else (0, "");
            TallyOf(rows + [row], if row.name in data then keys else keys + [row.name],
                    data[row.name := (cur.0 + row.amount, row.unit)])
  {
    var cur := if row.name in data then data[row.name] else (0, "");
    var keys' := if row.name in data then keys else keys + [row.name];
    var data' := data[row.name := (cur.0 + row.amount, row.unit)];
    var rows' := rows + [row];
    SnocInit(rows, row);
    assert keys' == Names(rows');
    forall k
      ensures (k in data' <==> k in keys')
      ensures k in data' ==> data'[k] == (Total(rows', k), LastUnit(rows', k))
      ensures k !in data' ==> Total(rows', k) == 0 && LastUnit(rows', k) == ""
    {
      assert k in keys' <==> k in keys || k == row.name;
      assert Total(rows', k) == Total(rows, k) + (if row.name == k then row.amount else 0);
      assert LastUnit(rows', k) == if row.name == k then row.unit else LastUnit(rows, k);
    }
  }

  /** The second loop of `list_to_txt`: print each entry of the table as
      one line, in order. */
  method WriteLines(lines: seq<Line>) returns (text: string)
    ensures text == Concat(RenderLines(lines))
  {
    text := "";
    ghost var printed := RenderLines(lines);
    var j := 0;
    while j < |lines|
      invariant 0 <= j <= |lines|
      invariant text == Concat(printed[..j])
    {
      TakeSnoc(printed, j);
      ConcatSnoc(printed[..j], printed[j]);
      text := text + FormatLine(lines[j]);
      j := j + 1;
    }
    TakeAll(printed);
  }

  /** `list_to_txt`: tally the user's cart rows, then append one line per
      name to the header, in the table's key order. */
  method ListToTxt(db: Database, user: nat) returns (text: string)
    ensures text == ShoppingText(CartRows(db.recipeIngredients, db.ingredients, db.shoppingList, user))
  {
    var rows := CartRows(db.recipeIngredients, db.ingredients, db.shoppingList, user);
    var keys, data := Tally(rows);
    var lines := seq(|keys|, j requires 0 <= j < |keys| => Line(keys[j], data[keys[j]].0, data[keys[j]].1));
    assert lines == ShoppingLines(rows);
    var body := WriteLines(lines);
    text := Header + body;
  }

  /** How each aggregate changes when the fold takes one more row. */
  lemma SnocStep(a: seq<CartRow>, x: CartRow)
    ensures Names(a + [x]) == if x.name in Names(a) then Names(a) else Names(a) + [x.name]
    ensures forall k :: Total(a + [x], k) == Total(a, k) + (if x.name == k then x.amount else 0)
    ensures forall k :: LastUnit(a + [x], k) == if x.name == k then x.unit else LastUnit(a, k)
  {
    SnocInit(a, x);
  }

  // ---- what the list promises ----

  /** No name is listed twice. */
  lemma {:induction false} NamesDistinct(rows: seq<CartRow>)
    ensures forall i, j :: 0 <= i < j < |Names(rows)| ==> Names(rows)[i] != Names(rows)[j]
    decreases |rows|
  {
    if rows != [] {
      NamesDistinct(rows[..|rows| - 1]);
    }
  }

  /** A name is listed exactly when some row carries it. */
  lemma {:induction false} NamesCover(rows: seq<CartRow>)
    ensures forall n :: n in Names(rows) <==> exists k :: 0 <= k < |rows| && rows[k].name == n
    decreases |rows|
  {
    if rows != [] {
      var init := rows[..|rows| - 1];
      NamesCover(init);
      forall n ensures n in Names(rows) <==> exists k :: 0 <= k < |rows| && rows[k].name == n {
        if exists k :: 0 <= k < |rows| && rows[k].name == n {
          var k :| 0 <= k < |rows| && rows[k].name == n;
          if k < |rows| - 1 {
            assert init[k] == rows[k];
          }
        }
        if n in Names(init) {
          var k :| 0 <= k < |init| && init[k].name == n;
          assert rows[k] == init[k];
        }
      }
    }
  }

  /** Some row named `a` comes before every row named `b`. */
  predicate MetBefore(rows: seq<CartRow>, a: string, b: string) {
    exists p :: 0 <= p < |rows| && rows[p].name == a && forall q :: 0 <= q <= p ==> rows[q].name != b
  }

  /** Names come in order of first occurrence: for names listed at `i < j`,
      some row with the first name comes before every row with the second. */
  lemma {:induction false} NamesInFirstOccurrenceOrder(rows: seq<CartRow>)
    ensures forall i, j :: 0 <= i < j < |Names(rows)| ==> MetBefore(rows, Names(rows)[i], Names(rows)[j])
    decreases |rows|
  {
    if rows == [] {
      assert Names(rows) == [];
    } else {
      var init := rows[..|rows| - 1];
      var last := rows[|rows| - 1];
      NamesInFirstOccurrenceOrder(init);
      NamesCover(init);
      var ns := Names(rows);
      forall i, j | 0 <= i < j < |ns| ensures MetBefore(rows, ns[i], ns[j]) {
        if j < |Names(init)| {
          assert ns[i] == Names(init)[i] && ns[j] == Names(init)[j];
          assert MetBefore(init, ns[i], ns[j]);
          var p :| 0 <= p < |init| && init[p].name == ns[i]
                   && forall q :: 0 <= q <= p ==> init[q].name != ns[j];
          assert rows[p] == init[p];
          assert forall q :: 0 <= q <= p ==> rows[q] == init[q];
        } else {
          // ns[j] is the last row's name, met for the first time
          assert ns[j] == last.name && last.name !in Names(init);
          assert ns[i] in Names(init);
          var p :| 0 <= p < |init| && init[p].name == ns[i];
          assert rows[p] == init[p];
          forall q | 0 <= q <= p ensures rows[q].name != ns[j] {
            assert rows[q] == init[q];
            assert init[q].name in Names(init);
          }
        }
      }
    }
  }

  lemma {:induction false} TotalConcat(a: seq<CartRow>, b: seq<CartRow>, name: string)
    ensures Total(a + b, name) == Total(a, name) + Total(b, name)
    decreases |b|
  {
    if b == [] {
      assert a + b == a;
    } else {
      var b' := b[..|b| - 1];
      TotalConcat(a, b', name);
      assert (a + b)[..|a + b| - 1] == a + b';
    }
  }

  /** The total does not depend on the order in which the query returns
      the rows. */
  lemma {:induction false} TotalPermutation(a: seq<CartRow>, b: seq<CartRow>, name: string)
    requires multiset(a) == multiset(b)
    ensures Total(a, name) == Total(b, name)
    decreases |a|
  {
    if a == [] {
      assert |b| == |multiset(b)| == 0;
    } else {
      var x := a[|a| - 1];
      var a' := a[..|a| - 1];
      assert a == a' + [x];
      assert x in multiset(b);
      var p :| 0 <= p < |b| && b[p] == x;
      var b' := b[..p] + b[p + 1..];
      assert b == b[..p] + [x] + b[p + 1..];
      assert multiset(b') == multiset(b) - multiset{x};
      assert multiset(a') == multiset(a) - multiset{x};
      TotalPermutation(a', b', name);
      TotalConcat(b[..p] + [x], b[p + 1..], name);
      TotalConcat(b[..p], [x], name);
      TotalConcat(b[..p], b[p + 1..], name);
      TotalConcat(a', [x], name);
      assert Total([x], name) == Total([], name) + (if x.name == name then x.amount else 0);
    }
  }

  /** Row `k` carries `name` and no later row does. */
  predicate LastCarrier(rows: seq<CartRow>, name: string, k: int) {
    0 <= k < |rows| && rows[k].name == name && forall q :: k < q < |rows| ==> rows[q].name != name
  }

  /** The unit kept for a name is that of the last row carrying it. */
  lemma {:induction false} LastUnitIsLast(rows: seq<CartRow>, name: string)
    ensures (forall k :: 0 <= k < |rows| ==> rows[k].name != name) ==> LastUnit(rows, name) == ""
    ensures (exists k :: 0 <= k < |rows| && rows[k].name == name) ==>
              exists k :: LastCarrier(rows, name, k) && LastUnit(rows, name) == rows[k].unit
    decreases |rows|
  {
    if rows != [] {
      var init := rows[..|rows| - 1];
      LastUnitIsLast(init, name);
      if rows[|rows| - 1].name != name {
        assert forall k :: 0 <= k < |init| ==> init[k] == rows[k];
        if exists k :: 0 <= k < |rows| && rows[k].name == name {
          var k0 :| 0 <= k0 < |rows| && rows[k0].name == name;
          assert init[k0].name == name;
          var k :| LastCarrier(init, name, k) && LastUnit(init, name) == init[k].unit;
          assert rows[k] == init[k];
          assert LastCarrier(rows, name, k);
        }
      }
    }
  }

  /** Every name in the input is on exactly one line, no other name is on
      any line, and each line carries its name's total and last unit. */
  lemma ShoppingLinesOnePerName(rows: seq<CartRow>, name: string)
    ensures (exists k :: 0 <= k < |rows| && rows[k].name == name) ==>
              exists j :: 0 <= j < |ShoppingLines(rows)| && ShoppingLines(rows)[j].name == name
                && forall j' :: 0 <= j' < |ShoppingLines(rows)| && ShoppingLines(rows)[j'].name == name ==> j' == j
    ensures (forall k :: 0 <= k < |rows| ==> rows[k].name != name) ==>
              forall j :: 0 <= j < |ShoppingLines(rows)| ==> ShoppingLines(rows)[j].name != name
    ensures forall j :: 0 <= j < |ShoppingLines(rows)| ==>
              ShoppingLines(rows)[j].amount == Total(rows, ShoppingLines(rows)[j].name)
              && ShoppingLines(rows)[j].unit == LastUnit(rows, ShoppingLines(rows)[j].name)
  {
    var ns := Names(rows);
    var lines := ShoppingLines(rows);
    NamesCover(rows);
    NamesDistinct(rows);
    assert forall j :: 0 <= j < |lines| ==> lines[j].name == ns[j] && ns[j] in ns;
    if exists k :: 0 <= k < |rows| && rows[k].name == name {
      assert name in ns;
      var j :| 0 <= j < |ns| && ns[j] == name;
      assert lines[j].name == name;
    }
  }

  /** With no row in the cart the file is the header alone. */
  lemma EmptyCartIsHeader()
    ensures ShoppingText([]) == Header
    ensures |Header| == 17 && Header[14..] == " \n\n"
  {
  }

  lemma ConcatAround(printed: seq<string>, j: nat)
    requires j < |printed|
    ensures Concat(printed) == Concat(printed[..j]) + printed[j] + Concat(printed[j + 1..])
  {
    SplitAround(printed, j);
    ConcatAppend(printed[..j] + [printed[j]], printed[j + 1..]);
    ConcatSnoc(printed[..j], printed[j]);
  }

  /** In the downloaded file, the line of the `j`-th name reads
      `{name} - {total} {unit}` with that name's total and last unit, and
      sits right after the header and the lines of the names before it and
      right before the lines of the names after it. */
  lemma PrintedLineShape(rows: seq<CartRow>, j: nat)
    requires j < |Names(rows)|
    ensures var printed := RenderLines(ShoppingLines(rows));
            ShoppingText(rows) == Header + Concat(printed[..j]) + printed[j] + Concat(printed[j + 1..])
    ensures var n := Names(rows)[j];
            RenderLines(ShoppingLines(rows))[j]
              == n + " - " + IntToString(Total(rows, n)) + " " + LastUnit(rows, n) + "\n"
  {
    var printed := RenderLines(ShoppingLines(rows));
    ConcatAround(printed, j);
  }
}
