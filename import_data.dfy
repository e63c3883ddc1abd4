/** The `import_data` management command over rows already read from the
    two CSV files: the row rule that decides which rows become ingredient
    and tag records, and the command's two loops. */
module ImportData {
  import opened Common
  import opened ApiModels
  import opened Store

  /** One CSV row: its fields. */
  type Row = seq<string>

  /** The exceptions that end the command: unpacking a row of more than two
      fields, a value longer than its column, a name that is already taken
      (or, for tags, a slug). No record is created by the failing row; the
      records of the rows before it stay. */
  datatype ImportError = UnpackError(fields: nat) | DataError | IntegrityError

  /** A row that the rule turns into a record: exactly two fields, the
      first one non-empty. */
  predicate Creates(row: Row) {
    |row| == 2 && row[0] != ""
  }

  function CreatesRow(): Row -> bool {
    (row: Row) => Creates(row)
  }

  // ---- Ingredient.objects.create / Tag.objects.create ----

  predicate IngredientNamed(t: seq<Ingredient>, name: string) {
    exists i :: 0 <= i < |t| && t[i].name == name
  }

  function IngredientIdOf(): Ingredient -> nat {
    (i: Ingredient) => i.id
  }

  /** One insertion into the ingredient table: refused when a value does
      not fit its column, then when the name is taken; otherwise the record
      is appended under a fresh id. */
  function CreateIngredient(t: seq<Ingredient>, name: string, unit: string): (r: Result<seq<Ingredient>, ImportError>)
    ensures r == Err(DataError) <==> |name| > IngredientNameMax || |unit| > MeasurementUnitMax
    ensures r == Err(IntegrityError) <==>
              |name| <= IngredientNameMax && |unit| <= MeasurementUnitMax && IngredientNamed(t, name)
    ensures r.Ok? <==> |name| <= IngredientNameMax && |unit| <= MeasurementUnitMax && !IngredientNamed(t, name)
    ensures r.Ok? ==> (|r.value| == |t| + 1 && r.value[..|t|] == t
                       && r.value[|t|].name == name && r.value[|t|].measurementUnit == unit
                       && forall i :: 0 <= i < |t| ==> t[i].id < r.value[|t|].id)
  {
    if |name| > IngredientNameMax || |unit| > MeasurementUnitMax then Err(DataError)
    else if IngredientNamed(t, name) then Err(IntegrityError)
    else
      var x := Ingredient(FreshId(t, IngredientIdOf()), name, unit);
      SnocInit(t, x);
      Ok(t + [x])
  }

  predicate TagNamedOrSlugged(t: seq<Tag>, name: string, slug: string) {
    exists i :: 0 <= i < |t| && (t[i].name == name || t[i].slug == slug)
  }

  function TagIdOf(): Tag -> nat {
    (x: Tag) => x.id
  }

  /** One insertion into the tag table: refused when a value does not fit
      its column, then when the name or the slug is taken; otherwise the
      record is appended under a fresh id. */
  function CreateTag(t: seq<Tag>, name: string, slug: string): (r: Result<seq<Tag>, ImportError>)
    ensures r == Err(DataError) <==> |name| > TagNameMax || |slug| > TagSlugMax
    ensures r == Err(IntegrityError) <==>
              |name| <= TagNameMax && |slug| <= TagSlugMax && TagNamedOrSlugged(t, name, slug)
    ensures r.Ok? <==> |name| <= TagNameMax && |slug| <= TagSlugMax && !TagNamedOrSlugged(t, name, slug)
    ensures r.Ok? ==> (|r.value| == |t| + 1 && r.value[..|t|] == t
                       && r.value[|t|].name == name && r.value[|t|].slug == slug
                       && forall i :: 0 <= i < |t| ==> t[i].id < r.value[|t|].id)
  {
    if |name| > TagNameMax || |slug| > TagSlugMax then Err(DataError)
    else if TagNamedOrSlugged(t, name, slug) then Err(IntegrityError)
    else
      var x := Tag(FreshId(t, TagIdOf()), name, slug);
      SnocInit(t, x);
      Ok(t + [x])
  }

  // ---- the row rule ----

  /** The body of the ingredient loop for one row: fewer than two fields
      skip the row, more than two fail to unpack, an empty name skips it,
      and otherwise the two fields are inserted. */
  function IngredientStep(t: seq<Ingredient>, row: Row): (r: Result<seq<Ingredient>, ImportError>)
    ensures |row| < 2 ==> r == Ok(t)
    ensures |row| > 2 ==> r == Err(UnpackError(|row|))
    ensures |row| == 2 && row[0] == "" ==> r == Ok(t)
    ensures Creates(row) ==> r == CreateIngredient(t, row[0], row[1])
  {
    if |row| >= 2 then
      if |row| != 2 then Err(UnpackError(|row|))
      else
        var name, unit := row[0], row[1];
        if name != "" then CreateIngredient(t, name, unit) else Ok(t)
    else Ok(t)
  }

  /** The body of the tag loop for one row, by the same rule. */
  function TagStep(t: seq<Tag>, row: Row): (r: Result<seq<Tag>, ImportError>)
    ensures |row| < 2 ==> r == Ok(t)
    ensures |row| > 2 ==> r == Err(UnpackError(|row|))
    ensures |row| == 2 && row[0] == "" ==> r == Ok(t)
    ensures Creates(row) ==> r == CreateTag(t, row[0], row[1])
  {
    if |row| >= 2 then
      if |row| != 2 then Err(UnpackError(|row|))
      else
        var name, slug := row[0], row[1];
        if name != "" then CreateTag(t, name, slug) else Ok(t)
    else Ok(t)
  }

  /** A loop over `rows` in file order: each row's step applied to the
      table the previous rows left, until a step fails. The table is what
      was created so far; the error, if any, is the first one raised. */
  function Import<T>(table: seq<T>, rows: seq<Row>, step: (seq<T>, Row) -> Result<seq<T>, ImportError>): (r: (seq<T>, Option<ImportError>))
    decreases |rows|
  {
    if rows == [] then (table, None)
    else
      var before := Import(table, rows[..|rows| - 1], step);
      if before.1.Some? then before
      else match step(before.0, rows[|rows| - 1])
        case Err(e) => (before.0, Some(e))
        case Ok(t) => (t, None)
  }

  lemma ImportSnoc<T>(table: seq<T>, rows: seq<Row>, row: Row, step: (seq<T>, Row) -> Result<seq<T>, ImportError>)
    ensures Import(table, rows + [row], step) ==
              var before := Import(table, rows, step);
              if before.1.Some? then before
              else match step(before.0, row)
                case Err(e) => (before.0, Some(e))
                case Ok(t) => (t, None)
  {
    SnocInit(rows, row);
  }

  /** Once a row has failed, no later row is looked at. */
  lemma {:induction false} ImportStopsAtError<T>(table: seq<T>, a: seq<Row>, b: seq<Row>, step: (seq<T>, Row) -> Result<seq<T>, ImportError>)
    requires Import(table, a, step).1.Some?
    ensures Import(table, a + b, step) == Import(table, a, step)
    decreases |b|
  {
    if b == [] {
      assert a + b == a;
    } else {
      var c := b[..|b| - 1];
      ImportStopsAtError(table, a, c, step);
      assert a + b == (a + c) + [b[|b| - 1]];
      ImportSnoc(table, a + c, b[|b| - 1], step);
    }
  }

  /** The rows of the file are imported one after the other: importing
      `a + b` is importing `b` into what `a` left, unless `a` failed. */
  lemma {:induction false} ImportConcat<T>(table: seq<T>, a: seq<Row>, b: seq<Row>, step: (seq<T>, Row) -> Result<seq<T>, ImportError>)
    requires Import(table, a, step).1.None?
    ensures Import(table, a + b, step) == Import(Import(table, a, step).0, b, step)
    decreases |b|
  {
    var mid := Import(table, a, step).0;
    if b == [] {
      assert a + b == a;
    } else {
      var c := b[..|b| - 1];
      var x := b[|b| - 1];
      ImportConcat(table, a, c, step);
      assert a + b == (a + c) + [x];
      assert b == c + [x];
      ImportSnoc(table, a + c, x, step);
      ImportSnoc(mid, c, x, step);
    }
  }

  /** A table invariant every successful step keeps holds of the table the
      import leaves, whether or not a row failed. */
  lemma {:induction false} ImportKeeps<T>(table: seq<T>, rows: seq<Row>, step: (seq<T>, Row) -> Result<seq<T>, ImportError>, inv: seq<T> -> bool)
    requires inv(table)
    requires forall t: seq<T>, row: Row :: inv(t) && step(t, row).Ok? ==> inv(step(t, row).value)
    ensures inv(Import(table, rows, step).0)
    decreases |rows|
  {
    if rows != [] {
      var init := rows[..|rows| - 1];
      ImportKeeps(table, init, step, inv);
      var mid := Import(table, init, step).0;
      StepKeeps(mid, rows[|rows| - 1], step, inv);
    }
  }

  lemma StepKeeps<T>(t: seq<T>, row: Row, step: (seq<T>, Row) -> Result<seq<T>, ImportError>, inv: seq<T> -> bool)
    requires inv(t)
    requires forall u: seq<T>, x: Row :: inv(u) && step(u, x).Ok? ==> inv(step(u, x).value)
    ensures step(t, row).Ok? ==> inv(step(t, row).value)
  {
  }

  /** How a step acts on a row: a row of more than two fields fails, and a
      successful step appends one record built from the two fields of a
      creating row and leaves the table alone for any other row. */
  predicate StepShape<T(==)>(step: (seq<T>, Row) -> Result<seq<T>, ImportError>, key: T -> (string, string), t: seq<T>, row: Row) {
    && (|row| > 2 ==> step(t, row).Err?)
    && (step(t, row).Ok? ==>
          if Creates(row) then
            |step(t, row).value| == |t| + 1 && step(t, row).value[..|t|] == t
            && key(step(t, row).value[|t|]) == (row[0], row[1])
          else step(t, row).value == t)
  }

  /** The record-building rows turned into their two fields. */
  function Pairs(rows: seq<Row>): (r: seq<(string, string)>)
    requires forall i :: 0 <= i < |rows| ==> |rows[i]| >= 2
    ensures |r| == |rows|
    ensures forall k :: 0 <= k < |rows| ==> r[k] == (rows[k][0], rows[k][1])
  {
    seq(|rows|, k requires 0 <= k < |rows| => (rows[k][0], rows[k][1]))
  }

  /** An import that raises nothing read no row of more than two fields and
      appended one record per creating row, in file order, built from that
      row's two fields; the table it started from is left as it was. */
  lemma {:induction false} ImportCreates<T>(table: seq<T>, rows: seq<Row>, step: (seq<T>, Row) -> Result<seq<T>, ImportError>, key: T -> (string, string))
    requires forall t, row :: StepShape(step, key, t, row)
    requires Import(table, rows, step).1.None?
    ensures forall i :: 0 <= i < |rows| ==> |rows[i]| <= 2
    ensures var out := Import(table, rows, step).0;
            var made := Filter(rows, CreatesRow());
            |out| == |table| + |made| && out[..|table|] == table
            && forall k :: 0 <= k < |made| ==> key(out[|table| + k]) == (made[k][0], made[k][1])
    decreases |rows|
  {
    if rows != [] {
      var init := rows[..|rows| - 1];
      var row := rows[|rows| - 1];
      assert rows == init + [row];
      var mid := Import(table, init, step).0;
      ImportCreates(table, init, step, key);
      assert StepShape(step, key, mid, row);
      FilterConcat(init, [row], CreatesRow());
      var made := Filter(rows, CreatesRow());
      var before := Filter(init, CreatesRow());
      var out := Import(table, rows, step).0;
      if Creates(row) {
        assert Filter([row], CreatesRow()) == [row];
        assert made == before + [row];
        AppendCreated(table, mid, out, before, row, key);
      } else {
        assert Filter([row], CreatesRow()) == [];
        assert made == before;
      }
    }
  }

  /** A step's new record, appended after those of the earlier creating
      rows, becomes the last of them. */
  lemma AppendCreated<T>(table: seq<T>, mid: seq<T>, out: seq<T>, before: seq<Row>, row: Row, key: T -> (string, string))
    requires Creates(row)
    requires |mid| == |table| + |before| && mid[..|table|] == table
    requires forall k :: 0 <= k < |before| ==>
               Creates(before[k]) && key(mid[|table| + k]) == (before[k][0], before[k][1])
    requires |out| == |mid| + 1 && out[..|mid|] == mid && key(out[|mid|]) == (row[0], row[1])
    ensures |out| == |table| + |before + [row]| && out[..|table|] == table
    ensures forall k :: 0 <= k < |before + [row]| ==>
              Creates((before + [row])[k])
              && key(out[|table| + k]) == ((before + [row])[k][0], (before + [row])[k][1])
  {
    forall k | 0 <= k < |before| ensures key(out[|table| + k]) == (before[k][0], before[k][1]) {
      assert out[|table| + k] == mid[|table| + k];
    }
    assert out[..|table|] == mid[..|table|];
  }

  function IngredientKey(): Ingredient -> (string, string) {
    (i: Ingredient) => (i.name, i.measurementUnit)
  }

  function TagKey(): Tag -> (string, string) {
    (x: Tag) => (x.name, x.slug)
  }

  lemma IngredientStepShape()
    ensures forall t, row :: StepShape(IngredientStep, IngredientKey(), t, row)
  {
  }

  lemma TagStepShape()
    ensures forall t, row :: StepShape(TagStep, TagKey(), t, row)
  {
  }

  /** An ingredient import that raises nothing creates one ingredient per
      creating row, in file order, named by the row's first field and
      measured in its second. */
  lemma IngredientImportRecords(t: seq<Ingredient>, rows: seq<Row>)
    requires Import(t, rows, IngredientStep).1.None?
    ensures forall i :: 0 <= i < |rows| ==> |rows[i]| <= 2
    ensures var out := Import(t, rows, IngredientStep).0;
            var made := Filter(rows, CreatesRow());
            |out| == |t| + |made| && out[..|t|] == t
            && forall k :: 0 <= k < |made| ==>
                 out[|t| + k].name == made[k][0] && out[|t| + k].measurementUnit == made[k][1]
  {
    IngredientStepShape();
    ImportCreates(t, rows, IngredientStep, IngredientKey());
  }

  /** A tag import that raises nothing creates one tag per creating row, in
      file order, named by the row's first field with its second as slug. */
  lemma TagImportRecords(t: seq<Tag>, rows: seq<Row>)
    requires Import(t, rows, TagStep).1.None?
    ensures forall i :: 0 <= i < |rows| ==> |rows[i]| <= 2
    ensures var out := Import(t, rows, TagStep).0;
            var made := Filter(rows, CreatesRow());
            |out| == |t| + |made| && out[..|t|] == t
            && forall k :: 0 <= k < |made| ==> out[|t| + k].name == made[k][0] && out[|t| + k].slug == made[k][1]
  {
    TagStepShape();
    ImportCreates(t, rows, TagStep, TagKey());
  }

  /** A successful ingredient step keeps the table's constraints. */
  lemma IngredientStepValid(t: seq<Ingredient>, row: Row)
    requires IngredientsValid(t) && IngredientStep(t, row).Ok?
    ensures IngredientsValid(IngredientStep(t, row).value)
  {
    if Creates(row) {
      var r := IngredientStep(t, row).value;
      assert forall i :: 0 <= i < |t| ==> r[i] == t[i] by {
        forall i | 0 <= i < |t| ensures r[i] == t[i] {
          assert r[..|t|][i] == r[i];
        }
      }
      assert forall i :: 0 <= i < |t| ==> t[i].name != r[|t|].name;
    }
  }

  /** A successful tag step keeps the table's constraints. */
  lemma TagStepValid(t: seq<Tag>, row: Row)
    requires TagsValid(t) && TagStep(t, row).Ok?
    ensures TagsValid(TagStep(t, row).value)
  {
    if Creates(row) {
      var r := TagStep(t, row).value;
      assert forall i :: 0 <= i < |t| ==> r[i] == t[i] by {
        forall i | 0 <= i < |t| ensures r[i] == t[i] {
          assert r[..|t|][i] == r[i];
        }
      }
      assert forall i :: 0 <= i < |t| ==> t[i].name != r[|t|].name && t[i].slug != r[|t|].slug;
    }
  }

  function IngredientsValidity(): seq<Ingredient> -> bool {
    (t: seq<Ingredient>) => IngredientsValid(t)
  }

  function TagsValidity(): seq<Tag> -> bool {
    (t: seq<Tag>) => TagsValid(t)
  }

  /** Importing ingredient rows, failed or not, leaves a valid table. */
  lemma ImportIngredientsValid(t: seq<Ingredient>, rows: seq<Row>)
    requires IngredientsValid(t)
    ensures IngredientsValid(Import(t, rows, IngredientStep).0)
  {
    forall u, row | IngredientsValidity()(u) && IngredientStep(u, row).Ok?
      ensures IngredientsValidity()(IngredientStep(u, row).value)
    {
      IngredientStepValid(u, row);
    }
    ImportKeeps(t, rows, IngredientStep, IngredientsValidity());
  }

  /** Importing tag rows, failed or not, leaves a valid table. */
  lemma ImportTagsValid(t: seq<Tag>, rows: seq<Row>)
    requires TagsValid(t)
    ensures TagsValid(Import(t, rows, TagStep).0)
  {
    forall u, row | TagsValidity()(u) && TagStep(u, row).Ok?
      ensures TagsValidity()(TagStep(u, row).value)
    {
      TagStepValid(u, row);
    }
    ImportKeeps(t, rows, TagStep, TagsValidity());
  }

  /** A table only grows by appending, so every earlier record stays. */
  lemma ImportExtends<T>(table: seq<T>, rows: seq<Row>, step: (seq<T>, Row) -> Result<seq<T>, ImportError>, key: T -> (string, string))
    requires forall t, row :: StepShape(step, key, t, row)
    ensures |table| <= |Import(table, rows, step).0|
    ensures Import(table, rows, step).0[..|table|] == table
  {
    var prefix := (t: seq<T>) => |table| <= |t| && t[..|table|] == table;
    forall t, row | prefix(t) && step(t, row).Ok? ensures prefix(step(t, row).value) {
      assert StepShape(step, key, t, row);
      if Creates(row) {
        assert step(t, row).value[..|t|][..|table|] == t[..|table|];
      }
    }
    ImportKeeps(table, rows, step, prefix);
  }

  // ---- the command ----

  /** The ingredient loop. */
  method ImportIngredientRows(db: Database, rows: seq<Row>) returns (err: Option<ImportError>)
    modifies db
    ensures (db.ingredients, err) == Import(old(db.ingredients), rows, IngredientStep)
    ensures db.users == old(db.users) && db.tags == old(db.tags) && db.recipes == old(db.recipes)
    ensures db.recipeIngredients == old(db.recipeIngredients)
    ensures db.favorites == old(db.favorites) && db.shoppingList == old(db.shoppingList)
    ensures db.subscriptions == old(db.subscriptions)
  {
    err := None;
    var i := 0;
    while i < |rows| && err.None?
      invariant 0 <= i <= |rows|
      invariant (db.ingredients, err) == Import(old(db.ingredients), rows[..i], IngredientStep)
      invariant db.users == old(db.users) && db.tags == old(db.tags) && db.recipes == old(db.recipes)
      invariant db.recipeIngredients == old(db.recipeIngredients)
      invariant db.favorites == old(db.favorites) && db.shoppingList == old(db.shoppingList)
      invariant db.subscriptions == old(db.subscriptions)
    {
      var row := rows[i];
      TakeSnoc(rows, i);
      ImportSnoc(old(db.ingredients), rows[..i], row, IngredientStep);
      if |row| >= 2 {
        if |row| != 2 {
          err := Some(UnpackError(|row|));
        } else {
          var name, unit := row[0], row[1];
          if name != "" {
            match CreateIngredient(db.ingredients, name, unit)
            case Err(e) => err := Some(e);
            case Ok(t) => db.ingredients := t;
          }
        }
      }
      i := i + 1;
    }
    if err.Some? {
      ImportStopsAtError(old(db.ingredients), rows[..i], rows[i..], IngredientStep);
      assert rows[..i] + rows[i..] == rows;
    } else {
      TakeAll(rows);
    }
  }

  /** The tag loop. */
  method ImportTagRows(db: Database, rows: seq<Row>) returns (err: Option<ImportError>)
    modifies db
    ensures (db.tags, err) == Import(old(db.tags), rows, TagStep)
    ensures db.users == old(db.users) && db.ingredients == old(db.ingredients) && db.recipes == old(db.recipes)
    ensures db.recipeIngredients == old(db.recipeIngredients)
    ensures db.favorites == old(db.favorites) && db.shoppingList == old(db.shoppingList)
    ensures db.subscriptions == old(db.subscriptions)
  {
    err := None;
    var i := 0;
    while i < |rows| && err.None?
      invariant 0 <= i <= |rows|
      invariant (db.tags, err) == Import(old(db.tags), rows[..i], TagStep)
      invariant db.users == old(db.users) && db.ingredients == old(db.ingredients) && db.recipes == old(db.recipes)
      invariant db.recipeIngredients == old(db.recipeIngredients)
      invariant db.favorites == old(db.favorites) && db.shoppingList == old(db.shoppingList)
      invariant db.subscriptions == old(db.subscriptions)
    {
      var row := rows[i];
      TakeSnoc(rows, i);
      ImportSnoc(old(db.tags), rows[..i], row, TagStep);
      if |row| >= 2 {
        if |row| != 2 {
          err := Some(UnpackError(|row|));
        } else {
          var name, slug := row[0], row[1];
          if name != "" {
            match CreateTag(db.tags, name, slug)
            case Err(e) => err := Some(e);
            case Ok(t) => db.tags := t;
          }
        }
      }
      i := i + 1;
    }
    if err.Some? {
      ImportStopsAtError(old(db.tags), rows[..i], rows[i..], TagStep);
      assert rows[..i] + rows[i..] == rows;
    } else {
      TakeAll(rows);
    }
  }

  /** `handle`: every ingredient row first, then, only when none raised,
      every tag row. The error returned is the first one raised. */
  method Handle(db: Database, ingredientRows: seq<Row>, tagRows: seq<Row>) returns (err: Option<ImportError>)
    modifies db
    ensures db.ingredients == Import(old(db.ingredients), ingredientRows, IngredientStep).0
    ensures Import(old(db.ingredients), ingredientRows, IngredientStep).1.Some? ==>
              err == Import(old(db.ingredients), ingredientRows, IngredientStep).1 && db.tags == old(db.tags)
    ensures Import(old(db.ingredients), ingredientRows, IngredientStep).1.None? ==>
              (db.tags, err) == Import(old(db.tags), tagRows, TagStep)
    ensures db.users == old(db.users) && db.recipes == old(db.recipes)
    ensures db.recipeIngredients == old(db.recipeIngredients)
    ensures db.favorites == old(db.favorites) && db.shoppingList == old(db.shoppingList)
    ensures db.subscriptions == old(db.subscriptions)
    ensures old(db.Valid()) ==> db.Valid()
  {
    ghost var before := db.ingredients;
    ghost var tagsBefore := db.tags;
    ghost var valid := db.Valid();
    err := ImportIngredientRows(db, ingredientRows);
    if valid {
      ImportIngredientsValid(before, ingredientRows);
      IngredientStepShape();
      ImportExtends(before, ingredientRows, IngredientStep, IngredientKey());
      ExtendedKeepsRows(db.recipeIngredients, db.recipes, before, db.ingredients);
    }
    if err.None? {
      err := ImportTagRows(db, tagRows);
      if valid {
        ImportTagsValid(tagsBefore, tagRows);
        TagStepShape();
        ImportExtends(tagsBefore, tagRows, TagStep, TagKey());
        ExtendedKeepsTags(db.recipes, db.users, tagsBefore, db.tags);
      }
    }
  }

  /** Appending ingredients keeps every join row's reference. */
  lemma ExtendedKeepsRows(rows: seq<RecipeIngredient>, recipes: seq<Recipe>, a: seq<Ingredient>, b: seq<Ingredient>)
    requires RowsReference(rows, recipes, a) && |a| <= |b| && b[..|a|] == a
    ensures RowsReference(rows, recipes, b)
  {
    forall k | 0 <= k < |rows| ensures HasIngredient(b, rows[k].ingredient) {
      var i :| 0 <= i < |a| && a[i].id == rows[k].ingredient;
      assert b[..|a|][i] == b[i];
    }
  }

  /** Appending tags keeps every recipe's tag references. */
  lemma ExtendedKeepsTags(recipes: seq<Recipe>, users: seq<UserModels.User>, a: seq<Tag>, b: seq<Tag>)
    requires RecipesReference(recipes, users, a) && |a| <= |b| && b[..|a|] == a
    ensures RecipesReference(recipes, users, b)
  {
    forall k, t | 0 <= k < |recipes| && t in recipes[k].tags ensures HasTag(b, t) {
      var i :| 0 <= i < |a| && a[i].id == t;
      assert b[..|a|][i] == b[i];
    }
  }
}
