/** The records of the recipes application and the constraints their tables
    keep: ingredients, tags, recipes and the recipe-ingredient join rows,
    plus the user-recipe and user-author relations that the views and
    filters query. */
module ApiModels {
  import opened Common
  import opened Strings

  const IngredientNameMax: nat := 100
  const MeasurementUnitMax: nat := 50
  const TagNameMax: nat := 50
  const TagSlugMax: nat := 50
  const RecipeTitleMax: nat := 200

  datatype Ingredient = Ingredient(id: nat, name: string, measurementUnit: string)

  datatype Tag = Tag(id: nat, name: string, slug: string)

  /** `tags` is the recipe's many-to-many tag association, as tag ids;
      `pubDate` is the creation time stamp. */
  datatype Recipe = Recipe(
    id: nat,
    author: nat,
    title: string,
    image: string,
    text: string,
    tags: set<nat>,
    cookingTime: nat,
    pubDate: int)

  /** One join row: `amount` of an ingredient used in a recipe. */
  datatype RecipeIngredient = RecipeIngredient(recipe: nat, ingredient: nat, amount: int)

  /** One submitted (ingredient, amount) pair of a recipe payload. */
  datatype IngredientAmount = IngredientAmount(ingredient: nat, amount: int)

  /** A favourite or shopping-list entry: `user` has bookmarked `recipe`. */
  datatype Bookmark = Bookmark(user: nat, recipe: nat)

  /** `user` follows `author`. */
  datatype Subscription = Subscription(user: nat, author: nat)

  /** `__str__` of an ingredient: `"name (unit)"`. */
  function IngredientStr(i: Ingredient): (r: string)
    ensures StartsWith(r, i.name + " (") && EndsWith(r, i.measurementUnit + ")")
    ensures |r| == |i.name| + |i.measurementUnit| + 3
  {
    var r := i.name + " (" + i.measurementUnit + ")";
    assert r[..|i.name + " ("|] == i.name + " (";
    assert r[|r| - |i.measurementUnit + ")"|..] == i.measurementUnit + ")";
    r
  }

  // ---- table constraints ----

  predicate IngredientsValid(t: seq<Ingredient>) {
    && (forall i :: 0 <= i < |t| ==> |t[i].name| <= IngredientNameMax && |t[i].measurementUnit| <= MeasurementUnitMax)
    && (forall i, j :: 0 <= i < j < |t| ==> t[i].id != t[j].id && t[i].name != t[j].name)
  }

  predicate TagsValid(t: seq<Tag>) {
    && (forall i :: 0 <= i < |t| ==> |t[i].name| <= TagNameMax && |t[i].slug| <= TagSlugMax)
    && (forall i, j :: 0 <= i < j < |t| ==> t[i].id != t[j].id && t[i].name != t[j].name && t[i].slug != t[j].slug)
  }

  /** Recipe ids are unique, titles fit their column, and no author has two
      recipes with the same title (the `unique recipe` constraint). */
  predicate RecipesValid(t: seq<Recipe>) {
    && (forall i :: 0 <= i < |t| ==> |t[i].title| <= RecipeTitleMax)
    && (forall i, j :: 0 <= i < j < |t| ==> t[i].id != t[j].id && (t[i].author, t[i].title) != (t[j].author, t[j].title))
  }

  predicate HasIngredient(t: seq<Ingredient>, id: nat) {
    exists i :: 0 <= i < |t| && t[i].id == id
  }

  predicate HasRecipe(t: seq<Recipe>, id: nat) {
    exists i :: 0 <= i < |t| && t[i].id == id
  }

  predicate HasTag(t: seq<Tag>, id: nat) {
    exists i :: 0 <= i < |t| && t[i].id == id
  }

  /** Every join row points at an existing recipe and an existing ingredient. */
  predicate RowsReference(rows: seq<RecipeIngredient>, recipes: seq<Recipe>, ingredients: seq<Ingredient>) {
    forall k :: 0 <= k < |rows| ==> HasRecipe(recipes, rows[k].recipe) && HasIngredient(ingredients, rows[k].ingredient)
  }

  // ---- cascading deletes (on_delete=CASCADE on both foreign keys) ----

  function IdIsNot(id: nat): Recipe -> bool {
    (r: Recipe) => r.id != id
  }

  function IngredientIdIsNot(id: nat): Ingredient -> bool {
    (i: Ingredient) => i.id != id
  }

  function RowRecipeIsNot(id: nat): RecipeIngredient -> bool {
    (row: RecipeIngredient) => row.recipe != id
  }

  function RowIngredientIsNot(id: nat): RecipeIngredient -> bool {
    (row: RecipeIngredient) => row.ingredient != id
  }

  /** Deleting a recipe deletes every join row that references it. */
  function DeleteRecipe(recipes: seq<Recipe>, rows: seq<RecipeIngredient>, id: nat): (seq<Recipe>, seq<RecipeIngredient>) {
    (Filter(recipes, IdIsNot(id)), Filter(rows, RowRecipeIsNot(id)))
  }

  /** Deleting an ingredient deletes every join row that references it. */
  function DeleteIngredient(ingredients: seq<Ingredient>, rows: seq<RecipeIngredient>, id: nat): (seq<Ingredient>, seq<RecipeIngredient>) {
    (Filter(ingredients, IngredientIdIsNot(id)), Filter(rows, RowIngredientIsNot(id)))
  }

  /** After a recipe is deleted no row references it, every other row is
      kept, and all remaining rows still reference existing records. */
  lemma DeleteRecipeCascades(recipes: seq<Recipe>, rows: seq<RecipeIngredient>, ingredients: seq<Ingredient>, id: nat)
    requires RowsReference(rows, recipes, ingredients)
    ensures !HasRecipe(DeleteRecipe(recipes, rows, id).0, id)
    ensures forall k :: 0 <= k < |DeleteRecipe(recipes, rows, id).1| ==> DeleteRecipe(recipes, rows, id).1[k].recipe != id
    ensures forall k :: 0 <= k < |rows| && rows[k].recipe != id ==> rows[k] in DeleteRecipe(recipes, rows, id).1
    ensures RowsReference(DeleteRecipe(recipes, rows, id).1, DeleteRecipe(recipes, rows, id).0, ingredients)
  {
    var (rs, kept) := DeleteRecipe(recipes, rows, id);
    forall k | 0 <= k < |kept| ensures HasRecipe(rs, kept[k].recipe) && HasIngredient(ingredients, kept[k].ingredient) {
      var row := kept[k];
      assert row in rows && row.recipe != id;
      var m :| 0 <= m < |rows| && rows[m] == row;
      var i :| 0 <= i < |recipes| && recipes[i].id == row.recipe;
      assert IdIsNot(id)(recipes[i]);
      assert recipes[i] in rs;
      var j :| 0 <= j < |rs| && rs[j] == recipes[i];
    }
  }

  /** After an ingredient is deleted no row references it, every other row
      is kept, and all remaining rows still reference existing records. */
  lemma DeleteIngredientCascades(recipes: seq<Recipe>, rows: seq<RecipeIngredient>, ingredients: seq<Ingredient>, id: nat)
    requires RowsReference(rows, recipes, ingredients)
    ensures !HasIngredient(DeleteIngredient(ingredients, rows, id).0, id)
    ensures forall k :: 0 <= k < |DeleteIngredient(ingredients, rows, id).1| ==> DeleteIngredient(ingredients, rows, id).1[k].ingredient != id
    ensures forall k :: 0 <= k < |rows| && rows[k].ingredient != id ==> rows[k] in DeleteIngredient(ingredients, rows, id).1
    ensures RowsReference(DeleteIngredient(ingredients, rows, id).1, recipes, DeleteIngredient(ingredients, rows, id).0)
  {
    var (left, kept) := DeleteIngredient(ingredients, rows, id);
    forall k | 0 <= k < |kept| ensures HasRecipe(recipes, kept[k].recipe) && HasIngredient(left, kept[k].ingredient) {
      var row := kept[k];
      assert row in rows && row.ingredient != id;
      var m :| 0 <= m < |rows| && rows[m] == row;
      var i :| 0 <= i < |ingredients| && ingredients[i].id == row.ingredient;
      assert IngredientIdIsNot(id)(ingredients[i]);
      assert ingredients[i] in left;
      var j :| 0 <= j < |left| && left[j] == ingredients[i];
    }
  }

  // ---- default ordering of recipes: by publication date ----

  predicate SortedByPubDate(t: seq<Recipe>) {
    forall i :: 0 < i < |t| ==> t[i - 1].pubDate <= t[i].pubDate
  }

  function InsertByPubDate(r: Recipe, t: seq<Recipe>): (s: seq<Recipe>)
    requires SortedByPubDate(t)
    ensures SortedByPubDate(s)
    ensures multiset(s) == multiset(t) + multiset{r}
    ensures |s| == |t| + 1
    ensures s[0] == r || (t != [] && s[0] == t[0])
    decreases |t|
  {
    if t == [] || r.pubDate <= t[0].pubDate then
      [r] + t
    else
      var tail := InsertByPubDate(r, t[1..]);
      assert t == [t[0]] + t[1..];
      [t[0]] + tail
  }

  /** The order in which recipes are listed (`ordering = ('pub_date',)`):
      sorted by publication date, and a permutation of the table. */
  function OrderByPubDate(t: seq<Recipe>): (s: seq<Recipe>)
    ensures SortedByPubDate(s)
    ensures multiset(s) == multiset(t)
    decreases |t|
  {
    if t == [] then []
    else
      assert t == [t[0]] + t[1..];
      InsertByPubDate(t[0], OrderByPubDate(t[1..]))
  }
}
