/** The two helpers the recipe views share: replacing a recipe's
    ingredient rows with those of a submitted list, and asking whether a
    recipe is in the requesting user's favourites or shopping list. */
module Mixins {
  import opened Common
  import opened ApiModels
  import opened Store

  function RowRecipeIs(id: nat): RecipeIngredient -> bool {
    (row: RecipeIngredient) => row.recipe == id
  }

  /** One new join row per submitted entry, in submitted order. */
  function RowsFor(recipe: nat, entries: seq<IngredientAmount>): seq<RecipeIngredient> {
    seq(|entries|, k requires 0 <= k < |entries| => RecipeIngredient(recipe, entries[k].ingredient, entries[k].amount))
  }

  /** The join table after `update_or_create_ingredient`: the recipe's rows
      cleared, then the new rows bulk-created at the end. */
  function ReplaceRows(rows: seq<RecipeIngredient>, recipe: nat, entries: seq<IngredientAmount>): seq<RecipeIngredient> {
    Filter(rows, RowRecipeIsNot(recipe)) + RowsFor(recipe, entries)
  }

  /** `update_or_create_ingredient`: `recipe.ingredients.clear()` followed
      by `bulk_create` of one row per entry. The database stays valid when
      the recipe exists and every submitted ingredient does. */
  method UpdateOrCreateIngredient(db: Database, recipe: nat, entries: seq<IngredientAmount>)
    modifies db
    ensures db.recipeIngredients == ReplaceRows(old(db.recipeIngredients), recipe, entries)
    ensures db.users == old(db.users) && db.ingredients == old(db.ingredients) && db.tags == old(db.tags)
    ensures db.recipes == old(db.recipes)
    ensures db.favorites == old(db.favorites) && db.shoppingList == old(db.shoppingList)
    ensures db.subscriptions == old(db.subscriptions)
    ensures old(db.Valid()) && HasRecipe(db.recipes, recipe)
            && (forall k :: 0 <= k < |entries| ==> HasIngredient(db.ingredients, entries[k].ingredient))
            ==> db.Valid()
  {
    ghost var valid := db.Valid();
    db.recipeIngredients := Filter(db.recipeIngredients, RowRecipeIsNot(recipe));
    var created := RowsFor(recipe, entries);
    db.recipeIngredients := db.recipeIngredients + created;
    if valid && HasRecipe(db.recipes, recipe) && (forall k :: 0 <= k < |entries| ==> HasIngredient(db.ingredients, entries[k].ingredient)) {
      ReplaceRowsReference(old(db.recipeIngredients), db.recipes, db.ingredients, recipe, entries);
    }
  }

  /** Afterwards the recipe's rows are exactly one per submitted entry, in
      submitted order, carrying that entry's ingredient and amount; nothing
      of the previous rows survives, and duplicates are kept. */
  lemma ReplaceRowsOwn(rows: seq<RecipeIngredient>, recipe: nat, entries: seq<IngredientAmount>)
    ensures Filter(ReplaceRows(rows, recipe, entries), RowRecipeIs(recipe)) == RowsFor(recipe, entries)
    ensures |Filter(ReplaceRows(rows, recipe, entries), RowRecipeIs(recipe))| == |entries|
    ensures forall k :: 0 <= k < |entries| ==>
              Filter(ReplaceRows(rows, recipe, entries), RowRecipeIs(recipe))[k]
                == RecipeIngredient(recipe, entries[k].ingredient, entries[k].amount)
  {
    var kept := Filter(rows, RowRecipeIsNot(recipe));
    var created := RowsFor(recipe, entries);
    FilterConcat(kept, created, RowRecipeIs(recipe));
    FilterNone(kept, RowRecipeIs(recipe));
    FilterAll(created, RowRecipeIs(recipe));
  }

  /** The rows of every other recipe are the same rows, in the same order. */
  lemma ReplaceRowsOthers(rows: seq<RecipeIngredient>, recipe: nat, entries: seq<IngredientAmount>, other: nat)
    requires other != recipe
    ensures Filter(ReplaceRows(rows, recipe, entries), RowRecipeIs(other)) == Filter(rows, RowRecipeIs(other))
  {
    var kept := Filter(rows, RowRecipeIsNot(recipe));
    var created := RowsFor(recipe, entries);
    FilterConcat(kept, created, RowRecipeIs(other));
    FilterNone(created, RowRecipeIs(other));
    FilterNarrow(rows, RowRecipeIs(other), RowRecipeIsNot(recipe));
    assert Filter(kept, RowRecipeIs(other)) + [] == Filter(kept, RowRecipeIs(other));
  }

  /** Replacing twice with the same list leaves the table as replacing once. */
  lemma ReplaceRowsIdempotent(rows: seq<RecipeIngredient>, recipe: nat, entries: seq<IngredientAmount>)
    ensures ReplaceRows(ReplaceRows(rows, recipe, entries), recipe, entries) == ReplaceRows(rows, recipe, entries)
  {
    var kept := Filter(rows, RowRecipeIsNot(recipe));
    var created := RowsFor(recipe, entries);
    FilterConcat(kept, created, RowRecipeIsNot(recipe));
    FilterIdempotent(rows, RowRecipeIsNot(recipe));
    FilterNone(created, RowRecipeIsNot(recipe));
    assert kept + [] == kept;
  }

  /** The new table still references only existing recipes and ingredients
      when the recipe and every submitted ingredient exist. */
  lemma ReplaceRowsReference(rows: seq<RecipeIngredient>, recipes: seq<Recipe>, ingredients: seq<Ingredient>,
                             recipe: nat, entries: seq<IngredientAmount>)
    requires RowsReference(rows, recipes, ingredients)
    requires HasRecipe(recipes, recipe)
    requires forall k :: 0 <= k < |entries| ==> HasIngredient(ingredients, entries[k].ingredient)
    ensures RowsReference(ReplaceRows(rows, recipe, entries), recipes, ingredients)
  {
    var kept := Filter(rows, RowRecipeIsNot(recipe));
    var created := RowsFor(recipe, entries);
    var t := kept + created;
    forall k | 0 <= k < |t| ensures HasRecipe(recipes, t[k].recipe) && HasIngredient(ingredients, t[k].ingredient) {
      if k < |kept| {
        assert t[k] == kept[k] && kept[k] in rows;
      } else {
        assert t[k] == created[k - |kept|];
      }
    }
  }

  /** `get_chosen_recipe`: whether the requester has `recipe` in the given
      user-recipe relation; never for an anonymous requester. */
  function GetChosenRecipe(user: Requester, recipe: nat, relation: set<Bookmark>): (r: bool)
    ensures user.Anonymous? ==> !r
    ensures user.Authenticated? ==> (r <==> Bookmark(user.id, recipe) in relation)
  {
    match user
    case Anonymous => false
    case Authenticated(id) => Bookmark(id, recipe) in relation
  }
}
