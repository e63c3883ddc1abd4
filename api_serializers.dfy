/** Recipe creation: the field rules of the create serializer, the keyword
    arguments its `create` hands to the recipe model, and `create` itself,
    which adds the recipe row, sets its tags and adds one ingredient row per
    submitted entry. Also the two read-side fields that are constant. */
module ApiSerializers {
  import opened Common
  import opened Strings
  import opened UserModels
  import opened ApiModels
  import opened Store
  import opened Mixins

  const NameMaxLength: nat := 256
  const CookingTimeMin: int := 1

  /** A submitted recipe: `image` is the decoded upload's file name, or
      `None` for JSON null. */
  datatype RecipePayload = RecipePayload(
    ingredients: seq<IngredientAmount>,
    tags: seq<nat>,
    image: Option<string>,
    name: string,
    text: string,
    cookingTime: int)

  /** What the field validators report; the index says which list entry. */
  datatype FieldError =
    | IngredientNotFound(index: nat)
    | TagNotFound(index: nat)
    | ImageNull
    | NameBlank
    | NameTooLong
    | NameNullCharacter
    | TextBlank
    | TextNullCharacter
    | CookingTimeBelowMin

  /** The errors of the primary-key fields: one per ingredient entry or tag
      that names no record. */
  function ReferenceErrors(p: RecipePayload, ingredients: seq<Ingredient>, tags: seq<Tag>): (errs: set<FieldError>)
    ensures forall k: nat :: IngredientNotFound(k) in errs <==> k < |p.ingredients| && !HasIngredient(ingredients, p.ingredients[k].ingredient)
    ensures forall k: nat :: TagNotFound(k) in errs <==> k < |p.tags| && !HasTag(tags, p.tags[k])
    ensures forall e :: e in errs ==> e.IngredientNotFound? || e.TagNotFound?
  {
    (set k | 0 <= k < |p.ingredients| && !HasIngredient(ingredients, p.ingredients[k].ingredient) :: IngredientNotFound(k))
    + (set k | 0 <= k < |p.tags| && !HasTag(tags, p.tags[k]) :: TagNotFound(k))
  }

  /** The errors of the `name` field, a `CharField` with the framework's
      defaults, given the stripped value `v`: a blank value is refused before
      any other rule, and otherwise the length limit and the refusal of a
      null character both apply. */
  function NameErrors(v: string): (errs: set<FieldError>)
    ensures NameBlank in errs <==> v == ""
    ensures NameTooLong in errs <==> |v| > NameMaxLength
    ensures NameNullCharacter in errs <==> '\0' in v
    ensures errs <= {NameBlank, NameTooLong, NameNullCharacter}
  {
    if v == "" then {NameBlank}
    else (if |v| > NameMaxLength then {NameTooLong} else {}) + (if '\0' in v then {NameNullCharacter} else {})
  }

  /** The errors of the `text` field, given the stripped value: the same
      `CharField` rules, without a length limit. */
  function TextErrors(v: string): (errs: set<FieldError>)
    ensures TextBlank in errs <==> v == ""
    ensures TextNullCharacter in errs <==> '\0' in v
    ensures errs <= {TextBlank, TextNullCharacter}
  {
    if v == "" then {TextBlank} else if '\0' in v then {TextNullCharacter} else {}
  }

  /** The errors of the scalar fields; `name` and `text` are stripped of
      surrounding whitespace before their rules apply. */
  function ScalarErrors(p: RecipePayload): (errs: set<FieldError>)
    ensures ImageNull in errs <==> p.image.None?
    ensures NameBlank in errs <==> Strip(p.name) == ""
    ensures NameTooLong in errs <==> |Strip(p.name)| > NameMaxLength
    ensures NameNullCharacter in errs <==> '\0' in Strip(p.name)
    ensures TextBlank in errs <==> Strip(p.text) == ""
    ensures TextNullCharacter in errs <==> '\0' in Strip(p.text)
    ensures CookingTimeBelowMin in errs <==> p.cookingTime < CookingTimeMin
    ensures forall e :: e in errs ==> !e.IngredientNotFound? && !e.TagNotFound?
  {
    (if p.image.None? then {ImageNull} else {})
    + NameErrors(Strip(p.name))
    + TextErrors(Strip(p.text))
    + (if p.cookingTime < CookingTimeMin then {CookingTimeBelowMin} else {})
  }

  /** On the submitted text: a name or text is refused as blank exactly when
      it is empty or whitespace only, and for a null character exactly when
      it holds one anywhere. */
  lemma ScalarErrorsOnInput(p: RecipePayload)
    ensures NameBlank in ScalarErrors(p) <==> Blank(p.name)
    ensures NameNullCharacter in ScalarErrors(p) <==> '\0' in p.name
    ensures TextBlank in ScalarErrors(p) <==> Blank(p.text)
    ensures TextNullCharacter in ScalarErrors(p) <==> '\0' in p.text
  {
    StripProperties(p.name);
    StripProperties(p.text);
    StripKeepsNonSpace(p.name, '\0');
    StripKeepsNonSpace(p.text, '\0');
  }

  /** The errors the serializer's fields raise for a payload: an unknown
      ingredient or tag primary key, a null image, a blank or over-long
      name, a blank text, a null character in either, a cooking time below
      one. */
  function ValidationErrors(p: RecipePayload, ingredients: seq<Ingredient>, tags: seq<Tag>): (errs: set<FieldError>)
    ensures forall k: nat :: IngredientNotFound(k) in errs <==> k < |p.ingredients| && !HasIngredient(ingredients, p.ingredients[k].ingredient)
    ensures forall k: nat :: TagNotFound(k) in errs <==> k < |p.tags| && !HasTag(tags, p.tags[k])
    ensures ImageNull in errs <==> p.image.None?
    ensures NameBlank in errs <==> Strip(p.name) == ""
    ensures NameTooLong in errs <==> |Strip(p.name)| > NameMaxLength
    ensures NameNullCharacter in errs <==> '\0' in Strip(p.name)
    ensures TextBlank in errs <==> Strip(p.text) == ""
    ensures TextNullCharacter in errs <==> '\0' in Strip(p.text)
    ensures CookingTimeBelowMin in errs <==> p.cookingTime < CookingTimeMin
  {
    ReferenceErrors(p, ingredients, tags) + ScalarErrors(p)
  }

  predicate Accepted(p: RecipePayload, ingredients: seq<Ingredient>, tags: seq<Tag>) {
    ValidationErrors(p, ingredients, tags) == {}
  }

  /** A payload is accepted exactly when every reference resolves and every
      scalar field is within its rule: a whitespace-only name or text is
      refused, and the name's limit counts its stripped length. */
  lemma AcceptedIff(p: RecipePayload, ingredients: seq<Ingredient>, tags: seq<Tag>)
    ensures Accepted(p, ingredients, tags) <==>
              (forall k :: 0 <= k < |p.ingredients| ==> HasIngredient(ingredients, p.ingredients[k].ingredient))
              && (forall k :: 0 <= k < |p.tags| ==> HasTag(tags, p.tags[k]))
              && p.image.Some? && !Blank(p.name) && |Strip(p.name)| <= NameMaxLength && '\0' !in p.name
              && !Blank(p.text) && '\0' !in p.text && p.cookingTime >= CookingTimeMin
  {
    ScalarErrorsOnInput(p);
    var errs := ValidationErrors(p, ingredients, tags);
    if !Accepted(p, ingredients, tags) {
      var e :| e in errs;
      match e
      case IngredientNotFound(k) =>
      case TagNotFound(k) =>
      case _ =>
    }
  }

  /** Neither an empty ingredient list nor the same ingredient submitted
      twice is rejected by these fields. */
  lemma EmptyAndDuplicateAccepted(ingredients: seq<Ingredient>, tags: seq<Tag>, id: nat, image: string)
    requires HasIngredient(ingredients, id)
    ensures Accepted(RecipePayload([], [], Some(image), "soup", "boil", 1), ingredients, tags)
    ensures Accepted(RecipePayload([IngredientAmount(id, 1), IngredientAmount(id, 2)], [], Some(image), "soup", "boil", 1), ingredients, tags)
  {
    EmptyListAccepted(ingredients, tags, image);
    DuplicateAccepted(ingredients, tags, id, image);
  }

  /** No ingredient at all passes the fields. */
  lemma EmptyListAccepted(ingredients: seq<Ingredient>, tags: seq<Tag>, image: string)
    ensures Accepted(RecipePayload([], [], Some(image), "soup", "boil", 1), ingredients, tags)
  {
    StripProperties("soup");
    StripProperties("boil");
    AcceptedIff(RecipePayload([], [], Some(image), "soup", "boil", 1), ingredients, tags);
  }

  /** The same ingredient twice passes the fields. */
  lemma DuplicateAccepted(ingredients: seq<Ingredient>, tags: seq<Tag>, id: nat, image: string)
    requires HasIngredient(ingredients, id)
    ensures Accepted(RecipePayload([IngredientAmount(id, 1), IngredientAmount(id, 2)], [], Some(image), "soup", "boil", 1), ingredients, tags)
  {
    StripProperties("soup");
    StripProperties("boil");
    AcceptedIff(RecipePayload([IngredientAmount(id, 1), IngredientAmount(id, 2)], [], Some(image), "soup", "boil", 1), ingredients, tags);
  }

  // ---- the keyword arguments of `Recipe.objects.create(**validated_data)` ----

  /** The keys of `validated_data`: each field's source name. */
  const ValidatedKeys: set<string> := {"recipe_ingredients", "tags", "image", "name", "text", "cooking_time", "author"}

  /** The keys `create` pops before building the recipe row. */
  const PoppedKeys: set<string> := {"recipe_ingredients", "tags"}

  /** The keyword arguments a recipe row can be built from: its concrete
      columns (the many-to-many `ingredients` and `tags` cannot be assigned
      directly). */
  const RecipeColumns: set<string> := {"id", "author", "title", "image", "text", "cooking_time", "pub_date"}

  /** The keywords the model constructor refuses (it raises on any). */
  function UnexpectedKeywords(kwargs: set<string>): (bad: set<string>)
    ensures forall k :: k in bad <==> k in kwargs && k !in RecipeColumns
  {
    kwargs - RecipeColumns
  }

  /** As written, `create` passes the serializer's `name` to a model whose
      column is `title`: the constructor refuses every accepted payload.
      Without the two pops it would refuse the relation keys as well. */
  lemma CreateKwargsAsWritten()
    ensures UnexpectedKeywords(ValidatedKeys - PoppedKeys) == {"name"}
    ensures UnexpectedKeywords(ValidatedKeys) == {"recipe_ingredients", "tags", "name"}
  {
    assert "name" in ValidatedKeys - PoppedKeys;
    assert "recipe_ingredients" in ValidatedKeys && "tags" in ValidatedKeys;
  }

  /** With `name` passed on as `title`, every remaining keyword is a column. */
  lemma CreateKwargsCorrected()
    ensures UnexpectedKeywords(ValidatedKeys - PoppedKeys - {"name"} + {"title"}) == {}
  {
  }

  // ---- create ----

  datatype CreateError = TitleTooLong | DuplicateTitle

  predicate HasRecipeTitled(recipes: seq<Recipe>, author: nat, title: string) {
    exists i :: 0 <= i < |recipes| && recipes[i].author == author && recipes[i].title == title
  }

  function RecipeIdOf(): Recipe -> nat {
    (r: Recipe) => r.id
  }

  /** The recipe row `create` builds from the validated data: the stripped
      `name` stored as the title and the stripped text. */
  function NewRecipe(id: nat, author: nat, p: RecipePayload, now: int): Recipe
    requires p.image.Some? && p.cookingTime >= CookingTimeMin
  {
    Recipe(id, author, Strip(p.name), p.image.value, Strip(p.text), set k | 0 <= k < |p.tags| :: p.tags[k], p.cookingTime as nat, now)
  }

  /** `create` for an accepted payload of an existing author, with the
      serializer's stripped `name` stored as the recipe's `title`: the row is refused
      (and nothing changes) when the title exceeds its column or the author
      already has a recipe with that title; otherwise exactly one recipe is
      added, carrying the submitted tag set, followed by one join row per
      submitted entry, and no other table changes. */
  method Create(db: Database, p: RecipePayload, author: nat, now: int) returns (res: Result<nat, CreateError>)
    requires Accepted(p, db.ingredients, db.tags)
    modifies db
    ensures res.Ok? <==> |Strip(p.name)| <= RecipeTitleMax && !HasRecipeTitled(old(db.recipes), author, Strip(p.name))
    ensures |Strip(p.name)| > RecipeTitleMax ==> res == Err(TitleTooLong)
    ensures |Strip(p.name)| <= RecipeTitleMax && HasRecipeTitled(old(db.recipes), author, Strip(p.name)) ==> res == Err(DuplicateTitle)
    ensures res.Err? ==> db.recipes == old(db.recipes) && db.recipeIngredients == old(db.recipeIngredients)
    ensures res.Ok? ==>
              !HasRecipe(old(db.recipes), res.value)
              && db.recipes == old(db.recipes) + [NewRecipe(res.value, author, p, now)]
              && db.recipeIngredients == old(db.recipeIngredients) + RowsFor(res.value, p.ingredients)
    ensures db.users == old(db.users) && db.ingredients == old(db.ingredients) && db.tags == old(db.tags)
    ensures db.favorites == old(db.favorites) && db.shoppingList == old(db.shoppingList)
    ensures db.subscriptions == old(db.subscriptions)
    ensures old(db.Valid()) && HasUser(db.users, author) ==> db.Valid()
  {
    AcceptedIff(p, db.ingredients, db.tags);
    var title := Strip(p.name);
    if |title| > RecipeTitleMax {
      return Err(TitleTooLong);
    }
    if HasRecipeTitled(db.recipes, author, title) {
      return Err(DuplicateTitle);
    }
    ghost var valid := db.Valid();
    var id := FreshId(db.recipes, RecipeIdOf());
    assert forall i :: 0 <= i < |db.recipes| ==> db.recipes[i].id < id;
    var recipe := NewRecipe(id, author, p, now);
    // `Recipe.objects.create(...)` followed by `recipe.tags.set(tags)`
    db.recipes := db.recipes + [recipe];
    var i := 0;
    while i < |p.ingredients|
      invariant 0 <= i <= |p.ingredients|
      invariant db.recipes == old(db.recipes) + [recipe]
      invariant db.recipeIngredients == old(db.recipeIngredients) + RowsFor(id, p.ingredients[..i])
      invariant db.users == old(db.users) && db.ingredients == old(db.ingredients) && db.tags == old(db.tags)
      invariant db.favorites == old(db.favorites) && db.shoppingList == old(db.shoppingList)
      invariant db.subscriptions == old(db.subscriptions)
    {
      var entry := p.ingredients[i];
      TakeSnoc(p.ingredients, i);
      RowsForSnoc(id, p.ingredients[..i], entry);
      db.recipeIngredients := db.recipeIngredients + [RecipeIngredient(id, entry.ingredient, entry.amount)];
      i := i + 1;
    }
    TakeAll(p.ingredients);
    res := Ok(id);
    if valid && HasUser(db.users, author) {
      CreateKeepsValid(old(db.recipes), old(db.recipeIngredients), db.users, db.ingredients, db.tags, id, author, p, now);
    }
  }

  lemma RowsForSnoc(recipe: nat, entries: seq<IngredientAmount>, e: IngredientAmount)
    ensures RowsFor(recipe, entries + [e]) == RowsFor(recipe, entries) + [RecipeIngredient(recipe, e.ingredient, e.amount)]
  {
  }

  /** Adding the new recipe and its rows keeps every table constraint and
      every reference. */
  lemma CreateKeepsValid(recipes: seq<Recipe>, rows: seq<RecipeIngredient>, users: seq<User>, ingredients: seq<Ingredient>,
                         tags: seq<Tag>, id: nat, author: nat, p: RecipePayload, now: int)
    requires RecipesValid(recipes) && RecipesReference(recipes, users, tags) && RowsReference(rows, recipes, ingredients)
    requires Accepted(p, ingredients, tags) && HasUser(users, author)
    requires |Strip(p.name)| <= RecipeTitleMax && !HasRecipeTitled(recipes, author, Strip(p.name))
    requires forall i :: 0 <= i < |recipes| ==> recipes[i].id < id
    ensures p.image.Some? && p.cookingTime >= CookingTimeMin
    ensures RecipesValid(recipes + [NewRecipe(id, author, p, now)])
    ensures RecipesReference(recipes + [NewRecipe(id, author, p, now)], users, tags)
    ensures RowsReference(rows + RowsFor(id, p.ingredients), recipes + [NewRecipe(id, author, p, now)], ingredients)
  {
    AcceptedIff(p, ingredients, tags);
    var r := NewRecipe(id, author, p, now);
    var rs := recipes + [r];
    assert rs[|recipes|] == r;
    assert forall i :: 0 <= i < |recipes| ==> rs[i] == recipes[i];
    forall t | t in r.tags ensures HasTag(tags, t) {
      var k :| 0 <= k < |p.tags| && p.tags[k] == t;
    }
    var t := rows + RowsFor(id, p.ingredients);
    forall k | 0 <= k < |t| ensures HasRecipe(rs, t[k].recipe) && HasIngredient(ingredients, t[k].ingredient) {
      if k < |rows| {
        assert t[k] == rows[k];
        var i :| 0 <= i < |recipes| && recipes[i].id == rows[k].recipe;
        assert rs[i].id == rows[k].recipe;
      } else {
        assert t[k] == RowsFor(id, p.ingredients)[k - |rows|];
        assert rs[|recipes|].id == id;
      }
    }
  }

  /** The new recipe's tags are exactly the submitted tags, as a set, and the
      recipe's own join rows are exactly its submitted entries. */
  lemma NewRecipeContents(recipes: seq<Recipe>, rows: seq<RecipeIngredient>, ingredients: seq<Ingredient>,
                          id: nat, author: nat, p: RecipePayload, now: int)
    requires p.image.Some? && p.cookingTime >= CookingTimeMin
    requires RowsReference(rows, recipes, ingredients) && !HasRecipe(recipes, id)
    ensures forall t :: t in NewRecipe(id, author, p, now).tags <==> exists k :: 0 <= k < |p.tags| && p.tags[k] == t
    ensures Filter(rows + RowsFor(id, p.ingredients), RowRecipeIs(id)) == RowsFor(id, p.ingredients)
  {
    FilterConcat(rows, RowsFor(id, p.ingredients), RowRecipeIs(id));
    FilterNone(rows, RowRecipeIs(id));
    FilterAll(RowsFor(id, p.ingredients), RowRecipeIs(id));
  }

  // ---- read side ----

  /** `get_is_favorited` of the recipe serializer: always false. */
  function IsFavoritedField(recipe: Recipe): (r: bool)
    ensures !r
  {
    false
  }

  /** `get_is_in_shopping_cart` of the recipe serializer: always false. */
  function IsInShoppingCartField(recipe: Recipe): (r: bool)
    ensures !r
  {
    false
  }
}
