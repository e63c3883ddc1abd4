/** The query filters of the recipe and ingredient listings. Each returns
    its input untouched or the elements of it that meet a condition, in the
    input's order. */
module Filters {
  import opened Common
  import opened Strings
  import opened ApiModels
  import opened Store
  import opened Mixins

  // ---- building a filter set ----

  /** The field names of the recipe model a filter set resolves
      `Meta.fields` against: its columns and relations, and the reverse
      relation from the join model. */
  const RecipeModelFields: set<string> :=
    {"id", "author", "title", "image", "text", "ingredients", "tags", "cooking_time", "pub_date", "recipeingredient"}

  /** The filters `RecipeFilter` declares. */
  const RecipeDeclaredFilters: set<string> := {"author", "tags", "is_favorited", "is_in_shopping_cart"}

  /** The field names of the ingredient model, and the filter
      `IngredientFilter` declares. */
  const IngredientModelFields: set<string> := {"id", "name", "measurement_unit", "recipes", "recipeingredient"}
  const IngredientDeclaredFilters: set<string> := {"name"}

  function UndefinedIn(model: set<string>, declared: set<string>): string -> bool {
    (f: string) => f !in model && f !in declared
  }

  /** The `Meta.fields` entries that are neither a model field nor a
      declared filter, in order. Creating the filter-set class raises
      `TypeError` when there is one, so the module defining it cannot be
      imported. */
  function UndefinedMetaFields(fields: seq<string>, model: set<string>, declared: set<string>): (r: seq<string>)
    ensures forall f :: f in r <==> f in fields && f !in model && f !in declared
  {
    Filter(fields, UndefinedIn(model, declared))
  }

  /** As written, `RecipeFilter` lists `name`, which the recipe model does
      not have (its column is `title`) and which the class does not declare. */
  lemma RecipeFilterFieldsAsWritten()
    ensures UndefinedMetaFields(["name"], RecipeModelFields, RecipeDeclaredFilters) == ["name"]
  {
    assert "name" !in RecipeModelFields && "name" !in RecipeDeclaredFilters;
  }

  /** Listing the recipe's `title` instead, or the declared filters, builds;
      so does `IngredientFilter`, whose `name` is both a column and a
      declared filter. */
  lemma RecipeFilterFieldsCorrected()
    ensures UndefinedMetaFields(["title"], RecipeModelFields, RecipeDeclaredFilters) == []
    ensures UndefinedMetaFields(["author", "tags", "is_favorited", "is_in_shopping_cart"], RecipeModelFields, RecipeDeclaredFilters) == []
    ensures UndefinedMetaFields(["name"], IngredientModelFields, IngredientDeclaredFilters) == []
  {
    assert "title" in RecipeModelFields;
    assert "name" in IngredientModelFields;
  }

  // ---- author ----

  function AuthorIs(author: int): Recipe -> bool {
    (r: Recipe) => r.author == author
  }

  /** `author`, a `CharFilter` on `author__id`: the form field strips the
      query value, and a missing or blank value leaves the listing alone;
      otherwise the lookup casts the value to an integer, and a value that
      is not one raises `ValueError` (the `Err` here, carrying the value),
      while an integer keeps only that author's recipes. */
  function FilterAuthor(recipes: seq<Recipe>, author: Option<string>): (r: Result<seq<Recipe>, string>)
    ensures author.None? || Blank(author.value) ==> r == Ok(recipes)
    ensures r.Err? <==> author.Some? && !Blank(author.value) && ParseInt(Strip(author.value)).None?
    ensures r.Err? ==> r.error == Strip(author.value)
    ensures author.Some? && ParseInt(Strip(author.value)).Some? ==>
              var id := ParseInt(Strip(author.value)).value;
              && r.Ok?
              && IsSubsequence(r.value, recipes)
              && (forall i :: 0 <= i < |r.value| ==> r.value[i].author == id)
              && (forall i :: 0 <= i < |recipes| && recipes[i].author == id ==> recipes[i] in r.value)
  {
    if author.None? then Ok(recipes)
    else
      var v := Strip(author.value);
      StripProperties(author.value);
      if v == "" then Ok(recipes)
      else match ParseInt(v)
        case None => Err(v)
        case Some(id) =>
          FilterIsSubsequence(recipes, AuthorIs(id));
          Ok(Filter(recipes, AuthorIs(id)))
  }

  /** A value with surrounding spaces selects the same author as its
      plain decimal form. */
  lemma FilterAuthorPadded(recipes: seq<Recipe>, id: nat)
    ensures FilterAuthor(recipes, Some(" " + NatToString(id) + " ")) == FilterAuthor(recipes, Some(NatToString(id)))
  {
    var d := NatToString(id);
    StripSurroundingSpaces(d);
    StripProperties(d);
  }

  /** So does one with a leading zero. */
  lemma FilterAuthorLeadingZero(recipes: seq<Recipe>, id: nat)
    ensures FilterAuthor(recipes, Some("0" + NatToString(id))) == FilterAuthor(recipes, Some(NatToString(id)))
  {
    var d := NatToString(id);
    ParseNatLeadingZero(d);
    DigitsParse(d);
    DigitsParse("0" + d);
  }

  /** A value that is no integer is the cast's `ValueError`. */
  lemma FilterAuthorNotANumber(recipes: seq<Recipe>)
    ensures FilterAuthor(recipes, Some("abc")) == Err("abc")
  {
    StripProperties("abc");
  }

  // ---- tags ----

  /** The id of the tag with slug `slug`, if there is one. */
  function TagBySlug(tags: seq<Tag>, slug: string): (r: Option<nat>)
    ensures r.Some? ==> exists i :: 0 <= i < |tags| && tags[i].slug == slug && tags[i].id == r.value
    ensures r.None? ==> forall i :: 0 <= i < |tags| ==> tags[i].slug != slug
    decreases |tags|
  {
    if tags == [] then None
    else if tags[0].slug == slug then Some(tags[0].id)
    else
      var r := TagBySlug(tags[1..], slug);
      if r.Some? then
        ghost var i :| 0 <= i < |tags[1..]| && tags[1..][i].slug == slug && tags[1..][i].id == r.value;
        assert tags[i + 1] == tags[1..][i];
        r
      else r
  }

  /** The tag ids named by the requested slugs; a slug no tag has is the
      choice field's validation error. */
  function ResolveSlugs(tags: seq<Tag>, slugs: seq<string>): (r: Result<set<nat>, string>)
    ensures r.Err? <==> exists k :: 0 <= k < |slugs| && TagBySlug(tags, slugs[k]).None?
    ensures r.Err? ==> exists k :: 0 <= k < |slugs| && TagBySlug(tags, slugs[k]).None? && r.error == slugs[k]
    ensures r.Ok? ==> forall t :: t in r.value <==> exists k :: 0 <= k < |slugs| && TagBySlug(tags, slugs[k]) == Some(t)
    decreases |slugs|
  {
    if slugs == [] then Ok({})
    else
      match TagBySlug(tags, slugs[0])
      case None => Err(slugs[0])
      case Some(t) =>
        var rest := ResolveSlugs(tags, slugs[1..]);
        ResolveShift(tags, slugs);
        match rest
        case Err(e) => rest
        case Ok(ts) =>
          ResolveCons(tags, slugs, t, ts);
          Ok({t} + ts)
  }

  /** The slugs after the first, looked up, are the later slugs of the
      whole request. */
  lemma ResolveShift(tags: seq<Tag>, slugs: seq<string>)
    requires slugs != []
    ensures forall k :: 0 <= k < |slugs[1..]| ==> slugs[1..][k] == slugs[k + 1]
    ensures (exists k :: 0 <= k < |slugs| && TagBySlug(tags, slugs[k]).None?) <==>
              TagBySlug(tags, slugs[0]).None? || exists k :: 0 <= k < |slugs[1..]| && TagBySlug(tags, slugs[1..][k]).None?
  {
    if exists k :: 0 <= k < |slugs| && TagBySlug(tags, slugs[k]).None? {
      var k :| 0 <= k < |slugs| && TagBySlug(tags, slugs[k]).None?;
      if k > 0 {
        assert slugs[1..][k - 1] == slugs[k];
      }
    }
  }

  /** Adding the first slug's tag to the rest's ids gives the ids of the
      whole request. */
  lemma ResolveCons(tags: seq<Tag>, slugs: seq<string>, t: nat, ts: set<nat>)
    requires slugs != [] && TagBySlug(tags, slugs[0]) == Some(t)
    requires forall u :: u in ts <==> exists k :: 0 <= k < |slugs[1..]| && TagBySlug(tags, slugs[1..][k]) == Some(u)
    ensures forall u :: u in {t} + ts <==> exists k :: 0 <= k < |slugs| && TagBySlug(tags, slugs[k]) == Some(u)
  {
    forall u | u in {t} + ts ensures exists k :: 0 <= k < |slugs| && TagBySlug(tags, slugs[k]) == Some(u) {
      if u != t {
        var k :| 0 <= k < |slugs[1..]| && TagBySlug(tags, slugs[1..][k]) == Some(u);
        assert slugs[k + 1] == slugs[1..][k];
      }
    }
    forall u | exists k :: 0 <= k < |slugs| && TagBySlug(tags, slugs[k]) == Some(u) ensures u in {t} + ts {
      var k :| 0 <= k < |slugs| && TagBySlug(tags, slugs[k]) == Some(u);
      if k > 0 {
        assert slugs[1..][k - 1] == slugs[k];
      }
    }
  }

  function HasAnyTag(ids: set<nat>): Recipe -> bool {
    (r: Recipe) => exists t :: t in ids && t in r.tags
  }

  /** `tags` (several slugs, not conjoined): no slug leaves the listing
      alone; otherwise a recipe stays when it carries any of the requested
      tags, and an unknown slug is an error. */
  function FilterTags(recipes: seq<Recipe>, tags: seq<Tag>, slugs: seq<string>): (r: Result<seq<Recipe>, string>)
    ensures slugs == [] ==> r == Ok(recipes)
    ensures r.Err? <==> exists k :: 0 <= k < |slugs| && TagBySlug(tags, slugs[k]).None?
    ensures r.Ok? && slugs != [] ==> IsSubsequence(r.value, recipes)
    ensures r.Ok? && slugs != [] ==> forall i :: 0 <= i < |recipes| ==>
              (recipes[i] in r.value <==> exists k :: 0 <= k < |slugs| && TagBySlug(tags, slugs[k]).Some?
                                               && TagBySlug(tags, slugs[k]).value in recipes[i].tags)
  {
    if slugs == [] then Ok(recipes)
    else
      match ResolveSlugs(tags, slugs)
      case Err(e) => Err(e)
      case Ok(ids) =>
        var kept := Filter(recipes, HasAnyTag(ids));
        FilterIsSubsequence(recipes, HasAnyTag(ids));
        assert forall i :: 0 <= i < |recipes| ==> (recipes[i] in kept <==> HasAnyTag(ids)(recipes[i])) by {
          forall i | 0 <= i < |recipes| ensures recipes[i] in kept <==> HasAnyTag(ids)(recipes[i]) {
            if recipes[i] in kept {
              var j :| 0 <= j < |kept| && kept[j] == recipes[i];
            }
          }
        }
        Ok(kept)
  }

  // ---- favourites and shopping list ----

  function InRelation(user: nat, relation: set<Bookmark>): Recipe -> bool {
    (r: Recipe) => Bookmark(user, r.id) in relation
  }

  /** `get_is_favorited` (over the favourites relation) and
      `get_is_in_shopping_cart` (over the shopping-list relation) share this
      gate: only an authenticated requester asking for `true` narrows the
      listing, to the recipes the requester has in the relation. */
  function FilterChosen(recipes: seq<Recipe>, user: Requester, value: bool, relation: set<Bookmark>): (r: seq<Recipe>)
    ensures !(user.Authenticated? && value) ==> r == recipes
    ensures IsSubsequence(r, recipes)
    ensures user.Authenticated? && value ==>
              forall i :: 0 <= i < |recipes| ==> (recipes[i] in r <==> Bookmark(user.id, recipes[i].id) in relation)
  {
    if user.Authenticated? && value then
      var r := Filter(recipes, InRelation(user.id, relation));
      FilterIsSubsequence(recipes, InRelation(user.id, relation));
      assert forall i :: 0 <= i < |recipes| ==> (recipes[i] in r <==> InRelation(user.id, relation)(recipes[i])) by {
        forall i | 0 <= i < |recipes| ensures recipes[i] in r <==> InRelation(user.id, relation)(recipes[i]) {
          if recipes[i] in r {
            var j :| 0 <= j < |r| && r[j] == recipes[i];
          }
        }
      }
      r
    else
      IsSubsequenceRefl(recipes);
      recipes
  }

  /** When the gate applies, a recipe is kept exactly when the per-recipe
      membership test of the serializers' mixin answers true for it. */
  lemma FilterChosenAgreesWithMixin(recipes: seq<Recipe>, user: Requester, relation: set<Bookmark>)
    ensures user.Authenticated? ==> forall i :: 0 <= i < |recipes| ==>
              (recipes[i] in FilterChosen(recipes, user, true, relation) <==> GetChosenRecipe(user, recipes[i].id, relation))
    ensures user.Anonymous? ==> FilterChosen(recipes, user, true, relation) == recipes
  {
  }

  // ---- ingredient name ----

  function NameStartsWith(query: string): Ingredient -> bool {
    (i: Ingredient) => IStartsWith(i.name, query)
  }

  /** `name` of the ingredient filter (`istartswith`): the form field
      strips the query, a missing or blank one leaves the listing alone, and
      otherwise the ingredients whose name begins with the stripped query
      remain, letter case ignored. */
  function FilterIngredientName(ingredients: seq<Ingredient>, query: Option<string>): (r: seq<Ingredient>)
    ensures query.None? || Blank(query.value) ==> r == ingredients
    ensures IsSubsequence(r, ingredients)
    ensures query.Some? ==> forall i :: 0 <= i < |ingredients| ==>
              (ingredients[i] in r <==> StartsWith(Lower(ingredients[i].name), Lower(Strip(query.value))))
  {
    if query.None? then
      IsSubsequenceRefl(ingredients);
      ingredients
    else
      var q := Strip(query.value);
      StripProperties(query.value);
      if q == "" then
        IsSubsequenceRefl(ingredients);
        ingredients
      else
        var r := Filter(ingredients, NameStartsWith(q));
        FilterIsSubsequence(ingredients, NameStartsWith(q));
        assert forall i :: 0 <= i < |ingredients| ==> (ingredients[i] in r <==> NameStartsWith(q)(ingredients[i])) by {
          forall i | 0 <= i < |ingredients| ensures ingredients[i] in r <==> NameStartsWith(q)(ingredients[i]) {
            if ingredients[i] in r {
              var j :| 0 <= j < |r| && r[j] == ingredients[i];
            }
          }
        }
        r
  }

  /** The name filter gives the same listing whatever the case of the
      query. */
  lemma FilterIngredientNameCaseBlind(ingredients: seq<Ingredient>, q: string)
    ensures FilterIngredientName(ingredients, Some(q)) == FilterIngredientName(ingredients, Some(Lower(q)))
  {
    var s := Strip(q);
    StripLower(q);
    LowerIdempotent(s);
    StripProperties(q);
    StripProperties(Lower(q));
    if s != "" {
      forall i | 0 <= i < |ingredients|
        ensures NameStartsWith(s)(ingredients[i]) == NameStartsWith(Lower(s))(ingredients[i])
      {
        IStartsWithProperties(ingredients[i].name, s);
      }
      FilterCongruent(ingredients, NameStartsWith(s), NameStartsWith(Lower(s)));
    }
  }

  /** Every ingredient whose name starts with the stripped query exactly is
      kept. */
  lemma FilterIngredientNameKeepsExact(ingredients: seq<Ingredient>, q: string)
    ensures forall i :: 0 <= i < |ingredients| && StartsWith(ingredients[i].name, Strip(q)) ==>
              ingredients[i] in FilterIngredientName(ingredients, Some(q))
  {
    forall i | 0 <= i < |ingredients| && StartsWith(ingredients[i].name, Strip(q))
      ensures ingredients[i] in FilterIngredientName(ingredients, Some(q))
    {
      IStartsWithProperties(ingredients[i].name, Strip(q));
    }
  }
}
