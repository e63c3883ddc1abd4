/** The database as the core sees it: one field per table, each listed in
    table order, and the constraints of both applications' models as the
    object invariant. The operations of the views, serializers, mixins and
    the import command change these fields in place. */
module Store {
  import opened Common
  import opened UserModels
  import opened ApiModels

  /** The user behind a request. */
  datatype Requester = Anonymous | Authenticated(id: nat)

  predicate HasUser(users: seq<User>, id: nat) {
    exists i :: 0 <= i < |users| && users[i].id == id
  }

  /** Every recipe's author is a user and every tag it carries exists. */
  predicate RecipesReference(recipes: seq<Recipe>, users: seq<User>, tags: seq<Tag>) {
    forall i :: 0 <= i < |recipes| ==>
      HasUser(users, recipes[i].author) && forall t :: t in recipes[i].tags ==> HasTag(tags, t)
  }

  /** Two user tables with the same ids, position by position. */
  predicate SameIds(a: seq<User>, b: seq<User>) {
    |a| == |b| && forall i :: 0 <= i < |a| ==> a[i].id == b[i].id
  }

  /** Changing a user's other fields keeps every recipe's author reference. */
  lemma SameIdsKeepReferences(recipes: seq<Recipe>, a: seq<User>, b: seq<User>, tags: seq<Tag>)
    requires RecipesReference(recipes, a, tags) && SameIds(a, b)
    ensures RecipesReference(recipes, b, tags)
  {
    forall i | 0 <= i < |recipes| ensures HasUser(b, recipes[i].author) {
      var k :| 0 <= k < |a| && a[k].id == recipes[i].author;
      assert b[k].id == recipes[i].author;
    }
  }

  class Database {
    var users: seq<User>
    var ingredients: seq<Ingredient>
    var tags: seq<Tag>
    var recipes: seq<Recipe>
    var recipeIngredients: seq<RecipeIngredient>
    var favorites: set<Bookmark>
    var shoppingList: set<Bookmark>
    var subscriptions: set<Subscription>

    ghost predicate Valid()
      reads this
    {
      && UsersValid(users)
      && IngredientsValid(ingredients)
      && TagsValid(tags)
      && RecipesValid(recipes)
      && RecipesReference(recipes, users, tags)
      && RowsReference(recipeIngredients, recipes, ingredients)
    }

    /** An empty database. */
    constructor ()
      ensures Valid()
      ensures users == [] && ingredients == [] && tags == [] && recipes == [] && recipeIngredients == []
      ensures favorites == {} && shoppingList == {} && subscriptions == {}
    {
      users, ingredients, tags, recipes, recipeIngredients := [], [], [], [], [];
      favorites, shoppingList, subscriptions := {}, {}, {};
      EmptyTablesValid();
    }
  }

  /** Empty tables meet every model constraint. */
  lemma EmptyTablesValid()
    ensures UsersValid([]) && IngredientsValid([]) && TagsValid([]) && RecipesValid([])
    ensures RecipesReference([], [], []) && RowsReference([], [], [])
  {
  }
}
