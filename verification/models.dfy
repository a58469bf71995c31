/** The persisted entities of recipes/models.py and users/models.py, the
    database as one value `Tables`, the field bounds and unique constraints
    as its invariant `Valid`, and the ON DELETE CASCADE rules as functions
    that delete a recipe or a user. */
module Models {
  import opened Wrappers
  import opened Seqs
  import opened Sorting
  import opened Links

  type UserId = nat
  type TagId = nat
  type IngredientId = nat
  type RecipeId = nat

  const MinCookingTime := 1
  const MaxCookingTime := 300
  const DefaultCookingTime := 10
  const MinAmount := 1
  const RecipeNameMaxLength := 200
  const TagSlugMaxLength := 200
  const UsernameMaxLength := 150

  datatype User = User(username: string, email: string, firstName: string, lastName: string)

  datatype Tag = Tag(name: string, slug: string, color: string)

  datatype Ingredient = Ingredient(name: string, unit: string)

  datatype Recipe = Recipe(
    author: UserId,
    name: string,
    text: Option<string>,
    image: string,
    cookingTime: int,
    pubDate: int)

  /** One ingredient line of a recipe: the through table of Recipe.ingredients. */
  datatype IngredientRecipe = IngredientRecipe(ingredient: IngredientId, recipe: RecipeId, amount: int)

  /** The two user-to-recipe relation tables. */
  datatype Kind = FavoriteKind | CartKind

  /** A word character of `\w`: ASCII letters and digits, the underscore and
      the Cyrillic block stand for the Unicode classes the pattern accepts. */
  predicate IsWordChar(c: char) {
    ('a' <= c <= 'z') || ('A' <= c <= 'Z') || ('0' <= c <= '9') || c == '_' || ('Ѐ' <= c <= 'ӿ')
  }

  /** The pattern `^[\w.@+-]+$` shared by usernames and tag slugs. */
  predicate MatchesHandlePattern(s: string) {
    |s| > 0 && forall i :: 0 <= i < |s| ==> IsWordChar(s[i]) || s[i] in ".@+-"
  }

  predicate CookingTimeInRange(c: int) {
    MinCookingTime <= c <= MaxCookingTime
  }

  /** Unique usernames and e-mails; usernames match the pattern and fit
      the column. */
  predicate UsersValid(users: map<UserId, User>) {
    && (forall a, b :: a in users && b in users && a != b ==>
          users[a].username != users[b].username && users[a].email != users[b].email)
    && (forall a :: a in users ==>
          MatchesHandlePattern(users[a].username) && |users[a].username| <= UsernameMaxLength)
  }

  /** Unique slugs that match the pattern and fit the column. */
  predicate TagsValid(tags: map<TagId, Tag>) {
    && (forall a, b :: a in tags && b in tags && a != b ==> tags[a].slug != tags[b].slug)
    && (forall a :: a in tags ==> MatchesHandlePattern(tags[a].slug) && |tags[a].slug| <= TagSlugMaxLength)
  }

  /** Every recipe lies below the id counter, has an existing author and a
      cooking time in range. */
  predicate RecipesValid(recipes: map<RecipeId, Recipe>, userIds: set<UserId>, nextRecipeId: nat) {
    forall id :: id in recipes ==>
      id < nextRecipeId && recipes[id].author in userIds && CookingTimeInRange(recipes[id].cookingTime)
  }

  /** Both sides of every recipe-tag link exist. */
  predicate TagLinksValid(links: set<(RecipeId, TagId)>, recipeIds: set<RecipeId>, tagIds: set<TagId>) {
    forall p :: p in links ==> p.0 in recipeIds && p.1 in tagIds
  }

  /** Every ingredient row names an existing recipe and ingredient and has
      amount at least 1. */
  predicate RowsValid(rows: seq<IngredientRecipe>, recipeIds: set<RecipeId>, ingredientIds: set<IngredientId>) {
    forall row :: row in rows ==>
      row.recipe in recipeIds && row.ingredient in ingredientIds && row.amount >= MinAmount
  }

  /** The ingredient rows of one recipe, in table order and with their
      multiplicity: the table has no unique constraint. */
  function RowsOf(rows: seq<IngredientRecipe>, recipe: RecipeId): seq<IngredientRecipe> {
    Filter(rows, (row: IngredientRecipe) => row.recipe == recipe)
  }

  /** A relation table whose pairs are unique and whose two sides resolve. */
  predicate LinksValid(t: seq<Link>, userIds: set<nat>, targetIds: set<nat>) {
    NoDuplicates(t) && forall l :: l in t ==> l.user in userIds && l.target in targetIds
  }

  datatype Tables = Tables(
    users: map<UserId, User>,
    tags: map<TagId, Tag>,
    ingredients: map<IngredientId, Ingredient>,
    recipes: map<RecipeId, Recipe>,
    recipeTags: set<(RecipeId, TagId)>,
    ingredientRows: seq<IngredientRecipe>,
    favorites: seq<Link>,
    carts: seq<Link>,
    follows: seq<Link>,
    nextRecipeId: nat)
  {
    /** The database's constraints: unique usernames, e-mails and slugs,
        the slug and username pattern, the cooking-time and amount bounds,
        every foreign key resolving, unique (user, target) pairs in the
        three relation tables, and ids below the auto-increment counter. */
    predicate Valid() {
      && UsersValid(users)
      && TagsValid(tags)
      && RecipesValid(recipes, users.Keys, nextRecipeId)
      && TagLinksValid(recipeTags, recipes.Keys, tags.Keys)
      && RowsValid(ingredientRows, recipes.Keys, ingredients.Keys)
      && LinksValid(favorites, users.Keys, recipes.Keys)
      && LinksValid(carts, users.Keys, recipes.Keys)
      && LinksValid(follows, users.Keys, users.Keys)
    }

    function Table(kind: Kind): seq<Link> {
      match kind
      case FavoriteKind => favorites
      case CartKind => carts
    }

    /** The same database with the table of `kind` replaced. */
    function WithTable(kind: Kind, table: seq<Link>): (r: Tables)
      ensures r.Table(kind) == table
    {
      match kind
      case FavoriteKind => this.(favorites := table)
      case CartKind => this.(carts := table)
    }

    /** Deleting the recipe rows in `gone` and, by ON DELETE CASCADE, their
        ingredient rows, their tag links and every favorite and cart row
        naming one of them. */
    function DeleteRecipes(gone: set<RecipeId>): (r: Tables)
      ensures r.recipes.Keys == recipes.Keys - gone
      ensures forall id :: id in r.recipes ==> r.recipes[id] == recipes[id]
      ensures forall row :: row in r.ingredientRows <==> row in ingredientRows && row.recipe !in gone
      ensures forall id :: id !in gone ==> RowsOf(r.ingredientRows, id) == RowsOf(ingredientRows, id)
      ensures forall p :: p in r.recipeTags <==> p in recipeTags && p.0 !in gone
      ensures forall l :: l in r.favorites <==> l in favorites && l.target !in gone
      ensures forall l :: l in r.carts <==> l in carts && l.target !in gone
      ensures r.users == users && r.follows == follows && r.tags == tags && r.ingredients == ingredients
      ensures r.nextRecipeId == nextRecipeId
    {
      assert forall id :: id !in gone ==>
          RowsOf(Filter(ingredientRows, (row: IngredientRecipe) => row.recipe !in gone), id) == RowsOf(ingredientRows, id) by {
        forall id | id !in gone
          ensures RowsOf(Filter(ingredientRows, (row: IngredientRecipe) => row.recipe !in gone), id) == RowsOf(ingredientRows, id)
        {
          FilterFilter(ingredientRows, (row: IngredientRecipe) => row.recipe !in gone, (row: IngredientRecipe) => row.recipe == id);
        }
      }
      this.(
        recipes := (map k | k in recipes && k !in gone :: recipes[k]),
        recipeTags := (set p | p in recipeTags && p.0 !in gone),
        ingredientRows := Filter(ingredientRows, (row: IngredientRecipe) => row.recipe !in gone),
        favorites := Filter(favorites, (l: Link) => l.target !in gone),
        carts := Filter(carts, (l: Link) => l.target !in gone))
    }

    /** `recipe.delete()`. */
    function DeleteRecipe(id: RecipeId): (r: Tables)
      ensures id !in r.recipes
      ensures forall row :: row in r.ingredientRows ==> row.recipe != id
      ensures forall p :: p in r.recipeTags ==> p.0 != id
      ensures forall l :: l in r.favorites + r.carts ==> l.target != id
      ensures forall other :: other != id && other in recipes ==> other in r.recipes && r.recipes[other] == recipes[other]
      ensures r.recipes.Keys == recipes.Keys - {id}
      ensures forall other :: other != id ==> RowsOf(r.ingredientRows, other) == RowsOf(ingredientRows, other)
      ensures forall p :: p in r.recipeTags <==> p in recipeTags && p.0 != id
      ensures forall l :: l in r.favorites <==> l in favorites && l.target != id
      ensures forall l :: l in r.carts <==> l in carts && l.target != id
      ensures r.users == users && r.follows == follows
      ensures r.tags == tags && r.ingredients == ingredients && r.nextRecipeId == nextRecipeId
    {
      DeleteRecipes({id})
    }

    /** The ids of the recipes `u` wrote. */
    function RecipesBy(u: UserId): set<RecipeId> {
      set k | k in recipes && recipes[k].author == u
    }

    /** `user.delete()`: the user's recipes go with everything that hangs off
        them, then the user's own favorite and cart rows and every Follow row
        in which the user is either side. Everything else stays. */
    function DeleteUser(u: UserId): (r: Tables)
      ensures r.users.Keys == users.Keys - {u}
      ensures forall v :: v in r.users ==> r.users[v] == users[v]
      ensures r.recipes.Keys == recipes.Keys - RecipesBy(u)
      ensures forall id :: id in r.recipes ==> r.recipes[id] == recipes[id] && r.recipes[id].author != u
      ensures forall row :: row in r.ingredientRows <==> row in ingredientRows && row.recipe !in RecipesBy(u)
      ensures forall id :: id !in RecipesBy(u) ==> RowsOf(r.ingredientRows, id) == RowsOf(ingredientRows, id)
      ensures forall p :: p in r.recipeTags <==> p in recipeTags && p.0 !in RecipesBy(u)
      ensures forall l :: l in r.favorites <==> l in favorites && l.user != u && l.target !in RecipesBy(u)
      ensures forall l :: l in r.carts <==> l in carts && l.user != u && l.target !in RecipesBy(u)
      ensures forall l :: l in r.follows <==> l in follows && l.user != u && l.target != u
      ensures r.tags == tags && r.ingredients == ingredients && r.nextRecipeId == nextRecipeId
    {
      var s := DeleteRecipes(RecipesBy(u));
      s.(
        users := (map v | v in users && v != u :: users[v]),
        favorites := Filter(s.favorites, (l: Link) => l.user != u),
        carts := Filter(s.carts, (l: Link) => l.user != u),
        follows := Filter(follows, (l: Link) => l.user != u && l.target != u))
    }
  }

  lemma DeleteRecipesValid(t: Tables, gone: set<RecipeId>)
    requires t.Valid()
    ensures t.DeleteRecipes(gone).Valid()
  {
    var r := t.DeleteRecipes(gone);
    LinksValidFilter(t.favorites, t.users.Keys, t.recipes.Keys, r.recipes.Keys, (l: Link) => l.target !in gone);
    LinksValidFilter(t.carts, t.users.Keys, t.recipes.Keys, r.recipes.Keys, (l: Link) => l.target !in gone);
  }

  lemma DeleteRecipeValid(t: Tables, id: RecipeId)
    requires t.Valid()
    ensures t.DeleteRecipe(id).Valid()
  {
    DeleteRecipesValid(t, {id});
  }

  lemma DeleteUserValid(t: Tables, u: UserId)
    requires t.Valid()
    ensures t.DeleteUser(u).Valid()
  {
    var gone := t.RecipesBy(u);
    var s := t.DeleteRecipes(gone);
    DeleteRecipesValid(t, gone);
    var r := t.DeleteUser(u);
    var kept := r.users.Keys;
    assert kept == s.users.Keys - {u};
    assert r.recipes == s.recipes && r.recipeTags == s.recipeTags && r.ingredientRows == s.ingredientRows;
    assert UsersValid(r.users);
    assert RecipesValid(r.recipes, kept, r.nextRecipeId);
    assert LinksValid(r.favorites, kept, r.recipes.Keys) by {
      LinksValidFilter(s.favorites, s.users.Keys, s.recipes.Keys, s.recipes.Keys, (l: Link) => l.user != u);
      LinksUsersShrink(r.favorites, s.users.Keys, kept, s.recipes.Keys, u);
    }
    assert LinksValid(r.carts, kept, r.recipes.Keys) by {
      LinksValidFilter(s.carts, s.users.Keys, s.recipes.Keys, s.recipes.Keys, (l: Link) => l.user != u);
      LinksUsersShrink(r.carts, s.users.Keys, kept, s.recipes.Keys, u);
    }
    assert LinksValid(r.follows, kept, kept) by {
      LinksValidFilter(s.follows, s.users.Keys, s.users.Keys, kept, (l: Link) => l.user != u && l.target != u);
      LinksUsersShrink(r.follows, s.users.Keys, kept, kept, u);
    }
  }

  /** Follow carries no constraint against following oneself: a database
      holding a row (u, u) is consistent. Only the serializer refuses it. */
  lemma SelfFollowAdmitted()
    ensures Tables(map[1 := User("admin", "admin@example.com", "egor", "letov")], map[], map[], map[],
                   {}, [], [], [], [Link(1, 1)], 0).Valid()
  {
    assert MatchesHandlePattern("admin") by {
      assert forall i :: 0 <= i < |"admin"| ==> IsWordChar("admin"[i]);
    }
  }

  lemma LinksValidFilter(t: seq<Link>, userIds: set<nat>, targetIds: set<nat>, keptTargets: set<nat>, p: Link -> bool)
    requires forall l :: l in t && p(l) && l.target in targetIds ==> l.target in keptTargets
    ensures LinksValid(t, userIds, targetIds) ==> LinksValid(Filter(t, p), userIds, keptTargets)
  {
    if LinksValid(t, userIds, targetIds) {
      FilterNoDuplicates(t, p);
    }
  }

  /** Rewriting the scalar fields of an existing recipe, author kept and
      cooking time in range, keeps the database valid. */
  lemma ReplaceRecipeValid(t: Tables, id: RecipeId, r: Recipe)
    requires t.Valid() && id in t.recipes
    requires r.author == t.recipes[id].author && CookingTimeInRange(r.cookingTime)
    ensures t.(recipes := t.recipes[id := r]).Valid()
  {
    var s := t.(recipes := t.recipes[id := r]);
    assert s.recipes.Keys == t.recipes.Keys;
    assert RecipesValid(s.recipes, t.users.Keys, t.nextRecipeId);
  }

  /** Inserting a recipe under the next auto-increment id, by an existing
      author and with its cooking time in range, keeps the database valid. */
  lemma AddRecipeValid(t: Tables, r: Recipe)
    requires t.Valid() && r.author in t.users && CookingTimeInRange(r.cookingTime)
    ensures t.(recipes := t.recipes[t.nextRecipeId := r], nextRecipeId := t.nextRecipeId + 1).Valid()
  {
    var s := t.(recipes := t.recipes[t.nextRecipeId := r], nextRecipeId := t.nextRecipeId + 1);
    var ids := s.recipes.Keys;
    assert ids == t.recipes.Keys + {t.nextRecipeId};
    assert RecipesValid(s.recipes, s.users.Keys, s.nextRecipeId);
    assert TagLinksValid(s.recipeTags, ids, s.tags.Keys);
    assert RowsValid(s.ingredientRows, ids, s.ingredients.Keys);
    LinksTargetsGrow(t.favorites, t.users.Keys, t.recipes.Keys, ids);
    LinksTargetsGrow(t.carts, t.users.Keys, t.recipes.Keys, ids);
  }

  lemma LinksTargetsGrow(t: seq<Link>, userIds: set<nat>, targetIds: set<nat>, more: set<nat>)
    requires LinksValid(t, userIds, targetIds) && targetIds <= more
    ensures LinksValid(t, userIds, more)
  {
  }

  /** Replacing the recipe-tag links and the ingredient rows by ones whose
      keys resolve keeps the database valid. */
  lemma RecipeContentsValid(t: Tables, links: set<(RecipeId, TagId)>, rows: seq<IngredientRecipe>)
    requires t.Valid()
    requires forall p :: p in links ==> p.0 in t.recipes && p.1 in t.tags
    requires forall row :: row in rows ==> row.recipe in t.recipes && row.ingredient in t.ingredients && row.amount >= MinAmount
    ensures t.(recipeTags := links, ingredientRows := rows).Valid()
  {
  }

  /** Inserting a new pair whose sides resolve keeps a relation table valid. */
  lemma LinksValidAdd(t: seq<Link>, userIds: set<nat>, targetIds: set<nat>, l: Link)
    requires LinksValid(t, userIds, targetIds)
    requires l.user in userIds && l.target in targetIds && l !in t
    ensures LinksValid(t + [l], userIds, targetIds)
  {
    AddKeepsUnique(t, l);
  }

  /** Deleting a pair keeps a relation table valid. */
  lemma LinksValidRemove(t: seq<Link>, userIds: set<nat>, targetIds: set<nat>, l: Link)
    requires LinksValid(t, userIds, targetIds)
    ensures LinksValid(Remove(t, l), userIds, targetIds)
  {
  }

  /** Replacing the favorite or cart table by a valid one keeps the database valid. */
  lemma WithTableValid(t: Tables, kind: Kind, table: seq<Link>)
    requires t.Valid() && LinksValid(table, t.users.Keys, t.recipes.Keys)
    ensures t.WithTable(kind, table).Valid()
  {
  }

  /** Replacing the follow table by a valid one keeps the database valid. */
  lemma WithFollowsValid(t: Tables, follows: seq<Link>)
    requires t.Valid() && LinksValid(follows, t.users.Keys, t.users.Keys)
    ensures t.(follows := follows).Valid()
  {
  }

  lemma LinksUsersShrink(t: seq<Link>, userIds: set<nat>, keptUsers: set<nat>, targetIds: set<nat>, u: nat)
    requires keptUsers == userIds - {u}
    ensures LinksValid(t, userIds, targetIds) && (forall l :: l in t ==> l.user != u) ==>
              LinksValid(t, keptUsers, targetIds)
  {
  }

  /** Newest first: `ordering = ('-pub_date',)`. Recipes missing from the map sort last. */
  function NewerOrSame(recipes: map<RecipeId, Recipe>): (RecipeId, RecipeId) -> bool {
    (a: RecipeId, b: RecipeId) => PubDate(recipes, a) >= PubDate(recipes, b)
  }

  function PubDate(recipes: map<RecipeId, Recipe>, id: RecipeId): int {
    if id in recipes then recipes[id].pubDate else 0
  }

  /** The ids of a set in some order, each once. */
  ghost function Enumerate(s: set<nat>): (r: seq<nat>)
    ensures |r| == |s|
    ensures forall x :: x in r <==> x in s
    ensures NoDuplicates(r)
  {
    if s == {} then []
    else
      var x :| x in s;
      var rest := Enumerate(s - {x});
      assert forall i :: 0 <= i < |rest| ==> rest[i] != x;
      [x] + rest
  }

  /** `Recipe.objects.all()`: every recipe once, newest first (rows with
      equal publication dates in an order the database chooses). */
  ghost function Listing(recipes: map<RecipeId, Recipe>): seq<RecipeId> {
    SortBy(Enumerate(recipes.Keys), NewerOrSame(recipes))
  }

  lemma ListingSpec(recipes: map<RecipeId, Recipe>)
    ensures forall id :: id in Listing(recipes) <==> id in recipes
    ensures NoDuplicates(Listing(recipes))
    ensures forall i, j :: 0 <= i < j < |Listing(recipes)| ==>
              recipes[Listing(recipes)[i]].pubDate >= recipes[Listing(recipes)[j]].pubDate
  {
    var e := Enumerate(recipes.Keys);
    var le := NewerOrSame(recipes);
    var l := Listing(recipes);
    assert forall id :: id in l <==> id in recipes by {
      SortPermutation(e, le);
      forall id ensures id in l <==> id in recipes {
        assert id in l <==> id in multiset(l);
        assert id in e <==> id in multiset(e);
      }
    }
    assert NoDuplicates(l) by {
      SortKeepsDistinctKeys(e, le, (x: RecipeId) => x);
    }
    assert SortedBy(l, le) by {
      SortSorted(e, le);
    }
  }

  lemma ListingSorted(recipes: map<RecipeId, Recipe>)
    ensures SortedBy(Listing(recipes), NewerOrSame(recipes))
  {
    SortSorted(Enumerate(recipes.Keys), NewerOrSame(recipes));
  }

  /** `author.recipes.all()`: the author's recipes in listing order. */
  ghost function AuthorRecipes(recipes: map<RecipeId, Recipe>, author: UserId): seq<RecipeId> {
    Filter(Listing(recipes), (id: RecipeId) => id in recipes && recipes[id].author == author)
  }
}
