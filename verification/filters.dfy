/** The query-string filters of the recipe list (`RecipeFilter`) and the
    ingredient search (`IngredientSearchFilter`). A queryset is the
    sequence of ids it yields; every filter keeps a subsequence of it, in
    the same order. An empty query-string value switches a filter off. */
module Filters {
  import opened Wrappers
  import opened Seqs
  import opened Text
  import opened Links
  import opened Models
  import Serializers

  /** The queryset holds recipe rows only. */
  predicate IsRecipeQuery(qs: seq<RecipeId>, recipes: map<RecipeId, Recipe>) {
    forall id :: id in qs ==> id in recipes
  }

  /** Whether the recipe's author id, as text, matches `value` under
      `icontains` on SQLite: LIKE '%value%', folding ASCII letters only. */
  predicate AuthorIdContains(recipes: map<RecipeId, Recipe>, value: string, id: RecipeId)
    requires id in recipes
  {
    Contains(AsciiLowerStr(NatToString(recipes[id].author)), AsciiLowerStr(value))
  }

  /** The `author` filter as written: `author__id__icontains=value`. */
  function AuthorContainsFilter(qs: seq<RecipeId>, recipes: map<RecipeId, Recipe>, value: string): (r: seq<RecipeId>)
    requires IsRecipeQuery(qs, recipes)
    ensures value == [] ==> r == qs
    ensures value != [] ==> forall id :: id in r <==> id in qs && AuthorIdContains(recipes, value, id)
    ensures |r| <= |qs|
  {
    if value == [] then qs
    else Filter(qs, (id: RecipeId) => id in recipes && AuthorIdContains(recipes, value, id))
  }

  /** The author id "1" also selects the recipes of author 10. */
  lemma AuthorContainsCounterexample()
    ensures
      var recipes := map[7 := Recipe(10, "salat", None, "", 4, 0)];
      AuthorContainsFilter([7], recipes, "1") == [7] && recipes[7].author != 1
  {
    var recipes := map[7 := Recipe(10, "salat", None, "", 4, 0)];
    assert NatToString(10) == "10";
    assert AsciiLowerStr("10") == "10";
    assert AsciiLowerStr("1") == "1";
    assert StartsWith("10", "1");
    var r := AuthorContainsFilter([7], recipes, "1");
    assert 7 in r;
  }

  /** The `author` filter as intended: the recipes whose author id is `value`. */
  function AuthorFilter(qs: seq<RecipeId>, recipes: map<RecipeId, Recipe>, value: string): (r: seq<RecipeId>)
    requires IsRecipeQuery(qs, recipes)
    ensures value == [] ==> r == qs
    ensures value != [] ==> forall id :: id in r <==> id in qs && NatToString(recipes[id].author) == value
    ensures |r| <= |qs|
  {
    if value == [] then qs
    else Filter(qs, (id: RecipeId) => id in recipes && NatToString(recipes[id].author) == value)
  }

  /** Decimal rendering is one-to-one. */
  lemma NatToStringInjective(a: nat, b: nat)
    requires NatToString(a) == NatToString(b)
    ensures a == b
  {
    ParseNatToString(a);
    ParseNatToString(b);
  }

  /** Asked for author `a`, the filter keeps exactly the recipes `a` wrote. */
  lemma AuthorFilterExact(qs: seq<RecipeId>, recipes: map<RecipeId, Recipe>, a: UserId)
    requires IsRecipeQuery(qs, recipes)
    ensures forall id :: id in AuthorFilter(qs, recipes, NatToString(a)) <==> id in qs && recipes[id].author == a
  {
    forall id | id in qs && NatToString(recipes[id].author) == NatToString(a)
      ensures recipes[id].author == a
    {
      NatToStringInjective(recipes[id].author, a);
    }
  }

  /** The request carried a slug that names no tag: the choice is invalid
      and the request is answered with 400. */
  datatype FilterError = InvalidChoice

  predicate SlugKnown(tags: map<TagId, Tag>, slug: string) {
    exists tg :: tg in tags && tags[tg].slug == slug
  }

  /** The recipe has a tag whose slug is among `slugs`. */
  predicate HasTagAmong(recipeTags: set<(RecipeId, TagId)>, tags: map<TagId, Tag>, slugs: seq<string>, id: RecipeId) {
    exists p :: p in recipeTags && p.0 == id && p.1 in tags && tags[p.1].slug in slugs
  }

  /** The `tags` filter: every requested slug must name a tag; the recipes
      carrying any of them are kept, each once. */
  function TagsFilter(qs: seq<RecipeId>, tags: map<TagId, Tag>, recipeTags: set<(RecipeId, TagId)>, slugs: seq<string>)
    : (r: Result<seq<RecipeId>, FilterError>)
    ensures r.Failure? <==> exists s :: s in slugs && !SlugKnown(tags, s)
    ensures r.Success? && slugs == [] ==> r.value == qs
    ensures r.Success? && slugs != [] ==> forall id :: id in r.value <==> id in qs && HasTagAmong(recipeTags, tags, slugs, id)
    ensures r.Success? ==> |r.value| <= |qs|
  {
    if exists s :: s in slugs && !SlugKnown(tags, s) then Failure(InvalidChoice)
    else if slugs == [] then Success(qs)
    else Success(Filter(qs, (id: RecipeId) => HasTagAmong(recipeTags, tags, slugs, id)))
  }

  /** Several slugs select the union of what each selects alone. */
  lemma TagsFilterUnion(qs: seq<RecipeId>, tags: map<TagId, Tag>, recipeTags: set<(RecipeId, TagId)>, slugs: seq<string>, id: RecipeId)
    requires slugs != [] && TagsFilter(qs, tags, recipeTags, slugs).Success?
    ensures id in TagsFilter(qs, tags, recipeTags, slugs).value <==>
              exists s :: s in slugs && id in TagsFilter(qs, tags, recipeTags, [s]).value
  {
    if id in TagsFilter(qs, tags, recipeTags, slugs).value {
      var p :| p in recipeTags && p.0 == id && p.1 in tags && tags[p.1].slug in slugs;
      var s := tags[p.1].slug;
      assert HasTagAmong(recipeTags, tags, [s], id);
    }
    if exists s :: s in slugs && id in TagsFilter(qs, tags, recipeTags, [s]).value {
      var s :| s in slugs && id in TagsFilter(qs, tags, recipeTags, [s]).value;
      assert HasTagAmong(recipeTags, tags, [s], id);
    }
  }

  /** The shared shape of `get_is_favorit` and `get_is_in_shopping_cart`:
      with a signed-in viewer and a true value, the recipes with the
      viewer's row in `table`; otherwise the queryset unchanged. */
  function ViewerRowFilter(qs: seq<RecipeId>, table: seq<Link>, viewer: Option<UserId>, value: Option<bool>): (r: seq<RecipeId>)
    ensures viewer.Some? && value == Some(true) ==> forall id :: id in r <==> id in qs && Link(viewer.value, id) in table
    ensures !(viewer.Some? && value == Some(true)) ==> r == qs
    ensures |r| <= |qs|
  {
    if viewer.Some? && value == Some(true) then Filter(qs, (id: RecipeId) => Exists(table, viewer.value, id))
    else qs
  }

  /** `get_is_favorit`. */
  function FavoritedFilter(qs: seq<RecipeId>, favorites: seq<Link>, viewer: Option<UserId>, value: Option<bool>): (r: seq<RecipeId>)
    ensures viewer.Some? && value == Some(true) ==> forall id :: id in r <==> id in qs && Link(viewer.value, id) in favorites
    ensures !(viewer.Some? && value == Some(true)) ==> r == qs
  {
    ViewerRowFilter(qs, favorites, viewer, value)
  }

  /** `get_is_in_shopping_cart`. */
  function InShoppingCartFilter(qs: seq<RecipeId>, carts: seq<Link>, viewer: Option<UserId>, value: Option<bool>): (r: seq<RecipeId>)
    ensures viewer.Some? && value == Some(true) ==> forall id :: id in r <==> id in qs && Link(viewer.value, id) in carts
    ensures !(viewer.Some? && value == Some(true)) ==> r == qs
  {
    ViewerRowFilter(qs, carts, viewer, value)
  }

  /** The list filter agrees with the flag the serializer prints: with
      `is_favorited=true`, a recipe is kept exactly when its
      `is_favorited` is true for the same viewer. */
  lemma FavoritedFilterMatchesFlag(qs: seq<RecipeId>, favorites: seq<Link>, viewer: UserId, id: RecipeId)
    requires id in qs
    ensures id in FavoritedFilter(qs, favorites, Some(viewer), Some(true)) <==>
              Serializers.GetIsFavorited(favorites, Some(viewer), id)
  {
  }

  /** The filters are independent row predicates, so applying the
      favorites filter after the cart filter keeps what applying them the
      other way round keeps. */
  lemma FavoritedCartCommute(qs: seq<RecipeId>, favorites: seq<Link>, carts: seq<Link>, viewer: Option<UserId>, fav: Option<bool>, cart: Option<bool>)
    ensures FavoritedFilter(InShoppingCartFilter(qs, carts, viewer, cart), favorites, viewer, fav)
         == InShoppingCartFilter(FavoritedFilter(qs, favorites, viewer, fav), carts, viewer, cart)
  {
    if viewer.Some? && fav == Some(true) && cart == Some(true) {
      var inFav := (id: RecipeId) => Exists(favorites, viewer.value, id);
      var inCart := (id: RecipeId) => Exists(carts, viewer.value, id);
      FilterCommute(qs, inFav, inCart);
    }
  }

  /** The query-string parameters `RecipeFilter` reads; an empty string or
      list, or a missing boolean, leaves that filter off. */
  datatype RecipeQuery = RecipeQuery(author: string, isFavorited: Option<bool>, isInShoppingCart: Option<bool>, tags: seq<string>)

  /** Whether one recipe passes the filters after `author` that the query
      switches on. */
  predicate PassesRest(t: Tables, viewer: Option<UserId>, q: RecipeQuery, id: RecipeId) {
    && (viewer.Some? && q.isFavorited == Some(true) ==> Link(viewer.value, id) in t.favorites)
    && (viewer.Some? && q.isInShoppingCart == Some(true) ==> Link(viewer.value, id) in t.carts)
    && (q.tags != [] ==> HasTagAmong(t.recipeTags, t.tags, q.tags, id))
  }

  /** Whether one recipe passes every filter the query switches on, with
      `author` matched as written. */
  predicate PassesAll(t: Tables, viewer: Option<UserId>, q: RecipeQuery, id: RecipeId)
    requires id in t.recipes
  {
    (q.author != [] ==> AuthorIdContains(t.recipes, q.author, id)) && PassesRest(t, viewer, q, id)
  }

  /** The same with `author` matched as intended, on the exact id. */
  predicate PassesAllCorrected(t: Tables, viewer: Option<UserId>, q: RecipeQuery, id: RecipeId)
    requires id in t.recipes
  {
    (q.author != [] ==> NatToString(t.recipes[id].author) == q.author) && PassesRest(t, viewer, q, id)
  }

  /** The filters that run after `author`, in declaration order, each on the
      result of the previous one. */
  function LaterFilters(byAuthor: seq<RecipeId>, t: Tables, viewer: Option<UserId>, q: RecipeQuery): (r: Result<seq<RecipeId>, FilterError>)
    ensures r.Failure? <==> exists s :: s in q.tags && !SlugKnown(t.tags, s)
    ensures r.Success? ==> forall id :: id in r.value <==> id in byAuthor && PassesRest(t, viewer, q, id)
  {
    var byFavorite := FavoritedFilter(byAuthor, t.favorites, viewer, q.isFavorited);
    var byCart := InShoppingCartFilter(byFavorite, t.carts, viewer, q.isInShoppingCart);
    TagsFilter(byCart, t.tags, t.recipeTags, q.tags)
  }

  /** `RecipeFilter` as a whole, as written: an unknown tag slug fails the
      form before any filtering; otherwise `author` (a substring match on
      the id) and then the later filters. */
  function RecipeFilter(qs: seq<RecipeId>, t: Tables, viewer: Option<UserId>, q: RecipeQuery): (r: Result<seq<RecipeId>, FilterError>)
    requires IsRecipeQuery(qs, t.recipes)
    ensures r.Failure? <==> exists s :: s in q.tags && !SlugKnown(t.tags, s)
    ensures r.Success? ==> forall id :: id in r.value <==> id in qs && PassesAll(t, viewer, q, id)
  {
    if exists s :: s in q.tags && !SlugKnown(t.tags, s) then Failure(InvalidChoice)
    else LaterFilters(AuthorContainsFilter(qs, t.recipes, q.author), t, viewer, q)
  }

  /** `RecipeFilter` with the intended exact `author` filter. */
  function CorrectedRecipeFilter(qs: seq<RecipeId>, t: Tables, viewer: Option<UserId>, q: RecipeQuery): (r: Result<seq<RecipeId>, FilterError>)
    requires IsRecipeQuery(qs, t.recipes)
    ensures r.Failure? <==> exists s :: s in q.tags && !SlugKnown(t.tags, s)
    ensures r.Success? ==> forall id :: id in r.value <==> id in qs && PassesAllCorrected(t, viewer, q, id)
  {
    if exists s :: s in q.tags && !SlugKnown(t.tags, s) then Failure(InvalidChoice)
    else LaterFilters(AuthorFilter(qs, t.recipes, q.author), t, viewer, q)
  }

  lemma ContainsSelf(s: string)
    ensures Contains(s, s)
  {
    assert s[..|s|] == s;
  }

  /** The filter as written keeps everything the corrected one keeps, and
      the two agree whenever the query leaves `author` empty. */
  lemma CorrectedRecipeFilterWithin(qs: seq<RecipeId>, t: Tables, viewer: Option<UserId>, q: RecipeQuery)
    requires IsRecipeQuery(qs, t.recipes)
    ensures RecipeFilter(qs, t, viewer, q).Success? <==> CorrectedRecipeFilter(qs, t, viewer, q).Success?
    ensures CorrectedRecipeFilter(qs, t, viewer, q).Success? ==>
              forall id :: id in CorrectedRecipeFilter(qs, t, viewer, q).value ==> id in RecipeFilter(qs, t, viewer, q).value
    ensures q.author == [] ==> RecipeFilter(qs, t, viewer, q) == CorrectedRecipeFilter(qs, t, viewer, q)
  {
    forall id | id in qs && q.author != [] && NatToString(t.recipes[id].author) == q.author
      ensures AuthorIdContains(t.recipes, q.author, id)
    {
      ContainsSelf(AsciiLowerStr(q.author));
    }
  }

  /** `name__istartswith=query` on SQLite, as written: only ASCII letters
      are folded. */
  function IngredientSearchAscii(ids: seq<IngredientId>, ingredients: map<IngredientId, Ingredient>, query: string): (r: seq<IngredientId>)
    requires forall id :: id in ids ==> id in ingredients
    ensures query == [] ==> r == ids
    ensures query != [] ==> forall id :: id in r <==>
              id in ids && StartsWith(AsciiLowerStr(ingredients[id].name), AsciiLowerStr(query))
    ensures |r| <= |ids|
  {
    if query == [] then ids
    else Filter(ids, (id: IngredientId) => id in ingredients && StartsWith(AsciiLowerStr(ingredients[id].name), AsciiLowerStr(query)))
  }

  /** A capital Cyrillic query misses the lower-case name it begins. */
  lemma IngredientSearchAsciiCounterexample()
    ensures
      var ingredients := map[1 := Ingredient("соль", "г")];
      IngredientSearchAscii([1], ingredients, "С") == [] && StartsWith(LowerStr("соль"), LowerStr("С"))
  {
    var ingredients := map[1 := Ingredient("соль", "г")];
    assert AsciiLowerStr("соль")[0] == 'с';
    assert AsciiLowerStr("С") == "С";
    assert !StartsWith(AsciiLowerStr("соль"), AsciiLowerStr("С"));
    assert LowerStr("С") == "с";
    assert LowerStr("соль")[..1] == "с";
  }

  /** The ingredient search as intended: a case-insensitive prefix match
      for the alphabets the data is written in. */
  function IngredientSearch(ids: seq<IngredientId>, ingredients: map<IngredientId, Ingredient>, query: string): (r: seq<IngredientId>)
    requires forall id :: id in ids ==> id in ingredients
    ensures query == [] ==> r == ids
    ensures query != [] ==> forall id :: id in r <==>
              id in ids && StartsWith(LowerStr(ingredients[id].name), LowerStr(query))
    ensures |r| <= |ids|
  {
    if query == [] then ids
    else Filter(ids, (id: IngredientId) => id in ingredients && StartsWith(LowerStr(ingredients[id].name), LowerStr(query)))
  }

  /** The search does not see the case of the query. */
  lemma IngredientSearchIgnoresCase(ids: seq<IngredientId>, ingredients: map<IngredientId, Ingredient>, query: string)
    requires forall id :: id in ids ==> id in ingredients
    ensures IngredientSearch(ids, ingredients, LowerStr(query)) == IngredientSearch(ids, ingredients, query)
  {
    LowerStrIdempotent(query);
  }

  /** A name is always found by any prefix of itself, in any case. */
  lemma IngredientSearchFindsPrefix(ids: seq<IngredientId>, ingredients: map<IngredientId, Ingredient>, id: IngredientId, k: nat)
    requires forall i :: i in ids ==> i in ingredients
    requires id in ids && 0 < k <= |ingredients[id].name|
    ensures id in IngredientSearch(ids, ingredients, LowerStr(ingredients[id].name[..k]))
  {
    var name := ingredients[id].name;
    LowerStrIdempotent(name[..k]);
    assert LowerStr(name)[..k] == LowerStr(name[..k]);
  }
}
