/** The validation and the derived read-only fields of api/serializers.py:
    the duplicate checks on a submitted recipe, the field bounds DRF
    derives from the model, the Follow/Favorite/ShoppingCart serializer
    checks, the per-viewer booleans, `get_recipes`/`get_recipes_count`,
    and the rows that `create`/`update` write for the ingredient lines. */
module Serializers {
  import opened Wrappers
  import opened Seqs
  import opened Sorting
  import opened Links
  import opened Models

  /** The messages a 400 response carries. */
  datatype Message =
    | SelfFollow                 // validate_following refuses user == following
    | AlreadyFollowing           // the unique-together check on Follow
    | NotFollowing               // unsubscribe without a Follow row
    | AlreadyAdded(kind: Kind)   // the unique-together check on Favorite/ShoppingCart
    | AlreadyRemoved(kind: Kind) // removal without a row
    | Invalid(errors: set<FieldError>)

  datatype Field = IngredientsField | TagsField | NameField

  /** At most one error per field, as DRF stops at a field's first failure. */
  datatype FieldError =
    | Required(field: Field)
    | InvalidIngredientLine
    | DuplicateIngredients
    | UnknownTag
    | DuplicateTags
    | BlankName
    | NameTooLong
    | CookingTimeOutOfRange

  /** One submitted ingredient line; an absent key is None. `amount` has a
      model default, so DRF never requires it. `id` is required on a create
      or a PUT, but on a PATCH DRF skips every absent field, those of the
      nested lines included. */
  datatype IngredientLine = IngredientLine(id: Option<IngredientId>, amount: Option<int>)

  /** The body of a POST, PUT or PATCH on /recipes/; an absent key is None.
      `text` is a nullable column, so DRF accepts an explicit `null` for it:
      that is `Some(None)`, and it clears the text. */
  datatype RecipeInput = RecipeInput(
    ingredients: Option<seq<IngredientLine>>,
    tags: Option<seq<TagId>>,
    image: Option<string>,
    name: Option<string>,
    text: Option<Option<string>>,
    cookingTime: Option<int>)

  /** The `ingredient.get('id')` values `validate_ingredients` compares; an
      absent id is None, and two absent ids are equal. */
  function LineIds(lines: seq<IngredientLine>): (ids: seq<Option<IngredientId>>)
    ensures |ids| == |lines|
    ensures forall i :: 0 <= i < |lines| ==> ids[i] == lines[i].id
  {
    if lines == [] then [] else [lines[0].id] + LineIds(lines[1..])
  }

  lemma LineIdsDistinct(lines: seq<IngredientLine>)
    ensures NoDuplicates(LineIds(lines)) <==> !exists i, j :: 0 <= i < j < |lines| && lines[i].id == lines[j].id
  {
    var ids := LineIds(lines);
    if !NoDuplicates(ids) {
      var i, j :| 0 <= i < j < |ids| && ids[i] == ids[j];
      assert lines[i].id == lines[j].id;
    }
  }

  /** `validate_ingredients`: the submitted ingredient ids must differ. */
  function ValidateIngredients(lines: seq<IngredientLine>): (r: Result<seq<IngredientLine>, FieldError>)
    ensures r.Failure? <==> exists i, j :: 0 <= i < j < |lines| && lines[i].id == lines[j].id
    ensures r.Success? ==> r.value == lines
    ensures r.Failure? ==> r.error == DuplicateIngredients
  {
    var ids := LineIds(lines);
    DistinctIffCardinality(ids);
    LineIdsDistinct(lines);
    if |ids| != |ElementSet(ids)| then Failure(DuplicateIngredients) else Success(lines)
  }

  /** `validate_tags`: the submitted tags must differ. */
  function ValidateTags(tags: seq<TagId>): (r: Result<seq<TagId>, FieldError>)
    ensures r.Failure? <==> !NoDuplicates(tags)
    ensures r.Success? ==> r.value == tags
    ensures r.Failure? ==> r.error == DuplicateTags
  {
    DistinctIffCardinality(tags);
    if |tags| != |ElementSet(tags)| then Failure(DuplicateTags) else Success(tags)
  }

  /** A blank CharField value: nothing but white space. */
  predicate IsBlank(s: string) {
    forall i :: 0 <= i < |s| ==> s[i] in " \t\n\r"
  }

  /** Each submitted line passes its own fields: an id it gives names an
      existing ingredient, an id may be absent only on a PATCH, and an
      amount it gives is at least 1. */
  predicate LinesResolve(ls: seq<IngredientLine>, ingredientIds: set<IngredientId>, partial: bool) {
    forall i :: 0 <= i < |ls| ==>
      && (ls[i].id.Some? ==> ls[i].id.value in ingredientIds)
      && (ls[i].id.None? ==> partial)
      && (ls[i].amount.Some? ==> ls[i].amount.value >= MinAmount)
  }

  /** Every line gives its id and its amount. `add_ingredients` passes
      `ingredient.get('id')` and `ingredient.get('amount')` to the row, so a
      line without one makes a row with a null in a NOT NULL column. */
  predicate LinesComplete(ls: seq<IngredientLine>) {
    forall i :: 0 <= i < |ls| ==> ls[i].id.Some? && ls[i].amount.Some?
  }

  predicate TagsResolve(ts: seq<TagId>, tagIds: set<TagId>) {
    forall i :: 0 <= i < |ts| ==> ts[i] in tagIds
  }

  /** The errors of the `ingredients` field: each line's fields must pass
      (`LinesResolve`); then `validate_ingredients`. */
  function IngredientsErrors(lines: Option<seq<IngredientLine>>, partial: bool, ingredientIds: set<IngredientId>): (r: set<FieldError>)
    ensures r <= {Required(IngredientsField), InvalidIngredientLine, DuplicateIngredients}
    ensures r == {} <==>
              (lines.Some? || partial) && (lines.Some? ==> LinesResolve(lines.value, ingredientIds, partial) && NoDuplicates(LineIds(lines.value)))
    ensures DuplicateIngredients in r <==>
              lines.Some? && LinesResolve(lines.value, ingredientIds, partial) && !NoDuplicates(LineIds(lines.value))
  {
    match lines
    case None => if partial then {} else {Required(IngredientsField)}
    case Some(ls) =>
      LineIdsDistinct(ls);
      if !LinesResolve(ls, ingredientIds, partial) then {InvalidIngredientLine}
      else match ValidateIngredients(ls)
        case Failure(e) => {e}
        case Success(_) => {}
  }

  /** The errors of the `tags` field: every id must name a tag; then `validate_tags`. */
  function TagsErrors(tags: Option<seq<TagId>>, partial: bool, tagIds: set<TagId>): (r: set<FieldError>)
    ensures r <= {Required(TagsField), UnknownTag, DuplicateTags}
    ensures r == {} <==>
              (tags.Some? || partial) && (tags.Some? ==> TagsResolve(tags.value, tagIds) && NoDuplicates(tags.value))
    ensures DuplicateTags in r <==> tags.Some? && TagsResolve(tags.value, tagIds) && !NoDuplicates(tags.value)
  {
    match tags
    case None => if partial then {} else {Required(TagsField)}
    case Some(ts) =>
      if !TagsResolve(ts, tagIds) then {UnknownTag}
      else match ValidateTags(ts)
        case Failure(e) => {e}
        case Success(_) => {}
  }

  /** The `name` CharField: required on create, not blank, at most 200 characters. */
  function NameErrors(name: Option<string>, partial: bool): (r: set<FieldError>)
    ensures r <= {Required(NameField), BlankName, NameTooLong}
    ensures r == {} <==> (name.Some? || partial) && (name.Some? ==> !IsBlank(name.value) && |name.value| <= RecipeNameMaxLength)
  {
    match name
    case None => if partial then {} else {Required(NameField)}
    case Some(n) =>
      if IsBlank(n) then {BlankName}
      else if |n| > RecipeNameMaxLength then {NameTooLong}
      else {}
  }

  /** `cooking_time` has a model default, so it may be absent; when given it lies in [1, 300]. */
  function CookingTimeErrors(c: Option<int>): (r: set<FieldError>)
    ensures r <= {CookingTimeOutOfRange}
    ensures r == {} <==> (c.Some? ==> CookingTimeInRange(c.value))
  {
    if c.Some? && !CookingTimeInRange(c.value) then {CookingTimeOutOfRange} else {}
  }

  /** Every error `CreateRecipeSerializer.is_valid()` collects for `input`;
      `partial` is true for a PATCH and false for a POST or a PUT. */
  function ValidateRecipe(input: RecipeInput, partial: bool, ingredientIds: set<IngredientId>, tagIds: set<TagId>): (errors: set<FieldError>)
    ensures errors == {} <==> RecipeInputValid(input, partial, ingredientIds, tagIds)
    ensures DuplicateIngredients in errors <==>
              input.ingredients.Some? && LinesResolve(input.ingredients.value, ingredientIds, partial)
              && !NoDuplicates(LineIds(input.ingredients.value))
    ensures DuplicateTags in errors <==>
              input.tags.Some? && TagsResolve(input.tags.value, tagIds) && !NoDuplicates(input.tags.value)
  {
    IngredientsErrors(input.ingredients, partial, ingredientIds)
      + TagsErrors(input.tags, partial, tagIds)
      + NameErrors(input.name, partial)
      + CookingTimeErrors(input.cookingTime)
  }

  /** What an acceptable submission is, stated without the validators. */
  predicate RecipeInputValid(input: RecipeInput, partial: bool, ingredientIds: set<IngredientId>, tagIds: set<TagId>) {
    && (input.ingredients.Some? || partial)
    && (input.ingredients.Some? ==>
          LinesResolve(input.ingredients.value, ingredientIds, partial) && NoDuplicates(LineIds(input.ingredients.value)))
    && (input.tags.Some? || partial)
    && (input.tags.Some? ==> TagsResolve(input.tags.value, tagIds) && NoDuplicates(input.tags.value))
    && (input.name.Some? || partial)
    && (input.name.Some? ==> !IsBlank(input.name.value) && |input.name.value| <= RecipeNameMaxLength)
    && (input.cookingTime.Some? ==> CookingTimeInRange(input.cookingTime.value))
  }

  /** A line that leaves out its amount passes validation, on create as on
      update: nothing in the serializer asks for it. */
  lemma MissingAmountAccepted(partial: bool)
    ensures
      var input := RecipeInput(Some([IngredientLine(Some(1), None)]), Some([2]), None, Some("borsch"), None, None);
      && ValidateRecipe(input, partial, {1}, {2}) == {}
      && !LinesComplete(input.ingredients.value)
  {
    var input := RecipeInput(Some([IngredientLine(Some(1), None)]), Some([2]), None, Some("borsch"), None, None);
    assert !IsBlank("borsch") by {
      assert "borsch"[0] !in " \t\n\r";
    }
    assert NoDuplicates([2]);
    assert NoDuplicates(LineIds([IngredientLine(Some(1), None)]));
  }

  /** A line that leaves out its id is refused on a create or a PUT and
      passes a PATCH; two such lines share the id None and are refused as
      duplicates. */
  lemma MissingIdOnPatch()
    ensures
      var one := RecipeInput(Some([IngredientLine(None, Some(2))]), Some([2]), None, None, None, None);
      var two := RecipeInput(Some([IngredientLine(None, Some(2)), IngredientLine(None, Some(3))]), Some([2]), None, None, None, None);
      && ValidateRecipe(one, true, {1}, {2}) == {}
      && !LinesComplete(one.ingredients.value)
      && InvalidIngredientLine in ValidateRecipe(one, false, {1}, {2})
      && DuplicateIngredients in ValidateRecipe(two, true, {1}, {2})
  {
    var one := RecipeInput(Some([IngredientLine(None, Some(2))]), Some([2]), None, None, None, None);
    var two := RecipeInput(Some([IngredientLine(None, Some(2)), IngredientLine(None, Some(3))]), Some([2]), None, None, None, None);
    assert NoDuplicates([2]);
    assert NoDuplicates(LineIds(one.ingredients.value));
    assert LineIds(two.ingredients.value)[0] == LineIds(two.ingredients.value)[1];
  }

  /** `FollowSerializer.is_valid()`: `validate_following` runs first, then
      the unique-together check on (user, following). */
  function ValidateFollow(follows: seq<Link>, user: UserId, following: UserId): (r: Option<Message>)
    ensures r.None? <==> user != following && Link(user, following) !in follows
    ensures user == following ==> r == Some(SelfFollow)
    ensures user != following && Link(user, following) in follows ==> r == Some(AlreadyFollowing)
  {
    if user == following then Some(SelfFollow)
    else if Exists(follows, user, following) then Some(AlreadyFollowing)
    else None
  }

  /** `FavoriteSerializer.is_valid()` / `ShoppingCartSerializer.is_valid()`:
      only the unique-together check; there is no self-reference to refuse. */
  function ValidateRecipeLink(kind: Kind, table: seq<Link>, user: UserId, recipe: RecipeId): (r: Option<Message>)
    ensures r.None? <==> Link(user, recipe) !in table
    ensures r.Some? ==> r.value == AlreadyAdded(kind)
  {
    if Exists(table, user, recipe) then Some(AlreadyAdded(kind)) else None
  }

  /** The shared shape of the three `get_is_*` methods: false without a
      request user, otherwise whether the viewer's row exists. */
  function ViewerHasRow(table: seq<Link>, viewer: Option<UserId>, target: nat): (r: bool)
    ensures r <==> viewer.Some? && Link(viewer.value, target) in table
  {
    viewer.Some? && Exists(table, viewer.value, target)
  }

  /** `CustomUserSerializer.get_is_subscribed`. */
  function GetIsSubscribed(follows: seq<Link>, viewer: Option<UserId>, author: UserId): (r: bool)
    ensures viewer.None? ==> !r
    ensures viewer.Some? ==> (r <==> Link(viewer.value, author) in follows)
  {
    ViewerHasRow(follows, viewer, author)
  }

  /** `RecipeSerializer.get_is_favorited`. */
  function GetIsFavorited(favorites: seq<Link>, viewer: Option<UserId>, recipe: RecipeId): (r: bool)
    ensures viewer.None? ==> !r
    ensures viewer.Some? ==> (r <==> Link(viewer.value, recipe) in favorites)
  {
    ViewerHasRow(favorites, viewer, recipe)
  }

  /** `RecipeSerializer.get_is_in_shopping_cart`. */
  function GetIsInShoppingCart(carts: seq<Link>, viewer: Option<UserId>, recipe: RecipeId): (r: bool)
    ensures viewer.None? ==> !r
    ensures viewer.Some? ==> (r <==> Link(viewer.value, recipe) in carts)
  {
    ViewerHasRow(carts, viewer, recipe)
  }

  /** Adding a row makes the flag true for its owner; removing it makes the
      flag false again. */
  lemma ViewerFlagFollowsTable(table: seq<Link>, user: UserId, target: nat)
    ensures ViewerHasRow(table + [Link(user, target)], Some(user), target)
    ensures !ViewerHasRow(Remove(table, Link(user, target)), Some(user), target)
  {
  }

  /** The author's recipes are each listed once, newest first. */
  lemma AuthorRecipesSpec(recipes: map<RecipeId, Recipe>, author: UserId)
    ensures forall id :: id in AuthorRecipes(recipes, author) <==> id in recipes && recipes[id].author == author
    ensures NoDuplicates(AuthorRecipes(recipes, author))
    ensures SortedBy(AuthorRecipes(recipes, author), NewerOrSame(recipes))
  {
    var mine := (id: RecipeId) => id in recipes && recipes[id].author == author;
    ListingSpec(recipes);
    FilterNoDuplicates(Listing(recipes), mine);
    ListingSorted(recipes);
    FilterSorted(Listing(recipes), NewerOrSame(recipes), mine);
  }

  /** `get_recipes`: at most `limit` of the author's recipes, newest first.
      A negative limit is a slice Django refuses. */
  ghost function GetRecipes(recipes: map<RecipeId, Recipe>, author: UserId, limit: int): (r: Option<seq<RecipeId>>)
    ensures r.None? <==> limit < 0
    ensures r.Some? ==> |r.value| <= limit
    ensures r.Some? ==> forall id :: id in r.value ==> id in recipes && recipes[id].author == author
    ensures r.Some? ==> |r.value| <= |AuthorRecipes(recipes, author)| && r.value == AuthorRecipes(recipes, author)[..|r.value|]
    ensures r.Some? && |r.value| < limit ==> r.value == AuthorRecipes(recipes, author)
  {
    var all := AuthorRecipes(recipes, author);
    AuthorRecipesSpec(recipes, author);
    if limit < 0 then None
    else if limit < |all| then
      assert forall id :: id in all[..limit] ==> id in all;
      Some(all[..limit])
    else
      assert all[..|all|] == all;
      Some(all)
  }

  /** `get_recipes_count`: how many recipes the author has. */
  ghost function GetRecipesCount(recipes: map<RecipeId, Recipe>, author: UserId): (n: nat)
    ensures n == |set id | id in recipes && recipes[id].author == author|
  {
    var all := AuthorRecipes(recipes, author);
    assert |all| == |set id | id in recipes && recipes[id].author == author| by {
      AuthorRecipesSpec(recipes, author);
      DistinctIffCardinality(all);
      assert ElementSet(all) == (set id | id in recipes && recipes[id].author == author);
    }
    |all|
  }

  /** The rows `add_ingredients` bulk-creates when every line gives its
      amount: one per submitted line, in order. */
  function RowsFor(recipe: RecipeId, lines: seq<IngredientLine>): (rows: seq<IngredientRecipe>)
    requires LinesComplete(lines)
    ensures |rows| == |lines|
    ensures forall i :: 0 <= i < |lines| ==>
              rows[i].recipe == recipe && Some(rows[i].ingredient) == lines[i].id && Some(rows[i].amount) == lines[i].amount
  {
    if lines == [] then []
    else [IngredientRecipe(lines[0].id.value, recipe, lines[0].amount.value)] + RowsFor(recipe, lines[1..])
  }

  /** `IngredientRecipe.objects.filter(recipe=recipe).delete()`. */
  function DropRows(rows: seq<IngredientRecipe>, recipe: RecipeId): (r: seq<IngredientRecipe>)
    ensures forall row :: row in r <==> row in rows && row.recipe != recipe
    ensures RowsOf(r, recipe) == []
    ensures forall other :: other != recipe ==> RowsOf(r, other) == RowsOf(rows, other)
  {
    var kept := Filter(rows, (row: IngredientRecipe) => row.recipe != recipe);
    FilterNone(kept, (row: IngredientRecipe) => row.recipe == recipe);
    assert forall other :: other != recipe ==> RowsOf(kept, other) == RowsOf(rows, other) by {
      forall other | other != recipe ensures RowsOf(kept, other) == RowsOf(rows, other) {
        FilterFilter(rows, (row: IngredientRecipe) => row.recipe != recipe, (row: IngredientRecipe) => row.recipe == other);
      }
    }
    kept
  }

  /** `update`'s effect on the ingredient rows: all rows of the recipe are
      deleted and the submitted lines inserted at the end of the table. */
  function ReplaceRows(rows: seq<IngredientRecipe>, recipe: RecipeId, lines: seq<IngredientLine>): seq<IngredientRecipe>
    requires LinesComplete(lines)
  {
    DropRows(rows, recipe) + RowsFor(recipe, lines)
  }

  /** After a replace the recipe's rows are exactly the submitted lines. */
  lemma ReplaceRowsExact(rows: seq<IngredientRecipe>, recipe: RecipeId, lines: seq<IngredientLine>)
    requires LinesComplete(lines)
    ensures RowsOf(ReplaceRows(rows, recipe, lines), recipe) == RowsFor(recipe, lines)
  {
    var kept := Filter(rows, (row: IngredientRecipe) => row.recipe != recipe);
    var mine := (row: IngredientRecipe) => row.recipe == recipe;
    FilterAppend(kept, RowsFor(recipe, lines), mine);
    FilterNone(kept, mine);
    FilterAll(RowsFor(recipe, lines), mine);
  }

  /** A replace leaves every other recipe's rows as they were. */
  lemma ReplaceRowsOthers(rows: seq<IngredientRecipe>, recipe: RecipeId, lines: seq<IngredientLine>, other: RecipeId)
    requires other != recipe && LinesComplete(lines)
    ensures RowsOf(ReplaceRows(rows, recipe, lines), other) == RowsOf(rows, other)
  {
    var notMine := (row: IngredientRecipe) => row.recipe != recipe;
    var theirs := (row: IngredientRecipe) => row.recipe == other;
    FilterAppend(Filter(rows, notMine), RowsFor(recipe, lines), theirs);
    FilterFilter(rows, notMine, theirs);
    FilterNone(RowsFor(recipe, lines), theirs);
  }

  /** Submitting the same lines twice leaves the same rows as submitting them once. */
  lemma ReplaceRowsIdempotent(rows: seq<IngredientRecipe>, recipe: RecipeId, lines: seq<IngredientLine>)
    requires LinesComplete(lines)
    ensures ReplaceRows(ReplaceRows(rows, recipe, lines), recipe, lines) == ReplaceRows(rows, recipe, lines)
  {
    var notMine := (row: IngredientRecipe) => row.recipe != recipe;
    var kept := Filter(rows, notMine);
    var added := RowsFor(recipe, lines);
    assert ReplaceRows(rows, recipe, lines) == kept + added;
    assert Filter(kept + added, notMine) == kept by {
      FilterAppend(kept, added, notMine);
      FilterIdempotent(rows, notMine);
      FilterNone(added, notMine);
    }
  }

  /** The tag links `recipe.tags.set(tags)` writes for a recipe with none. */
  function TagLinks(recipe: RecipeId, tags: seq<TagId>): (r: set<(RecipeId, TagId)>)
    ensures forall p :: p in r <==> p.0 == recipe && p.1 in tags
  {
    set t | t in tags :: (recipe, t)
  }

  /** `tags.clear()` followed by `tags.set(tags)`. */
  function ReplaceTags(links: set<(RecipeId, TagId)>, recipe: RecipeId, tags: seq<TagId>): (r: set<(RecipeId, TagId)>)
    ensures forall t :: (recipe, t) in r <==> t in tags
    ensures forall p: (RecipeId, TagId) :: p.0 != recipe ==> (p in r <==> p in links)
  {
    (set p | p in links && p.0 != recipe) + TagLinks(recipe, tags)
  }
}
