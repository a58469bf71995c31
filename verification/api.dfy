/** The request handlers of api/views.py and the writes of
    `CreateRecipeSerializer.create`/`update`, as methods on the database
    they change. The request user is passed in explicitly; responses are
    reduced to their status and error message. */
module Api {
  import opened Wrappers
  import opened Seqs
  import opened Links
  import opened Models
  import opened Serializers
  import Shopping
  import PdfLayout

  datatype Verb = Post | Delete

  datatype Response =
    | Created(id: nat)          // 201
    | Ok(id: nat)               // 200
    | NoContent                 // 204
    | BadRequest(message: Message) // 400
    | NotFound                  // 404
    | ServerError               // 500: an uncaught exception

  /** What `post_method_for_actions` and `delete_method_for_actions` do to
      the table of `kind`, for either verb: the one behaviour Favorite and
      ShoppingCart share. */
  predicate RecipeActionOutcome(kind: Kind, verb: Verb, user: UserId, pk: RecipeId, before: Tables, after: Tables, resp: Response) {
    var l := Link(user, pk);
    var table := before.Table(kind);
    if pk !in before.recipes then resp == NotFound && after == before
    else if verb == Post then
      if l in table then resp == BadRequest(AlreadyAdded(kind)) && after == before
      else resp == Created(pk) && after == before.WithTable(kind, table + [l])
    else
      if l in table then resp == NoContent && after == before.WithTable(kind, Remove(table, l))
      else resp == BadRequest(AlreadyRemoved(kind)) && after == before
  }

  /** The recipe row `Recipe.objects.create(**validated_data, author=author)` writes. */
  function NewRecipe(author: UserId, input: RecipeInput, now: int): Recipe
    requires input.name.Some?
  {
    Recipe(author, input.name.value, input.text.GetOr(None), input.image.GetOr(""), input.cookingTime.GetOr(DefaultCookingTime), now)
  }

  /** `ModelSerializer.update`: the scalar fields present in the input replace the old ones. */
  function ApplyUpdate(r: Recipe, input: RecipeInput): (u: Recipe)
    ensures u.author == r.author && u.pubDate == r.pubDate
    ensures input.text.Some? ==> u.text == input.text.value
    ensures input.text.None? ==> u.text == r.text
  {
    r.(name := input.name.GetOr(r.name),
       text := input.text.GetOr(r.text),
       image := input.image.GetOr(r.image),
       cookingTime := input.cookingTime.GetOr(r.cookingTime))
  }

  class Store {
    var t: Tables

    ghost predicate Valid()
      reads this
    {
      t.Valid()
    }

    constructor (initial: Tables)
      requires initial.Valid()
      ensures Valid() && t == initial
    {
      t := initial;
    }

    /** `UsersViewSet.subscribe`: POST follows the user `id`, anything else unfollows. */
    method Subscribe(verb: Verb, viewer: UserId, id: UserId) returns (resp: Response)
      requires Valid() && viewer in t.users
      modifies this
      ensures Valid()
      ensures id !in old(t.users) ==> resp == NotFound && t == old(t)
      ensures id in old(t.users) && verb == Delete ==>
                if Link(viewer, id) in old(t.follows)
                then resp == NoContent && t == old(t).(follows := Remove(old(t.follows), Link(viewer, id)))
                else resp == BadRequest(NotFollowing) && t == old(t)
      ensures id in old(t.users) && verb == Post ==>
                if viewer == id then resp == BadRequest(SelfFollow) && t == old(t)
                else if Link(viewer, id) in old(t.follows) then resp == BadRequest(AlreadyFollowing) && t == old(t)
                else resp == Created(id) && t == old(t).(follows := old(t.follows) + [Link(viewer, id)])
    {
      if id !in t.users {
        return NotFound;
      }
      var link := Link(viewer, id);
      if verb == Delete {
        if Exists(t.follows, viewer, id) {
          LinksValidRemove(t.follows, t.users.Keys, t.users.Keys, link);
          WithFollowsValid(t, Remove(t.follows, link));
          t := t.(follows := Remove(t.follows, link));
          resp := NoContent;
        } else {
          resp := BadRequest(NotFollowing);
        }
      } else {
        match ValidateFollow(t.follows, viewer, id)
        case Some(m) =>
          resp := BadRequest(m);
        case None =>
          LinksValidAdd(t.follows, t.users.Keys, t.users.Keys, link);
          WithFollowsValid(t, t.follows + [link]);
          t := t.(follows := t.follows + [link]);
          resp := Created(id);
      }
    }

    /** `post_method_for_actions`: 404 for an unknown recipe, 400 when the
        row exists, otherwise the row is inserted and 201 returned. */
    method PostMethodForActions(kind: Kind, viewer: UserId, pk: RecipeId) returns (resp: Response)
      requires Valid() && viewer in t.users
      modifies this
      ensures Valid()
      ensures RecipeActionOutcome(kind, Post, viewer, pk, old(t), t, resp)
    {
      if pk !in t.recipes {
        return NotFound;
      }
      var link := Link(viewer, pk);
      match ValidateRecipeLink(kind, t.Table(kind), viewer, pk)
      case Some(m) =>
        resp := BadRequest(m);
      case None =>
        assert LinksValid(t.Table(kind), t.users.Keys, t.recipes.Keys);
        LinksValidAdd(t.Table(kind), t.users.Keys, t.recipes.Keys, link);
        WithTableValid(t, kind, t.Table(kind) + [link]);
        t := t.WithTable(kind, t.Table(kind) + [link]);
        resp := Created(pk);
    }

    /** `delete_method_for_actions`: 404 for an unknown recipe, 204 after
        deleting an existing row, 400 when there is none. */
    method DeleteMethodForActions(kind: Kind, viewer: UserId, pk: RecipeId) returns (resp: Response)
      requires Valid() && viewer in t.users
      modifies this
      ensures Valid()
      ensures RecipeActionOutcome(kind, Delete, viewer, pk, old(t), t, resp)
    {
      if pk !in t.recipes {
        return NotFound;
      }
      var link := Link(viewer, pk);
      if Exists(t.Table(kind), viewer, pk) {
        assert LinksValid(t.Table(kind), t.users.Keys, t.recipes.Keys);
        LinksValidRemove(t.Table(kind), t.users.Keys, t.recipes.Keys, link);
        WithTableValid(t, kind, Remove(t.Table(kind), link));
        t := t.WithTable(kind, Remove(t.Table(kind), link));
        resp := NoContent;
      } else {
        resp := BadRequest(AlreadyRemoved(kind));
      }
    }

    /** `RecipeViewSet.favorite`. */
    method Favorite(verb: Verb, viewer: UserId, pk: RecipeId) returns (resp: Response)
      requires Valid() && viewer in t.users
      modifies this
      ensures Valid()
      ensures RecipeActionOutcome(FavoriteKind, verb, viewer, pk, old(t), t, resp)
    {
      if verb == Post {
        resp := PostMethodForActions(FavoriteKind, viewer, pk);
      } else {
        resp := DeleteMethodForActions(FavoriteKind, viewer, pk);
      }
    }

    /** `RecipeViewSet.shopping_cart`. */
    method ShoppingCart(verb: Verb, viewer: UserId, pk: RecipeId) returns (resp: Response)
      requires Valid() && viewer in t.users
      modifies this
      ensures Valid()
      ensures RecipeActionOutcome(CartKind, verb, viewer, pk, old(t), t, resp)
    {
      if verb == Post {
        resp := PostMethodForActions(CartKind, viewer, pk);
      } else {
        resp := DeleteMethodForActions(CartKind, viewer, pk);
      }
    }

    /** POST /recipes/: validation, then `create`: the recipe row with the
        request user as author, its tag set, and one ingredient row per line.
        Nothing runs in a transaction: when a line has no amount, the bulk
        insert of the rows fails on a NOT NULL column after the recipe and
        its tags are stored, and the answer is a server error. */
    method CreateRecipe(viewer: UserId, input: RecipeInput, now: int) returns (resp: Response)
      requires Valid() && viewer in t.users
      modifies this
      ensures Valid()
      ensures ValidateRecipe(input, false, old(t.ingredients.Keys), old(t.tags.Keys)) != {} ==>
                resp == BadRequest(Invalid(ValidateRecipe(input, false, old(t.ingredients.Keys), old(t.tags.Keys))))
                && t == old(t)
      ensures ValidateRecipe(input, false, old(t.ingredients.Keys), old(t.tags.Keys)) == {}
              && !LinesComplete(input.ingredients.value) ==>
                var id := old(t.nextRecipeId);
                && resp == ServerError
                && id !in old(t.recipes)
                && t == old(t).(
                     recipes := old(t.recipes)[id := NewRecipe(viewer, input, now)],
                     recipeTags := old(t.recipeTags) + TagLinks(id, input.tags.value),
                     nextRecipeId := id + 1)
                && RowsOf(t.ingredientRows, id) == []
      ensures ValidateRecipe(input, false, old(t.ingredients.Keys), old(t.tags.Keys)) == {}
              && LinesComplete(input.ingredients.value) ==>
                var id := old(t.nextRecipeId);
                && resp == Created(id)
                && id !in old(t.recipes)
                && t == old(t).(
                     recipes := old(t.recipes)[id := NewRecipe(viewer, input, now)],
                     recipeTags := old(t.recipeTags) + TagLinks(id, input.tags.value),
                     ingredientRows := old(t.ingredientRows) + RowsFor(id, input.ingredients.value),
                     nextRecipeId := id + 1)
                && t.recipes[id].author == viewer
                && RowsOf(t.ingredientRows, id) == RowsFor(id, input.ingredients.value)
    {
      var errors := ValidateRecipe(input, false, t.ingredients.Keys, t.tags.Keys);
      if errors != {} {
        return BadRequest(Invalid(errors));
      }
      var lines, tags := input.ingredients.value, input.tags.value;
      var id := t.nextRecipeId;
      var recipe := NewRecipe(viewer, input, now);
      ghost var before := t;
      ghost var stored := before.(
        recipes := before.recipes[id := recipe],
        recipeTags := before.recipeTags + TagLinks(id, tags),
        nextRecipeId := id + 1);
      assert stored.Valid() by {
        CreatedRecipeValid(before, viewer, input, now);
      }
      // Recipe.objects.create(author=..., **validated_data)
      t := t.(recipes := t.recipes[id := recipe], nextRecipeId := id + 1);
      // recipe.tags.set(tags)
      t := t.(recipeTags := t.recipeTags + TagLinks(id, tags));
      assert t == stored;
      // self.add_ingredients(ingredients, recipe)
      if !LinesComplete(lines) {
        assert RowsOf(t.ingredientRows, id) == [] by {
          FilterNone(before.ingredientRows, (row: IngredientRecipe) => row.recipe == id);
        }
        return ServerError;
      }
      ghost var after := before.(
        recipes := before.recipes[id := recipe],
        recipeTags := before.recipeTags + TagLinks(id, tags),
        ingredientRows := before.ingredientRows + RowsFor(id, lines),
        nextRecipeId := id + 1);
      assert after.Valid() by {
        CreatedValid(before, viewer, input, now);
      }
      assert RowsOf(after.ingredientRows, id) == RowsFor(id, lines) by {
        FreshRecipeRows(before, id, lines);
      }
      t := t.(ingredientRows := t.ingredientRows + RowsFor(id, lines));
      assert t == after;
      resp := Created(id);
    }

    /** PUT (`partial` false) or PATCH (`partial` true) on /recipes/{id}/:
        validation, then `update`: the scalar fields, then the tag set and
        the ingredient rows cleared and written anew. A PATCH body without
        `tags` or `ingredients` fails at `validated_data.pop` before anything
        is written. A line without an amount, or a PATCH line without an
        id, makes the final bulk insert fail after the scalars and the tags
        are stored and the old rows are deleted. */
    method UpdateRecipe(id: RecipeId, input: RecipeInput, partial: bool) returns (resp: Response)
      requires Valid()
      modifies this
      ensures Valid()
      ensures id !in old(t.recipes) ==> resp == NotFound && t == old(t)
      ensures id in old(t.recipes) && ValidateRecipe(input, partial, old(t.ingredients.Keys), old(t.tags.Keys)) != {} ==>
                resp == BadRequest(Invalid(ValidateRecipe(input, partial, old(t.ingredients.Keys), old(t.tags.Keys))))
                && t == old(t)
      ensures id in old(t.recipes) && ValidateRecipe(input, partial, old(t.ingredients.Keys), old(t.tags.Keys)) == {}
              && (input.tags.None? || input.ingredients.None?) ==>
                partial && resp == ServerError && t == old(t)
      ensures id in old(t.recipes) && ValidateRecipe(input, partial, old(t.ingredients.Keys), old(t.tags.Keys)) == {}
              && input.tags.Some? && input.ingredients.Some? && !LinesComplete(input.ingredients.value) ==>
                && resp == ServerError
                && t == old(t).(
                     recipes := old(t.recipes)[id := ApplyUpdate(old(t.recipes[id]), input)],
                     recipeTags := ReplaceTags(old(t.recipeTags), id, input.tags.value),
                     ingredientRows := DropRows(old(t.ingredientRows), id))
                && RowsOf(t.ingredientRows, id) == []
      ensures id in old(t.recipes) && ValidateRecipe(input, partial, old(t.ingredients.Keys), old(t.tags.Keys)) == {}
              && input.tags.Some? && input.ingredients.Some? && LinesComplete(input.ingredients.value) ==>
                && resp == Ok(id)
                && t == old(t).(
                     recipes := old(t.recipes)[id := ApplyUpdate(old(t.recipes[id]), input)],
                     recipeTags := ReplaceTags(old(t.recipeTags), id, input.tags.value),
                     ingredientRows := ReplaceRows(old(t.ingredientRows), id, input.ingredients.value))
    {
      if id !in t.recipes {
        return NotFound;
      }
      var errors := ValidateRecipe(input, partial, t.ingredients.Keys, t.tags.Keys);
      if errors != {} {
        return BadRequest(Invalid(errors));
      }
      if input.tags.None? || input.ingredients.None? {
        return ServerError;
      }
      var tags, lines := input.tags.value, input.ingredients.value;
      ghost var before := t;
      // super().update(instance, validated_data)
      t := t.(recipes := t.recipes[id := ApplyUpdate(t.recipes[id], input)]);
      // instance.tags.clear(); instance.ingredients.clear()
      t := t.(recipeTags := set p | p in t.recipeTags && p.0 != id);
      t := t.(ingredientRows := DropRows(t.ingredientRows, id));
      // instance.tags.set(tags)
      t := t.(recipeTags := t.recipeTags + TagLinks(id, tags));
      // IngredientRecipe.objects.filter(recipe=recipe).delete()
      assert DropRows(t.ingredientRows, id) == t.ingredientRows by {
        FilterIdempotent(before.ingredientRows, (row: IngredientRecipe) => row.recipe != id);
      }
      t := t.(ingredientRows := DropRows(t.ingredientRows, id));
      // self.add_ingredients(ingredients, recipe)
      if !LinesComplete(lines) {
        DroppedValid(before, id, input);
        return ServerError;
      }
      t := t.(ingredientRows := t.ingredientRows + RowsFor(id, lines));
      UpdatedValid(before, id, input, partial);
      resp := Ok(id);
    }

    /** DELETE /recipes/{id}/: the recipe and everything that cascades from it. */
    method DestroyRecipe(id: RecipeId) returns (resp: Response)
      requires Valid()
      modifies this
      ensures Valid()
      ensures id !in old(t.recipes) ==> resp == NotFound && t == old(t)
      ensures id in old(t.recipes) ==> resp == NoContent && t == old(t).DeleteRecipe(id)
    {
      if id !in t.recipes {
        return NotFound;
      }
      DeleteRecipeValid(t, id);
      t := t.DeleteRecipe(id);
      resp := NoContent;
    }

    /** `download_shopping_cart`: the grouped, ordered list of the viewer's
        cart laid out as a document. Reading the store changes nothing. */
    method DownloadShoppingCart(viewer: UserId) returns (ops: seq<PdfLayout.Op>)
      requires Valid()
      ensures ops == PdfLayout.Render(Shopping.ShoppingList(t, viewer))
    {
      ops := PdfLayout.CreatePdfFile(Shopping.ShoppingList(t, viewer));
    }

    /** A client adds a favorite twice, then removes it twice. */
    method FavoriteTwiceRemoveTwice(viewer: UserId, pk: RecipeId) returns (r1: Response, r2: Response, r3: Response, r4: Response)
      requires Valid() && viewer in t.users && pk in t.recipes && Link(viewer, pk) !in t.favorites
      modifies this
      ensures Valid()
      ensures r1 == Created(pk) && r2 == BadRequest(AlreadyAdded(FavoriteKind))
      ensures r3 == NoContent && r4 == BadRequest(AlreadyRemoved(FavoriteKind))
      ensures t == old(t)
    {
      ghost var before := t;
      r1 := Favorite(Post, viewer, pk);
      ghost var mid := t;
      r2 := Favorite(Post, viewer, pk);
      r3 := Favorite(Delete, viewer, pk);
      RecipeActionRoundTrip(FavoriteKind, viewer, pk, before, mid, t, r1, r3);
      r4 := Favorite(Delete, viewer, pk);
    }

    /** A client follows itself, then follows another user twice and
        unfollows twice. */
    method FollowScenario(viewer: UserId, author: UserId) returns (r0: Response, r1: Response, r2: Response, r3: Response, r4: Response)
      requires Valid() && viewer in t.users && author in t.users && viewer != author
      requires Link(viewer, author) !in t.follows
      modifies this
      ensures Valid()
      ensures r0 == BadRequest(SelfFollow)
      ensures r1 == Created(author) && r2 == BadRequest(AlreadyFollowing)
      ensures r3 == NoContent && r4 == BadRequest(NotFollowing)
      ensures t == old(t)
    {
      ghost var before := t;
      r0 := Subscribe(Post, viewer, viewer);
      r1 := Subscribe(Post, viewer, author);
      r2 := Subscribe(Post, viewer, author);
      r3 := Subscribe(Delete, viewer, author);
      RemoveAfterAdd(before.follows, Link(viewer, author));
      r4 := Subscribe(Delete, viewer, author);
    }

    /** Deleting a user account and everything that cascades from it. */
    method DeleteUser(u: UserId)
      requires Valid()
      modifies this
      ensures Valid()
      ensures t == old(t).DeleteUser(u)
    {
      DeleteUserValid(t, u);
      t := t.DeleteUser(u);
    }
  }

  /** Adding a favorite or cart row and then removing it answers 201 then
      204 and leaves the database as it was. */
  lemma RecipeActionRoundTrip(kind: Kind, user: UserId, pk: RecipeId, before: Tables, mid: Tables, after: Tables, r1: Response, r2: Response)
    requires pk in before.recipes && Link(user, pk) !in before.Table(kind)
    requires RecipeActionOutcome(kind, Post, user, pk, before, mid, r1)
    requires RecipeActionOutcome(kind, Delete, user, pk, mid, after, r2)
    ensures r1 == Created(pk) && r2 == NoContent && after == before
  {
    RemoveAfterAdd(before.Table(kind), Link(user, pk));
    match kind
    case FavoriteKind =>
    case CartKind =>
  }

  /** A second add and a second remove are refused and change nothing. */
  lemma RecipeActionRepeat(kind: Kind, verb: Verb, user: UserId, pk: RecipeId, before: Tables, mid: Tables, after: Tables, r1: Response, r2: Response)
    requires RecipeActionOutcome(kind, verb, user, pk, before, mid, r1)
    requires RecipeActionOutcome(kind, verb, user, pk, mid, after, r2)
    ensures r1.Created? || r1.NoContent? ==>
              after == mid && r2 == BadRequest(if verb == Post then AlreadyAdded(kind) else AlreadyRemoved(kind))
  {
  }

  /** A new recipe id owns no ingredient rows yet, so after `create` its rows
      are exactly the submitted lines. */
  lemma FreshRecipeRows(before: Tables, id: RecipeId, lines: seq<IngredientLine>)
    requires before.Valid() && id == before.nextRecipeId && LinesComplete(lines)
    ensures RowsOf(before.ingredientRows + RowsFor(id, lines), id) == RowsFor(id, lines)
  {
    var mine := (row: IngredientRecipe) => row.recipe == id;
    FilterAppend(before.ingredientRows, RowsFor(id, lines), mine);
    FilterNone(before.ingredientRows, mine);
    FilterAll(RowsFor(id, lines), mine);
  }

  /** The rows `add_ingredients` writes for validated lines resolve. */
  lemma RowsForResolve(id: RecipeId, lines: seq<IngredientLine>, ingredientIds: set<IngredientId>, partial: bool)
    requires LinesResolve(lines, ingredientIds, partial) && LinesComplete(lines)
    ensures forall row :: row in RowsFor(id, lines) ==>
              row.recipe == id && row.ingredient in ingredientIds && row.amount >= MinAmount
  {
    forall row | row in RowsFor(id, lines)
      ensures row.recipe == id && row.ingredient in ingredientIds && row.amount >= MinAmount
    {
      var k :| 0 <= k < |RowsFor(id, lines)| && RowsFor(id, lines)[k] == row;
    }
  }

  /** The recipe row and its tag links, stored before the ingredient rows,
      already form a valid database. */
  lemma CreatedRecipeValid(before: Tables, viewer: UserId, input: RecipeInput, now: int)
    requires before.Valid() && viewer in before.users
    requires ValidateRecipe(input, false, before.ingredients.Keys, before.tags.Keys) == {}
    ensures
      var id := before.nextRecipeId;
      before.(
        recipes := before.recipes[id := NewRecipe(viewer, input, now)],
        recipeTags := before.recipeTags + TagLinks(id, input.tags.value),
        nextRecipeId := id + 1).Valid()
  {
    var id := before.nextRecipeId;
    var r := NewRecipe(viewer, input, now);
    var s := before.(recipes := before.recipes[id := r], nextRecipeId := id + 1);
    var links := before.recipeTags + TagLinks(id, input.tags.value);
    assert s.(recipeTags := links, ingredientRows := before.ingredientRows).Valid() by {
      assert CookingTimeInRange(r.cookingTime);
      AddRecipeValid(before, r);
      RecipeContentsValid(s, links, before.ingredientRows);
    }
    assert s.(recipeTags := links, ingredientRows := before.ingredientRows) == before.(
      recipes := before.recipes[id := r], recipeTags := links, nextRecipeId := id + 1);
  }

  lemma CreatedValid(before: Tables, viewer: UserId, input: RecipeInput, now: int)
    requires before.Valid() && viewer in before.users
    requires ValidateRecipe(input, false, before.ingredients.Keys, before.tags.Keys) == {}
    requires LinesComplete(input.ingredients.value)
    ensures
      var id := before.nextRecipeId;
      before.(
        recipes := before.recipes[id := NewRecipe(viewer, input, now)],
        recipeTags := before.recipeTags + TagLinks(id, input.tags.value),
        ingredientRows := before.ingredientRows + RowsFor(id, input.ingredients.value),
        nextRecipeId := id + 1).Valid()
  {
    var id := before.nextRecipeId;
    var r := NewRecipe(viewer, input, now);
    var s := before.(recipes := before.recipes[id := r], nextRecipeId := id + 1);
    var links := before.recipeTags + TagLinks(id, input.tags.value);
    var rows := before.ingredientRows + RowsFor(id, input.ingredients.value);
    assert s.(recipeTags := links, ingredientRows := rows).Valid() by {
      assert CookingTimeInRange(r.cookingTime);
      AddRecipeValid(before, r);
      RowsForResolve(id, input.ingredients.value, before.ingredients.Keys, false);
      RecipeContentsValid(s, links, rows);
    }
    assert s.(recipeTags := links, ingredientRows := rows) == before.(
      recipes := before.recipes[id := r], recipeTags := links, ingredientRows := rows, nextRecipeId := id + 1);
  }

  /** The state an update leaves when its final insert fails: scalars and
      tags written, the recipe's old rows gone. */
  lemma DroppedValid(before: Tables, id: RecipeId, input: RecipeInput)
    requires before.Valid() && id in before.recipes
    requires input.tags.Some? && TagsResolve(input.tags.value, before.tags.Keys)
    requires input.cookingTime.Some? ==> CookingTimeInRange(input.cookingTime.value)
    ensures
      before.(
        recipes := before.recipes[id := ApplyUpdate(before.recipes[id], input)],
        recipeTags := ReplaceTags(before.recipeTags, id, input.tags.value),
        ingredientRows := DropRows(before.ingredientRows, id)).Valid()
  {
    var s := before.(recipes := before.recipes[id := ApplyUpdate(before.recipes[id], input)]);
    ReplaceRecipeValid(before, id, ApplyUpdate(before.recipes[id], input));
    RecipeContentsValid(s, ReplaceTags(before.recipeTags, id, input.tags.value), DropRows(before.ingredientRows, id));
  }

  lemma UpdatedValid(before: Tables, id: RecipeId, input: RecipeInput, partial: bool)
    requires before.Valid() && id in before.recipes
    requires ValidateRecipe(input, partial, before.ingredients.Keys, before.tags.Keys) == {}
    requires input.tags.Some? && input.ingredients.Some? && LinesComplete(input.ingredients.value)
    ensures
      before.(
        recipes := before.recipes[id := ApplyUpdate(before.recipes[id], input)],
        recipeTags := ReplaceTags(before.recipeTags, id, input.tags.value),
        ingredientRows := ReplaceRows(before.ingredientRows, id, input.ingredients.value)).Valid()
  {
    var s := before.(recipes := before.recipes[id := ApplyUpdate(before.recipes[id], input)]);
    ReplaceRecipeValid(before, id, ApplyUpdate(before.recipes[id], input));
    RowsForResolve(id, input.ingredients.value, before.ingredients.Keys, partial);
    RecipeContentsValid(s, ReplaceTags(before.recipeTags, id, input.tags.value), ReplaceRows(before.ingredientRows, id, input.ingredients.value));
  }
}
