# Foodgram backend — a Dafny model

Foodgram is a recipe-sharing backend built on Django and Django REST
framework. Users publish recipes with tags and ingredient lines. They follow
authors, mark recipes as favorites and put recipes in a shopping cart. The
cart can be downloaded as a PDF shopping list: the ingredients of every
carted recipe, grouped by (name, measurement unit), with the amounts summed.

This project models the core of that backend and proves properties of the
model:

- **Database** (`models.dfy`, `links.dfy`). The database is one value,
  `Models.Tables`: users, tags, ingredients and recipes keyed by id, the
  recipe–tag links, the ingredient rows in table order, and the Favorite,
  ShoppingCart and Follow tables as sequences of `(user, target)` pairs.
  The field bounds, unique constraints and foreign keys form its invariant
  `Tables.Valid`. The `ON DELETE CASCADE` rules are the functions
  `DeleteRecipes`, `DeleteRecipe` and `DeleteUser`.
- **Request handlers** (`api.dfy`). The class `Api.Store` holds the
  database in its one field `t`. Its methods are the handlers that write:
  - subscribe and unsubscribe;
  - add or remove a favorite or a cart entry, through the one helper pair
    that both use;
  - recipe create, update and delete;
  - account deletion.

  Each method states its full new state and its response. It keeps
  `Valid`.
- **Serializers** (`serializers.dfy`):
  - validation of a submitted recipe, of a follow and of a favorite or cart
    row;
  - the per-viewer flags `is_subscribed`, `is_favorited` and
    `is_in_shopping_cart`;
  - `get_recipes` and `get_recipes_count`;
  - the ingredient rows and tag links that `create` and `update` write.
- **Shopping list** (`shopping.dfy`). The query is a join, a group-by with
  a sum, and an order-by. It is proved against a reference sum `Total`.
- **PDF layout** (`pdf.dfy`). The loop of `create_pdf_file` is a method
  proved equal to a closed-form layout `Render`. The canvas is reduced to
  the sequence of calls made on it.
- **Filters** (`filters.dfy`): the recipe filters and the ingredient
  search.
- **Image field** (`fields.dfy`): the data-URI header parsing of the image
  field.

Generic support modules:

- `seqs.dfy`: queryset `.filter()`;
- `sorting.dfy`: a stable insertion sort standing for `ORDER BY`;
- `text.dfy`: case folding, code-point order, Python's `str.split`, decimal
  rendering;
- `wrappers.dfy`: `Option` and `Result`.

The settings select SQLite (`backend/foodgram/settings.py:56`). The model
therefore follows SQLite's semantics in two places:

- `LIKE` folds the case of ASCII letters only;
- `ORDER BY` on a text column compares code points.

Two behaviours of the recipe writes shape the model:

- **No transaction.** Neither create nor update runs in a transaction: the
  database settings do not set `ATOMIC_REQUESTS`
  (`backend/foodgram/settings.py:54-58`) and the serializer opens none.
  The ingredient `amount` has a model default
  (`backend/recipes/models.py:100-103`), so DRF does not require it. On a
  PATCH, DRF also skips an absent `id` inside an ingredient line.
  `add_ingredients` passes `ingredient.get('id')` and
  `ingredient.get('amount')` on to the row. A line without an amount, or a
  PATCH line without an id, therefore passes validation and then makes the
  bulk insert fail on a NOT NULL column. Two id-less lines of one PATCH
  share the id None and are refused as duplicates. The answer is a server
  error, and
  what was written before stays: on create the recipe row and its tags,
  on update the new scalar fields and tags with the recipe's old
  ingredient rows deleted (`Api.Store.CreateRecipe`,
  `Api.Store.UpdateRecipe`).
- **PUT and PATCH.** The recipe viewset accepts both. A PATCH is validated
  with `partial=True`, so absent fields are not required. Then `update`
  pops `tags` and `ingredients` unconditionally. A PATCH body without
  either key fails with a server error before anything is written. A PUT
  is validated like a create, so it answers 400 when either key is
  missing.

## Model

| member | source | states |
|---|---|---|
| Models.Tables.DeleteRecipes | backend/recipes/models.py:89-166 | deleting recipes removes exactly their ingredient rows, tag links, favorite and cart rows; every other recipe keeps its ingredient rows in order with every copy; users, follows and other recipes are untouched |
| Models.Tables.DeleteRecipe | backend/recipes/models.py:95-99 | after deleting a recipe no ingredient row, tag link, favorite or cart row names it; every other recipe, its ingredient rows in order, its tag links, favorites and cart rows are kept; users, follows, tags, ingredients and the next id are unchanged |
| Models.Tables.DeleteUser | backend/recipes/models.py:48-53 | deleting a user removes exactly: the user, the user's recipes, the ingredient rows and tag links of those recipes, every favorite and cart row that is the user's or names one of those recipes, and every Follow row with the user on either side; everything else, tags and ingredients included, is kept, and every other recipe keeps its ingredient rows in order with every copy |
| Models.DeleteRecipesValid | backend/recipes/models.py:89-166 | the cascade of a recipe deletion leaves a consistent database |
| Models.DeleteRecipeValid | backend/recipes/models.py:95-99 | deleting one recipe keeps every constraint |
| Models.DeleteUserValid | backend/users/models.py:33-54 | deleting a user keeps every constraint, including unique Follow pairs |
| Models.SelfFollowAdmitted | backend/users/models.py:48-54 | the Follow model has no check against following oneself: a database with a row (u, u) satisfies every constraint |
| Models.LinksValidAdd | backend/recipes/models.py:132-137 | inserting a pair absent from a relation table keeps its pairs unique |
| Models.ListingSpec | backend/recipes/models.py:83 | the recipe listing holds every recipe once, in non-increasing `pub_date` order |
| Models.ListingSorted | backend/recipes/models.py:83 | the listing is sorted newest first |
| Links.Exists | backend/api/views.py:153-157 | the existence query is true iff the (user, target) row is in the table |
| Links.Remove | backend/api/views.py:157-158 | deleting a pair removes it and nothing else, and keeps the table free of duplicates |
| Links.RemoveExactlyOne | backend/api/views.py:153-158 | in a table with unique pairs, deleting a pair removes exactly the one row that holds it |
| Links.RemoveAbsent | backend/api/views.py:157-163 | deleting an absent pair leaves the table as it is |
| Links.RemoveAfterAdd | backend/api/views.py:139-163 | inserting a new pair and then deleting it gives back the original table |
| Links.AddKeepsUnique | backend/recipes/models.py:161-166 | appending a pair not yet present keeps the pairs unique |
| Serializers.ValidateIngredients | backend/api/serializers.py:225-234 | fails iff two submitted lines share an ingredient id; otherwise returns the lines unchanged |
| Serializers.ValidateTags | backend/api/serializers.py:236-242 | fails iff the tag list has a duplicate; otherwise returns the list unchanged |
| Serializers.IngredientsErrors | backend/api/serializers.py:195-234 | no error iff the field is present (or the request is partial), every id given names an existing ingredient, an id is absent only on a PATCH, every amount given is at least 1 (an absent amount is accepted) and the ids, None included, are distinct |
| Serializers.MissingIdOnPatch | backend/api/serializers.py:195-234 | a line without an id is refused on a create or PUT and passes a PATCH, and two such lines are refused as duplicates |
| Serializers.MissingAmountAccepted | backend/api/serializers.py:195-202 | a line without an amount passes the validation of a create and of an update |
| Serializers.TagsErrors | backend/api/serializers.py:213-242 | no error iff the field is present (or partial) and every tag exists and none repeats |
| Serializers.NameErrors | backend/recipes/models.py:46 | no error iff the name is present (or partial), not blank and at most 200 characters |
| Serializers.CookingTimeErrors | backend/recipes/models.py:58-62 | no error iff the cooking time, when given, lies in [1, 300] |
| Serializers.ValidateRecipe | backend/api/serializers.py:205-242 | the error set is empty iff every field rule holds, with an absent line id accepted only on a PATCH; the duplicate errors are reported exactly when the lines and tags pass their own fields and an id repeats, an absent line id counting as one value |
| Serializers.ValidateFollow | backend/api/serializers.py:166-185 | following oneself is refused first; otherwise a duplicate (user, following) pair is refused; nothing else is |
| Serializers.ValidateRecipeLink | backend/api/serializers.py:300-327 | a favorite or cart row is refused exactly when the (user, recipe) pair already exists |
| Serializers.ViewerHasRow | backend/api/serializers.py:121-133 | true iff there is a viewer and the viewer's row for the target exists |
| Serializers.GetIsSubscribed | backend/api/serializers.py:30-41 | false without a signed-in viewer; otherwise true iff the viewer follows the author |
| Serializers.GetIsFavorited | backend/api/serializers.py:121-126 | false without a signed-in viewer; otherwise true iff the viewer's favorite row exists |
| Serializers.GetIsInShoppingCart | backend/api/serializers.py:128-133 | false without a signed-in viewer; otherwise true iff the viewer's cart row exists |
| Serializers.ViewerFlagFollowsTable | backend/api/serializers.py:121-133 | adding a row makes its owner's flag true and removing it makes the flag false |
| Serializers.AuthorRecipesSpec | backend/api/serializers.py:349-352 | the author's recipes are exactly the recipes with that author, each once, newest first |
| Serializers.GetRecipes | backend/api/serializers.py:349-355 | at most `recipes_limit` recipes, all by the author, a prefix of the author's newest-first list, the whole list when it is shorter; a negative limit is refused |
| Serializers.GetRecipesCount | backend/api/serializers.py:357-359 | the count equals the number of recipes with that author |
| Serializers.RowsFor | backend/api/serializers.py:244-253 | when every line gives its id and amount: one row per submitted line, in order, with that line's ingredient and amount and the given recipe |
| Serializers.DropRows | backend/api/serializers.py:283 | exactly the rows of other recipes are kept, each other recipe's rows in order with every copy, so the recipe has no rows left |
| Serializers.ReplaceRowsExact | backend/api/serializers.py:280-284 | after an update the recipe's ingredient rows are exactly the submitted lines |
| Serializers.ReplaceRowsOthers | backend/api/serializers.py:283-284 | an update leaves every other recipe's ingredient rows as they were |
| Serializers.ReplaceRowsIdempotent | backend/api/serializers.py:270-286 | submitting the same lines twice leaves the same rows as submitting them once |
| Serializers.TagLinks | backend/api/serializers.py:266 | the links written are exactly (recipe, t) for the submitted tags t |
| Serializers.ReplaceTags | backend/api/serializers.py:280-282 | after an update the recipe's tags are exactly the submitted ones; other recipes' links are unchanged |
| Api.Store.Subscribe | backend/api/views.py:94-118 | 404 for an unknown user and no change; unsubscribe deletes the existing row with 204 and changes nothing else, or answers 400 and changes nothing; subscribe refuses self-follow and duplicates with 400, else appends the row with 201 |
| Api.Store.PostMethodForActions | backend/api/views.py:138-147 | 404 for an unknown recipe; 400 when the (user, recipe) row exists; otherwise exactly that row is inserted and 201 returned |
| Api.Store.DeleteMethodForActions | backend/api/views.py:149-163 | 404 for an unknown recipe; an existing row is deleted with 204; otherwise 400 and nothing changes |
| Api.Store.Favorite | backend/api/views.py:165-172 | the shared outcome on the favorite table, for either verb |
| Api.Store.ShoppingCart | backend/api/views.py:174-181 | the same outcome as Favorite, on the cart table |
| Api.Store.CreateRecipe | backend/api/serializers.py:244-268 | invalid input: 400 with the errors and no change; a line without an amount: a server error after the recipe under a fresh id and its tag links are stored, with no ingredient rows; otherwise that recipe, its tag links and exactly one ingredient row per line, and nothing else changes |
| Api.Store.UpdateRecipe | backend/api/serializers.py:244-286 | for PUT and PATCH: 404 for an unknown recipe; 400 on a validation error; a server error and no change when a PATCH lacks tags or ingredients; a line without an amount, or a PATCH line without an id: a server error after the scalar fields and tags are written and the recipe's rows deleted; otherwise the scalar fields updated and the tags and rows replaced, all else unchanged |
| Api.Store.DestroyRecipe | backend/api/views.py:121-130 | 404 for an unknown recipe, otherwise 204 and the cascade deletion |
| Api.Store.DeleteUser | backend/users/models.py:36-46 | the account deletion with all its cascades, including both Follow foreign keys, keeping the constraints |
| Api.Store.DownloadShoppingCart | backend/api/views.py:183-200 | the document laid out from the viewer's shopping list; the store is not modified |
| Api.Store.FavoriteTwiceRemoveTwice | backend/api/views.py:138-172 | add, add again, remove, remove again answer 201, 400, 204, 400 and leave the database as it was |
| Api.Store.FollowScenario | backend/api/views.py:94-118 | self-follow is refused; follow, follow again, unfollow, unfollow again answer 201, 400, 204, 400 and leave the database as it was |
| Api.RecipeActionRoundTrip | backend/api/views.py:138-163 | adding a new favorite or cart row and then removing it answers 201 then 204 and restores the database |
| Api.RecipeActionRepeat | backend/api/views.py:138-163 | repeating a successful add or remove is refused with 400 and changes nothing |
| Api.ApplyUpdate | backend/api/serializers.py:279 | the scalar update keeps the author and the publication date; a given `text`, an explicit `null` included, replaces the old text and an absent one keeps it |
| Api.FreshRecipeRows | backend/api/serializers.py:244-268 | a newly created recipe's ingredient rows are exactly its submitted lines |
| Api.RowsForResolve | backend/api/serializers.py:244-253 | the rows written for validated lines reference existing ingredients and have amount at least 1 |
| Api.CreatedRecipeValid | backend/api/serializers.py:262-266 | the recipe row and tag links a validated create stores first keep every database constraint |
| Api.CreatedValid | backend/api/serializers.py:255-268 | a validated create keeps every database constraint |
| Api.DroppedValid | backend/api/serializers.py:279-283 | the state an update leaves when its final insert fails keeps every database constraint |
| Api.UpdatedValid | backend/api/serializers.py:270-286 | a validated update keeps every database constraint |
| Shopping.CartRows | backend/api/views.py:190-192 | exactly the ingredient rows whose recipe is in the user's cart |
| Shopping.Items | backend/api/views.py:193-196 | each row joined with its ingredient's name and unit, amount kept, in order |
| Shopping.AddItemTotal | backend/api/views.py:193-198 | adding an item raises its group's total by its amount and leaves other groups' totals alone |
| Shopping.AddItemDistinct | backend/api/views.py:193-198 | adding an item never creates a second group with the same (name, unit) |
| Shopping.GroupSpec | backend/api/views.py:193-198 | grouping yields each (name, unit) of the items exactly once, each total being the sum of that key's amounts |
| Shopping.TotalPositive | backend/recipes/models.py:100-103 | with amounts at least 1, every group present sums to at least 1 |
| Shopping.CartItemsPositive | backend/recipes/models.py:100-103 | every row the query reads has amount at least 1 |
| Shopping.EmptyCartItems | backend/api/views.py:190-192 | a user with an empty cart reads no rows |
| Shopping.NameLeTotalPreorder | backend/api/views.py:196-198 | ordering by name is total and transitive |
| Shopping.ShoppingListSpec | backend/api/views.py:190-199 | sorted by name; one entry per distinct (name, unit) of the carted rows and no other; each total is the sum of the amounts and at least 1; an empty cart gives an empty list |
| PdfLayout.NextLine | backend/api/pdf_downloader.py:32-36 | the page breaks exactly after every 38th line; otherwise the next line is 20 lower |
| PdfLayout.CreatePdfFile | backend/api/pdf_downloader.py:20-37 | the loop's calls equal the closed-form layout: the title, then per entry its line at y = 20 + 20·(i mod 38), a break after every 38th, and a final page end |
| PdfLayout.ItemOpsShape | backend/api/pdf_downloader.py:25-36 | one entry draws exactly its line and ends a page only after a 38th line |
| PdfLayout.BodyLines | backend/api/pdf_downloader.py:24-31 | one line per entry, in input order, numbered from 1, at x = 10 |
| PdfLayout.RenderLines | backend/api/pdf_downloader.py:21-31 | the title is drawn first and only once; then the k-th entry's line "{k}. {name}, {sum} {unit}." |
| PdfLayout.LineYBounds | backend/api/pdf_downloader.py:23-36 | every entry line lies within y in [20, 760] |
| PdfLayout.BodyPageBreaks | backend/api/pdf_downloader.py:33-36 | before entry k, k div 38 pages have ended, so a page holds at most 38 lines |
| PdfLayout.RenderPages | backend/api/pdf_downloader.py:33-37 | the document has n div 38 + 1 pages |
| PdfLayout.TrailingBlankPage | backend/api/pdf_downloader.py:33-37 | for a positive multiple of 38 entries the document ends with a page break, a font change and a second page break, so its last page is empty |
| PdfLayout.LineStartsWithNumber | backend/api/pdf_downloader.py:28-30 | a line starts with its number followed by '.' |
| PdfLayout.LineNumberReadBack | backend/api/pdf_downloader.py:24-28 | the number before the first '.' of a line reads back as the line's number |
| Filters.AuthorContainsFilter | backend/api/filters.py:6-9 | keeps the recipes whose author id, as text, contains the value (ASCII case folded); an empty value changes nothing |
| Filters.AuthorContainsCounterexample | backend/api/filters.py:6-9 | the value "1" keeps a recipe by author 10 |
| Filters.AuthorFilter | backend/api/filters.py:6-9 | keeps the recipes whose author id is the value; an empty value changes nothing |
| Filters.AuthorFilterExact | backend/api/filters.py:6-9 | asked for author a, keeps exactly a's recipes |
| Filters.TagsFilter | backend/api/filters.py:17-21 | fails iff a slug names no tag; no slugs change nothing; otherwise keeps the recipes with a tag among the slugs |
| Filters.TagsFilterUnion | backend/api/filters.py:17-21 | several slugs select the union of what each slug selects |
| Filters.ViewerRowFilter | backend/api/filters.py:23-31 | with a viewer and a true value, the recipes with the viewer's row; otherwise the input unchanged |
| Filters.FavoritedFilter | backend/api/filters.py:23-26 | with a viewer and true, exactly the viewer's favorites among the input; otherwise (false, absent or anonymous) the input unchanged |
| Filters.InShoppingCartFilter | backend/api/filters.py:28-31 | with a viewer and true, exactly the viewer's carted recipes among the input; otherwise (false, absent or anonymous) the input unchanged |
| Filters.FavoritedFilterMatchesFlag | backend/api/filters.py:23-25 | with `is_favorited=true` a recipe is kept iff its serialized `is_favorited` is true for that viewer |
| Filters.FavoritedCartCommute | backend/api/filters.py:10-16 | the favorite and cart filters give the same result in either order |
| Filters.LaterFilters | backend/api/filters.py:10-31 | an unknown slug fails; otherwise a recipe is kept iff it passes the favorite, cart and tag filters the query switches on |
| Filters.RecipeFilter | backend/api/filters.py:5-35 | as written: an unknown slug fails; otherwise a recipe is kept iff its author id contains the `author` text and it passes every other filter the query switches on |
| Filters.CorrectedRecipeFilter | backend/api/filters.py:5-35 | as intended: the same, with the author id equal to the `author` text |
| Filters.CorrectedRecipeFilterWithin | backend/api/filters.py:6-9 | the filter as written fails exactly when the corrected one does, keeps everything the corrected one keeps, and equals it when `author` is empty |
| Filters.IngredientSearchAscii | backend/api/filters.py:57-59 | keeps the ingredients whose ASCII-folded name starts with the ASCII-folded query; an empty query changes nothing |
| Filters.IngredientSearchAsciiCounterexample | backend/api/filters.py:57-59 | the query "С" misses "соль" although the name starts with it ignoring case |
| Filters.IngredientSearch | backend/api/filters.py:57-59 | keeps the ingredients whose name starts with the query, ignoring case for ASCII and Cyrillic |
| Filters.IngredientSearchIgnoresCase | backend/api/filters.py:59 | the result does not depend on the case of the query |
| Filters.IngredientSearchFindsPrefix | backend/api/filters.py:59 | every ingredient is found by any prefix of its name |
| Fields.ToInternalValue | backend/api/fields.py:20-25 | other input passes unchanged; a "data:image" string fails iff ";base64," does not occur exactly once; otherwise the payload follows the separator and the name is "temp." plus the text after the header's last '/' |
| Fields.SplitInTwo | backend/api/fields.py:22 | splitting on ";base64," gives two pieces iff it occurs exactly once, and the pieces are the text around it |
| Fields.SeparatorNoOverlap | backend/api/fields.py:22 | two occurrences of ";base64," never overlap |
| Fields.LastPieceIsExtension | backend/api/fields.py:23 | the last piece of `header.split('/')` ends the header, contains no '/', and is the whole header or follows a '/' |
| Fields.ColorToRepresentation | backend/api/fields.py:9-10 | the stored color is shown unchanged |
| Text.Split | backend/api/fields.py:22 | Python's `str.split` on a non-empty separator yields at least one piece |
| Text.JoinSplit | backend/api/fields.py:22 | joining the pieces with the separator gives back the string |
| Text.SplitPiecesFree | backend/api/fields.py:22-23 | no piece of a split contains the separator |
| Text.NatToString | backend/api/pdf_downloader.py:28 | the decimal text of a number is non-empty digits with no leading zero |
| Text.ParseNatToString | backend/api/pdf_downloader.py:28 | reading back the decimal text gives the number |
| Text.LexTotal | backend/api/views.py:196-198 | any two names are ordered one way or the other |
| Text.LexTransitive | backend/api/views.py:196-198 | the name order is transitive |
| Text.LowerStrIdempotent | backend/api/filters.py:59 | folding case twice is folding once |

## Left out

- Permissions. Only authors may change or delete a recipe, and anonymous
  users may not write. The request user is a parameter and is assumed to be
  signed in for every write. The 401 and 403 answers are not modelled.
- HTTP and DRF plumbing is not modelled: routers, pagination, token login,
  user registration through djoser, the read-only tag and ingredient
  viewsets, and response bodies. Responses are reduced to a status and an
  error message.
- The subscriptions list view (`backend/api/views.py:70-92`) and
  `SubscriptionsFilter`. The filter is not used by the views.
- `recipes_limit` parsing: a missing or non-numeric value raises in
  `int()`. `Serializers.GetRecipes` takes an integer limit.
- reportlab: fonts, the translation by 1 cm, the byte buffer and the file
  response. The canvas is reduced to its `setFont`, `drawString` and
  `showPage` calls.
- Base64 decoding, image validation and storage, and
  `webcolors.hex_to_name`. The upload payload is kept as the encoded text.
  The recipe handlers take any image string as valid. In the code, a
  `data:image` value without exactly one `;base64,` raises `ValueError`
  during validation, which is a server error before any write.
  `Fields.ToInternalValue` models that parsing, but no handler calls it.
- `load_data.py`, the admin modules, migrations and settings.
- Concurrency and races on unique constraints. Each write of a handler is
  a step of its own, as no handler runs in a transaction.
- Row ids of IngredientRecipe, Favorite, ShoppingCart and Follow. Rows
  are kept in insertion order instead.
- Models.IsWordChar: approximates `\w` by ASCII letters, digits, `_` and
  the Cyrillic block, not the full Unicode classes.
- Serializers.NameErrors: DRF trims surrounding whitespace before checking
  the length and storing the name. The model checks the untrimmed name, and
  a blank name is one made only of whitespace.
- Api.Store.UpdateRecipe: an explicit `null` image and an absent one are
  both `None`. An absent image keeps the old one. An explicit `null` for
  `text` is modelled and clears the text.
- Api.Store.CreateRecipe, Api.Store.UpdateRecipe: an explicit `null` for
  `name`, `tags`, `ingredients` or `cooking_time` is not an input of the
  model. DRF refuses it with a 400 ("may not be null"); the model reads
  only absent keys, which on a create gives `cooking_time` its default.
- Shopping.ShoppingList: entries with the same name but different units
  keep their order of first appearance. The database leaves that order
  unspecified.
- Models.Listing: recipes with equal `pub_date` are in some fixed order of
  the model. The database leaves that order unspecified.
- Filters.TagsFilter: the error does not say which slug was unknown.
- Invalid boolean strings for `is_favorited` and `is_in_shopping_cart`
  are not modelled.
- Integer widths are not modelled: `PositiveIntegerField` and the summed
  amounts are unbounded.

## Findings

| source | as written | input that shows it | evidently intended | confidence | as-written member | corrected member |
|---|---|---|---|---|---|---|
| backend/api/filters.py:6-9 | the `author` filter looks up `author__id` with `icontains`, a substring match on the id's text | `?author=1` keeps the recipes of author 10, 11, 21, … (`Filters.AuthorContainsCounterexample`) | keep only the recipes of the author with that id | not executed; high | Filters.AuthorContainsFilter | Filters.AuthorFilter |
| backend/api/filters.py:57-59 | `istartswith` on the SQLite database compiles to `LIKE`, which folds only ASCII letters | the query "С" does not find the ingredient "соль" (`Filters.IngredientSearchAsciiCounterexample`) | a case-insensitive prefix search for the Cyrillic ingredient names the data is written in | not executed; medium | Filters.IngredientSearchAscii | Filters.IngredientSearch |

`Filters.RecipeFilter` composes the author filter as written and
`Filters.CorrectedRecipeFilter` composes the corrected one.
