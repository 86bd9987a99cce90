# Foodgram recipe store — a verified model

This project models the recipe-consistency core of the foodgram backend, a Django REST service
where users publish recipes, mark favourites, fill a shopping cart and follow other authors.
The database is an in-memory store: the class `Store.Db` holds one field per table. Each
`@transaction.atomic` request is one all-or-nothing method: either every write happens or, on
an error, nothing changes.

- `models.dfy` (`Models`): ids, row types, field bounds, the key of each uniqueness constraint,
  and the error kinds the API reports: validation error (400), not found (404), uncaught
  exception (500).
- `tables.dfy` (`Tables`): a relation table is a sequence of rows. `Filter` is a `.filter()`
  query. `UniqueBy` states a `UniqueConstraint`.
- `serializers.dfy` (`Serializers`): the recipe request checks. These are the field checks of
  `AddRecipeSerializer` followed by its `validate` loop, modelled as a method proved equal to a
  specification function. The module also covers `SubscribeSerializer.validate`, the
  `is_favorited`, `is_in_shopping_cart` and `is_subscribed` booleans, and the recipes embedded in
  a subscription.
- `shopping_list.dfy` (`ShoppingList`): the shopping-list query. It joins the cart with the
  ingredient-amount rows, groups by (name, unit), sums the amounts and orders by name.
- `store.dfy` (`Store`): the store class and its write operations.
  - Recipe create and update are replace-all: clear, then bulk-insert.
  - Recipe delete cascades to the rows that refer to the recipe.
  - The cart, favourite and subscription endpoints are modelled.
  - The class invariant holds all the table constraints.

The `## Model` table below lists each modelled member, the source lines it models, and what its
contract states.

## Model

| member | source | states |
|---|---|---|
| Serializers.Validate | backend/foodgram/api/serializers.py:183-211 | The loop that keeps the growing list of seen ids returns exactly the verdict of `validate`. An absent cooking time makes `int(None)` raise, which is a server error. A cooking time <= 0 is rejected next. An empty ingredient list is rejected next. Then the first entry with an amount <= 0 or an already-seen id is rejected. |
| Serializers.Scan | backend/foodgram/api/serializers.py:194-210 | Every rejection of the entry scan is a validation error that names a bad amount or a repeated ingredient. |
| Serializers.ScanReportsFirstOffender | backend/foodgram/api/serializers.py:194-210 | The scan reports the first entry that is not acceptable. For that entry, a bad amount is reported in preference to a repeated id. |
| Serializers.ScanPassIff | backend/foodgram/api/serializers.py:194-211 | The scan from position i passes if and only if every entry from i on has a positive amount and an id not seen before it. |
| Serializers.AcceptableEverywhereIff | backend/foodgram/api/serializers.py:194-210 | Every entry passes its step of the scan if and only if all amounts are positive and the ids are pairwise distinct. |
| Serializers.ValidationPassIff | backend/foodgram/api/serializers.py:183-211 | `validate` accepts if and only if the cooking time is present and positive and the ingredient list is non-empty, with positive amounts and pairwise distinct ids. |
| Serializers.SpacesFrom | backend/foodgram/api/serializers.py:141-150 | The leading run of whitespace that `str.strip()` removes: every character before the returned index is whitespace, and the character at it is not. |
| Serializers.SpacesBefore | backend/foodgram/api/serializers.py:141-150 | The trailing run of whitespace that `str.strip()` removes, never reaching into the leading run. |
| Serializers.TrimBlankIff | backend/foodgram/api/serializers.py:141-150 | A CharField's stripped value is blank exactly when every character is whitespace. Otherwise it starts and ends with a character that is not whitespace. |
| Serializers.TrimIdempotent | backend/foodgram/api/serializers.py:141-150 | Stripping a stripped value changes nothing. |
| Serializers.FirstUnknown | backend/foodgram/api/serializers.py:134-137 | The primary-key field check finds no unknown id exactly when every id exists. An id it reports is submitted and unknown, and every id before its first occurrence is known. |
| Serializers.CheckRecipePassIff | backend/foodgram/api/serializers.py:133-211 | `is_valid` (field checks, then `validate`) accepts if and only if all of these hold. Every tag and ingredient id exists. The name, stripped of surrounding whitespace, has 1..200 characters and no NUL character. The stripped text is non-empty and has no NUL character. The cooking time is present and lies in [1, 1440]. The ingredient list is non-empty with positive amounts and distinct ids. |
| Serializers.CheckRecipeSeesStripped | backend/foodgram/api/serializers.py:141-150 | The verdict on a request is the verdict on the same request with name and text already stripped: surrounding whitespace never decides acceptance. |
| Serializers.CheckRecipe | backend/foodgram/api/serializers.py:133-211 | Every rejection is a validation error, except the server error that only an absent cooking time can cause. An accepted request always carries a cooking time. |
| Serializers.CookingTimeCheckShadowed | backend/foodgram/api/serializers.py:184-188 | The cooking-time check of `validate` can never be the reason for a rejection, because the field's minimum already rejects a given cooking time <= 0. Such a request is still always rejected. |
| Serializers.CheckFollow | backend/foodgram/api/serializers.py:262-273 | Following oneself is rejected whatever the table holds. Otherwise the request passes if and only if no (user, author) row exists. Every rejection is a validation error. |
| Serializers.InList | backend/foodgram/api/serializers.py:120-124 | False for an anonymous viewer; otherwise true exactly when a (viewer, recipe) row exists in the table. |
| Serializers.IsSubscribed | backend/foodgram/api/serializers.py:84-89 | False for an anonymous viewer; otherwise true exactly when a (viewer, author) follow row exists. |
| Serializers.EmbeddedRecipes | backend/foodgram/api/serializers.py:299-311 | Fails if and only if the limit is negative. The result is a prefix of the author's recipes and contains only that author's recipes. Without a limit it is all of them; with limit n it has min(n, count) entries. |
| Serializers.RecipesCount | backend/foodgram/api/serializers.py:313-314 | The count equals the number of positions in the recipe listing that hold a recipe by the author. So it is at most the table size, and 0 exactly when the author has no recipe. |
| Tables.FilterLength | backend/foodgram/api/serializers.py:313-314 | A filter returns one row per position whose row passes it, which is what `.count()` of a filtered query counts. |
| ShoppingList.InsertSorted | backend/foodgram/api/views.py:111-115 | Adding a row to a strictly ordered group list keeps it strictly ordered and adds exactly the row's (name, unit) key. |
| ShoppingList.InsertLookup | backend/foodgram/api/views.py:115 | Adding a row raises the total of its own group by its amount and leaves every other group's total unchanged. |
| ShoppingList.Aggregate | backend/foodgram/api/views.py:111-115 | The grouped result is strictly ordered by (name, unit), and its keys are exactly the keys of the rows. |
| ShoppingList.AggregateTotals | backend/foodgram/api/views.py:115 | Each group's total is the sum of the amounts of the rows with its key. |
| ShoppingList.CartLinesTotal | backend/foodgram/api/views.py:109-115 | For a key, the summed join rows equal the sum of the amounts of the ingredient-amount rows that belong to a recipe in the user's cart and have that key. |
| ShoppingList.CartLinesKeys | backend/foodgram/api/views.py:109-112 | A (name, unit) key occurs in the join exactly when some row of a recipe in the cart has an ingredient with that key. |
| ShoppingList.CartLinesEmpty | backend/foodgram/api/views.py:109-111 | A user with no cart rows gets no join rows. |
| ShoppingList.ShoppingListCorrect | backend/foodgram/api/views.py:108-116 | One group per (name, unit) occurring in the cart's recipes, each key once. Each total is the sum of `amount` over those rows. Groups are ordered by name ascending. An empty cart gives an empty list. |
| Tables.RemoveUniqueRow | backend/foodgram/recipes/models.py:186-191 | Under a uniqueness constraint, deleting by the key of a present row removes exactly that one row: the multiset loses one copy and the length drops by one. |
| Tables.AppendThenRemove | backend/foodgram/api/views.py:118-132 | Adding a (user, recipe) row that was absent and then deleting by that key gives back the table as it was. |
| Tables.UniqueByFilter | backend/foodgram/recipes/models.py:133-136 | Deleting rows never breaks a uniqueness constraint. |
| Store.RowsForFacts | backend/foodgram/api/serializers.py:156-161 | The bulk-inserted rows all belong to the recipe, reference existing ingredients, have amount >= 1 and are unique per (recipe, ingredient) when the request passed validation. |
| Store.ReplaceRowsSame | backend/foodgram/api/serializers.py:177-178 | After clearing and bulk-inserting, the recipe's ingredient rows are exactly one row per submitted entry, in order. No earlier row survives and nothing is merged. |
| Store.ReplaceRowsOther | backend/foodgram/api/serializers.py:177-178 | Replacing one recipe's rows leaves every other recipe's rows unchanged. |
| Store.ReplaceRowsIdempotent | backend/foodgram/api/serializers.py:173-181 | Submitting the same ingredient list twice leaves the same rows as submitting it once. |
| Store.ReplaceRowsOfNewRecipe | backend/foodgram/api/serializers.py:164-170 | For a recipe with no rows yet, the replace-all write is a plain append of the new rows. |
| Store.ReplaceTagsReplaces | backend/foodgram/api/serializers.py:179-180 | After clearing and setting tags, the recipe's tag set equals the submitted tags. Other recipes keep their tags, and repeating the write changes nothing. |
| Store.ReplaceRowsValid | backend/foodgram/recipes/models.py:109-136 | Writing the rows of an accepted request keeps the ingredient-amount constraints. Every row references an existing recipe and ingredient and has amount >= 1. Rows are unique per (recipe, ingredient). Every recipe has at least one row. |
| Store.DeleteRowsValid | backend/foodgram/recipes/models.py:117-122 | Deleting a recipe's rows keeps the ingredient-amount constraints for the remaining recipes. |
| Store.LinksAppendValid | backend/foodgram/api/views.py:121-123 | Inserting a (user, recipe) row only when it is absent keeps the favourite and cart uniqueness constraints. |
| Store.LinksFilterValid | backend/foodgram/recipes/models.py:158-163 | Deleting favourite or cart rows keeps their uniqueness constraint and their recipe references. |
| Store.RemoveLinkMultiset | backend/foodgram/api/views.py:155 | Deleting by (user, recipe) removes every copy of that row and no other row. |
| Store.DeletedConsistent | backend/foodgram/recipes/models.py:117-122 | Deleting a recipe with its cascades leaves every table constraint holding. |
| Store.DeletedCascades | backend/foodgram/recipes/models.py:176-181 | After a delete, no ingredient-amount, favourite, cart or tag row refers to the recipe. Every row that refers to another recipe stays. |
| Store.CreatedConsistent | backend/foodgram/api/serializers.py:163-171 | Creating a recipe from an accepted request keeps every constraint, including cooking time in [1, 1440] and amount >= 1. The new key is unused. The write is exactly "add the recipe, add its tag pairs, append one row per entry". |
| Store.UpdatedConsistent | backend/foodgram/api/serializers.py:173-181 | Updating an existing recipe from an accepted request keeps every constraint. |
| Store.SavedReplaces | backend/foodgram/api/serializers.py:173-181 | After create or update, the recipe's ingredient rows are exactly the submitted entries and its tags exactly the submitted tags. Every other recipe's rows and tags are unchanged. |
| Store.NextKeyUnreferenced | backend/foodgram/recipes/models.py:117-122 | In a consistent store no row refers to the key the next created recipe will get. |
| Store.DeleteUndoesRows | backend/foodgram/recipes/models.py:117-122 | Deleting the rows of a recipe that had none before its rows were written gives back the earlier rows. |
| Store.DeleteUndoesTags | backend/foodgram/api/serializers.py:169 | Deleting the tag links of a recipe that had none before its tags were set gives back the earlier links. |
| Store.CreateThenDeleteRestores | backend/foodgram/api/serializers.py:163-171 | Creating a recipe and then deleting it gives back every table as it was; only the key counter has advanced. |
| Store.UpdateIdempotent | backend/foodgram/api/serializers.py:173-181 | Applying the same update twice gives the same store as applying it once. |
| Store.CartAddThenRemoveRestores | backend/foodgram/api/views.py:118-132 | Adding an absent (user, recipe) cart row, as `AddToCart` does, and then deleting by that key, as `RemoveFromCart` does, gives back the store exactly as it was. |
| Store.Db.ValidateRequest | backend/foodgram/api/serializers.py:133-211 | `is_valid` against the current tag and ingredient tables returns the field-check-then-`validate` verdict. Every rejection is a validation error, except that an absent cooking time ends in a server error. |
| Store.Db.CreateRecipe | backend/foodgram/api/serializers.py:163-171 | Succeeds exactly when `is_valid` passes, and a rejection changes nothing. On success the new key was unused, the store is `Created(old state)`, and three tables change. The recipe table gains the recipe with stripped name and text, the tag table gains the submitted tag pairs, and the ingredient-amount table gains one row per entry appended. The invariant is preserved. |
| Store.Db.UpdateRecipe | backend/foodgram/api/serializers.py:173-181 | Not found for an unknown recipe; otherwise the `is_valid` verdict, and a rejection changes nothing. On success the store is `Updated(old state)`: rows and tags are replaced and the scalar fields rewritten, with the author and key kept. The invariant is preserved. |
| Store.Db.DeleteRecipe | backend/foodgram/recipes/models.py:117-122 | Not found for an unknown recipe, changing nothing. Otherwise the recipe and every row that refers to it are removed and nothing else changes. The invariant is preserved. |
| Store.Db.AddToCart | backend/foodgram/api/views.py:118-125 | Not found for an unknown recipe. A validation error if the (user, recipe) row exists. Otherwise exactly that row is appended and nothing else changes. |
| Store.Db.RemoveFromCart | backend/foodgram/api/views.py:127-132 | Succeeds exactly when the recipe exists and the row is present. It then deletes exactly that one row: the multiset loses one copy and the length drops by one. Otherwise the result is not found and nothing changes. |
| Store.Db.AddFavorite | backend/foodgram/api/views.py:138-150 | An unknown recipe fails the primary-key field. An existing row fails the unique-together validator. Otherwise exactly that row is appended. |
| Store.Db.RemoveFavorite | backend/foodgram/api/views.py:152-156 | Not found only for an unknown recipe. Otherwise the (user, recipe) row is deleted if present, and the call succeeds also when it is absent. No other row changes. |
| Store.Db.Subscribe | backend/foodgram/api/views.py:52-65 | Not found for an unknown author; otherwise the verdict of the follow check. On success exactly one (user, author) row is appended. |
| Store.Db.Unsubscribe | backend/foodgram/api/views.py:67-76 | Succeeds exactly when the author exists and the follow row is present. Only that row is removed. Otherwise the result is not found and nothing changes. |
| Store.Db.DownloadShoppingCart | backend/foodgram/api/views.py:108-116 | Returns the shopping list of the current tables. It has one group per (name, unit) occurring in the cart's recipes, each key once, ordered by name. Each total is the sum of `amount` over those rows. A user with an empty cart gets an empty list. |

## Left out

- Images: the Base64 image field and the `image` column are not modelled.
- Text rendering: the text file produced from the aggregated rows is not part of this model, and the model stops at the grouped list.
- Publication date: `pub_date` and the `-pub_date` ordering are not modelled. The author's recipes in `Serializers.EmbeddedRecipes` come in the order of the given sequence.
- Request parsing: the `int()` conversions of raw request strings and their exceptions are not modelled, except for an absent cooking time. Nor is the always-true `isinstance` check in `validate`. Requests arrive already typed.
- Surrogate code points: the CharField validator that refuses them needs no model, because a Dafny `char` is a Unicode scalar value and cannot be a surrogate.
- Missing required fields: a request without `tags`, `name`, `ingredients` or `text` is rejected by DRF as a required field. The request type always carries them, so that rejection is not modelled. Only `cooking_time`, which has a model default, may be absent.
- Partial updates: a PATCH without `ingredients` or `tags` is not modelled. `update` is modelled for requests that carry every writable field.
- Access control: permissions and authentication are left out. This includes the fact that the update and delete endpoints do not check that the caller is the author.
- Pagination, search, filters, admin registration, URL routing and migrations are not modelled.
- Concurrency: transactions are atomic steps, and races between an existence check and the insert that follows it are not modelled.
- Integer width: the 32767 upper bound of `PositiveSmallIntegerField` on `amount` and `cooking_time` is not modelled; integers are unbounded.
- `Serializers.CheckFields`: DRF collects the errors of all fields, while the model reports only the first failing field in declaration order. Whether a request is accepted is the same either way.
- `ShoppingList.ShoppingListCorrect`: names are compared by code point, not by the database collation. Groups that share a name are additionally ordered by unit, where the query leaves their order unspecified.
- `ShoppingList.CartLines`: the join is taken as cart membership of the recipe. This equals the SQL join because the cart has at most one row per (user, recipe).
- `Store.FollowsValid`: the user and `Follow` models are not part of this model. No uniqueness or self-follow check is claimed for the follow table in the database; the invariant is the one the subscription endpoints maintain.
- The Tag and Ingredient constraints (`Models.TagsWellFormed`, `Models.IngredientsWellFormed`) are required of the reference tables when the store is made. No operation writes those tables, so the constraints are not repeated in the class invariant.
- `Serializers.EmbeddedRecipes` and `Serializers.RecipesCount` are stated over a listing of the recipe table (a sequence in the order the query returns). The store keeps recipes in a map, and neither function is tied to the `Store.Db` fields.
- `FollowSerializer.get_is_subscribed` (it reads the request user without an anonymous check) is not modelled separately from `Serializers.IsSubscribed`.
