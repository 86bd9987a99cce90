/**
 * The relational store behind the API, as an object whose tables are its
 * fields, and the operations that write to it: the atomic create and update
 * of a recipe with its ingredient amounts and tags (AddRecipeSerializer),
 * recipe deletion with its cascades, and the favorite, shopping-cart and
 * subscription endpoints (api/views.py). Each operation is one
 * all-or-nothing step: on an error no table changes.
 */
module Store {
  import opened Models
  import opened Tables
  import opened Serializers
  import ShoppingList

  /** create_bulk: one IngredientWithAmount row per request entry, in order. */
  function RowsFor(recipe: RecipeId, entries: seq<IngredientEntry>): (rows: seq<AmountRow>)
  {
    seq(|entries|, i requires 0 <= i < |entries| => AmountRow(recipe, entries[i].id, entries[i].amount))
  }

  function OfRecipe(recipe: RecipeId): (p: AmountRow -> bool)
  {
    (a: AmountRow) => a.recipe == recipe
  }

  function NotOfRecipe(recipe: RecipeId): (p: AmountRow -> bool)
  {
    (a: AmountRow) => a.recipe != recipe
  }

  /** The ingredient-amount rows of one recipe. */
  function RowsOf(amounts: seq<AmountRow>, recipe: RecipeId): (rows: seq<AmountRow>)
  {
    Filter(amounts, OfRecipe(recipe))
  }

  /** ingredients.clear() followed by create_bulk. */
  function ReplaceRows(amounts: seq<AmountRow>, recipe: RecipeId, entries: seq<IngredientEntry>): (rows: seq<AmountRow>)
  {
    Filter(amounts, NotOfRecipe(recipe)) + RowsFor(recipe, entries)
  }

  function TagPairs(recipe: RecipeId, tagIds: seq<TagId>): (pairs: set<(RecipeId, TagId)>)
  {
    set t | t in tagIds :: (recipe, t)
  }

  /** tags.clear() followed by tags.set(tagIds). */
  function ReplaceTags(recipeTags: set<(RecipeId, TagId)>, recipe: RecipeId, tagIds: seq<TagId>): (pairs: set<(RecipeId, TagId)>)
  {
    UntagRecipe(recipeTags, recipe) + TagPairs(recipe, tagIds)
  }

  /** The tag links of every recipe but `recipe`. */
  function UntagRecipe(recipeTags: set<(RecipeId, TagId)>, recipe: RecipeId): (pairs: set<(RecipeId, TagId)>)
  {
    set p | p in recipeTags && p.0 != recipe
  }

  function TagsOf(recipeTags: set<(RecipeId, TagId)>, recipe: RecipeId): (ts: set<TagId>)
  {
    set p | p in recipeTags && p.0 == recipe :: p.1
  }

  /** Rows of the favorite or cart table other than the (user, recipe) one. */
  function NotLink(user: UserId, recipe: RecipeId): (p: Link -> bool)
  {
    KeyIsNot(UserRecipe, (user, recipe))
  }

  function NotToRecipe(recipe: RecipeId): (p: Link -> bool)
  {
    (l: Link) => l.recipe != recipe
  }

  function NotFollow(user: UserId, author: UserId): (p: Follow -> bool)
  {
    KeyIsNot(UserAuthor, (user, author))
  }

  /** After replacing a recipe's rows, its rows are exactly the submitted
      ones: nothing earlier survives and nothing is merged. */
  lemma ReplaceRowsSame(amounts: seq<AmountRow>, recipe: RecipeId, entries: seq<IngredientEntry>)
    ensures RowsOf(ReplaceRows(amounts, recipe, entries), recipe) == RowsFor(recipe, entries)
  {
    var kept := Filter(amounts, NotOfRecipe(recipe));
    var added := RowsFor(recipe, entries);
    FilterConcat(kept, added, OfRecipe(recipe));
    FilterKeepsNone(kept, OfRecipe(recipe));
    FilterKeepsAll(added, OfRecipe(recipe));
  }

  /** Replacing one recipe's rows leaves every other recipe's rows as they were. */
  lemma ReplaceRowsOther(amounts: seq<AmountRow>, recipe: RecipeId, entries: seq<IngredientEntry>, other: RecipeId)
    requires other != recipe
    ensures RowsOf(ReplaceRows(amounts, recipe, entries), other) == RowsOf(amounts, other)
  {
    var kept := Filter(amounts, NotOfRecipe(recipe));
    var added := RowsFor(recipe, entries);
    FilterConcat(kept, added, OfRecipe(other));
    FilterNarrow(amounts, NotOfRecipe(recipe), OfRecipe(other));
    FilterKeepsNone(added, OfRecipe(other));
  }

  /** Submitting the same update twice leaves the rows as after the first. */
  lemma ReplaceRowsIdempotent(amounts: seq<AmountRow>, recipe: RecipeId, entries: seq<IngredientEntry>)
    ensures ReplaceRows(ReplaceRows(amounts, recipe, entries), recipe, entries) == ReplaceRows(amounts, recipe, entries)
  {
    var kept := Filter(amounts, NotOfRecipe(recipe));
    var added := RowsFor(recipe, entries);
    FilterConcat(kept, added, NotOfRecipe(recipe));
    FilterKeepsAll(kept, NotOfRecipe(recipe));
    FilterKeepsNone(added, NotOfRecipe(recipe));
    assert Filter(kept + added, NotOfRecipe(recipe)) == kept;
  }

  /** A recipe without rows (a new one) gets its rows appended. */
  lemma ReplaceRowsOfNewRecipe(amounts: seq<AmountRow>, recipe: RecipeId, entries: seq<IngredientEntry>)
    requires forall a | a in amounts :: a.recipe != recipe
    ensures ReplaceRows(amounts, recipe, entries) == amounts + RowsFor(recipe, entries)
  {
    FilterKeepsAll(amounts, NotOfRecipe(recipe));
  }

  /** The tag set of a recipe becomes exactly the submitted ids, other
      recipes keep theirs, and the replacement is idempotent. */
  lemma ReplaceTagsReplaces(recipeTags: set<(RecipeId, TagId)>, recipe: RecipeId, tagIds: seq<TagId>, other: RecipeId)
    ensures TagsOf(ReplaceTags(recipeTags, recipe, tagIds), recipe) == set t | t in tagIds
    ensures other != recipe ==> TagsOf(ReplaceTags(recipeTags, recipe, tagIds), other) == TagsOf(recipeTags, other)
    ensures ReplaceTags(ReplaceTags(recipeTags, recipe, tagIds), recipe, tagIds) == ReplaceTags(recipeTags, recipe, tagIds)
  {
    var r := ReplaceTags(recipeTags, recipe, tagIds);
    assert forall t | t in tagIds :: (recipe, t) in r;
  }

  ghost predicate RecipesValid(recipes: map<RecipeId, Recipe>, nextRecipeId: nat)
  {
    forall id | id in recipes :: recipes[id].id == id && id < nextRecipeId && RecipeWellFormed(recipes[id])
  }

  ghost predicate RecipeTagsValid(recipeTags: set<(RecipeId, TagId)>, recipes: map<RecipeId, Recipe>, tags: map<TagId, Tag>)
  {
    forall p | p in recipeTags :: p.0 in recipes && p.1 in tags
  }

  /** IngredientWithAmount: rows reference a recipe and an ingredient, carry
      an amount of at least 1, are unique per (recipe, ingredient), and every
      recipe has at least one of them. */
  ghost predicate AmountsValid(amounts: seq<AmountRow>, recipes: map<RecipeId, Recipe>,
                               ingredients: map<IngredientId, Ingredient>)
  {
    && (forall a | a in amounts :: a.recipe in recipes && a.ingredient in ingredients && a.amount >= MIN_AMOUNT)
    && UniqueBy(amounts, RecipeIngredient)
    && (forall id | id in recipes :: exists a | a in amounts :: a.recipe == id)
  }

  /** FavoriteRecipe and ShoppingCart: unique per (user, recipe), referencing a recipe. */
  ghost predicate LinksValid(links: seq<Link>, recipes: map<RecipeId, Recipe>)
  {
    UniqueBy(links, UserRecipe) && forall l | l in links :: l.recipe in recipes
  }

  /** Follow, as the subscription endpoints keep it: no self-follow and no
      repeated (user, author) pair. */
  ghost predicate FollowsValid(follows: seq<Follow>)
  {
    UniqueBy(follows, UserAuthor) && forall f | f in follows :: f.user != f.author
  }

  lemma {:induction false} RowsForFacts(recipe: RecipeId, entries: seq<IngredientEntry>, ingredients: map<IngredientId, Ingredient>)
    requires AllAmountsPositive(entries) && DistinctIds(entries)
    requires forall i | 0 <= i < |entries| :: entries[i].id in ingredients
    ensures UniqueBy(RowsFor(recipe, entries), RecipeIngredient)
    ensures forall a | a in RowsFor(recipe, entries) ::
              a.recipe == recipe && a.ingredient in ingredients && a.amount >= MIN_AMOUNT
  {
    var rows := RowsFor(recipe, entries);
    forall a | a in rows ensures a.recipe == recipe && a.ingredient in ingredients && a.amount >= MIN_AMOUNT {
      var i :| 0 <= i < |rows| && rows[i] == a;
    }
  }

  /** Replacing (or first inserting) the rows of a recipe from an accepted
      request keeps the IngredientWithAmount invariants. */
  lemma ReplaceRowsValid(amounts: seq<AmountRow>, recipes: map<RecipeId, Recipe>,
                         ingredients: map<IngredientId, Ingredient>, recipe: Recipe, entries: seq<IngredientEntry>)
    requires AmountsValid(amounts, recipes, ingredients)
    requires |entries| > 0 && AllAmountsPositive(entries) && DistinctIds(entries)
    requires forall i | 0 <= i < |entries| :: entries[i].id in ingredients
    ensures AmountsValid(ReplaceRows(amounts, recipe.id, entries), recipes[recipe.id := recipe], ingredients)
  {
    var id := recipe.id;
    var kept := Filter(amounts, NotOfRecipe(id));
    var added := RowsFor(id, entries);
    var recipes' := recipes[id := recipe];
    RowsForFacts(id, entries, ingredients);
    UniqueByFilter(amounts, RecipeIngredient, NotOfRecipe(id));
    UniqueByConcat(kept, added, RecipeIngredient);
    assert added[0] in added;
    forall other | other in recipes'
      ensures exists a | a in ReplaceRows(amounts, id, entries) :: a.recipe == other
    {
      if other == id {
        assert added[0] in ReplaceRows(amounts, id, entries);
      } else {
        var a :| a in amounts && a.recipe == other;
        assert a in kept;
      }
    }
  }

  lemma DeleteRowsValid(amounts: seq<AmountRow>, recipes: map<RecipeId, Recipe>,
                        ingredients: map<IngredientId, Ingredient>, id: RecipeId)
    requires AmountsValid(amounts, recipes, ingredients)
    ensures AmountsValid(Filter(amounts, NotOfRecipe(id)), recipes - {id}, ingredients)
  {
    UniqueByFilter(amounts, RecipeIngredient, NotOfRecipe(id));
    forall other | other in recipes - {id}
      ensures exists a | a in Filter(amounts, NotOfRecipe(id)) :: a.recipe == other
    {
      var a :| a in amounts && a.recipe == other;
      assert a in Filter(amounts, NotOfRecipe(id));
    }
  }

  lemma LinksAppendValid(links: seq<Link>, recipes: map<RecipeId, Recipe>, l: Link)
    requires LinksValid(links, recipes) && l.recipe in recipes && l !in links
    ensures LinksValid(links + [l], recipes)
  {
    UniqueByAppend(links, UserRecipe, l);
  }

  lemma LinksFilterValid(links: seq<Link>, recipes: map<RecipeId, Recipe>, recipes': map<RecipeId, Recipe>, keep: Link -> bool)
    requires LinksValid(links, recipes)
    requires forall l | l in links && keep(l) :: l.recipe in recipes'
    ensures LinksValid(Filter(links, keep), recipes')
  {
    UniqueByFilter(links, UserRecipe, keep);
  }

  /** Deleting by the (user, recipe) key removes every copy of that one link. */
  lemma RemoveLinkMultiset(links: seq<Link>, user: UserId, recipe: RecipeId)
    ensures multiset(Filter(links, NotLink(user, recipe))) == multiset(links)[Link(user, recipe) := 0]
  {
    var r := Filter(links, NotLink(user, recipe));
    forall x ensures multiset(r)[x] == multiset(links)[Link(user, recipe) := 0][x] {
      FilterMultiset(links, NotLink(user, recipe), x);
      assert NotLink(user, recipe)(x) == (UserRecipe(x) != (user, recipe));
    }
  }

  /** Every table of the store at one moment. */
  datatype Snapshot = Snapshot(
    users: set<UserId>,
    tags: map<TagId, Tag>,
    ingredients: map<IngredientId, Ingredient>,
    recipes: map<RecipeId, Recipe>,
    recipeTags: set<(RecipeId, TagId)>,
    amounts: seq<AmountRow>,
    favorites: seq<Link>,
    carts: seq<Link>,
    follows: seq<Follow>,
    nextRecipeId: nat)

  /** The constraints of the tables the operations write. The tag and
      ingredient tables are reference data that no operation here writes:
      their own constraints are required once, when the store is made, and
      every operation's new state keeps both tables as they were. */
  ghost predicate Consistent(s: Snapshot)
  {
    && RecipesValid(s.recipes, s.nextRecipeId)
    && RecipeTagsValid(s.recipeTags, s.recipes, s.tags)
    && AmountsValid(s.amounts, s.recipes, s.ingredients)
    && LinksValid(s.favorites, s.recipes)
    && LinksValid(s.carts, s.recipes)
    && FollowsValid(s.follows)
  }

  /** The store after deleting recipe `id` and everything that cascades from it. */
  function Deleted(s: Snapshot, id: RecipeId): (after: Snapshot)
  {
    s.(recipes := s.recipes - {id},
       recipeTags := UntagRecipe(s.recipeTags, id),
       amounts := Filter(s.amounts, NotOfRecipe(id)),
       favorites := Filter(s.favorites, NotToRecipe(id)),
       carts := Filter(s.carts, NotToRecipe(id)))
  }

  lemma DeletedConsistent(s: Snapshot, id: RecipeId)
    requires Consistent(s)
    ensures Consistent(Deleted(s, id))
  {
    DeleteRowsValid(s.amounts, s.recipes, s.ingredients, id);
    LinksFilterValid(s.favorites, s.recipes, s.recipes - {id}, NotToRecipe(id));
    LinksFilterValid(s.carts, s.recipes, s.recipes - {id}, NotToRecipe(id));
  }

  /** Deleting a recipe leaves no row that refers to it, and every row that
      refers to another recipe stays. */
  lemma DeletedCascades(s: Snapshot, id: RecipeId)
    ensures id !in Deleted(s, id).recipes
    ensures forall p | p in Deleted(s, id).recipeTags :: p.0 != id
    ensures forall a :: a in Deleted(s, id).amounts <==> a in s.amounts && a.recipe != id
    ensures forall l :: l in Deleted(s, id).favorites <==> l in s.favorites && l.recipe != id
    ensures forall l :: l in Deleted(s, id).carts <==> l in s.carts && l.recipe != id
    ensures forall p :: p in Deleted(s, id).recipeTags <==> p in s.recipeTags && p.0 != id
  {
  }

  /** The store after writing `recipe` and replacing its tags and its
      ingredient amounts with those of `req`: the common part of create and
      update. */
  function Saved(s: Snapshot, recipe: Recipe, req: RecipeRequest): (after: Snapshot)
  {
    s.(recipes := s.recipes[recipe.id := recipe],
       recipeTags := ReplaceTags(s.recipeTags, recipe.id, req.tags),
       amounts := ReplaceRows(s.amounts, recipe.id, req.ingredients))
  }

  /** The recipe row a request writes under `id` for `author`: name and text
      as stripped by their fields, and the submitted cooking time. */
  function RecipeFrom(id: RecipeId, author: UserId, req: RecipeRequest): (recipe: Recipe)
  {
    Recipe(id, author, Trim(req.name), Trim(req.text), CookingTimeOrDefault(req.cookingTime))
  }

  /** The cooking time a saved recipe gets. Only an accepted request is ever
      saved, and acceptance needs a cooking time (`int(None)` raises first),
      so the column default in the other branch is never reached from the
      endpoints. */
  function CookingTimeOrDefault(cookingTime: Option<int>): (t: int)
  {
    if cookingTime.Some? then cookingTime.value else DEFAULT_COOKING_TIME
  }

  /** The store after AddRecipeSerializer.create: a new recipe under the next key. */
  function Created(s: Snapshot, author: UserId, req: RecipeRequest): (after: Snapshot)
  {
    Saved(s, RecipeFrom(s.nextRecipeId, author, req), req).(nextRecipeId := s.nextRecipeId + 1)
  }

  /** The store after AddRecipeSerializer.update of recipe `id`: author and key kept. */
  function Updated(s: Snapshot, id: RecipeId, req: RecipeRequest): (after: Snapshot)
    requires id in s.recipes
  {
    Saved(s, RecipeFrom(id, s.recipes[id].author, req), req)
  }

  lemma SavedTagsValid(s: Snapshot, recipe: Recipe, req: RecipeRequest)
    requires RecipeTagsValid(s.recipeTags, s.recipes, s.tags)
    requires forall i | 0 <= i < |req.tags| :: req.tags[i] in s.tags
    ensures RecipeTagsValid(ReplaceTags(s.recipeTags, recipe.id, req.tags), s.recipes[recipe.id := recipe], s.tags)
  {
    forall p | p in TagPairs(recipe.id, req.tags) ensures p.1 in s.tags {
      var i :| 0 <= i < |req.tags| && req.tags[i] == p.1;
    }
  }

  /** Creating a recipe from an accepted request keeps every table consistent;
      on a consistent store creating is a plain insert (no earlier row of the
      new key exists to be cleared). */
  lemma CreatedConsistent(s: Snapshot, author: UserId, req: RecipeRequest)
    requires Consistent(s)
    requires CheckRecipe(req, s.tags.Keys, s.ingredients.Keys) == Pass
    ensures Consistent(Created(s, author, req))
    ensures s.nextRecipeId !in s.recipes
    ensures Created(s, author, req).amounts == s.amounts + RowsFor(s.nextRecipeId, req.ingredients)
    ensures Created(s, author, req).recipeTags == s.recipeTags + TagPairs(s.nextRecipeId, req.tags)
  {
    CheckRecipePassIff(req, s.tags.Keys, s.ingredients.Keys);
    var id := s.nextRecipeId;
    var recipe := RecipeFrom(id, author, req);
    ReplaceRowsValid(s.amounts, s.recipes, s.ingredients, recipe, req.ingredients);
    SavedTagsValid(s, recipe, req);
    ReplaceRowsOfNewRecipe(s.amounts, id, req.ingredients);
    assert UntagRecipe(s.recipeTags, id) == s.recipeTags;
  }

  /** Updating an existing recipe from an accepted request keeps every table
      consistent. */
  lemma UpdatedConsistent(s: Snapshot, id: RecipeId, req: RecipeRequest)
    requires Consistent(s) && id in s.recipes
    requires CheckRecipe(req, s.tags.Keys, s.ingredients.Keys) == Pass
    ensures Consistent(Updated(s, id, req))
  {
    CheckRecipePassIff(req, s.tags.Keys, s.ingredients.Keys);
    var recipe := RecipeFrom(id, s.recipes[id].author, req);
    ReplaceRowsValid(s.amounts, s.recipes, s.ingredients, recipe, req.ingredients);
    SavedTagsValid(s, recipe, req);
  }

  /** After a save, the saved recipe has exactly the submitted ingredients
      and tags, and every other recipe's ingredients and tags are as before. */
  lemma SavedReplaces(s: Snapshot, recipe: Recipe, req: RecipeRequest, other: RecipeId)
    ensures RowsOf(Saved(s, recipe, req).amounts, recipe.id) == RowsFor(recipe.id, req.ingredients)
    ensures TagsOf(Saved(s, recipe, req).recipeTags, recipe.id) == set t | t in req.tags
    ensures other != recipe.id ==> RowsOf(Saved(s, recipe, req).amounts, other) == RowsOf(s.amounts, other)
    ensures other != recipe.id ==> TagsOf(Saved(s, recipe, req).recipeTags, other) == TagsOf(s.recipeTags, other)
  {
    ReplaceRowsSame(s.amounts, recipe.id, req.ingredients);
    ReplaceTagsReplaces(s.recipeTags, recipe.id, req.tags, other);
    if other != recipe.id {
      ReplaceRowsOther(s.amounts, recipe.id, req.ingredients, other);
    }
  }

  /** No row of any table refers to recipe `id`. */
  ghost predicate Unreferenced(s: Snapshot, id: RecipeId)
  {
    && id !in s.recipes
    && (forall p | p in s.recipeTags :: p.0 != id)
    && (forall a | a in s.amounts :: a.recipe != id)
    && (forall l | l in s.favorites :: l.recipe != id)
    && (forall l | l in s.carts :: l.recipe != id)
  }

  /** In a consistent store the next key is not referenced by any row. */
  lemma NextKeyUnreferenced(s: Snapshot)
    requires Consistent(s)
    ensures Unreferenced(s, s.nextRecipeId)
  {
  }

  lemma DeleteUndoesRows(amounts: seq<AmountRow>, id: RecipeId, entries: seq<IngredientEntry>)
    requires forall a | a in amounts :: a.recipe != id
    ensures Filter(ReplaceRows(amounts, id, entries), NotOfRecipe(id)) == amounts
  {
    FilterKeepsAll(amounts, NotOfRecipe(id));
    FilterConcat(amounts, RowsFor(id, entries), NotOfRecipe(id));
    FilterKeepsNone(RowsFor(id, entries), NotOfRecipe(id));
  }

  lemma DeleteUndoesTags(recipeTags: set<(RecipeId, TagId)>, id: RecipeId, tagIds: seq<TagId>)
    requires forall p | p in recipeTags :: p.0 != id
    ensures UntagRecipe(ReplaceTags(recipeTags, id, tagIds), id) == recipeTags
  {
    assert UntagRecipe(recipeTags, id) == recipeTags;
  }

  /** Creating a recipe under an unreferenced key and then deleting it gives
      back every table as it was; only the key counter has moved on. */
  lemma CreateThenDeleteRestores(s: Snapshot, author: UserId, req: RecipeRequest)
    requires Unreferenced(s, s.nextRecipeId)
    ensures Deleted(Created(s, author, req), s.nextRecipeId) == s.(nextRecipeId := s.nextRecipeId + 1)
  {
    var id := s.nextRecipeId;
    var c := Created(s, author, req);
    var d := Deleted(c, id);
    assert c.amounts == ReplaceRows(s.amounts, id, req.ingredients);
    assert c.recipeTags == ReplaceTags(s.recipeTags, id, req.tags);
    DeleteUndoesRows(s.amounts, id, req.ingredients);
    DeleteUndoesTags(s.recipeTags, id, req.tags);
    FilterKeepsAll(s.favorites, NotToRecipe(id));
    FilterKeepsAll(s.carts, NotToRecipe(id));
    assert d.recipes == s.recipes by {
      assert c.recipes == s.recipes[id := RecipeFrom(id, author, req)];
    }
  }

  /** Submitting the same update twice leaves the store as after the first. */
  lemma UpdateIdempotent(s: Snapshot, id: RecipeId, req: RecipeRequest)
    requires id in s.recipes
    ensures Updated(Updated(s, id, req), id, req) == Updated(s, id, req)
  {
    ReplaceRowsIdempotent(s.amounts, id, req.ingredients);
    ReplaceTagsReplaces(s.recipeTags, id, req.tags, id);
  }
  /** Adding a cart row that was absent and then deleting by its (user,
      recipe) key gives back the store as it was: the POST and DELETE of the
      shopping-cart action undo each other. */
  lemma CartAddThenRemoveRestores(s: Snapshot, user: UserId, recipe: RecipeId)
    requires Link(user, recipe) !in s.carts
    ensures var added := s.(carts := s.carts + [Link(user, recipe)]);
            added.(carts := Filter(added.carts, NotLink(user, recipe))) == s
  {
    forall y | y in s.carts ensures UserRecipe(y) != UserRecipe(Link(user, recipe)) {
      assert y == Link(y.user, y.recipe);
    }
    AppendThenRemove(s.carts, UserRecipe, Link(user, recipe));
  }


  class Db {
    /** CustomUser ids; the user table itself is read-only here. */
    var users: set<UserId>
    var tags: map<TagId, Tag>
    var ingredients: map<IngredientId, Ingredient>
    var recipes: map<RecipeId, Recipe>
    /** The Recipe.tags many-to-many table. */
    var recipeTags: set<(RecipeId, TagId)>
    var amounts: seq<AmountRow>
    var favorites: seq<Link>
    var carts: seq<Link>
    var follows: seq<Follow>
    /** The next primary key the recipe table hands out. */
    var nextRecipeId: nat

    ghost function State(): Snapshot
      reads this
    {
      Snapshot(users, tags, ingredients, recipes, recipeTags, amounts, favorites, carts, follows, nextRecipeId)
    }

    ghost predicate Valid()
      reads this
    {
      Consistent(State())
    }

    /** A store holding the given users and reference data and no recipes. */
    constructor (users: set<UserId>, tags: map<TagId, Tag>, ingredients: map<IngredientId, Ingredient>)
      requires TagsWellFormed(tags) && IngredientsWellFormed(ingredients)
      ensures Valid()
      ensures State() == Snapshot(users, tags, ingredients, map[], {}, [], [], [], [], 0)
    {
      this.users := users;
      this.tags := tags;
      this.ingredients := ingredients;
      recipes := map[];
      recipeTags := {};
      amounts := [];
      favorites := [];
      carts := [];
      follows := [];
      nextRecipeId := 0;
    }

    /** AddRecipeSerializer.is_valid: the field checks against the current tag
        and ingredient tables, then `validate`. */
    method ValidateRequest(req: RecipeRequest) returns (r: Outcome)
      ensures r == CheckRecipe(req, tags.Keys, ingredients.Keys)
      ensures r.Fail? ==> r.error.Invalid? || (r.error.ServerError? && req.cookingTime.None?)
    {
      r := CheckFields(req, tags.Keys, ingredients.Keys);
      if r.Pass? {
        r := Validate(req.cookingTime, req.ingredients);
      }
    }

    /** AddRecipeSerializer.create, after is_valid: insert the recipe, set its
        tags, bulk-insert one ingredient-amount row per entry. */
    method CreateRecipe(author: UserId, req: RecipeRequest) returns (res: Result<RecipeId>)
      requires Valid()
      modifies this
      ensures Valid()
      ensures res.Success? <==> CheckRecipe(req, old(tags).Keys, old(ingredients).Keys) == Pass
      ensures res.Failure? ==>
                res.error == CheckRecipe(req, old(tags).Keys, old(ingredients).Keys).error && unchanged(this)
      ensures res.Success? ==>
                && res.value == old(nextRecipeId) && res.value !in old(recipes)
                && State() == Created(old(State()), author, req)
                && recipes[res.value] == RecipeFrom(res.value, author, req)
                && amounts == old(amounts) + RowsFor(res.value, req.ingredients)
                && recipeTags == old(recipeTags) + TagPairs(res.value, req.tags)
    {
      var verdict := ValidateRequest(req);
      if verdict.Fail? {
        return Failure(verdict.error);
      }
      ghost var before := State();
      CreatedConsistent(before, author, req);
      var id := nextRecipeId;
      var recipe := RecipeFrom(id, author, req);
      recipes := recipes[id := recipe];
      recipeTags := recipeTags + TagPairs(id, req.tags);
      amounts := amounts + RowsFor(id, req.ingredients);
      nextRecipeId := nextRecipeId + 1;
      assert State() == Created(before, author, req);
      res := Success(id);
    }

    /** AddRecipeSerializer.update on an existing recipe, after is_valid:
        clear and re-insert its ingredient rows, clear and re-set its tags,
        then write the scalar fields. */
    method UpdateRecipe(id: RecipeId, req: RecipeRequest) returns (res: Outcome)
      requires Valid()
      modifies this
      ensures Valid()
      ensures id !in old(recipes) ==> res == Fail(NotFound)
      ensures id in old(recipes) ==> res == CheckRecipe(req, old(tags).Keys, old(ingredients).Keys)
      ensures res.Fail? ==> unchanged(this)
      ensures res == Pass ==> State() == Updated(old(State()), id, req)
    {
      if id !in recipes {
        return Fail(NotFound);
      }
      res := ValidateRequest(req);
      if res.Fail? {
        return;
      }
      ghost var before := State();
      UpdatedConsistent(before, id, req);
      amounts := ReplaceRows(amounts, id, req.ingredients);
      recipeTags := ReplaceTags(recipeTags, id, req.tags);
      recipes := recipes[id := RecipeFrom(id, recipes[id].author, req)];
      assert State() == Updated(before, id, req);
    }

    /** Deleting a recipe (ModelViewSet.destroy); the foreign keys cascade to
        its ingredient-amount, favorite and cart rows and its tag links. */
    method DeleteRecipe(id: RecipeId) returns (res: Outcome)
      requires Valid()
      modifies this
      ensures Valid()
      ensures res == (if id in old(recipes) then Pass else Fail(NotFound))
      ensures res.Fail? ==> unchanged(this)
      ensures res == Pass ==> State() == Deleted(old(State()), id)
    {
      if id !in recipes {
        return Fail(NotFound);
      }
      ghost var before := State();
      DeletedConsistent(before, id);
      recipes, recipeTags, amounts, favorites, carts :=
        recipes - {id}, UntagRecipe(recipeTags, id), Filter(amounts, NotOfRecipe(id)),
        Filter(favorites, NotToRecipe(id)), Filter(carts, NotToRecipe(id));
      assert State() == Deleted(before, id);
      res := Pass;
    }

    /** RecipeViewSet.add_recipe for the shopping cart: 404 for an unknown
        recipe, a validation error when the row exists, otherwise one row. */
    method AddToCart(user: UserId, recipe: RecipeId) returns (res: Outcome)
      requires Valid()
      modifies this
      ensures Valid()
      ensures recipe !in old(recipes) ==> res == Fail(NotFound)
      ensures recipe in old(recipes) && InList(Some(user), old(carts), recipe) ==> res == Fail(Invalid(AlreadyInCart))
      ensures res == Pass <==> recipe in old(recipes) && !InList(Some(user), old(carts), recipe)
      ensures res.Fail? ==> unchanged(this)
      ensures res == Pass ==> State() == old(State()).(carts := old(carts) + [Link(user, recipe)])
      ensures res == Pass ==> InList(Some(user), carts, recipe)
    {
      if recipe !in recipes {
        return Fail(NotFound);
      }
      var link := Link(user, recipe);
      if link in carts {
        return Fail(Invalid(AlreadyInCart));
      }
      LinksAppendValid(carts, recipes, link);
      carts := carts + [link];
      res := Pass;
    }

    /** RecipeViewSet.delete_recipe for the shopping cart: 404 for an unknown
        recipe or a missing row, otherwise that one row is deleted. */
    method RemoveFromCart(user: UserId, recipe: RecipeId) returns (res: Outcome)
      requires Valid()
      modifies this
      ensures Valid()
      ensures res == Pass <==> recipe in old(recipes) && Link(user, recipe) in old(carts)
      ensures res.Fail? ==> res.error == NotFound && unchanged(this)
      ensures res == Pass ==> State() == old(State()).(carts := Filter(old(carts), NotLink(user, recipe)))
      ensures res == Pass ==> multiset(carts) == multiset(old(carts)) - multiset{Link(user, recipe)}
      ensures res == Pass ==> |carts| == |old(carts)| - 1
      ensures !InList(Some(user), carts, recipe)
    {
      if recipe !in recipes {
        return Fail(NotFound);
      }
      var link := Link(user, recipe);
      if link !in carts {
        return Fail(NotFound);
      }
      RemoveUniqueRow(carts, UserRecipe, link);
      LinksFilterValid(carts, recipes, recipes, NotLink(user, recipe));
      carts := Filter(carts, NotLink(user, recipe));
      res := Pass;
    }

    /** FavoriteView.post through FavoriteSerializer: an unknown recipe fails
        the primary-key field, an existing row fails the unique-together
        validator, otherwise one row is inserted. */
    method AddFavorite(user: UserId, recipe: RecipeId) returns (res: Outcome)
      requires Valid()
      modifies this
      ensures Valid()
      ensures recipe !in old(recipes) ==> res == Fail(Invalid(UnknownRecipe))
      ensures recipe in old(recipes) && InList(Some(user), old(favorites), recipe) ==> res == Fail(Invalid(AlreadyFavorited))
      ensures res == Pass <==> recipe in old(recipes) && !InList(Some(user), old(favorites), recipe)
      ensures res.Fail? ==> unchanged(this)
      ensures res == Pass ==> State() == old(State()).(favorites := old(favorites) + [Link(user, recipe)])
      ensures res == Pass ==> InList(Some(user), favorites, recipe)
    {
      if recipe !in recipes {
        return Fail(Invalid(UnknownRecipe));
      }
      var link := Link(user, recipe);
      if link in favorites {
        return Fail(Invalid(AlreadyFavorited));
      }
      LinksAppendValid(favorites, recipes, link);
      favorites := favorites + [link];
      res := Pass;
    }

    /** FavoriteView.delete: 404 only for an unknown recipe; the matching
        rows, if any, are deleted. */
    method RemoveFavorite(user: UserId, recipe: RecipeId) returns (res: Outcome)
      requires Valid()
      modifies this
      ensures Valid()
      ensures res == (if recipe in old(recipes) then Pass else Fail(NotFound))
      ensures res.Fail? ==> unchanged(this)
      ensures res == Pass ==> State() == old(State()).(favorites := Filter(old(favorites), NotLink(user, recipe)))
      ensures multiset(favorites) == multiset(old(favorites))[Link(user, recipe) := 0]
      ensures !InList(Some(user), favorites, recipe)
    {
      if recipe !in recipes {
        assert Link(user, recipe) !in favorites;
        return Fail(NotFound);
      }
      LinksFilterValid(favorites, recipes, recipes, NotLink(user, recipe));
      RemoveLinkMultiset(favorites, user, recipe);
      favorites := Filter(favorites, NotLink(user, recipe));
      res := Pass;
    }

    /** SubscribeView.post: 404 for an unknown author, then
        SubscribeSerializer.validate, then one row. */
    method Subscribe(user: UserId, author: UserId) returns (res: Outcome)
      requires Valid()
      modifies this
      ensures Valid()
      ensures author !in old(users) ==> res == Fail(NotFound)
      ensures author in old(users) ==> res == CheckFollow(user, author, old(follows))
      ensures res.Fail? ==> unchanged(this)
      ensures res == Pass ==> State() == old(State()).(follows := old(follows) + [Follow(user, author)])
      ensures res == Pass ==> IsSubscribed(Some(user), follows, author)
    {
      if author !in users {
        return Fail(NotFound);
      }
      res := CheckFollow(user, author, follows);
      if res.Fail? {
        return;
      }
      UniqueByAppend(follows, UserAuthor, Follow(user, author));
      follows := follows + [Follow(user, author)];
    }

    /** SubscribeView.delete: 404 for an unknown author or a missing
        subscription, otherwise that one row is deleted. */
    method Unsubscribe(user: UserId, author: UserId) returns (res: Outcome)
      requires Valid()
      modifies this
      ensures Valid()
      ensures res == Pass <==> author in old(users) && Follow(user, author) in old(follows)
      ensures res.Fail? ==> res.error == NotFound && unchanged(this)
      ensures res == Pass ==> State() == old(State()).(follows := Filter(old(follows), NotFollow(user, author)))
      ensures res == Pass ==> multiset(follows) == multiset(old(follows)) - multiset{Follow(user, author)}
      ensures !IsSubscribed(Some(user), follows, author) || res.Fail?
    {
      if author !in users {
        return Fail(NotFound);
      }
      var row := Follow(user, author);
      if row !in follows {
        return Fail(NotFound);
      }
      RemoveUniqueRow(follows, UserAuthor, row);
      UniqueByFilter(follows, UserAuthor, NotFollow(user, author));
      follows := Filter(follows, NotFollow(user, author));
      res := Pass;
    }

    /** RecipeViewSet.download_shopping_cart, up to the text rendering. */
    method DownloadShoppingCart(user: UserId) returns (list: seq<ShoppingList.Group>)
      requires Valid()
      ensures list == ShoppingList.ShoppingList(amounts, ingredients, carts, user)
      ensures forall i | 0 <= i < |list| ::
                list[i].total == ShoppingList.SumAmounts(Filter(amounts, ShoppingList.InCartWithKey(ingredients, carts, user, list[i].key)))
      ensures forall k: ShoppingList.Key ::
                k in ShoppingList.KeysOf(list) <==> exists a | a in amounts :: ShoppingList.InCartWithKey(ingredients, carts, user, k)(a)
      ensures forall i, j | 0 <= i < j < |list| :: list[i].key != list[j].key
      ensures forall i, j | 0 <= i < j < |list| ::
                list[i].key.name == list[j].key.name || ShoppingList.StrLess(list[i].key.name, list[j].key.name)
      ensures (forall l | l in carts :: l.user != user) ==> list == []
    {
      ShoppingList.ShoppingListCorrect(amounts, ingredients, carts, user);
      list := ShoppingList.ShoppingList(amounts, ingredients, carts, user);
    }
  }
}
