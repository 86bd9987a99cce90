/**
 * Row types, field bounds and uniqueness constraints of the recipe tables
 * (recipes/models.py), and the error kinds the API reports.
 */
module Models {

  type UserId = nat
  type RecipeId = nat
  type IngredientId = nat
  type TagId = nat

  /** Validators on Recipe.cooking_time (minutes). */
  const MIN_COOKING_TIME := 1
  /** The column default of `cooking_time`. */
  const DEFAULT_COOKING_TIME := 1
  const MAX_COOKING_TIME := 1440
  /** max_length of the CharFields of Tag, Recipe and Ingredient. */
  const MAX_NAME_LENGTH := 200
  /** max_length of Tag.color. */
  const MAX_COLOR_LENGTH := 7
  /** MinValueValidator on IngredientWithAmount.amount. */
  const MIN_AMOUNT := 1

  datatype Option<T> = None | Some(value: T)

  /** Why a request was rejected with HTTP 400. */
  datatype Reason =
    | UnknownTag(tag: TagId)
    | BadName
    | UnknownIngredient(ingredient: IngredientId)
    | BlankText
    | NullCharacter
    | CookingTimeOutOfRange
    | NonPositiveCookingTime
    | EmptyIngredients
    | BadAmount(ingredient: IngredientId)
    | DuplicateIngredient(ingredient: IngredientId)
    | UnknownRecipe
    | AlreadyInCart
    | AlreadyFavorited
    | SelfFollow
    | AlreadySubscribed

  datatype Error =
    | Invalid(reason: Reason)  // a ValidationError (HTTP 400)
    | NotFound                 // get_object_or_404 (HTTP 404)
    | ServerError              // an uncaught exception (HTTP 500)

  datatype Result<T> = Success(value: T) | Failure(error: Error)

  datatype Outcome = Pass | Fail(error: Error)

  datatype Tag = Tag(name: string, color: string, slug: string)

  datatype Ingredient = Ingredient(name: string, unit: string)

  /** A recipe row; the image and the publication date are not modelled. */
  datatype Recipe = Recipe(id: RecipeId, author: UserId, name: string, text: string, cookingTime: int)

  /** An IngredientWithAmount row. */
  datatype AmountRow = AmountRow(recipe: RecipeId, ingredient: IngredientId, amount: int)

  /** A FavoriteRecipe or ShoppingCart row. */
  datatype Link = Link(user: UserId, recipe: RecipeId)

  /** A Follow row: `user` follows `author`. */
  datatype Follow = Follow(user: UserId, author: UserId)

  predicate CookingTimeInRange(t: int)
  {
    MIN_COOKING_TIME <= t <= MAX_COOKING_TIME
  }

  /** The key fields of the UniqueConstraint of each relation table. */
  function RecipeIngredient(a: AmountRow): (k: (RecipeId, IngredientId)) { (a.recipe, a.ingredient) }
  function UserRecipe(l: Link): (k: (UserId, RecipeId)) { (l.user, l.recipe) }
  function UserAuthor(f: Follow): (k: (UserId, UserId)) { (f.user, f.author) }

  /** Tag: bounded fields, and name, color and slug each unique. */
  ghost predicate TagsWellFormed(tags: map<TagId, Tag>)
  {
    && (forall t | t in tags ::
          |tags[t].name| <= MAX_NAME_LENGTH && |tags[t].color| <= MAX_COLOR_LENGTH
          && |tags[t].slug| <= MAX_NAME_LENGTH)
    && (forall t, u | t in tags && u in tags && t != u ::
          tags[t].name != tags[u].name && tags[t].color != tags[u].color
          && tags[t].slug != tags[u].slug)
  }

  /** Ingredient: bounded fields, and the (name, measurement_unit) pair unique. */
  ghost predicate IngredientsWellFormed(ingredients: map<IngredientId, Ingredient>)
  {
    && (forall i | i in ingredients ::
          |ingredients[i].name| <= MAX_NAME_LENGTH && |ingredients[i].unit| <= MAX_NAME_LENGTH)
    && (forall i, j | i in ingredients && j in ingredients && i != j ::
          ingredients[i] != ingredients[j])
  }

  /** Recipe: a bounded name and a non-blank text, neither holding a NUL
      character, and a cooking time within its validators. */
  predicate RecipeWellFormed(r: Recipe)
  {
    && 0 < |r.name| <= MAX_NAME_LENGTH && '\0' !in r.name
    && |r.text| > 0 && '\0' !in r.text
    && CookingTimeInRange(r.cookingTime)
  }
}
