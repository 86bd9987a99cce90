/**
 * Request validation and read-only derived fields of the API serializers
 * (api/serializers.py): AddRecipeSerializer's field checks and `validate`,
 * SubscribeSerializer.validate, the `is_favorited` / `is_in_shopping_cart` /
 * `is_subscribed` booleans, and the recipes embedded in a subscription.
 */
module Serializers {
  import opened Models
  import opened Tables

  /** One element of the `ingredients` list of a recipe request. */
  datatype IngredientEntry = IngredientEntry(id: IngredientId, amount: int)

  /** The writable fields of a recipe create or update request (the image is
      not modelled). `cooking_time` has a model default, so the field is not
      required and may be absent; `name` and `text` arrive untrimmed. */
  datatype RecipeRequest = RecipeRequest(
    tags: seq<TagId>,
    name: string,
    ingredients: seq<IngredientEntry>,
    text: string,
    cookingTime: Option<int>)

  /** `str.isspace` for one character: the characters Python counts as whitespace. */
  predicate IsSpace(c: char)
  {
    || ('\t' <= c <= '\r') || ('\U{1C}' <= c <= ' ')
    || c == '\U{85}' || c == '\U{A0}' || c == '\U{1680}'
    || ('\U{2000}' <= c <= '\U{200A}')
    || c == '\U{2028}' || c == '\U{2029}' || c == '\U{202F}' || c == '\U{205F}' || c == '\U{3000}'
  }

  /** The end of the run of whitespace that starts at `i`. */
  function SpacesFrom(s: string, i: nat): (j: nat)
    requires i <= |s|
    ensures i <= j <= |s|
    ensures forall k | i <= k < j :: IsSpace(s[k])
    ensures j == |s| || !IsSpace(s[j])
    decreases |s| - i
  {
    if i < |s| && IsSpace(s[i]) then SpacesFrom(s, i + 1) else i
  }

  /** The start of the run of whitespace that ends at `j`, not going below `lo`. */
  function SpacesBefore(s: string, lo: nat, j: nat): (i: nat)
    requires lo <= j <= |s|
    ensures lo <= i <= j
    ensures forall k | i <= k < j :: IsSpace(s[k])
    ensures i == lo || !IsSpace(s[i - 1])
  {
    if lo < j && IsSpace(s[j - 1]) then SpacesBefore(s, lo, j - 1) else j
  }

  /** `str.strip()`, which a CharField (and the CharField made for a
      TextField) applies to its input before its blank and length checks,
      and whose result is the value saved. */
  function Trim(s: string): (t: string)
    ensures |t| <= |s|
  {
    var a := SpacesFrom(s, 0);
    s[a..SpacesBefore(s, a, |s|)]
  }

  /** The stripped value is blank exactly when every character is whitespace;
      otherwise it starts and ends with a character that is not. */
  lemma TrimBlankIff(s: string)
    ensures Trim(s) == [] <==> forall i | 0 <= i < |s| :: IsSpace(s[i])
    ensures Trim(s) != [] ==> !IsSpace(Trim(s)[0]) && !IsSpace(Trim(s)[|Trim(s)| - 1])
  {
    var a := SpacesFrom(s, 0);
    var b := SpacesBefore(s, a, |s|);
    assert a < b ==> Trim(s)[0] == s[a] && Trim(s)[b - a - 1] == s[b - 1];
  }

  /** Stripping a stripped value changes nothing. */
  lemma TrimIdempotent(s: string)
    ensures Trim(Trim(s)) == Trim(s)
  {
    var t := Trim(s);
    TrimBlankIff(s);
    if t != [] {
      assert SpacesFrom(t, 0) == 0;
      assert SpacesBefore(t, 0, |t|) == |t|;
    }
  }

  function Ids(entries: seq<IngredientEntry>): (ids: seq<IngredientId>)
  {
    seq(|entries|, i requires 0 <= i < |entries| => entries[i].id)
  }

  /** The ids of a request are pairwise distinct. */
  ghost predicate DistinctIds(entries: seq<IngredientEntry>)
  {
    forall i, j | 0 <= i < j < |entries| :: entries[i].id != entries[j].id
  }

  ghost predicate AllAmountsPositive(entries: seq<IngredientEntry>)
  {
    forall i | 0 <= i < |entries| :: entries[i].amount > 0
  }

  /** Entry `k` passes the scan of `validate`: a positive amount, and an id
      not among the ids of the entries before it. */
  ghost predicate Acceptable(entries: seq<IngredientEntry>, k: int)
    requires 0 <= k < |entries|
  {
    entries[k].amount > 0 && entries[k].id !in Ids(entries[..k])
  }

  /** The verdict of the scan over entries[i..], the ids of entries[..i]
      having been seen: the amount is checked before the id. */
  function Scan(entries: seq<IngredientEntry>, i: nat): (r: Outcome)
    requires i <= |entries|
    ensures r != Pass ==> r.error.Invalid?
    ensures r != Pass ==> r.error.reason.BadAmount? || r.error.reason.DuplicateIngredient?
    decreases |entries| - i
  {
    if i == |entries| then Pass
    else if entries[i].amount <= 0 then Fail(Invalid(BadAmount(entries[i].id)))
    else if entries[i].id in Ids(entries[..i]) then Fail(Invalid(DuplicateIngredient(entries[i].id)))
    else Scan(entries, i + 1)
  }

  /** What AddRecipeSerializer.validate decides for a cooking time and an
      ingredient list; an absent cooking time makes `int(None)` raise. */
  function ValidationOutcome(cookingTime: Option<int>, entries: seq<IngredientEntry>): (r: Outcome)
    ensures r == Fail(ServerError) <==> cookingTime.None?
    ensures r.Fail? && cookingTime.Some? ==> r.error.Invalid?
  {
    match cookingTime
    case None => Fail(ServerError)
    case Some(t) =>
      if t <= 0 then Fail(Invalid(NonPositiveCookingTime))
      else if |entries| == 0 then Fail(Invalid(EmptyIngredients))
      else Scan(entries, 0)
  }

  /** AddRecipeSerializer.validate: the scan keeps the ids seen so far in `unique`. */
  method Validate(cookingTime: Option<int>, entries: seq<IngredientEntry>) returns (r: Outcome)
    ensures r == ValidationOutcome(cookingTime, entries)
  {
    if cookingTime.None? {
      return Fail(ServerError);
    }
    if cookingTime.value <= 0 {
      return Fail(Invalid(NonPositiveCookingTime));
    }
    if |entries| == 0 {
      return Fail(Invalid(EmptyIngredients));
    }
    var unique: seq<IngredientId> := [];
    var i := 0;
    while i < |entries|
      invariant 0 <= i <= |entries|
      invariant unique == Ids(entries[..i])
      invariant Scan(entries, 0) == Scan(entries, i)
    {
      var entry := entries[i];
      if entry.amount <= 0 {
        return Fail(Invalid(BadAmount(entry.id)));
      }
      if entry.id !in unique {
        assert Ids(entries[..i + 1]) == unique + [entry.id];
        unique := unique + [entry.id];
      } else {
        return Fail(Invalid(DuplicateIngredient(entry.id)));
      }
      i := i + 1;
    }
    return Pass;
  }

  /** The scan reports the first entry that is not acceptable, and it reports
      a bad amount in preference to a repeated id. */
  lemma {:induction false} ScanReportsFirstOffender(entries: seq<IngredientEntry>, i: nat, k: nat)
    requires i <= k < |entries|
    requires forall j | i <= j < k :: Acceptable(entries, j)
    requires !Acceptable(entries, k)
    ensures Scan(entries, i) == Fail(Invalid(
              if entries[k].amount <= 0 then BadAmount(entries[k].id)
              else DuplicateIngredient(entries[k].id)))
    decreases k - i
  {
    if i < k {
      assert Acceptable(entries, i);
      ScanReportsFirstOffender(entries, i + 1, k);
    }
  }

  lemma {:induction false} ScanPassIff(entries: seq<IngredientEntry>, i: nat)
    requires i <= |entries|
    ensures Scan(entries, i) == Pass <==> forall j | i <= j < |entries| :: Acceptable(entries, j)
    decreases |entries| - i
  {
    if i < |entries| {
      ScanPassIff(entries, i + 1);
      assert Scan(entries, i) == Pass <==> Acceptable(entries, i) && Scan(entries, i + 1) == Pass;
      if Scan(entries, i) == Pass {
        forall j | i <= j < |entries| ensures Acceptable(entries, j) {
          if j > i {
            assert i + 1 <= j < |entries|;
          }
        }
      }
    }
  }

  /** Every entry is acceptable exactly when all amounts are positive and the ids are distinct. */
  lemma AcceptableEverywhereIff(entries: seq<IngredientEntry>)
    ensures (forall j | 0 <= j < |entries| :: Acceptable(entries, j))
            <==> AllAmountsPositive(entries) && DistinctIds(entries)
  {
    if forall j | 0 <= j < |entries| :: Acceptable(entries, j) {
      forall i | 0 <= i < |entries| ensures entries[i].amount > 0 {
        assert Acceptable(entries, i);
      }
      forall i, j | 0 <= i < j < |entries| ensures entries[i].id != entries[j].id {
        assert Acceptable(entries, j);
        assert Ids(entries[..j])[i] == entries[i].id;
      }
    }
    if AllAmountsPositive(entries) && DistinctIds(entries) {
      forall j | 0 <= j < |entries| ensures Acceptable(entries, j) {
        var seen := Ids(entries[..j]);
        assert forall i | 0 <= i < |seen| :: seen[i] == entries[i].id != entries[j].id;
        assert entries[j].id !in seen;
      }
    }
  }

  /** `validate` accepts exactly the requests with a positive cooking time and a
      non-empty list of entries with positive amounts and pairwise distinct ids. */
  lemma ValidationPassIff(cookingTime: Option<int>, entries: seq<IngredientEntry>)
    ensures ValidationOutcome(cookingTime, entries) == Pass
            <==> cookingTime.Some? && cookingTime.value > 0 && |entries| > 0
                 && AllAmountsPositive(entries) && DistinctIds(entries)
  {
    ScanPassIff(entries, 0);
    AcceptableEverywhereIff(entries);
  }

  /** The first id of `ids` that is not in `known`, if any. */
  function FirstUnknown(ids: seq<nat>, known: set<nat>): (r: Option<nat>)
    ensures r.None? <==> forall i | 0 <= i < |ids| :: ids[i] in known
    ensures r.Some? ==> r.value in ids && r.value !in known
    ensures r.Some? ==> exists k | 0 <= k < |ids| :: ids[k] == r.value && forall j | 0 <= j < k :: ids[j] in known
  {
    if ids == [] then None
    else if ids[0] !in known then Some(ids[0])
    else
      var r := FirstUnknown(ids[1..], known);
      assert r.Some? ==> exists k | 0 <= k < |ids| :: ids[k] == r.value && forall j | 0 <= j < k :: ids[j] in known by {
        if r.Some? {
          var k :| 0 <= k < |ids[1..]| && ids[1..][k] == r.value && forall j | 0 <= j < k :: ids[1..][j] in known;
          assert ids[k + 1] == r.value;
          assert forall j | 0 <= j < k + 1 :: ids[j] in known by {
            forall j | 0 <= j < k + 1 ensures ids[j] in known {
              if j > 0 {
                assert ids[j] == ids[1..][j - 1];
              }
            }
          }
        }
      }
      r
  }

  /** The field-level checks of AddRecipeSerializer, in field order: tags and
      ingredient ids must exist (PrimaryKeyRelatedField), the name is required
      and at most 200 characters, the text is required, and the cooking time
      lies within the model field's validators when it is given. Name and
      text are checked after stripping; a CharField also refuses a NUL
      character (its null-character validator runs after the length check). */
  function CheckFields(req: RecipeRequest, tagIds: set<TagId>, ingredientIds: set<IngredientId>): (r: Outcome)
    ensures r.Fail? ==> r.error.Invalid?
  {
    match FirstUnknown(req.tags, tagIds)
    case Some(t) => Fail(Invalid(UnknownTag(t)))
    case None =>
      if !(0 < |Trim(req.name)| <= MAX_NAME_LENGTH) then Fail(Invalid(BadName))
      else if '\0' in Trim(req.name) then Fail(Invalid(NullCharacter))
      else match FirstUnknown(Ids(req.ingredients), ingredientIds)
      case Some(i) => Fail(Invalid(UnknownIngredient(i)))
      case None =>
        if |Trim(req.text)| == 0 then Fail(Invalid(BlankText))
        else if '\0' in Trim(req.text) then Fail(Invalid(NullCharacter))
        else if req.cookingTime.Some? && !CookingTimeInRange(req.cookingTime.value) then
          Fail(Invalid(CookingTimeOutOfRange))
        else Pass
  }

  /** `is_valid` of a recipe request: the field checks, then `validate`. */
  function CheckRecipe(req: RecipeRequest, tagIds: set<TagId>, ingredientIds: set<IngredientId>): (r: Outcome)
    ensures r.Fail? ==> r.error.Invalid? || r.error.ServerError?
    ensures r == Fail(ServerError) ==> req.cookingTime.None?
    ensures r == Pass ==> req.cookingTime.Some?
  {
    match CheckFields(req, tagIds, ingredientIds)
    case Fail(e) => Fail(e)
    case Pass => ValidationOutcome(req.cookingTime, req.ingredients)
  }

  /** Everything a valid recipe request guarantees about the rows it will write. */
  ghost predicate RequestAcceptable(req: RecipeRequest, tagIds: set<TagId>, ingredientIds: set<IngredientId>)
  {
    && (forall i | 0 <= i < |req.tags| :: req.tags[i] in tagIds)
    && 0 < |Trim(req.name)| <= MAX_NAME_LENGTH && '\0' !in Trim(req.name)
    && (forall i | 0 <= i < |req.ingredients| :: req.ingredients[i].id in ingredientIds)
    && |Trim(req.text)| > 0 && '\0' !in Trim(req.text)
    && req.cookingTime.Some? && CookingTimeInRange(req.cookingTime.value)
    && |req.ingredients| > 0
    && AllAmountsPositive(req.ingredients)
    && DistinctIds(req.ingredients)
  }

  lemma CheckRecipePassIff(req: RecipeRequest, tagIds: set<TagId>, ingredientIds: set<IngredientId>)
    ensures CheckRecipe(req, tagIds, ingredientIds) == Pass <==> RequestAcceptable(req, tagIds, ingredientIds)
  {
    ValidationPassIff(req.cookingTime, req.ingredients);
    var ids := Ids(req.ingredients);
    assert (forall i | 0 <= i < |ids| :: ids[i] in ingredientIds)
           <==> (forall i | 0 <= i < |req.ingredients| :: req.ingredients[i].id in ingredientIds) by {
      assert forall i | 0 <= i < |ids| :: ids[i] == req.ingredients[i].id;
    }
  }

  /** Once the field checks have passed, the cooking-time check of `validate`
      can no longer reject: a request with a cooking time <= 0 is already
      rejected by the field's minimum. */
  lemma CookingTimeCheckShadowed(req: RecipeRequest, tagIds: set<TagId>, ingredientIds: set<IngredientId>)
    ensures CheckRecipe(req, tagIds, ingredientIds) != Fail(Invalid(NonPositiveCookingTime))
    ensures req.cookingTime.Some? && req.cookingTime.value <= 0 ==> CheckRecipe(req, tagIds, ingredientIds).Fail?
  {
    if CheckFields(req, tagIds, ingredientIds) == Pass && req.cookingTime.Some? {
      assert CookingTimeInRange(req.cookingTime.value);
    }
  }

  /** The verdict depends on name and text only through their stripped values. */
  lemma CheckRecipeSeesStripped(req: RecipeRequest, tagIds: set<TagId>, ingredientIds: set<IngredientId>)
    ensures CheckRecipe(req, tagIds, ingredientIds)
            == CheckRecipe(req.(name := Trim(req.name), text := Trim(req.text)), tagIds, ingredientIds)
  {
    var stripped := req.(name := Trim(req.name), text := Trim(req.text));
    TrimIdempotent(req.name);
    TrimIdempotent(req.text);
    assert CheckFields(stripped, tagIds, ingredientIds) == CheckFields(req, tagIds, ingredientIds);
  }

  /** SubscribeSerializer.validate: following oneself is rejected first, then an
      existing subscription. */
  function CheckFollow(user: UserId, author: UserId, follows: seq<Follow>): (r: Outcome)
    ensures user == author ==> r == Fail(Invalid(SelfFollow))
    ensures user != author ==>
              (r == Pass <==> forall i | 0 <= i < |follows| :: UserAuthor(follows[i]) != (user, author))
    ensures r != Pass ==> r.error.Invalid?
  {
    if user == author then Fail(Invalid(SelfFollow))
    else if Follow(user, author) in follows then Fail(Invalid(AlreadySubscribed))
    else Pass
  }

  /** RecipeSerializer.in_list: false for an anonymous viewer, otherwise whether
      the table holds a (viewer, recipe) row. */
  function InList(viewer: Option<UserId>, rows: seq<Link>, recipe: RecipeId): (r: bool)
    ensures viewer.None? ==> !r
    ensures viewer.Some? ==>
              (r <==> exists i | 0 <= i < |rows| :: rows[i].user == viewer.value && rows[i].recipe == recipe)
  {
    viewer.Some? && Link(viewer.value, recipe) in rows
  }

  /** CustomUserSerializer.get_is_subscribed: false for an anonymous viewer,
      otherwise whether the viewer follows `author`. */
  function IsSubscribed(viewer: Option<UserId>, follows: seq<Follow>, author: UserId): (r: bool)
    ensures viewer.None? ==> !r
    ensures viewer.Some? ==>
              (r <==> exists i | 0 <= i < |follows| :: follows[i].user == viewer.value && follows[i].author == author)
  {
    viewer.Some? && Follow(viewer.value, author) in follows
  }

  function WrittenBy(author: UserId): (p: Recipe -> bool)
  {
    (r: Recipe) => r.author == author
  }

  /** The author's recipes, in the order of `recipes`. */
  function AuthorRecipes(recipes: seq<Recipe>, author: UserId): (rs: seq<Recipe>)
  {
    Filter(recipes, WrittenBy(author))
  }

  function Min(a: int, b: int): (m: int)
  {
    if a <= b then a else b
  }

  /** FollowSerializer.get_recipes: the author's recipes, cut to the first
      `limit` of them when a limit is given; a negative limit makes the
      queryset slice raise. */
  function EmbeddedRecipes(recipes: seq<Recipe>, author: UserId, limit: Option<int>): (r: Result<seq<Recipe>>)
    ensures r.Failure? <==> limit.Some? && limit.value < 0
    ensures r.Success? ==> r.value <= AuthorRecipes(recipes, author)
    ensures r.Success? ==> forall x | x in r.value :: x in recipes && x.author == author
    ensures r.Success? && limit.None? ==> r.value == AuthorRecipes(recipes, author)
    ensures r.Success? && limit.Some? ==> |r.value| == Min(limit.value, RecipesCount(recipes, author))
  {
    var all := AuthorRecipes(recipes, author);
    match limit
    case None => Success(all)
    case Some(n) => if n < 0 then Failure(ServerError) else Success(all[..Min(n, |all|)])
  }

  /** FollowSerializer.get_recipes_count: how many recipes the author has. */
  function RecipesCount(recipes: seq<Recipe>, author: UserId): (n: nat)
    ensures n <= |recipes|
    ensures n == |set i | 0 <= i < |recipes| && recipes[i].author == author|
    ensures n == 0 <==> forall x | x in recipes :: x.author != author
  {
    var all := AuthorRecipes(recipes, author);
    assert all != [] ==> all[0] in all;
    FilterLength(recipes, WrittenBy(author));
    assert Positions(recipes, WrittenBy(author)) == set i | 0 <= i < |recipes| && recipes[i].author == author;
    |all|
  }
}
