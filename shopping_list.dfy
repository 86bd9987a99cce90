/**
 * The shopping-list query of download_shopping_cart (api/views.py): every
 * ingredient-amount row of a recipe in the user's cart, grouped by
 * (ingredient name, measurement unit), amounts summed per group, groups
 * ordered by name.
 */
module ShoppingList {
  import opened Models
  import opened Tables

  datatype Key = Key(name: string, unit: string)
  /** One joined row: the ingredient's (name, unit) and the row's amount. */
  datatype Line = Line(key: Key, amount: int)
  /** One line of the shopping list. */
  datatype Group = Group(key: Key, total: int)

  /** Lexicographic order on strings, by code point. */
  predicate StrLess(a: string, b: string)
  {
    if |a| == 0 then |b| > 0
    else |b| > 0 && (a[0] < b[0] || (a[0] == b[0] && StrLess(a[1..], b[1..])))
  }

  lemma {:induction false} StrLessIrreflexive(a: string)
    ensures !StrLess(a, a)
  {
    if |a| > 0 {
      StrLessIrreflexive(a[1..]);
    }
  }

  lemma {:induction false} StrLessTransitive(a: string, b: string, c: string)
    requires StrLess(a, b) && StrLess(b, c)
    ensures StrLess(a, c)
  {
    if |a| > 0 && a[0] == b[0] && b[0] == c[0] {
      StrLessTransitive(a[1..], b[1..], c[1..]);
    }
  }

  lemma {:induction false} StrLessTotal(a: string, b: string)
    requires a != b
    ensures StrLess(a, b) || StrLess(b, a)
  {
    if |a| > 0 && |b| > 0 && a[0] == b[0] {
      assert a == [a[0]] + a[1..] && b == [b[0]] + b[1..];
      StrLessTotal(a[1..], b[1..]);
    }
  }

  /** Order by name, then by unit. */
  predicate KeyLess(a: Key, b: Key)
  {
    StrLess(a.name, b.name) || (a.name == b.name && StrLess(a.unit, b.unit))
  }

  lemma KeyLessIrreflexive(a: Key)
    ensures !KeyLess(a, a)
  {
    StrLessIrreflexive(a.name);
    StrLessIrreflexive(a.unit);
  }

  lemma KeyLessTransitive(a: Key, b: Key, c: Key)
    requires KeyLess(a, b) && KeyLess(b, c)
    ensures KeyLess(a, c)
  {
    if StrLess(a.name, b.name) && StrLess(b.name, c.name) {
      StrLessTransitive(a.name, b.name, c.name);
    } else if a.name == b.name && b.name == c.name {
      StrLessTransitive(a.unit, b.unit, c.unit);
    }
  }

  lemma KeyLessTotal(a: Key, b: Key)
    requires a != b
    ensures KeyLess(a, b) || KeyLess(b, a)
  {
    if a.name != b.name {
      StrLessTotal(a.name, b.name);
    } else {
      StrLessTotal(a.unit, b.unit);
    }
  }

  ghost predicate StrictlySorted(gs: seq<Group>)
  {
    forall i, j | 0 <= i < j < |gs| :: KeyLess(gs[i].key, gs[j].key)
  }

  function KeysOf(gs: seq<Group>): (ks: set<Key>)
  {
    set g | g in gs :: g.key
  }

  function LineKeys(lines: seq<Line>): (ks: set<Key>)
  {
    set l | l in lines :: l.key
  }

  /** The total of the group with key `k`, or 0 when there is none. */
  function Lookup(gs: seq<Group>, k: Key): (total: int)
  {
    if gs == [] then 0
    else if gs[0].key == k then gs[0].total
    else Lookup(gs[1..], k)
  }

  /** Adds one row to a sorted group list: to its group when there is one,
      otherwise as a new group in its place. */
  function Insert(gs: seq<Group>, k: Key, amount: int): (inserted: seq<Group>)
  {
    if gs == [] then [Group(k, amount)]
    else if gs[0].key == k then [Group(k, gs[0].total + amount)] + gs[1..]
    else if KeyLess(k, gs[0].key) then [Group(k, amount)] + gs
    else [gs[0]] + Insert(gs[1..], k, amount)
  }

  lemma KeysOfCons(g: Group, gs: seq<Group>)
    ensures KeysOf([g] + gs) == {g.key} + KeysOf(gs)
  {
    assert forall x | x in [g] + gs :: x == g || x in gs;
  }

  /** Inserting a row adds its key to the group keys and no other key. */
  lemma {:induction false} InsertKeys(gs: seq<Group>, k: Key, amount: int)
    ensures KeysOf(Insert(gs, k, amount)) == KeysOf(gs) + {k}
  {
    if gs == [] {
      assert KeysOf([Group(k, amount)]) == {k} by {
        KeysOfCons(Group(k, amount), []);
      }
    } else {
      assert gs == [gs[0]] + gs[1..];
      KeysOfCons(gs[0], gs[1..]);
      if gs[0].key == k {
        KeysOfCons(Group(k, gs[0].total + amount), gs[1..]);
      } else if KeyLess(k, gs[0].key) {
        KeysOfCons(Group(k, amount), gs);
      } else {
        InsertKeys(gs[1..], k, amount);
        KeysOfCons(gs[0], Insert(gs[1..], k, amount));
      }
    }
  }

  /** Inserting into a strictly sorted group list keeps it strictly sorted. */
  lemma {:induction false} InsertSorted(gs: seq<Group>, k: Key, amount: int)
    requires StrictlySorted(gs)
    ensures StrictlySorted(Insert(gs, k, amount))
    ensures KeysOf(Insert(gs, k, amount)) == KeysOf(gs) + {k}
  {
    InsertKeys(gs, k, amount);
    var r := Insert(gs, k, amount);
    if gs == [] {
    } else if gs[0].key == k {
      assert forall i | 0 <= i < |r| :: r[i].key == gs[i].key;
    } else if KeyLess(k, gs[0].key) {
      forall j | 0 <= j < |gs| ensures KeyLess(k, gs[j].key) {
        if j > 0 {
          KeyLessTransitive(k, gs[0].key, gs[j].key);
        }
      }
      assert forall i | 0 < i < |r| :: r[i] == gs[i - 1];
    } else {
      KeyLessTotal(k, gs[0].key);
      var rest := Insert(gs[1..], k, amount);
      InsertSorted(gs[1..], k, amount);
      forall j | 0 <= j < |rest| ensures KeyLess(gs[0].key, rest[j].key) {
        assert rest[j].key in KeysOf(rest);
        if rest[j].key != k {
          var g :| g in gs[1..] && g.key == rest[j].key;
          var m :| 0 <= m < |gs[1..]| && gs[1..][m] == g;
          assert gs[m + 1] == g;
        }
      }
      assert forall i | 0 < i < |r| :: r[i] == rest[i - 1];
    }
  }

  /** A key that no group has looks up to 0. */
  lemma {:induction false} LookupAbsent(gs: seq<Group>, k: Key)
    requires k !in KeysOf(gs)
    ensures Lookup(gs, k) == 0
  {
    if gs != [] {
      assert gs[0] in gs;
      LookupAbsent(gs[1..], k);
    }
  }

  /** In a sorted list, looking up a group's key finds that group. */
  lemma {:induction false} LookupAt(gs: seq<Group>, i: nat)
    requires StrictlySorted(gs) && i < |gs|
    ensures Lookup(gs, gs[i].key) == gs[i].total
  {
    if i > 0 {
      KeyLessIrreflexive(gs[i].key);
      assert gs[0].key != gs[i].key;
      LookupAt(gs[1..], i - 1);
    }
  }

  lemma {:induction false} InsertLookup(gs: seq<Group>, k: Key, amount: int, q: Key)
    requires StrictlySorted(gs)
    ensures Lookup(Insert(gs, k, amount), q) == Lookup(gs, q) + (if q == k then amount else 0)
  {
    if gs == [] {
    } else if gs[0].key == k {
    } else if KeyLess(k, gs[0].key) {
      if q == k {
        forall g | g in gs ensures g.key != k {
          var j :| 0 <= j < |gs| && gs[j] == g;
          if j > 0 {
            KeyLessTransitive(k, gs[0].key, gs[j].key);
          }
          KeyLessIrreflexive(k);
        }
        LookupAbsent(gs, k);
      }
    } else {
      InsertLookup(gs[1..], k, amount, q);
    }
  }

  /** The sum of the amounts of the lines with key `k`. */
  function Total(lines: seq<Line>, k: Key): (total: int)
  {
    if lines == [] then 0
    else (if lines[0].key == k then lines[0].amount else 0) + Total(lines[1..], k)
  }

  /** GROUP BY key with SUM(amount), as a sorted group list. */
  function Aggregate(lines: seq<Line>): (gs: seq<Group>)
    ensures StrictlySorted(gs)
    ensures KeysOf(gs) == LineKeys(lines)
  {
    if lines == [] then []
    else
      var rest := Aggregate(lines[1..]);
      InsertSorted(rest, lines[0].key, lines[0].amount);
      assert lines == [lines[0]] + lines[1..];
      assert LineKeys(lines) == LineKeys(lines[1..]) + {lines[0].key};
      Insert(rest, lines[0].key, lines[0].amount)
  }

  /** Each key's total in the aggregate is the sum of its lines' amounts. */
  lemma {:induction false} AggregateLookup(lines: seq<Line>, k: Key)
    ensures Lookup(Aggregate(lines), k) == Total(lines, k)
  {
    if lines != [] {
      AggregateLookup(lines[1..], k);
      InsertLookup(Aggregate(lines[1..]), lines[0].key, lines[0].amount, k);
    }
  }

  lemma AggregateTotals(lines: seq<Line>)
    ensures forall i | 0 <= i < |Aggregate(lines)| ::
              Aggregate(lines)[i].total == Total(lines, Aggregate(lines)[i].key)
  {
    var gs := Aggregate(lines);
    forall i | 0 <= i < |gs| ensures gs[i].total == Total(lines, gs[i].key) {
      LookupAt(gs, i);
      AggregateLookup(lines, gs[i].key);
    }
  }

  function KeyOf(ing: Ingredient): (k: Key)
  {
    Key(ing.name, ing.unit)
  }

  /** The join IngredientWithAmount -> recipe -> shopping cart of `user`,
      projected on (ingredient name, measurement unit, amount). */
  function CartLines(amounts: seq<AmountRow>, ingredients: map<IngredientId, Ingredient>,
                     carts: seq<Link>, user: UserId): (lines: seq<Line>)
  {
    if amounts == [] then []
    else
      var a := amounts[0];
      (if Link(user, a.recipe) in carts && a.ingredient in ingredients
       then [Line(KeyOf(ingredients[a.ingredient]), a.amount)]
       else [])
      + CartLines(amounts[1..], ingredients, carts, user)
  }

  /** The rows of the recipes in `user`'s cart whose ingredient has key `k`. */
  function InCartWithKey(ingredients: map<IngredientId, Ingredient>, carts: seq<Link>,
                         user: UserId, k: Key): (p: AmountRow -> bool)
  {
    (a: AmountRow) =>
      Link(user, a.recipe) in carts && a.ingredient in ingredients && KeyOf(ingredients[a.ingredient]) == k
  }

  function SumAmounts(rows: seq<AmountRow>): (sum: int)
  {
    if rows == [] then 0 else rows[0].amount + SumAmounts(rows[1..])
  }

  lemma {:induction false} CartLinesTotal(amounts: seq<AmountRow>, ingredients: map<IngredientId, Ingredient>,
                                          carts: seq<Link>, user: UserId, k: Key)
    ensures Total(CartLines(amounts, ingredients, carts, user), k)
            == SumAmounts(Filter(amounts, InCartWithKey(ingredients, carts, user, k)))
  {
    if amounts != [] {
      CartLinesTotal(amounts[1..], ingredients, carts, user, k);
      var keep := InCartWithKey(ingredients, carts, user, k);
      var rest := CartLines(amounts[1..], ingredients, carts, user);
      var kept := Filter(amounts[1..], keep);
      var a := amounts[0];
      if Link(user, a.recipe) in carts && a.ingredient in ingredients {
        var l := Line(KeyOf(ingredients[a.ingredient]), a.amount);
        assert ([l] + rest)[0] == l && ([l] + rest)[1..] == rest;
        assert Total([l] + rest, k) == (if l.key == k then a.amount else 0) + Total(rest, k);
      } else {
        assert !keep(a);
        assert CartLines(amounts, ingredients, carts, user) == rest;
      }
      if keep(a) {
        assert Filter(amounts, keep) == [a] + kept;
        assert ([a] + kept)[0] == a && ([a] + kept)[1..] == kept;
      } else {
        assert Filter(amounts, keep) == kept;
      }
    }
  }

  lemma {:induction false} CartLinesKeys(amounts: seq<AmountRow>, ingredients: map<IngredientId, Ingredient>,
                                         carts: seq<Link>, user: UserId, k: Key)
    ensures k in LineKeys(CartLines(amounts, ingredients, carts, user))
            <==> exists a | a in amounts :: InCartWithKey(ingredients, carts, user, k)(a)
  {
    if amounts != [] {
      CartLinesKeys(amounts[1..], ingredients, carts, user, k);
      var keep := InCartWithKey(ingredients, carts, user, k);
      var rest := CartLines(amounts[1..], ingredients, carts, user);
      var a := amounts[0];
      assert amounts == [a] + amounts[1..];
      assert (exists b | b in amounts :: keep(b)) <==> keep(a) || exists b | b in amounts[1..] :: keep(b);
      if Link(user, a.recipe) in carts && a.ingredient in ingredients {
        var l := Line(KeyOf(ingredients[a.ingredient]), a.amount);
        assert LineKeys([l] + rest) == {l.key} + LineKeys(rest);
      } else {
        assert !keep(a);
      }
    }
  }

  lemma {:induction false} CartLinesEmpty(amounts: seq<AmountRow>, ingredients: map<IngredientId, Ingredient>,
                                          carts: seq<Link>, user: UserId)
    requires forall l | l in carts :: l.user != user
    ensures CartLines(amounts, ingredients, carts, user) == []
  {
    if amounts != [] {
      CartLinesEmpty(amounts[1..], ingredients, carts, user);
    }
  }

  /** The shopping list of `user`. */
  function ShoppingList(amounts: seq<AmountRow>, ingredients: map<IngredientId, Ingredient>,
                        carts: seq<Link>, user: UserId): (list: seq<Group>)
  {
    Aggregate(CartLines(amounts, ingredients, carts, user))
  }

  /** What download_shopping_cart promises: one group per (name, unit) that
      occurs among the rows of the recipes in the cart, each group's total the
      sum of those rows' amounts, groups ordered by name (ties by unit), and
      an empty list for an empty cart. */
  lemma ShoppingListCorrect(amounts: seq<AmountRow>, ingredients: map<IngredientId, Ingredient>,
                            carts: seq<Link>, user: UserId)
    ensures var list := ShoppingList(amounts, ingredients, carts, user);
      && (forall i | 0 <= i < |list| ::
            list[i].total == SumAmounts(Filter(amounts, InCartWithKey(ingredients, carts, user, list[i].key))))
      && (forall k: Key :: k in KeysOf(list) <==> exists a | a in amounts :: InCartWithKey(ingredients, carts, user, k)(a))
      && (forall i, j | 0 <= i < j < |list| :: list[i].key != list[j].key)
      && (forall i, j | 0 <= i < j < |list| ::
            list[i].key.name == list[j].key.name || StrLess(list[i].key.name, list[j].key.name))
      && ((forall l | l in carts :: l.user != user) ==> list == [])
  {
    var lines := CartLines(amounts, ingredients, carts, user);
    var list := Aggregate(lines);
    AggregateTotals(lines);
    forall i | 0 <= i < |list|
      ensures list[i].total == SumAmounts(Filter(amounts, InCartWithKey(ingredients, carts, user, list[i].key)))
    {
      CartLinesTotal(amounts, ingredients, carts, user, list[i].key);
    }
    forall k: Key
      ensures k in KeysOf(list) <==> exists a | a in amounts :: InCartWithKey(ingredients, carts, user, k)(a)
    {
      CartLinesKeys(amounts, ingredients, carts, user, k);
    }
    forall i, j | 0 <= i < j < |list| ensures list[i].key != list[j].key {
      KeyLessIrreflexive(list[i].key);
    }
    if forall l | l in carts :: l.user != user {
      CartLinesEmpty(amounts, ingredients, carts, user);
    }
  }
}
