/**
 * A table of the store is a sequence of rows (a bag, with insertion order).
 * `Filter` is a query `.filter(...)`, and `UniqueBy` is a UniqueConstraint
 * over the key fields that `key` projects.
 */
module Tables {

  function Filter<T(!new)>(s: seq<T>, keep: T -> bool): (r: seq<T>)
    ensures |r| <= |s|
    ensures forall x :: x in r <==> x in s && keep(x)
  {
    if s == [] then []
    else
      assert s == [s[0]] + s[1..];
      (if keep(s[0]) then [s[0]] else []) + Filter(s[1..], keep)
  }

  /** A filter keeps every copy of a row it passes and no copy of the others. */
  lemma {:induction false} FilterMultiset<T(!new)>(s: seq<T>, keep: T -> bool, x: T)
    ensures multiset(Filter(s, keep))[x] == if keep(x) then multiset(s)[x] else 0
  {
    if s != [] {
      assert s == [s[0]] + s[1..];
      FilterMultiset(s[1..], keep, x);
    }
  }

  lemma {:induction false} FilterConcat<T(!new)>(s: seq<T>, t: seq<T>, keep: T -> bool)
    ensures Filter(s + t, keep) == Filter(s, keep) + Filter(t, keep)
  {
    if s == [] {
      assert s + t == t;
    } else {
      assert (s + t)[1..] == s[1..] + t;
      FilterConcat(s[1..], t, keep);
    }
  }

  /** The positions of the rows of `s` that pass `keep`. */
  ghost function Positions<T>(s: seq<T>, keep: T -> bool): (ps: set<int>)
  {
    set i | 0 <= i < |s| && keep(s[i])
  }

  lemma PositionsSnoc<T>(s: seq<T>, keep: T -> bool, x: T)
    ensures Positions(s + [x], keep) == Positions(s, keep) + (if keep(x) then {|s|} else {})
    ensures |s| !in Positions(s, keep)
  {
    var all := Positions(s + [x], keep);
    forall i ensures i in all <==> i in Positions(s, keep) + (if keep(x) then {|s|} else {}) {
      if 0 <= i < |s| {
        assert (s + [x])[i] == s[i];
      }
    }
  }

  /** A filter returns one row per position of `s` whose row passes it. */
  lemma {:induction false} FilterLength<T(!new)>(s: seq<T>, keep: T -> bool)
    ensures |Filter(s, keep)| == |Positions(s, keep)|
  {
    if s != [] {
      var init, last := s[..|s| - 1], s[|s| - 1];
      assert s == init + [last];
      FilterConcat(init, [last], keep);
      FilterLength(init, keep);
      PositionsSnoc(init, keep, last);
    }
  }

  /** A filter that every row passes returns the table as it is. */
  lemma {:induction false} FilterKeepsAll<T(!new)>(s: seq<T>, keep: T -> bool)
    requires forall x | x in s :: keep(x)
    ensures Filter(s, keep) == s
  {
    if s != [] {
      FilterKeepsAll(s[1..], keep);
    }
  }

  /** A filter that no row passes returns nothing. */
  lemma FilterKeepsNone<T(!new)>(s: seq<T>, keep: T -> bool)
    requires forall x | x in s :: !keep(x)
    ensures Filter(s, keep) == []
  {
    if Filter(s, keep) != [] {
      assert Filter(s, keep)[0] in Filter(s, keep);
    }
  }

  /** No two rows of `s` agree on `key`. */
  ghost predicate UniqueBy<T, K>(s: seq<T>, key: T -> K)
  {
    forall i, j | 0 <= i < j < |s| :: key(s[i]) != key(s[j])
  }

  lemma {:induction false} UniqueByFilter<T(!new), K>(s: seq<T>, key: T -> K, keep: T -> bool)
    requires UniqueBy(s, key)
    ensures UniqueBy(Filter(s, keep), key)
  {
    if s != [] {
      var rest := Filter(s[1..], keep);
      UniqueByFilter(s[1..], key, keep);
      if keep(s[0]) {
        forall j | 0 <= j < |rest| ensures key(s[0]) != key(rest[j]) {
          assert rest[j] in s[1..];
        }
        assert UniqueBy([s[0]] + rest, key) by {
          forall i, j | 0 <= i < j < |[s[0]] + rest|
            ensures key(([s[0]] + rest)[i]) != key(([s[0]] + rest)[j])
          {
            if i > 0 {
              assert ([s[0]] + rest)[i] == rest[i - 1];
            }
          }
        }
      }
    }
  }

  lemma UniqueByConcat<T, K>(s: seq<T>, t: seq<T>, key: T -> K)
    requires UniqueBy(s, key) && UniqueBy(t, key)
    requires forall x, y | x in s && y in t :: key(x) != key(y)
    ensures UniqueBy(s + t, key)
  {
    forall i, j | 0 <= i < j < |s + t| ensures key((s + t)[i]) != key((s + t)[j]) {
      if j < |s| {
      } else if i < |s| {
        assert (s + t)[i] in s && (s + t)[j] in t;
      } else {
        assert (s + t)[i] == t[i - |s|] && (s + t)[j] == t[j - |s|];
      }
    }
  }

  /** Under a uniqueness constraint, a row that is present is present once,
      and it is the only row with its key. */
  lemma {:induction false} UniqueByOnce<T, K>(s: seq<T>, key: T -> K, x: T)
    requires UniqueBy(s, key) && x in s
    ensures multiset(s)[x] == 1
    ensures forall y | y in s && key(y) == key(x) :: y == x
  {
    assert s == [s[0]] + s[1..];
    assert UniqueBy(s[1..], key) by {
      forall i, j | 0 <= i < j < |s[1..]| ensures key(s[1..][i]) != key(s[1..][j]) {
        assert s[1..][i] == s[i + 1] && s[1..][j] == s[j + 1];
      }
    }
    forall y | y in s[1..] ensures key(y) != key(s[0]) {
      var j :| 0 <= j < |s[1..]| && s[1..][j] == y;
      assert y == s[j + 1];
    }
    if x == s[0] {
      assert x !in s[1..];
    } else {
      UniqueByOnce(s[1..], key, x);
    }
  }

  /** Filtering a filtered table by a narrower condition is filtering it once. */
  lemma {:induction false} FilterNarrow<T(!new)>(s: seq<T>, wide: T -> bool, narrow: T -> bool)
    requires forall x | x in s && narrow(x) :: wide(x)
    ensures Filter(Filter(s, wide), narrow) == Filter(s, narrow)
  {
    if s != [] {
      var tail := Filter(s[1..], wide);
      FilterNarrow(s[1..], wide, narrow);
      if wide(s[0]) {
        var t := [s[0]] + tail;
        assert Filter(s, wide) == t;
        assert t[0] == s[0] && t[1..] == tail;
        assert Filter(t, narrow) == (if narrow(s[0]) then [s[0]] else []) + Filter(tail, narrow);
      } else {
        assert Filter(s, wide) == tail;
        assert !narrow(s[0]);
      }
    }
  }

  lemma UniqueByAppend<T, K>(s: seq<T>, key: T -> K, x: T)
    requires UniqueBy(s, key)
    requires forall y | y in s :: key(y) != key(x)
    ensures UniqueBy(s + [x], key)
  {
    UniqueByConcat(s, [x], key);
  }

  /** The rows whose key is not `k`: `.filter(key=k).delete()` keeps these. */
  function KeyIsNot<T, K(==)>(key: T -> K, k: K): (p: T -> bool)
  {
    (y: T) => key(y) != k
  }

  /** Under a uniqueness constraint, deleting the rows with the key of a
      present row deletes exactly that one row. */
  lemma RemoveUniqueRow<T(!new), K>(s: seq<T>, key: T -> K, x: T)
    requires UniqueBy(s, key) && x in s
    ensures multiset(Filter(s, KeyIsNot(key, key(x)))) == multiset(s) - multiset{x}
    ensures |Filter(s, KeyIsNot(key, key(x)))| == |s| - 1
  {
    var r := Filter(s, KeyIsNot(key, key(x)));
    UniqueByOnce(s, key, x);
    forall y ensures multiset(r)[y] == (multiset(s) - multiset{x})[y] {
      FilterMultiset(s, KeyIsNot(key, key(x)), y);
      if key(y) == key(x) && y in s {
        assert y == x;
      }
    }
    assert multiset(r) == multiset(s) - multiset{x};
    assert |multiset(r)| == |r| && |multiset(s)| == |s|;
  }

  /** Inserting a row whose key is absent and then deleting by that key
      gives back the table as it was. */
  lemma AppendThenRemove<T(!new), K>(s: seq<T>, key: T -> K, x: T)
    requires forall y | y in s :: key(y) != key(x)
    ensures Filter(s + [x], KeyIsNot(key, key(x))) == s
  {
    FilterConcat(s, [x], KeyIsNot(key, key(x)));
    FilterKeepsAll(s, KeyIsNot(key, key(x)));
    FilterKeepsNone([x], KeyIsNot(key, key(x)));
  }
}
