/**
 The stable sort of `list.sort(key=...)` over keys that are reals or
 `float('inf')`. Python's sort is stable: rows with equal keys keep their order.
 */
module Sorting {

  /** A sort key: a finite real, or `float('inf')`, which is above every finite key. */
  datatype Key = Finite(value: real) | Infinite

  predicate KeyLe(a: Key, b: Key) {
    b.Infinite? || (a.Finite? && a.value <= b.value)
  }

  predicate KeyLt(a: Key, b: Key) {
    !KeyLe(b, a)
  }

  /** `s` is in ascending key order. */
  ghost predicate SortedBy<T>(s: seq<T>, key: T -> Key) {
    forall i, j :: 0 <= i < j < |s| ==> KeyLe(key(s[i]), key(s[j]))
  }

  /** The elements of `s` whose key is `k`, in their order in `s`. */
  function WithKey<T>(s: seq<T>, key: T -> Key, k: Key): seq<T>
    decreases |s|
  {
    if |s| == 0 then []
    else (if key(s[0]) == k then [s[0]] else []) + WithKey(s[1..], key, k)
  }

  /**
   Insert `x` into sorted `t` after every element whose key is not above its
   own, so an element inserted later stays after the earlier equal ones.
   */
  function Insert<T>(x: T, t: seq<T>, key: T -> Key): (r: seq<T>)
    requires SortedBy(t, key)
    ensures SortedBy(r, key)
    ensures multiset(r) == multiset(t) + multiset{x}
    ensures |r| == |t| + 1
    decreases |t|
  {
    if |t| == 0 then [x]
    else if KeyLt(key(x), key(t[0])) then [x] + t
    else
      var rest := Insert(x, t[1..], key);
      assert t == [t[0]] + t[1..];
      InsertAbove(x, t, rest, key);
      [t[0]] + rest
  }

  /** `rows.sort(key=key)`: ascending by key, stable. */
  function SortByKey<T>(s: seq<T>, key: T -> Key): (r: seq<T>)
    ensures SortedBy(r, key)
    ensures multiset(r) == multiset(s)
    ensures |r| == |s|
    decreases |s|
  {
    if |s| == 0 then []
    else
      assert s == s[..|s| - 1] + [s[|s| - 1]];
      Insert(s[|s| - 1], SortByKey(s[..|s| - 1], key), key)
  }

  /** Every element of `rest`, a permutation of `t[1..]` plus `x`, has a key not below `t[0]`'s. */
  lemma InsertAbove<T>(x: T, t: seq<T>, rest: seq<T>, key: T -> Key)
    requires |t| > 0
    requires SortedBy(t, key)
    requires !KeyLt(key(x), key(t[0]))
    requires multiset(rest) == multiset(t[1..]) + multiset{x}
    ensures forall i :: 0 <= i < |rest| ==> KeyLe(key(t[0]), key(rest[i]))
  {
    forall i | 0 <= i < |rest|
      ensures KeyLe(key(t[0]), key(rest[i]))
    {
      assert rest[i] in multiset(rest);
      if rest[i] != x {
        assert rest[i] in multiset(t[1..]);
        var j :| 0 <= j < |t[1..]| && t[1..][j] == rest[i];
        assert t[j + 1] == rest[i];
      }
    }
  }

  lemma {:induction false} WithKeyAppend<T>(a: seq<T>, b: seq<T>, key: T -> Key, k: Key)
    ensures WithKey(a + b, key, k) == WithKey(a, key, k) + WithKey(b, key, k)
    decreases |a|
  {
    if |a| == 0 {
      assert a + b == b;
    } else {
      assert a + b == [a[0]] + (a[1..] + b);
      WithKeyCons(a[0], a[1..] + b, key, k);
      WithKeyAppend(a[1..], b, key, k);
      assert a == [a[0]] + a[1..];
      WithKeyCons(a[0], a[1..], key, k);
    }
  }

  lemma WithKeySingle<T>(x: T, key: T -> Key, k: Key)
    ensures WithKey([x], key, k) == if key(x) == k then [x] else []
  {
    assert [x][1..] == [];
  }

  lemma SplitLast<T>(s: seq<T>)
    requires |s| > 0
    ensures s == s[..|s| - 1] + [s[|s| - 1]]
  {
  }

  lemma SortByKeySnoc<T>(s: seq<T>, key: T -> Key)
    requires |s| > 0
    ensures SortByKey(s, key) == Insert(s[|s| - 1], SortByKey(s[..|s| - 1], key), key)
  {
  }

  /** In a sorted sequence starting above `k`, no element has key `k`. */
  lemma {:induction false} WithKeyAbove<T>(t: seq<T>, key: T -> Key, k: Key)
    requires SortedBy(t, key)
    requires |t| > 0 ==> KeyLt(k, key(t[0]))
    ensures WithKey(t, key, k) == []
    decreases |t|
  {
    if |t| > 0 {
      if |t| > 1 {
        assert KeyLe(key(t[0]), key(t[1]));
      }
      WithKeyAbove(t[1..], key, k);
    }
  }

  lemma WithKeyCons<T>(y: T, u: seq<T>, key: T -> Key, k: Key)
    ensures WithKey([y] + u, key, k) == (if key(y) == k then [y] else []) + WithKey(u, key, k)
  {
    assert ([y] + u)[0] == y;
    assert ([y] + u)[1..] == u;
  }

  /** Inserting `x` appends it to the elements of its own key and leaves the others alone. */
  lemma {:induction false} InsertWithKey<T>(x: T, t: seq<T>, key: T -> Key, k: Key)
    requires SortedBy(t, key)
    ensures WithKey(Insert(x, t, key), key, k) == WithKey(t, key, k) + (if key(x) == k then [x] else [])
    decreases |t|
  {
    if |t| == 0 {
      WithKeySingle(x, key, k);
    } else if KeyLt(key(x), key(t[0])) {
      WithKeyCons(x, t, key, k);
      if key(x) == k {
        WithKeyAbove(t, key, k);
      }
    } else {
      InsertStep(x, t, key);
      InsertWithKey(x, t[1..], key, k);
      ConsKeepsWithKey(t, Insert(x, t[1..], key), key, k, if key(x) == k then [x] else []);
    }
  }

  /** When `x` does not go before `t[0]`, the insertion keeps `t[0]` in front. */
  lemma InsertStep<T>(x: T, t: seq<T>, key: T -> Key)
    requires SortedBy(t, key)
    requires |t| > 0
    requires !KeyLt(key(x), key(t[0]))
    ensures Insert(x, t, key) == [t[0]] + Insert(x, t[1..], key)
  {
  }

  /** Putting `t[0]` back in front of a sequence whose `k`-elements extend those of `t[1..]` extends those of `t` alike. */
  lemma ConsKeepsWithKey<T>(t: seq<T>, rest: seq<T>, key: T -> Key, k: Key, mine: seq<T>)
    requires |t| > 0
    requires WithKey(rest, key, k) == WithKey(t[1..], key, k) + mine
    ensures WithKey([t[0]] + rest, key, k) == WithKey(t, key, k) + mine
  {
    WithKeyCons(t[0], rest, key, k);
    assert t == [t[0]] + t[1..];
    WithKeyCons(t[0], t[1..], key, k);
  }

  /** Stability: for every key, the rows with that key keep their relative order. */
  lemma {:induction false} SortStable<T>(s: seq<T>, key: T -> Key, k: Key)
    ensures WithKey(SortByKey(s, key), key, k) == WithKey(s, key, k)
    decreases |s|
  {
    if |s| > 0 {
      var init, x := s[..|s| - 1], s[|s| - 1];
      SplitLast(s);
      var sorted := SortByKey(init, key);
      var tail := if key(x) == k then [x] else [];
      SortByKeySnoc(s, key);
      SortStable(init, key, k);
      InsertWithKey(x, sorted, key, k);
      assert WithKey(SortByKey(s, key), key, k) == WithKey(init, key, k) + tail;
      WithKeyAppend(init, [x], key, k);
      WithKeySingle(x, key, k);
      assert WithKey(s, key, k) == WithKey(init, key, k) + tail;
    }
  }

  /** A sequence that is already in key order is left as it is. */
  lemma {:induction false} SortSorted<T>(s: seq<T>, key: T -> Key)
    requires SortedBy(s, key)
    ensures SortByKey(s, key) == s
    decreases |s|
  {
    if |s| > 0 {
      var init, x := s[..|s| - 1], s[|s| - 1];
      SortSorted(init, key);
      InsertAtEnd(x, init, key);
      assert s == init + [x];
    }
  }

  /** An element whose key is not below any key of `t` goes to the end. */
  lemma {:induction false} InsertAtEnd<T>(x: T, t: seq<T>, key: T -> Key)
    requires SortedBy(t, key)
    requires forall i :: 0 <= i < |t| ==> KeyLe(key(t[i]), key(x))
    ensures Insert(x, t, key) == t + [x]
    decreases |t|
  {
    if |t| > 0 {
      InsertAtEnd(x, t[1..], key);
      assert t == [t[0]] + t[1..];
    }
  }

  // ---------------------------------------------------------------------------
  // The first least key, as found by a scan that replaces its best only by a strictly smaller key.

  /** `keys[k]` is not above any key and is strictly below every earlier one. */
  ghost predicate IsFirstLeast(keys: seq<Key>, k: nat)
    requires k < |keys|
  {
    && (forall j :: 0 <= j < |keys| ==> KeyLe(keys[k], keys[j]))
    && (forall j :: 0 <= j < k ==> KeyLt(keys[k], keys[j]))
  }

  function FirstLeastFrom(keys: seq<Key>, i: nat, best: nat): (k: nat)
    requires best < i <= |keys|
    requires forall j :: 0 <= j < i ==> KeyLe(keys[best], keys[j])
    requires forall j :: 0 <= j < best ==> KeyLt(keys[best], keys[j])
    ensures k < |keys|
    ensures IsFirstLeast(keys, k)
    ensures KeyLe(keys[k], keys[best])
    decreases |keys| - i
  {
    if i == |keys| then best
    else if KeyLt(keys[i], keys[best]) then
      SmallerKeyLeadsPrefix(keys, i, best);
      FirstLeastFrom(keys, i + 1, i)
    else FirstLeastFrom(keys, i + 1, best)
  }

  /** A key strictly below the least key of a prefix is strictly below all of that prefix. */
  lemma SmallerKeyLeadsPrefix(keys: seq<Key>, i: nat, best: nat)
    requires best < i < |keys|
    requires forall j :: 0 <= j < i ==> KeyLe(keys[best], keys[j])
    requires KeyLt(keys[i], keys[best])
    ensures forall j :: 0 <= j <= i ==> KeyLe(keys[i], keys[j])
    ensures forall j :: 0 <= j < i ==> KeyLt(keys[i], keys[j])
  {
    forall j | 0 <= j < i
      ensures KeyLt(keys[i], keys[j])
    {
      assert KeyLe(keys[best], keys[j]);
    }
  }

  /** At most one index holds the first least key. */
  lemma FirstLeastUnique(keys: seq<Key>, k1: nat, k2: nat)
    requires k1 < |keys| && k2 < |keys|
    requires IsFirstLeast(keys, k1)
    requires IsFirstLeast(keys, k2)
    ensures k1 == k2
  {
    // Naming both keys supplies the terms the quantifiers of IsFirstLeast
    // need to compare the two candidates.
    var d1, d2 := keys[k1], keys[k2];
    if k1 < k2 {
      assert false;
    } else if k2 < k1 {
      assert false;
    }
  }
}
