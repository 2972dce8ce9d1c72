/**
 * Python's `list.sort(key=...)` as a specification: a stable sort by an
 * integer sort key.  The library sort is reached only through this
 * reference definition, an insertion sort; what the scripts rely on is
 * proved about it: the result is ordered by key, is a permutation of the
 * input, and keeps elements with equal keys in their input order; and any
 * sequence with those properties is this one.
 */
module Sorting {

  /** The keys never decrease along xs. */
  ghost predicate SortedBy<T>(xs: seq<T>, key: T -> int) {
    forall i, j :: 0 <= i < j < |xs| ==> key(xs[i]) <= key(xs[j])
  }

  /** The elements of xs whose key is k, in their order in xs. */
  function WithKey<T>(xs: seq<T>, key: T -> int, k: int): (r: seq<T>)
    ensures |r| <= |xs|
  {
    if xs == [] then []
    else (if key(xs[0]) == k then [xs[0]] else []) + WithKey(xs[1..], key, k)
  }

  /**
   * x placed into ys just after the elements whose key is at most x's, so
   * that it follows everything with its key.
   */
  function Insert<T>(x: T, ys: seq<T>, key: T -> int): (r: seq<T>)
    ensures |r| == |ys| + 1
  {
    if ys == [] then [x]
    else if key(ys[0]) <= key(x) then [ys[0]] + Insert(x, ys[1..], key)
    else [x] + ys
  }

  /** Insertion adds x and nothing else. */
  lemma {:induction false} InsertPermutes<T>(x: T, ys: seq<T>, key: T -> int)
    ensures multiset(Insert(x, ys, key)) == multiset(ys) + multiset{x}
  {
    if ys != [] {
      assert ys == [ys[0]] + ys[1..];
      if key(ys[0]) <= key(x) {
        InsertPermutes(x, ys[1..], key);
      }
    }
  }

  /** The stable sort of xs by key: each element inserted in input order. */
  function SortBy<T>(xs: seq<T>, key: T -> int): (r: seq<T>)
    ensures |r| == |xs| && multiset(r) == multiset(xs)
  {
    if xs == [] then []
    else
      assert xs == xs[..|xs| - 1] + [xs[|xs| - 1]];
      InsertPermutes(xs[|xs| - 1], SortBy(xs[..|xs| - 1], key), key);
      Insert(xs[|xs| - 1], SortBy(xs[..|xs| - 1], key), key)
  }

  /** Inserting into an ordered sequence keeps it ordered. */
  lemma {:induction false} InsertSorted<T>(x: T, ys: seq<T>, key: T -> int)
    requires SortedBy(ys, key)
    ensures SortedBy(Insert(x, ys, key), key)
  {
    if ys != [] && key(ys[0]) <= key(x) {
      var rest := Insert(x, ys[1..], key);
      InsertSorted(x, ys[1..], key);
      InsertPermutes(x, ys[1..], key);
      forall j | 0 <= j < |rest|
        ensures key(ys[0]) <= key(rest[j])
      {
        assert rest[j] in multiset(rest);
        assert rest[j] == x || rest[j] in multiset(ys[1..]);
      }
    }
  }

  /** The sort orders its input. */
  lemma {:induction false} SortBySorted<T>(xs: seq<T>, key: T -> int)
    ensures SortedBy(SortBy(xs, key), key)
  {
    if xs != [] {
      SortBySorted(xs[..|xs| - 1], key);
      InsertSorted(xs[|xs| - 1], SortBy(xs[..|xs| - 1], key), key);
    }
  }

  lemma {:induction false} WithKeyConcat<T>(a: seq<T>, b: seq<T>, key: T -> int, k: int)
    ensures WithKey(a + b, key, k) == WithKey(a, key, k) + WithKey(b, key, k)
  {
    if a == [] {
      assert a + b == b;
    } else {
      var head := if key(a[0]) == k then [a[0]] else [];
      assert (a + b)[0] == a[0] && (a + b)[1..] == a[1..] + b;
      WithKeyConcat(a[1..], b, key, k);
      calc {
        WithKey(a + b, key, k);
        head + WithKey(a[1..] + b, key, k);
        head + (WithKey(a[1..], key, k) + WithKey(b, key, k));
        (head + WithKey(a[1..], key, k)) + WithKey(b, key, k);
      }
    }
  }

  lemma WithKeySingle<T>(x: T, key: T -> int, k: int)
    ensures WithKey([x], key, k) == (if key(x) == k then [x] else [])
  {
    assert WithKey([x], key, k) == (if key(x) == k then [x] else []) + WithKey([x][1..], key, k);
  }

  /** A sequence with no element of key k has none to keep. */
  lemma {:induction false} NoneWithKey<T>(ys: seq<T>, key: T -> int, k: int)
    requires forall i :: 0 <= i < |ys| ==> key(ys[i]) != k
    ensures WithKey(ys, key, k) == []
  {
    if ys != [] {
      NoneWithKey(ys[1..], key, k);
    }
  }

  /** Insertion appends x to the elements of its key and leaves the others alone. */
  lemma {:induction false} InsertWithKey<T>(x: T, ys: seq<T>, key: T -> int, k: int)
    requires SortedBy(ys, key)
    ensures WithKey(Insert(x, ys, key), key, k)
         == WithKey(ys, key, k) + (if key(x) == k then [x] else [])
  {
    if ys == [] {
      WithKeySingle(x, key, k);
    } else if key(ys[0]) <= key(x) {
      InsertWithKey(x, ys[1..], key, k);
      InsertAfterHead(x, ys, key, k);
    } else {
      InsertInFront(x, ys, key, k);
    }
  }

  lemma InsertAfterHead<T>(x: T, ys: seq<T>, key: T -> int, k: int)
    requires ys != [] && key(ys[0]) <= key(x)
    requires WithKey(Insert(x, ys[1..], key), key, k)
          == WithKey(ys[1..], key, k) + (if key(x) == k then [x] else [])
    ensures WithKey(Insert(x, ys, key), key, k)
         == WithKey(ys, key, k) + (if key(x) == k then [x] else [])
  {
    var rest := Insert(x, ys[1..], key);
    var r := [ys[0]] + rest;
    assert Insert(x, ys, key) == r;
    assert r[0] == ys[0] && r[1..] == rest;
    var head := if key(ys[0]) == k then [ys[0]] else [];
    assert WithKey(r, key, k) == head + WithKey(rest, key, k);
    assert WithKey(ys, key, k) == head + WithKey(ys[1..], key, k);
  }

  lemma InsertInFront<T>(x: T, ys: seq<T>, key: T -> int, k: int)
    requires SortedBy(ys, key) && ys != [] && key(x) < key(ys[0])
    ensures WithKey(Insert(x, ys, key), key, k)
         == WithKey(ys, key, k) + (if key(x) == k then [x] else [])
  {
    var r := [x] + ys;
    assert Insert(x, ys, key) == r;
    assert r[0] == x && r[1..] == ys;
    if key(x) == k {
      NoneWithKey(ys, key, k);
    }
  }

  /** The sort is stable: elements with equal keys keep their input order. */
  lemma {:induction false} SortByStable<T>(xs: seq<T>, key: T -> int, k: int)
    ensures WithKey(SortBy(xs, key), key, k) == WithKey(xs, key, k)
  {
    if xs != [] {
      var init, last := xs[..|xs| - 1], xs[|xs| - 1];
      var sorted := SortBy(init, key);
      assert SortBy(xs, key) == Insert(last, sorted, key);
      SortByStable(init, key, k);
      SortBySorted(init, key);
      InsertWithKey(last, sorted, key, k);
      WithKeySnoc(xs, key, k);
    }
  }

  /** WithKey of a sequence is WithKey of all but its last element, then that one if it has key k. */
  lemma WithKeySnoc<T>(xs: seq<T>, key: T -> int, k: int)
    requires xs != []
    ensures WithKey(xs, key, k) == WithKey(xs[..|xs| - 1], key, k)
      + (if key(xs[|xs| - 1]) == k then [xs[|xs| - 1]] else [])
  {
    var init, last := xs[..|xs| - 1], xs[|xs| - 1];
    assert xs == init + [last];
    WithKeyConcat(init, [last], key, k);
    WithKeySingle(last, key, k);
  }

  // ---------------------------------------------------------------------
  // Every stable sort gives this result

  /** Every element kept by WithKey is an element of xs with key k. */
  lemma {:induction false} WithKeyMembers<T>(xs: seq<T>, key: T -> int, k: int)
    ensures forall y :: y in WithKey(xs, key, k) ==> y in xs && key(y) == k
  {
    if xs != [] {
      WithKeyMembers(xs[1..], key, k);
    }
  }

  /** The elements with a key that occurs are not all dropped. */
  lemma {:induction false} WithKeyOfMember<T>(xs: seq<T>, key: T -> int, i: nat)
    requires i < |xs|
    ensures WithKey(xs, key, key(xs[i])) != []
  {
    if i > 0 {
      WithKeyOfMember(xs[1..], key, i - 1);
      assert xs[1..][i - 1] == xs[i];
    }
  }

  /**
   * Any sequence ordered by key that keeps the elements of each key in
   * their order in xs is SortBy(xs): every stable sort agrees with this one.
   */
  lemma StableSortUnique<T>(xs: seq<T>, ys: seq<T>, key: T -> int)
    requires SortedBy(ys, key)
    requires forall k :: WithKey(ys, key, k) == WithKey(xs, key, k)
    ensures ys == SortBy(xs, key)
  {
    var zs := SortBy(xs, key);
    SortBySorted(xs, key);
    forall k
      ensures WithKey(zs, key, k) == WithKey(ys, key, k)
    {
      SortByStable(xs, key, k);
    }
    SortedEqual(ys, zs, key);
  }

  /** Two ordered sequences that agree key by key are equal. */
  lemma {:induction false} SortedEqual<T>(ys: seq<T>, zs: seq<T>, key: T -> int)
    requires SortedBy(ys, key) && SortedBy(zs, key)
    requires forall k :: WithKey(ys, key, k) == WithKey(zs, key, k)
    ensures ys == zs
    decreases |ys| + |zs|
  {
    NonemptyTogether(ys, zs, key);
    NonemptyTogether(zs, ys, key);
    if ys != [] {
      var y, z := ys[0], zs[0];
      FirstKeysAgree(ys, zs, key);
      var k := key(y);
      assert WithKey(ys, key, k)[0] == y;
      assert WithKey(zs, key, k)[0] == z;
      forall k'
        ensures WithKey(ys[1..], key, k') == WithKey(zs[1..], key, k')
      {
        var h := if key(y) == k' then [y] else [];
        assert WithKey(ys, key, k') == h + WithKey(ys[1..], key, k');
        assert WithKey(zs, key, k') == h + WithKey(zs[1..], key, k');
        assert WithKey(ys[1..], key, k') == WithKey(ys, key, k')[|h|..];
        assert WithKey(zs[1..], key, k') == WithKey(zs, key, k')[|h|..];
      }
      SortedEqual(ys[1..], zs[1..], key);
      assert ys == [y] + ys[1..] && zs == [z] + zs[1..];
    }
  }

  /** Sequences that agree key by key are empty together. */
  lemma NonemptyTogether<T>(ys: seq<T>, zs: seq<T>, key: T -> int)
    requires forall k :: WithKey(ys, key, k) == WithKey(zs, key, k)
    ensures ys != [] ==> zs != []
  {
    if ys != [] {
      WithKeyOfMember(ys, key, 0);
      assert WithKey(zs, key, key(ys[0])) != [];
    }
  }

  /** The first elements of two such ordered sequences have the same key. */
  lemma FirstKeysAgree<T>(ys: seq<T>, zs: seq<T>, key: T -> int)
    requires SortedBy(ys, key) && SortedBy(zs, key) && ys != [] && zs != []
    requires forall k :: WithKey(ys, key, k) == WithKey(zs, key, k)
    ensures key(ys[0]) == key(zs[0])
  {
    WithKeyOfMember(ys, key, 0);
    WithKeyOfMember(zs, key, 0);
    var a := WithKey(zs, key, key(ys[0]))[0];
    var b := WithKey(ys, key, key(zs[0]))[0];
    WithKeyMembers(zs, key, key(ys[0]));
    WithKeyMembers(ys, key, key(zs[0]));
    assert a in zs && b in ys;
    var i :| 0 <= i < |zs| && zs[i] == a;
    var j :| 0 <= j < |ys| && ys[j] == b;
    assert key(zs[0]) <= key(zs[i]);
    assert key(ys[0]) <= key(ys[j]);
  }

  /**
   * When no two distinct elements share a key, the ordered permutation of
   * xs is unique: any ordered ys with the same elements is SortBy(xs).
   */
  lemma SortedPermutationUnique<T>(xs: seq<T>, ys: seq<T>, key: T -> int)
    requires forall a, b :: key(a) == key(b) ==> a == b
    requires SortedBy(ys, key) && multiset(ys) == multiset(xs)
    ensures ys == SortBy(xs, key)
  {
    SortBySorted(xs, key);
    SortedSameElements(ys, SortBy(xs, key), key);
  }

  lemma {:induction false} SortedSameElements<T>(ys: seq<T>, zs: seq<T>, key: T -> int)
    requires forall a, b :: key(a) == key(b) ==> a == b
    requires SortedBy(ys, key) && SortedBy(zs, key) && multiset(ys) == multiset(zs)
    ensures ys == zs
    decreases |ys|
  {
    assert |ys| == |multiset(ys)| == |zs|;
    if ys != [] {
      SameHead(ys, zs, key);
      SameTails(ys, zs);
      SortedTail(ys, key);
      SortedTail(zs, key);
      SortedSameElements(ys[1..], zs[1..], key);
    }
  }

  lemma SortedTail<T>(ys: seq<T>, key: T -> int)
    requires SortedBy(ys, key) && ys != []
    ensures SortedBy(ys[1..], key)
  {
    var t := ys[1..];
    forall i, j | 0 <= i < j < |t|
      ensures key(t[i]) <= key(t[j])
    {
      assert t[i] == ys[i + 1] && t[j] == ys[j + 1];
    }
  }

  /** Removing equal heads from equal multisets leaves equal multisets. */
  lemma SameTails<T>(ys: seq<T>, zs: seq<T>)
    requires multiset(ys) == multiset(zs) && ys != [] && zs != [] && ys[0] == zs[0]
    ensures multiset(ys[1..]) == multiset(zs[1..])
  {
    assert ys == [ys[0]] + ys[1..] && zs == [zs[0]] + zs[1..];
    assert multiset(ys) == multiset{ys[0]} + multiset(ys[1..]);
    assert multiset(zs) == multiset{zs[0]} + multiset(zs[1..]);
    assert multiset(ys[1..]) == multiset(ys) - multiset{ys[0]};
    assert multiset(zs[1..]) == multiset(zs) - multiset{zs[0]};
  }

  /** Their first elements are the least, so they are the same element. */
  lemma SameHead<T>(ys: seq<T>, zs: seq<T>, key: T -> int)
    requires forall a, b :: key(a) == key(b) ==> a == b
    requires SortedBy(ys, key) && SortedBy(zs, key) && multiset(ys) == multiset(zs)
    requires ys != [] && zs != []
    ensures ys[0] == zs[0]
  {
    var y, z := ys[0], zs[0];
    assert y in multiset(ys) && z in multiset(zs);
    var i :| 0 <= i < |zs| && zs[i] == y;
    var j :| 0 <= j < |ys| && ys[j] == z;
    assert key(z) <= key(y) by {
      assert i == 0 || key(zs[0]) <= key(zs[i]);
    }
    assert key(y) <= key(z) by {
      assert j == 0 || key(ys[0]) <= key(ys[j]);
    }
    assert key(y) == key(z);
  }
}
