/**
 * Python's `list.sort(key=...)` as the merge uses it (merge.py:32): a
 * stable sort of the messages by their timestamp key.  The specification
 * is insertion from left to right, each element placed after every element
 * whose key is not greater than its own; `InsertionSort` does the same in
 * place on an array.
 */
module StableSort {
  import opened Wrappers
  import opened Timestamps

  /** A list item paired with the key `list.sort` computed for it. */
  datatype Keyed<T> = Keyed(key: Stamp, item: T)

  /** Keys never decrease along `s`. */
  predicate Sorted<T(!new)>(s: seq<Keyed<T>>)
  {
    forall i, j :: 0 <= i < j < |s| ==> !Less(s[j].key, s[i].key)
  }

  /** The subsequence of the elements of `s` whose key is `k`. */
  function WithKey<T(!new)>(s: seq<Keyed<T>>, k: Stamp): seq<Keyed<T>>
  {
    if s == [] then []
    else (if s[0].key == k then [s[0]] else []) + WithKey(s[1..], k)
  }

  /** The items, without their keys. */
  function Items<T(!new)>(s: seq<Keyed<T>>): seq<T>
  {
    if s == [] then [] else [s[0].item] + Items(s[1..])
  }

  /** `x` placed after the longest prefix of `s` whose keys are not greater than its own. */
  function Insert<T(!new)>(x: Keyed<T>, s: seq<Keyed<T>>): seq<Keyed<T>>
  {
    if s == [] then [x]
    else if Less(x.key, s[0].key) then [x] + s
    else [s[0]] + Insert(x, s[1..])
  }

  /** Inserting adds `x` and nothing else. */
  lemma {:induction false} InsertPermutes<T(!new)>(x: Keyed<T>, s: seq<Keyed<T>>)
    ensures multiset(Insert(x, s)) == multiset(s) + multiset{x}
  {
    if s != [] && !Less(x.key, s[0].key) {
      InsertPermutes(x, s[1..]);
      assert s == [s[0]] + s[1..];
    }
  }

  /** The stable sort of `s` by key. */
  function SortSpec<T(!new)>(s: seq<Keyed<T>>): seq<Keyed<T>>
  {
    if s == [] then [] else Insert(s[|s| - 1], SortSpec(s[..|s| - 1]))
  }

  // ----- Order facts on keys -----

  lemma NotLessTransitive(a: Stamp, b: Stamp, c: Stamp)
    requires !Less(b, a) && !Less(c, b)
    ensures !Less(c, a)
  {
  }

  lemma SortedTail<T(!new)>(s: seq<Keyed<T>>)
    requires Sorted(s) && s != []
    ensures Sorted(s[1..])
  {
  }

  /** The elements WithKey keeps are exactly those of `s` with key `k`. */
  lemma {:induction false} WithKeyMembers<T(!new)>(s: seq<Keyed<T>>, k: Stamp, x: Keyed<T>)
    ensures x in WithKey(s, k) <==> x in s && x.key == k
  {
    if s != [] {
      WithKeyMembers(s[1..], k, x);
      assert s == [s[0]] + s[1..];
    }
  }

  /** In a sorted sequence, no element has a key below the first one's. */
  lemma {:induction false} NoneWithSmallerKey<T(!new)>(s: seq<Keyed<T>>, k: Stamp)
    requires Sorted(s) && s != [] && Less(k, s[0].key)
    ensures WithKey(s, k) == []
  {
    LessIrreflexive(k);
    if |s| > 1 {
      assert !Less(s[1].key, s[0].key);
      LessTrichotomy(s[0].key, s[1].key);
      if Less(s[0].key, s[1].key) { LessTransitive(k, s[0].key, s[1].key); }
      SortedTail(s);
      NoneWithSmallerKey(s[1..], k);
    }
  }

  // ----- Properties of Insert -----

  lemma {:induction false} InsertSorted<T(!new)>(x: Keyed<T>, s: seq<Keyed<T>>)
    requires Sorted(s)
    ensures Sorted(Insert(x, s))
  {
    if s == [] {
    } else if Less(x.key, s[0].key) {
      var r := [x] + s;
      forall i, j | 0 <= i < j < |r| ensures !Less(r[j].key, r[i].key) {
        if i == 0 {
          assert r[j] == s[j - 1];
          LessTrichotomy(s[0].key, s[j - 1].key);
        }
      }
    } else {
      SortedTail(s);
      InsertSorted(x, s[1..]);
      InsertPermutes(x, s[1..]);
      var rest := Insert(x, s[1..]);
      var r := [s[0]] + rest;
      forall i, j | 0 <= i < j < |r| ensures !Less(r[j].key, r[i].key) {
        if i == 0 {
          assert r[j] == rest[j - 1];
          assert r[j] in multiset(rest);
          assert r[j] == x || r[j] in s[1..];
        } else {
          assert r[i] == rest[i - 1] && r[j] == rest[j - 1];
        }
      }
    }
  }

  lemma {:induction false} WithKeyAppend<T(!new)>(s: seq<Keyed<T>>, t: seq<Keyed<T>>, k: Stamp)
    ensures WithKey(s + t, k) == WithKey(s, k) + WithKey(t, k)
  {
    if s != [] {
      assert (s + t)[1..] == s[1..] + t;
      WithKeyAppend(s[1..], t, k);
    } else {
      assert s + t == t;
    }
  }

  lemma WithKeySingle<T(!new)>(x: Keyed<T>, k: Stamp)
    ensures WithKey([x], k) == if x.key == k then [x] else []
  {
    assert [x][1..] == [];
  }

  /** Inserting `x` into a sorted sequence puts it after every element with its key. */
  lemma {:induction false} InsertWithKey<T(!new)>(x: Keyed<T>, s: seq<Keyed<T>>, k: Stamp)
    requires Sorted(s)
    ensures WithKey(Insert(x, s), k) == WithKey(s, k) + WithKey([x], k)
  {
    WithKeySingle(x, k);
    if s == [] {
      assert Insert(x, s) == [x];
    } else if Less(x.key, s[0].key) {
      assert Insert(x, s) == [x] + s;
      WithKeyAppend([x], s, k);
      if x.key == k {
        NoneWithSmallerKey(s, k);
      }
    } else {
      var rest := Insert(x, s[1..]);
      assert Insert(x, s) == [s[0]] + rest;
      SortedTail(s);
      InsertWithKey(x, s[1..], k);
      WithKeyAppend([s[0]], rest, k);
      WithKeyAppend([s[0]], s[1..], k);
      assert [s[0]] + s[1..] == s;
    }
  }

  // ----- Properties of SortSpec -----

  lemma {:induction false} SortSpecPermutes<T(!new)>(s: seq<Keyed<T>>)
    ensures multiset(SortSpec(s)) == multiset(s)
  {
    if s != [] {
      SortSpecPermutes(s[..|s| - 1]);
      InsertPermutes(s[|s| - 1], SortSpec(s[..|s| - 1]));
      assert s == s[..|s| - 1] + [s[|s| - 1]];
    }
  }

  lemma {:induction false} SortSpecSorted<T(!new)>(s: seq<Keyed<T>>)
    ensures Sorted(SortSpec(s))
  {
    if s != [] {
      SortSpecSorted(s[..|s| - 1]);
      InsertSorted(s[|s| - 1], SortSpec(s[..|s| - 1]));
    }
  }

  /** Stability: for every key, the elements with that key keep their order. */
  lemma {:induction false} SortSpecStable<T(!new)>(s: seq<Keyed<T>>, k: Stamp)
    ensures WithKey(SortSpec(s), k) == WithKey(s, k)
  {
    if s != [] {
      var init, last := s[..|s| - 1], s[|s| - 1];
      SortSpecStable(init, k);
      SortSpecSorted(init);
      InsertWithKey(last, SortSpec(init), k);
      WithKeyAppend(init, [last], k);
      assert s == init + [last];
    }
  }

  /** Two sorted sequences with the same elements per key, in the same order, are equal. */
  lemma {:induction false} SortedUnique<T(!new)>(t: seq<Keyed<T>>, u: seq<Keyed<T>>)
    requires Sorted(t) && Sorted(u)
    requires forall k :: WithKey(t, k) == WithKey(u, k)
    ensures t == u
  {
    if t == [] && u == [] {
    } else if t == [] {
      WithKeyMembers(u, u[0].key, u[0]);
    } else if u == [] {
      WithKeyMembers(t, t[0].key, t[0]);
    } else {
      var k, k' := t[0].key, u[0].key;
      assert WithKey(t, k) == WithKey(u, k);
      assert WithKey(t, k') == WithKey(u, k');
      WithKeyMembers(t, k, t[0]);
      WithKeyMembers(u, k, t[0]);
      WithKeyMembers(u, k', u[0]);
      WithKeyMembers(t, k', u[0]);
      assert !Less(k, k') && !Less(k', k);
      LessTrichotomy(k, k');
      assert WithKey(t, k)[0] == t[0] && WithKey(u, k)[0] == u[0];
      SortedTail(t);
      SortedTail(u);
      forall j ensures WithKey(t[1..], j) == WithKey(u[1..], j) {
        var head := if t[0].key == j then [t[0]] else [];
        assert WithKey(t, j) == head + WithKey(t[1..], j);
        assert WithKey(u, j) == head + WithKey(u[1..], j);
        assert WithKey(t, j) == WithKey(u, j);
        assert WithKey(t[1..], j) == (head + WithKey(t[1..], j))[|head|..];
        assert WithKey(u[1..], j) == (head + WithKey(u[1..], j))[|head|..];
      }
      SortedUnique(t[1..], u[1..]);
      assert t == [t[0]] + t[1..] && u == [u[0]] + u[1..];
    }
  }

  /**
   * SortSpec is the one stable sort: a sequence is SortSpec(s) exactly when
   * it is sorted and keeps, for every key, the elements of `s` with that key
   * in their order in `s`.
   */
  lemma SortSpecCharacterized<T(!new)>(s: seq<Keyed<T>>, t: seq<Keyed<T>>)
    ensures t == SortSpec(s) ==> Sorted(t) && (forall k :: WithKey(t, k) == WithKey(s, k))
    ensures Sorted(t) && (forall k :: WithKey(t, k) == WithKey(s, k)) ==> t == SortSpec(s)
  {
    var r := SortSpec(s);
    SortSpecSorted(s);
    forall k ensures WithKey(r, k) == WithKey(s, k) {
      SortSpecStable(s, k);
    }
    if Sorted(t) && (forall k :: WithKey(t, k) == WithKey(s, k)) {
      forall k ensures WithKey(t, k) == WithKey(r, k) {
        assert WithKey(t, k) == WithKey(s, k);
      }
      SortedUnique(t, r);
    }
  }

  /** Sorting leaves a sequence unchanged exactly when it is already sorted. */
  lemma SortSpecFixesSorted<T(!new)>(s: seq<Keyed<T>>)
    ensures SortSpec(s) == s <==> Sorted(s)
  {
    SortSpecCharacterized(s, s);
  }

  // ----- Items -----

  lemma {:induction false} ItemsAppend<T(!new)>(s: seq<Keyed<T>>, t: seq<Keyed<T>>)
    ensures Items(s + t) == Items(s) + Items(t)
  {
    if s == [] {
      assert s + t == t;
    } else {
      assert (s + t)[1..] == s[1..] + t;
      ItemsAppend(s[1..], t);
    }
  }

  lemma {:induction false} InsertItems<T(!new)>(x: Keyed<T>, s: seq<Keyed<T>>)
    ensures multiset(Items(Insert(x, s))) == multiset(Items(s)) + multiset{x.item}
  {
    if s == [] {
      assert Insert(x, s) == [x];
      assert Items([x]) == [x.item] + Items([]);
    } else if Less(x.key, s[0].key) {
      assert Insert(x, s) == [x] + s;
      assert Items([x] + s) == [x.item] + Items(s) by {
        assert ([x] + s)[1..] == s;
      }
    } else {
      var rest := Insert(x, s[1..]);
      assert Insert(x, s) == [s[0]] + rest;
      assert Items([s[0]] + rest) == [s[0].item] + Items(rest) by {
        assert ([s[0]] + rest)[1..] == rest;
      }
      assert Items(s) == [s[0].item] + Items(s[1..]);
      InsertItems(x, s[1..]);
    }
  }

  /** Sorting rearranges the items and neither drops nor duplicates any. */
  lemma {:induction false} SortSpecItems<T(!new)>(s: seq<Keyed<T>>)
    ensures multiset(Items(SortSpec(s))) == multiset(Items(s))
  {
    if s != [] {
      var init, last := s[..|s| - 1], s[|s| - 1];
      assert s == init + [last];
      calc {
        multiset(Items(SortSpec(s)));
        multiset(Items(Insert(last, SortSpec(init))));
        { InsertItems(last, SortSpec(init)); }
        multiset(Items(SortSpec(init))) + multiset{last.item};
        { SortSpecItems(init); }
        multiset(Items(init)) + multiset{last.item};
        { assert Items([last]) == [last.item] + Items([]); }
        multiset(Items(init) + Items([last]));
        { ItemsAppend(init, [last]); }
        multiset(Items(s));
      }
    }
  }

  lemma {:induction false} ItemsIndex<T(!new)>(s: seq<Keyed<T>>, i: nat)
    requires i < |s|
    ensures |Items(s)| == |s| && Items(s)[i] == s[i].item
  {
    ItemsLength(s);
    if i > 0 {
      ItemsIndex(s[1..], i - 1);
    }
  }

  lemma {:induction false} ItemsLength<T(!new)>(s: seq<Keyed<T>>)
    ensures |Items(s)| == |s|
  {
    if s != [] {
      ItemsLength(s[1..]);
    }
  }

  // ----- Items whose key a function computes -----

  /** Every element of `ks` carries the key `keyOf` computes for its item. */
  predicate KeyedBy<T(!new)>(ks: seq<Keyed<T>>, keyOf: T -> Option<Stamp>)
  {
    forall i :: 0 <= i < |ks| ==> keyOf(ks[i].item) == Some(ks[i].key)
  }

  /**
   * The keys of `xs`, computed one by one in order. On the first item whose
   * key fails, the result is that item's position and the failure.
   */
  function KeyAllBy<T(!new), E>(xs: seq<T>, keyOf: T -> Result<Stamp, E>): (r: Result<seq<Keyed<T>>, (nat, E)>)
    ensures r.Success? <==> forall i :: 0 <= i < |xs| ==> keyOf(xs[i]).Success?
    ensures r.Success? ==>
      Items(r.value) == xs &&
      forall i :: 0 <= i < |r.value| ==> keyOf(r.value[i].item) == Success(r.value[i].key)
    ensures r.Failure? ==>
      r.error.0 < |xs| && keyOf(xs[r.error.0]) == Failure(r.error.1) &&
      forall j :: 0 <= j < r.error.0 ==> keyOf(xs[j]).Success?
  {
    if xs == [] then Success([])
    else match keyOf(xs[0])
      case Failure(why) => Failure((0, why))
      case Success(k) =>
        match KeyAllBy(xs[1..], keyOf)
        case Failure(e) =>
          assert forall j :: 1 <= j < |xs| ==> xs[j] == xs[1..][j - 1];
          Failure((e.0 + 1, e.1))
        case Success(ks) =>
          assert forall j :: 1 <= j < |xs| ==> xs[j] == xs[1..][j - 1];
          assert ([Keyed(k, xs[0])] + ks)[1..] == ks;
          Success([Keyed(k, xs[0])] + ks)
  }

  /** The items of `xs` whose key is `k`, in order. */
  function ItemsWithKey<T(!new)>(xs: seq<T>, keyOf: T -> Option<Stamp>, k: Stamp): seq<T>
  {
    if xs == [] then []
    else (if keyOf(xs[0]) == Some(k) then [xs[0]] else []) + ItemsWithKey(xs[1..], keyOf, k)
  }

  /** Every item has a key, and the keys never decrease along `xs`. */
  predicate InKeyOrder<T(!new)>(xs: seq<T>, keyOf: T -> Option<Stamp>)
  {
    (forall i :: 0 <= i < |xs| ==> keyOf(xs[i]).Some?) &&
    forall i, j :: 0 <= i < j < |xs| ==>
      keyOf(xs[i]).Some? && keyOf(xs[j]).Some? && !Less(keyOf(xs[j]).value, keyOf(xs[i]).value)
  }

  lemma {:induction false} ItemsWithKeyAppend<T(!new)>(xs: seq<T>, ys: seq<T>, keyOf: T -> Option<Stamp>, k: Stamp)
    ensures ItemsWithKey(xs + ys, keyOf, k) == ItemsWithKey(xs, keyOf, k) + ItemsWithKey(ys, keyOf, k)
  {
    if xs == [] {
      assert xs + ys == ys;
    } else {
      assert (xs + ys)[1..] == xs[1..] + ys;
      ItemsWithKeyAppend(xs[1..], ys, keyOf, k);
    }
  }

  /** Filtering the items by their computed key is filtering the pairs by key. */
  lemma {:induction false} ItemsWithKeyOfItems<T(!new)>(ks: seq<Keyed<T>>, keyOf: T -> Option<Stamp>, k: Stamp)
    requires KeyedBy(ks, keyOf)
    ensures ItemsWithKey(Items(ks), keyOf, k) == Items(WithKey(ks, k))
  {
    if ks != [] {
      assert KeyedBy(ks[1..], keyOf) by {
        forall i | 0 <= i < |ks| - 1 ensures keyOf(ks[1..][i].item) == Some(ks[1..][i].key) {
          assert ks[1..][i] == ks[i + 1];
        }
      }
      ItemsWithKeyOfItems(ks[1..], keyOf, k);
      var xs := Items(ks);
      assert xs == [ks[0].item] + Items(ks[1..]);
      assert xs[0] == ks[0].item && xs[1..] == Items(ks[1..]);
      assert keyOf(ks[0].item) == Some(ks[0].key);
      if ks[0].key == k {
        assert ItemsWithKey(xs, keyOf, k) == [ks[0].item] + ItemsWithKey(Items(ks[1..]), keyOf, k);
        assert WithKey(ks, k) == [ks[0]] + WithKey(ks[1..], k);
        ItemsAppend([ks[0]], WithKey(ks[1..], k));
        assert Items([ks[0]]) == [ks[0].item] + Items([]);
      } else {
        assert keyOf(xs[0]) != Some(k);
        assert ItemsWithKey(xs, keyOf, k) == ItemsWithKey(Items(ks[1..]), keyOf, k);
        assert WithKey(ks, k) == WithKey(ks[1..], k);
      }
    }
  }

  /** Sorting keeps every item with its key. */
  lemma SortSpecKeyedBy<T(!new)>(ks: seq<Keyed<T>>, keyOf: T -> Option<Stamp>)
    requires KeyedBy(ks, keyOf)
    ensures KeyedBy(SortSpec(ks), keyOf)
  {
    var r := SortSpec(ks);
    SortSpecPermutes(ks);
    forall i | 0 <= i < |r| ensures keyOf(r[i].item) == Some(r[i].key) {
      assert r[i] in multiset(r);
      assert r[i] in ks;
    }
  }

  /** The items of a stable sort are in key order. */
  lemma SortSpecInKeyOrder<T(!new)>(ks: seq<Keyed<T>>, keyOf: T -> Option<Stamp>)
    requires KeyedBy(ks, keyOf)
    ensures InKeyOrder(Items(SortSpec(ks)), keyOf)
  {
    var r := SortSpec(ks);
    SortSpecKeyedBy(ks, keyOf);
    SortSpecSorted(ks);
    ItemsLength(r);
    forall i | 0 <= i < |r| ensures keyOf(Items(r)[i]) == Some(r[i].key) {
      ItemsIndex(r, i);
    }
  }

  /**
   * Stability read through the key function: the items of the stable sort
   * with key `k` are the items of the input with key `k`, in input order.
   */
  lemma SortSpecItemsWithKey<T(!new)>(ks: seq<Keyed<T>>, keyOf: T -> Option<Stamp>, k: Stamp)
    requires KeyedBy(ks, keyOf)
    ensures ItemsWithKey(Items(SortSpec(ks)), keyOf, k) == ItemsWithKey(Items(ks), keyOf, k)
  {
    SortSpecKeyedBy(ks, keyOf);
    ItemsWithKeyOfItems(SortSpec(ks), keyOf, k);
    SortSpecStable(ks, k);
    ItemsWithKeyOfItems(ks, keyOf, k);
  }

  /** Two items out of key order are swapped, whatever side of the input they came from. */
  lemma SortSpecSwapsPair<T(!new)>(x: Keyed<T>, y: Keyed<T>)
    requires Less(y.key, x.key)
    ensures SortSpec([x, y]) == [y, x]
  {
    assert [x, y][..1] == [x];
    assert SortSpec([x]) == [x] by { assert [x][..0] == []; }
  }

  /** Items already in key order need no reordering: their stable sort is themselves. */
  lemma SortSpecKeepsKeyOrder<T(!new)>(ks: seq<Keyed<T>>, keyOf: T -> Option<Stamp>)
    requires KeyedBy(ks, keyOf) && InKeyOrder(Items(ks), keyOf)
    ensures SortSpec(ks) == ks
  {
    ItemsLength(ks);
    forall i, j | 0 <= i < j < |ks| ensures !Less(ks[j].key, ks[i].key) {
      ItemsIndex(ks, i);
      ItemsIndex(ks, j);
    }
    SortSpecFixesSorted(ks);
  }

  // ----- The in-place sort -----

  /**
   * Insert splits `p` at `j` when `x` sorts after every element before `j`
   * and strictly before the element at `j`.
   */
  lemma {:induction false} InsertAt<T(!new)>(x: Keyed<T>, p: seq<Keyed<T>>, j: nat)
    requires j <= |p|
    requires forall m :: 0 <= m < j ==> !Less(x.key, p[m].key)
    requires j < |p| ==> Less(x.key, p[j].key)
    ensures Insert(x, p) == p[..j] + [x] + p[j..]
  {
    if j == 0 {
      assert p[j..] == p;
    } else {
      var q := p[1..];
      assert !Less(x.key, p[0].key);
      assert forall m :: 0 <= m < j - 1 ==> q[m] == p[m + 1];
      assert j - 1 < |q| ==> q[j - 1] == p[j];
      InsertAt(x, q, j - 1);
      assert Insert(x, p) == [p[0]] + Insert(x, q);
      assert q[..j - 1] == p[1..j];
      assert q[j - 1..] == p[j..];
      assert p[..j] == [p[0]] + p[1..j];
    }
  }

  /** A sequence that holds `p` with `x` placed at its insertion point is Insert(x, p). */
  lemma InsertPlaced<T(!new)>(x: Keyed<T>, p: seq<Keyed<T>>, j: nat, r: seq<Keyed<T>>)
    requires Sorted(p) && j <= |p| && |r| == |p| + 1
    requires j > 0 ==> !Less(x.key, p[j - 1].key)
    requires forall m :: j <= m < |p| ==> Less(x.key, p[m].key)
    requires forall m :: 0 <= m < j ==> r[m] == p[m]
    requires r[j] == x
    requires forall m :: j < m <= |p| ==> r[m] == p[m - 1]
    ensures r == Insert(x, p)
  {
    forall m | 0 <= m < j ensures !Less(x.key, p[m].key) {
      if m < j - 1 { NotLessTransitive(p[m].key, p[j - 1].key, x.key); }
    }
    InsertAt(x, p, j);
    assert r == p[..j] + [x] + p[j..];
  }

  lemma SortSpecSnoc<T(!new)>(s: seq<Keyed<T>>, i: nat)
    requires i < |s|
    ensures SortSpec(s[..i + 1]) == Insert(s[i], SortSpec(s[..i]))
  {
    assert s[..i + 1][..i] == s[..i];
  }

  /**
   * One step of insertion sort: the element at `i` moves left past the
   * elements of the sorted prefix whose key is strictly greater than its own.
   */
  method InsertStep<T(!new)>(a: array<Keyed<T>>, i: nat)
    requires i < a.Length && Sorted(a[..i])
    modifies a
    ensures a[..i + 1] == Insert(old(a[i]), old(a[..i]))
    ensures forall m :: i < m < a.Length ==> a[m] == old(a[m])
  {
    var x := a[i];
    ghost var p := a[..i];
    var j := i;
    while j > 0 && Less(x.key, a[j - 1].key)
      invariant 0 <= j <= i
      invariant forall m :: 0 <= m < j ==> a[m] == p[m]
      invariant forall m :: j < m <= i ==> a[m] == p[m - 1]
      invariant forall m :: i < m < a.Length ==> a[m] == old(a[m])
      invariant forall m :: j <= m < i ==> Less(x.key, p[m].key)
    {
      a[j] := a[j - 1];
      j := j - 1;
    }
    a[j] := x;
    InsertPlaced(x, p, j, a[..i + 1]);
  }

  /** Stable insertion sort in place, as `list.sort` orders the messages. */
  method InsertionSort<T(!new)>(a: array<Keyed<T>>)
    modifies a
    ensures a[..] == SortSpec(old(a[..]))
    ensures Sorted(a[..]) && multiset(a[..]) == multiset(old(a[..]))
  {
    ghost var s := a[..];
    var i := 0;
    while i < a.Length
      invariant 0 <= i <= a.Length
      invariant a[..i] == SortSpec(s[..i])
      invariant forall m :: i <= m < a.Length ==> a[m] == s[m]
    {
      SortSpecSorted(s[..i]);
      ghost var before, x := a[..i], a[i];
      InsertStep(a, i);
      assert a[..i + 1] == Insert(x, before);
      SortSpecSnoc(s, i);
      i := i + 1;
    }
    assert a[..] == a[..a.Length] && s == s[..a.Length];
    SortSpecSorted(s);
    SortSpecPermutes(s);
  }
}
