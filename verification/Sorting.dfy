/** Stable sorting by a key under a total order on keys. */
module Sorting {
  import opened Sequences

  type Order<!K> = (K, K) -> bool

  ghost predicate TotalOrder<K(!new)>(le: Order<K>) {
    (forall a, b :: le(a, b) || le(b, a)) &&
    (forall a, b :: le(a, b) && le(b, a) ==> a == b) &&
    (forall a, b, c :: le(a, b) && le(b, c) ==> le(a, c))
  }

  ghost predicate Sorted<T, K(!new)>(le: Order<K>, key: T -> K, xs: seq<T>) {
    forall i, j | 0 <= i < j < |xs| :: le(key(xs[i]), key(xs[j]))
  }

  ghost predicate DistinctKeys<T, K(!new)>(key: T -> K, xs: seq<T>) {
    forall i, j | 0 <= i < j < |xs| :: key(xs[i]) != key(xs[j])
  }

  /** Stable: an element goes before those it does not come strictly after. */
  function Insert<T, K(!new)>(le: Order<K>, key: T -> K, x: T, xs: seq<T>): seq<T> {
    if xs == [] || le(key(x), key(xs[0])) then [x] + xs else [xs[0]] + Insert(le, key, x, xs[1..])
  }

  function Sort<T, K(!new)>(le: Order<K>, key: T -> K, xs: seq<T>): seq<T> {
    if xs == [] then [] else Insert(le, key, xs[0], Sort(le, key, xs[1..]))
  }

  lemma {:induction false} InsertKeeps<T, K(!new)>(le: Order<K>, key: T -> K, x: T, xs: seq<T>)
    ensures multiset(Insert(le, key, x, xs)) == multiset{x} + multiset(xs)
  {
    if xs != [] && !le(key(x), key(xs[0])) {
      InsertKeeps(le, key, x, xs[1..]);
      assert xs == [xs[0]] + xs[1..];
    }
  }

  lemma {:induction false} InsertSorts<T, K(!new)>(le: Order<K>, key: T -> K, x: T, xs: seq<T>)
    requires TotalOrder(le) && Sorted(le, key, xs)
    ensures Sorted(le, key, Insert(le, key, x, xs))
  {
    if xs != [] {
      if le(key(x), key(xs[0])) {
        assert forall i | 0 <= i < |xs| :: le(key(x), key(xs[i])) by {
          assert forall i | 0 < i < |xs| :: le(key(xs[0]), key(xs[i]));
        }
      } else {
        var rest := Insert(le, key, x, xs[1..]);
        InsertSorts(le, key, x, xs[1..]);
        InsertKeeps(le, key, x, xs[1..]);
        forall i | 0 <= i < |rest| ensures le(key(xs[0]), key(rest[i])) {
          InMultiset(rest[i], rest);
          InMultiset(rest[i], xs[1..]);
          if rest[i] != x {
            var j :| 0 <= j < |xs[1..]| && xs[1..][j] == rest[i];
            assert xs[j + 1] == rest[i];
          }
        }
      }
    }
  }

  lemma {:induction false} SortSorts<T, K(!new)>(le: Order<K>, key: T -> K, xs: seq<T>)
    requires TotalOrder(le)
    ensures Sorted(le, key, Sort(le, key, xs)) && multiset(Sort(le, key, xs)) == multiset(xs)
  {
    if xs != [] {
      SortSorts(le, key, xs[1..]);
      InsertSorts(le, key, xs[0], Sort(le, key, xs[1..]));
      InsertKeeps(le, key, xs[0], Sort(le, key, xs[1..]));
      assert xs == [xs[0]] + xs[1..];
    }
  }

  lemma SameKeysDistinct<T, K(!new)>(key: T -> K, xs: seq<T>, ys: seq<T>)
    requires multiset(xs) == multiset(ys) && DistinctKeys(key, xs)
    ensures DistinctKeys(key, ys)
  {
    forall i, j | 0 <= i < j < |ys| ensures key(ys[i]) != key(ys[j]) {
      if key(ys[i]) == key(ys[j]) {
        InMultiset(ys[i], ys);
        InMultiset(ys[j], ys);
        InMultiset(ys[i], xs);
        InMultiset(ys[j], xs);
        TwiceInMultiset(ys, i, j);
        OnceWhenDistinct(key, xs, ys[i]);
      }
    }
  }

  lemma TwiceInMultiset<T>(xs: seq<T>, i: nat, j: nat)
    requires i < j < |xs|
    ensures xs[i] == xs[j] ==> multiset(xs)[xs[i]] >= 2
  {
    assert xs == xs[..i] + [xs[i]] + xs[i + 1..j] + [xs[j]] + xs[j + 1..];
  }

  lemma {:induction false} OnceWhenDistinct<T, K(!new)>(key: T -> K, xs: seq<T>, x: T)
    requires DistinctKeys(key, xs)
    ensures multiset(xs)[x] <= 1
  {
    if xs != [] {
      OnceWhenDistinct(key, xs[1..], x);
      assert xs == [xs[0]] + xs[1..];
      if x == xs[0] {
        InMultiset(x, xs[1..]);
      }
    }
  }

  lemma SameHead<T, K(!new)>(le: Order<K>, key: T -> K, xs: seq<T>, ys: seq<T>)
    requires TotalOrder(le) && Sorted(le, key, xs) && Sorted(le, key, ys) && DistinctKeys(key, xs)
    requires xs != [] && ys != [] && xs[0] in ys && ys[0] in xs
    ensures xs[0] == ys[0]
  {
  }

  lemma TailMembers<T, K(!new)>(key: T -> K, xs: seq<T>, x: T)
    requires xs != [] && DistinctKeys(key, xs)
    ensures x in xs[1..] <==> x in xs && x != xs[0]
  {
  }

  /** Two sorted arrangements of the same things with distinct keys are the same. */
  lemma {:induction false} SortedIsUnique<T, K(!new)>(le: Order<K>, key: T -> K, xs: seq<T>, ys: seq<T>)
    requires TotalOrder(le) && Sorted(le, key, xs) && Sorted(le, key, ys)
    requires DistinctKeys(key, xs) && DistinctKeys(key, ys)
    requires forall x :: x in xs <==> x in ys
    ensures xs == ys
  {
    hide TotalOrder;
    if xs == [] {
      if ys != [] {
        HeadIsMember(ys);
        assert false;
      }
    } else if ys == [] {
      HeadIsMember(xs);
      assert false;
    } else {
      assert xs[0] in ys && ys[0] in xs;
      SameHead(le, key, xs, ys);
      forall x ensures x in xs[1..] <==> x in ys[1..] {
        TailMembers(key, xs, x);
        TailMembers(key, ys, x);
      }
      SortedIsUnique(le, key, xs[1..], ys[1..]);
    }
  }

  lemma SortIgnoresOrder<T, K(!new)>(le: Order<K>, key: T -> K, xs: seq<T>, ys: seq<T>)
    requires TotalOrder(le) && multiset(xs) == multiset(ys) && DistinctKeys(key, xs)
    ensures Sort(le, key, xs) == Sort(le, key, ys)
  {
    SortSorts(le, key, xs);
    SortSorts(le, key, ys);
    SameKeysDistinct(key, xs, Sort(le, key, xs));
    SameKeysDistinct(key, xs, Sort(le, key, ys));
    forall x ensures x in Sort(le, key, xs) <==> x in Sort(le, key, ys) {
      InMultiset(x, Sort(le, key, xs));
      InMultiset(x, Sort(le, key, ys));
    }
    SortedIsUnique(le, key, Sort(le, key, xs), Sort(le, key, ys));
  }
}
