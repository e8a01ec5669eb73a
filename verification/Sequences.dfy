/** What sequences of any kind have in common. */
module Sequences {

  function Last<T>(xs: seq<T>): T
    requires xs != []
  {
    xs[|xs| - 1]
  }

  function SetLast<T>(xs: seq<T>, x: T): seq<T>
    requires xs != []
  {
    xs[|xs| - 1 := x]
  }

  lemma SliceGrows<T>(xs: seq<T>, i: nat, j: nat)
    requires i <= j < |xs|
    ensures xs[i..j + 1] == xs[i..j] + [xs[j]]
  {
  }

  lemma HeadIsMember<T>(xs: seq<T>)
    requires xs != []
    ensures xs[0] in xs
  {
  }

  lemma InMultiset<T>(x: T, xs: seq<T>)
    ensures x in xs <==> x in multiset(xs)
  {
  }

  lemma SameMembers<T>(xs: seq<T>, ys: seq<T>)
    requires multiset(xs) == multiset(ys)
    ensures forall x :: x in xs <==> x in ys
  {
    forall x ensures x in xs <==> x in ys {
      assert x in xs <==> x in multiset(xs);
      assert x in ys <==> x in multiset(ys);
    }
  }

  ghost predicate NoRepeats<T>(xs: seq<T>) {
    forall i, j | 0 <= i < j < |xs| :: xs[i] != xs[j]
  }

  lemma {:induction false} NoRepeatsMeansOnce<T>(xs: seq<T>)
    ensures NoRepeats(xs) <==> forall x :: multiset(xs)[x] <= 1
  {
    if xs != [] {
      NoRepeatsMeansOnce(xs[1..]);
      assert xs == [xs[0]] + xs[1..];
      if NoRepeats(xs) {
        assert NoRepeats(xs[1..]);
        assert xs[0] !in xs[1..];
      } else {
        var i, j :| 0 <= i < j < |xs| && xs[i] == xs[j];
        if i == 0 {
          assert xs[1..][j - 1] == xs[0];
          assert xs[0] in multiset(xs[1..]);
          assert multiset(xs)[xs[0]] >= 2;
        } else {
          assert xs[1..][i - 1] == xs[1..][j - 1];
          var x :| multiset(xs[1..])[x] > 1;
          assert multiset(xs)[x] > 1;
        }
      }
    }
  }
}
