/** Trails along a relation: finite walks from one thing to another, step by step. */
module Trails {
  import opened Sequences

  type Relation<!T> = (T, T) -> bool

  ghost predicate Trail<T(!new)>(step: Relation<T>, trail: seq<T>) {
    trail != [] && forall i | 0 <= i < |trail| - 1 :: step(trail[i], trail[i + 1])
  }

  ghost predicate Joins<T(!new)>(step: Relation<T>, trail: seq<T>, from: T, to: T) {
    Trail(step, trail) && trail[0] == from && trail[|trail| - 1] == to
  }

  ghost predicate Leads<T(!new)>(step: Relation<T>, from: T, to: T) {
    exists trail :: Joins(step, trail, from, to)
  }

  /** A closed walk: its last thing steps back to its first. */
  ghost predicate Cycle<T(!new)>(step: Relation<T>, trail: seq<T>) {
    Trail(step, trail) && step(Last(trail), trail[0])
  }

  lemma TrailSuffix<T(!new)>(step: Relation<T>, trail: seq<T>, i: nat)
    requires Trail(step, trail) && i < |trail|
    ensures Trail(step, trail[i..]) && trail[i..][0] == trail[i] && Last(trail[i..]) == Last(trail)
  {
  }

  lemma TrailPrefix<T(!new)>(step: Relation<T>, trail: seq<T>, i: nat)
    requires Trail(step, trail) && i < |trail|
    ensures Trail(step, trail[..i + 1]) && trail[..i + 1][0] == trail[0] && Last(trail[..i + 1]) == trail[i]
  {
  }

  lemma TrailsJoin<T(!new)>(step: Relation<T>, a: seq<T>, b: seq<T>)
    requires Trail(step, a) && Trail(step, b) && step(Last(a), b[0])
    ensures Trail(step, a + b) && (a + b)[0] == a[0] && Last(a + b) == Last(b)
  {
    forall i | 0 <= i < |a + b| - 1 ensures step((a + b)[i], (a + b)[i + 1]) {
      if i >= |a| {
        assert step(b[i - |a|], b[i - |a| + 1]);
      }
    }
  }

  lemma LeadsSelf<T(!new)>(step: Relation<T>, a: T)
    ensures Leads(step, a, a)
  {
    assert Joins(step, [a], a, a);
  }

  /** One step further back. */
  lemma LeadsFrom<T(!new)>(step: Relation<T>, a: T, b: T, c: T)
    requires step(a, b) && Leads(step, b, c)
    ensures Leads(step, a, c)
  {
    var trail :| Joins(step, trail, b, c);
    TrailsJoin(step, [a], trail);
    assert Joins(step, [a] + trail, a, c);
  }

  /** One step further on. */
  lemma LeadsOn<T(!new)>(step: Relation<T>, a: T, b: T, c: T)
    requires Leads(step, a, b) && step(b, c)
    ensures Leads(step, a, c)
  {
    var trail :| Joins(step, trail, a, b);
    TrailsJoin(step, trail, [c]);
    assert Joins(step, trail + [c], a, c);
  }

  /** A trail that goes somewhere else begins with a step. */
  lemma FirstStep<T(!new)>(step: Relation<T>, a: T, c: T) returns (b: T)
    requires Leads(step, a, c) && a != c
    ensures step(a, b) && Leads(step, b, c)
  {
    var trail :| Joins(step, trail, a, c);
    TrailSuffix(step, trail, 1);
    b := trail[1];
    assert Joins(step, trail[1..], b, c) && step(trail[0], trail[0 + 1]);
  }

  /** A trail that comes from somewhere else ends with a step. */
  lemma LastStep<T(!new)>(step: Relation<T>, a: T, c: T) returns (b: T)
    requires Leads(step, a, c) && a != c
    ensures Leads(step, a, b) && step(b, c)
  {
    var trail :| Joins(step, trail, a, c);
    var i := |trail| - 2;
    TrailPrefix(step, trail, i);
    b := trail[i];
    assert Joins(step, trail[..i + 1], a, b) && step(trail[i], trail[i + 1]);
  }

  /** What every step keeps, every trail keeps. */
  lemma {:induction false} TrailKeeps<T(!new)>(step: Relation<T>, trail: seq<T>, holds: T -> bool)
    requires Trail(step, trail) && holds(trail[0]) && forall x, y | holds(x) && step(x, y) :: holds(y)
    ensures holds(Last(trail))
    decreases |trail|
  {
    if |trail| > 1 {
      assert step(trail[0], trail[0 + 1]);
      TrailSuffix(step, trail, 1);
      TrailKeeps(step, trail[1..], holds);
    }
  }

  lemma LeadsKeeps<T(!new)>(step: Relation<T>, a: T, b: T, holds: T -> bool)
    requires Leads(step, a, b) && holds(a) && forall x, y | holds(x) && step(x, y) :: holds(y)
    ensures holds(b)
  {
    var trail :| Joins(step, trail, a, b);
    TrailKeeps(step, trail, holds);
  }

  lemma LeadsJoin<T(!new)>(step: Relation<T>, a: T, b: T, c: T)
    requires Leads(step, a, b) && Leads(step, b, c)
    ensures Leads(step, a, c)
  {
    var holds := x => Leads(step, a, x);
    forall x, y | holds(x) && step(x, y) ensures holds(y) {
      LeadsOn(step, a, x, y);
    }
    LeadsKeeps(step, b, c, holds);
  }

  /** Cutting out its loops leaves a trail that repeats nothing. */
  lemma {:induction false} SimpleTrail<T(!new)>(step: Relation<T>, trail: seq<T>) returns (simple: seq<T>)
    requires Trail(step, trail)
    ensures Joins(step, simple, trail[0], Last(trail)) && NoRepeats(simple)
    decreases |trail|
  {
    if i, j :| 0 <= i < j < |trail| && trail[i] == trail[j] {
      var cut := trail[..i] + trail[j..];
      TrailSuffix(step, trail, j);
      if i > 0 {
        TrailPrefix(step, trail, i - 1);
        assert trail[..i - 1 + 1] == trail[..i] && step(trail[i - 1], trail[i - 1 + 1]);
        TrailsJoin(step, trail[..i], trail[j..]);
      } else {
        assert cut == trail[j..];
      }
      simple := SimpleTrail(step, cut);
    } else {
      simple := trail;
    }
  }

  // ---- Trails over clear ground ----

  type Property<!T> = T -> bool

  /** A trail that ends at the goal and on which everything is clear. */
  ghost predicate ClearTrail<T(!new)>(step: Relation<T>, clear: Property<T>, goal: Property<T>, trail: seq<T>) {
    Trail(step, trail) && goal(Last(trail)) && forall i | 0 <= i < |trail| :: clear(trail[i])
  }

  ghost predicate Reaches<T(!new)>(step: Relation<T>, clear: Property<T>, goal: Property<T>, from: T) {
    exists trail :: ClearTrail(step, clear, goal, trail) && trail[0] == from
  }

  lemma ClearSuffix<T(!new)>(step: Relation<T>, clear: Property<T>, goal: Property<T>, trail: seq<T>, i: nat)
    requires ClearTrail(step, clear, goal, trail) && i < |trail|
    ensures ClearTrail(step, clear, goal, trail[i..]) && Reaches(step, clear, goal, trail[i])
  {
    TrailSuffix(step, trail, i);
  }

  /** The goal is reached from itself, and nothing that is not clear reaches it. */
  lemma ReachesHere<T(!new)>(step: Relation<T>, clear: Property<T>, goal: Property<T>, a: T)
    ensures clear(a) && goal(a) ==> Reaches(step, clear, goal, a)
    ensures Reaches(step, clear, goal, a) ==> clear(a)
  {
    if clear(a) && goal(a) {
      assert ClearTrail(step, clear, goal, [a]) && [a][0] == a;
    }
  }

  /** One step further back. */
  lemma ReachesFrom<T(!new)>(step: Relation<T>, clear: Property<T>, goal: Property<T>, a: T, b: T)
    requires clear(a) && step(a, b) && Reaches(step, clear, goal, b)
    ensures Reaches(step, clear, goal, a)
  {
    var trail :| ClearTrail(step, clear, goal, trail) && trail[0] == b;
    TrailsJoin(step, [a], trail);
    assert ClearTrail(step, clear, goal, [a] + trail);
  }

  /** Short of the goal there is a step towards it. */
  lemma ReachesOn<T(!new)>(step: Relation<T>, clear: Property<T>, goal: Property<T>, a: T) returns (b: T)
    requires Reaches(step, clear, goal, a) && !goal(a)
    ensures step(a, b) && Reaches(step, clear, goal, b)
  {
    var trail :| ClearTrail(step, clear, goal, trail) && trail[0] == a;
    b := trail[1];
    ClearSuffix(step, clear, goal, trail, 1);
    assert step(trail[0], trail[0 + 1]);
  }

  /** It is enough that all is clear from where the goal was reached: obstacles elsewhere lose no trail. */
  lemma ObstaclesElsewhere<T(!new)>(step: Relation<T>, clear: Property<T>, after: Property<T>, goal: Property<T>, a: T)
    requires Reaches(step, clear, goal, a)
    requires forall x | clear(x) && Reaches(step, clear, goal, x) :: after(x)
    ensures Reaches(step, after, goal, a)
  {
    var trail :| ClearTrail(step, clear, goal, trail) && trail[0] == a;
    forall i | 0 <= i < |trail| ensures after(trail[i]) {
      ClearSuffix(step, clear, goal, trail, i);
    }
    assert ClearTrail(step, after, goal, trail);
  }

  /** Starting at home, with no goal there, home can be left once and for all. */
  lemma {:induction false} LeavesForGood<T(!new)>(step: Relation<T>, clear: Property<T>, goal: Property<T>,
                                                  home: Property<T>, away: Property<T>, trail: seq<T>)
      returns (last: T, next: T)
    requires ClearTrail(step, clear, goal, trail) && home(trail[0])
    requires (forall x | home(x) :: !goal(x)) && forall x | clear(x) && !home(x) :: away(x)
    ensures home(last) && step(last, next) && Reaches(step, away, goal, next)
    decreases |trail|
  {
    if i :| 0 < i < |trail| && home(trail[i]) {
      ClearSuffix(step, clear, goal, trail, i);
      last, next := LeavesForGood(step, clear, goal, home, away, trail[i..]);
    } else {
      last, next := trail[0], trail[1];
      assert step(trail[0], trail[0 + 1]);
      TrailSuffix(step, trail, 1);
      assert ClearTrail(step, away, goal, trail[1..]) && trail[1..][0] == next;
    }
  }
}
