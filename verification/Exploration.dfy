/**
 Reachability in a finite graph, and what a memoised depth-first walk knows
 about the part of its log it has written since some earlier point.
 */
module Exploration {
  import opened Trails

  type Graph<!T> = map<T, set<T>>

  ghost function Edges<T(!new)>(graph: Graph<T>): Relation<T> {
    (s, t) => s in graph && t in graph && t in graph[s]
  }

  ghost predicate Reachable<T(!new)>(graph: Graph<T>, from: T, to: T) {
    from in graph && Leads(Edges(graph), from, to)
  }

  lemma ReachableSelf<T(!new)>(graph: Graph<T>, s: T)
    requires s in graph
    ensures Reachable(graph, s, s)
  {
    LeadsSelf(Edges(graph), s);
  }

  lemma ReachableStep<T(!new)>(graph: Graph<T>, r: T, s: T, t: T)
    requires r in graph && s in graph[r] && Reachable(graph, s, t)
    ensures Reachable(graph, r, t)
  {
    LeadsFrom(Edges(graph), r, s, t);
  }

  ghost predicate Closed<T(!new)>(graph: Graph<T>, states: seq<T>) {
    forall s | s in states :: s in graph && forall t | t in graph[s] :: t in states
  }

  lemma {:induction false} TrailStays<T(!new)>(graph: Graph<T>, states: seq<T>, trail: seq<T>, i: nat)
    requires Closed(graph, states) && Trail(Edges(graph), trail) && i < |trail| && trail[0] in states
    ensures trail[i] in states
  {
    if i > 0 {
      TrailStays(graph, states, trail, i - 1);
      assert Edges(graph)(trail[i - 1], trail[i - 1 + 1]);
    }
  }

  /** A closed collection that holds `from` holds everything reachable from it. */
  lemma ClosedHoldsReachable<T(!new)>(graph: Graph<T>, states: seq<T>, from: T, to: T)
    requires Closed(graph, states) && from in states && Reachable(graph, from, to)
    ensures to in states
  {
    var trail :| Joins(Edges(graph), trail, from, to);
    TrailStays(graph, states, trail, |trail| - 1);
  }

  /** The log's entries from `n` on are reachable from `from`, and their successors are logged. */
  ghost predicate Stretch<T(!new)>(graph: Graph<T>, log: seq<T>, n: nat, from: T) {
    n <= |log| && forall i | n <= i < |log| ::
      log[i] in graph && Reachable(graph, from, log[i]) && forall t | t in graph[log[i]] :: t in log
  }

  /** The union, with multiplicity, of what the listed states contribute. */
  ghost function Total<T, W>(weight: map<T, multiset<W>>, states: seq<T>): multiset<W> {
    if states == [] then multiset{}
    else
      var last := states[|states| - 1];
      Total(weight, states[..|states| - 1]) + (if last in weight then weight[last] else multiset{})
  }

  lemma {:induction false} TotalSplits<T, W>(weight: map<T, multiset<W>>, a: seq<T>, b: seq<T>)
    ensures Total(weight, a + b) == Total(weight, a) + Total(weight, b)
  {
    if b == [] {
      assert a + b == a;
    } else {
      var init := b[..|b| - 1];
      TotalSplits(weight, a, init);
      assert (a + b)[..|a + b| - 1] == a + init;
    }
  }

  /**
   From log `log'` and findings `before` the walk went on to `log` and `found`:
   the new entries are a stretch from `from`, and exactly their weights were found.
   */
  ghost predicate Progress<T(!new), W>(graph: Graph<T>, weight: map<T, multiset<W>>, log': seq<T>, before: multiset<W>,
                                       log: seq<T>, found: multiset<W>, from: T)
  {
    log' <= log && Stretch(graph, log, |log'|, from) && found == before + Total(weight, log[|log'|..])
  }

  /** The states still to be logged: the measure of the walk. */
  ghost function Remaining<T(!new)>(graph: Graph<T>, log: seq<T>): set<T> {
    graph.Keys - (set s | s in log)
  }

  lemma RemainingShrinks<T(!new)>(graph: Graph<T>, log: seq<T>, s: T)
    requires s in graph && s !in log
    ensures Remaining(graph, log + [s]) < Remaining(graph, log)
  {
    assert s in Remaining(graph, log);
  }

  lemma NoProgress<T(!new), W>(graph: Graph<T>, weight: map<T, multiset<W>>, log: seq<T>, found: multiset<W>, from: T)
    ensures Progress(graph, weight, log, found, log, found, from)
  {
  }

  lemma LogGrows<T(!new), W>(graph: Graph<T>, weight: map<T, multiset<W>>, log': seq<T>, before: multiset<W>,
                             log: seq<T>, found: multiset<W>, from: T)
    requires Progress(graph, weight, log', before, log, found, from)
    ensures Remaining(graph, log) <= Remaining(graph, log')
    ensures forall t | t in log' :: t in log
    ensures |log'| <= |log| && forall i | 0 <= i < |log'| :: log[i] == log'[i]
  {
  }

  /** Two consecutive stretches make one. */
  lemma ProgressJoins<T(!new), W>(graph: Graph<T>, weight: map<T, multiset<W>>, log0: seq<T>, found0: multiset<W>,
                                  log1: seq<T>, found1: multiset<W>, log2: seq<T>, found2: multiset<W>, from: T)
    requires Progress(graph, weight, log0, found0, log1, found1, from)
    requires Progress(graph, weight, log1, found1, log2, found2, from)
    ensures Progress(graph, weight, log0, found0, log2, found2, from)
  {
    var n := |log0|;
    forall i | n <= i < |log1|
      ensures log2[i] in graph && Reachable(graph, from, log2[i]) && forall t | t in graph[log2[i]] :: t in log2
    {
      assert log2[i] == log1[i];
      assert forall t | t in log1 :: t in log2;
    }
    assert log2[n..] == log1[n..] + log2[|log1|..];
    TotalSplits(weight, log1[n..], log2[|log1|..]);
  }

  /** Progress from a successor is progress from the state itself. */
  lemma ProgressVia<T(!new), W>(graph: Graph<T>, weight: map<T, multiset<W>>, log': seq<T>, before: multiset<W>,
                                log: seq<T>, found: multiset<W>, from: T, via: T)
    requires from in graph && via in graph[from] && Progress(graph, weight, log', before, log, found, via)
    ensures Progress(graph, weight, log', before, log, found, from)
  {
    forall i | |log'| <= i < |log| ensures Reachable(graph, from, log[i]) {
      ReachableStep(graph, from, via, log[i]);
    }
  }

  /** Findings made besides the walk's own may be counted on both sides. */
  lemma ProgressBesides<T(!new), W>(graph: Graph<T>, weight: map<T, multiset<W>>, log': seq<T>, before: multiset<W>,
                                    log: seq<T>, found: multiset<W>, from: T, extra: multiset<W>)
    requires Progress(graph, weight, log', before, log, found, from)
    ensures Progress(graph, weight, log', before + extra, log, found + extra, from)
  {
  }

  /** Entering a state, finding its weight and covering its successors is progress. */
  lemma ProgressEnters<T(!new), W>(graph: Graph<T>, weight: map<T, multiset<W>>, log': seq<T>, before: multiset<W>,
                                   log: seq<T>, found: multiset<W>, s: T)
    requires s in graph && s in weight && forall t | t in graph[s] :: t in log
    requires Progress(graph, weight, log' + [s], before + weight[s], log, found, s)
    ensures Progress(graph, weight, log', before, log, found, s)
  {
    ReachableSelf(graph, s);
    var n := |log'|;
    assert log[n] == (log' + [s])[n];
    assert log[n..] == [s] + log[n + 1..];
    TotalSplits(weight, [s], log[n + 1..]);
    assert [s][..0] == [];
  }

  /** A walk from scratch that logged its root logged exactly what is reachable, and found the weight of all of it. */
  lemma WalkIsComplete<T(!new), W>(graph: Graph<T>, weight: map<T, multiset<W>>, log: seq<T>, found: multiset<W>,
                                   root: T)
    requires Progress(graph, weight, [], multiset{}, log, found, root) && root in log
    ensures forall s :: s in log <==> Reachable(graph, root, s)
    ensures found == Total(weight, log)
  {
    assert log[0..] == log;
    forall s | Reachable(graph, root, s) ensures s in log {
      ClosedHoldsReachable(graph, log, root, s);
    }
  }
}
