/**
 * KosarajuStrongConnectivityInspectorWithIntercept.getStronglyConnectedComponents: the strongly
 * connected sets, computed by the library, are turned into induced subgraphs one at a time, the
 * thread's interrupt status being polled before each one, and the list is cached in a field.
 * The library's decomposition is given as a sequence of vertex sets and the interrupt status as
 * the value each poll observes.
 */
module StrongConnectivity {
  import opened Wrappers
  import opened Failures

  /** A directed graph in the manner of jgrapht: a vertex set and, for each edge, its source and
      target. */
  datatype Graph<V(==), E(==)> = Graph(vertices: set<V>, edges: map<E, (V, V)>)

  /** `new AsSubgraph<>(g, s, null)`: the vertices of s that are in g, with every edge of g whose
      source and target both lie in that set. */
  function Induced<V(==), E(==)>(g: Graph<V, E>, s: set<V>): (h: Graph<V, E>)
    ensures IsInducedSubgraph(h, g, s)
  {
    var vs := s * g.vertices;
    Graph(vs, map e | e in g.edges && g.edges[e].0 in vs && g.edges[e].1 in vs :: g.edges[e])
  }

  /** h is the subgraph of g induced on s. */
  ghost predicate IsInducedSubgraph<V, E>(h: Graph<V, E>, g: Graph<V, E>, s: set<V>)
  {
    && h.vertices == s * g.vertices
    && (forall e :: e in h.edges ==> e in g.edges && h.edges[e] == g.edges[e])
    && (forall e :: e in g.edges && g.edges[e].0 in h.vertices && g.edges[e].1 in h.vertices ==> e in h.edges)
  }

  /** The induced subgraph of each set, in order. */
  function Components<V(==), E(==)>(g: Graph<V, E>, sets: seq<set<V>>): seq<Graph<V, E>>
  {
    seq(|sets|, i requires 0 <= i < |sets| => Induced(g, sets[i]))
  }

  /** The number of components added before a poll finds the thread interrupted: the first
      i in [from, n) whose poll sees the flag set, or n when none does. */
  function FirstInterrupt(interruptedAt: nat -> bool, n: nat, from: nat): (k: nat)
    requires from <= n
    ensures from <= k <= n
    ensures forall j :: from <= j < k ==> !interruptedAt(j)
    ensures k < n ==> interruptedAt(k)
    decreases n - from
  {
    if from == n || interruptedAt(from) then from else FirstInterrupt(interruptedAt, n, from + 1)
  }

  /** What a call leaves in the cache field (never null afterwards) and what it returns or throws. */
  datatype CallEffect<V(==), E(==)> = CallEffect(cache: seq<Graph<V, E>>, result: Result<seq<Graph<V, E>>, Throwable>)

  /** The effect of one call, given the cache field before it, the library's sets and the interrupt
      status seen by each poll. */
  function GetComponents<V(==), E(==)>(g: Graph<V, E>, cache: Option<seq<Graph<V, E>>>, sets: seq<set<V>>,
                               interruptedAt: nat -> bool): CallEffect<V, E>
  {
    if cache.Some? then CallEffect(cache.value, Success(cache.value))
    else
      var k := FirstInterrupt(interruptedAt, |sets|, 0);
      var built := Components(g, sets[..k]);
      CallEffect(built, if k == |sets| then Success(built) else Failure(WrappedInterrupt))
  }

  /** The inspector object: the graph and the memoised list of component subgraphs (None: null). */
  class KosarajuInspector<V(==), E(==)> {
    const graph: Graph<V, E>
    var stronglyConnectedSubgraphs: Option<seq<Graph<V, E>>>

    constructor (graph: Graph<V, E>)
      ensures this.graph == graph && stronglyConnectedSubgraphs == None
    {
      this.graph := graph;
      stronglyConnectedSubgraphs := None;
    }

    /** `getStronglyConnectedComponents`. `sets` is what stronglyConnectedSets() returns and
        `interruptedAt(i)` the interrupt status seen by the poll before the i-th component. The
        field is set to an empty list before the loop, so an interrupted call leaves the
        components built so far in it. */
    method GetStronglyConnectedComponents(sets: seq<set<V>>, interruptedAt: nat -> bool)
      returns (r: Result<seq<Graph<V, E>>, Throwable>)
      modifies this
      ensures var effect := GetComponents(graph, old(stronglyConnectedSubgraphs), sets, interruptedAt);
              stronglyConnectedSubgraphs == Some(effect.cache) && r == effect.result
    {
      if stronglyConnectedSubgraphs.None? {
        stronglyConnectedSubgraphs := Some([]);
        assert Components(graph, sets[..0]) == [];
        for i := 0 to |sets|
          invariant forall j :: 0 <= j < i ==> !interruptedAt(j)
          invariant stronglyConnectedSubgraphs == Some(Components(graph, sets[..i]))
        {
          if interruptedAt(i) {
            assert FirstInterrupt(interruptedAt, |sets|, 0) == i;
            r := Failure(WrappedInterrupt);
            return;
          }
          assert Components(graph, sets[..i + 1]) == stronglyConnectedSubgraphs.value + [Induced(graph, sets[i])];
          stronglyConnectedSubgraphs := Some(stronglyConnectedSubgraphs.value + [Induced(graph, sets[i])]);
        }
        assert FirstInterrupt(interruptedAt, |sets|, 0) == |sets|;
        assert sets[..|sets|] == sets;
      }
      r := Success(stronglyConnectedSubgraphs.value);
    }
  }

  // -----------------------------------------------------------------------------------------------
  // Properties of a call

  /** Each component is the subgraph induced on its set. */
  lemma ComponentsAreInduced<V, E>(g: Graph<V, E>, sets: seq<set<V>>, i: nat)
    requires i < |sets|
    ensures |Components(g, sets)| == |sets|
    ensures IsInducedSubgraph(Components(g, sets)[i], g, sets[i])
  {
  }

  /** A filled cache is returned as it is, whatever the sets and the interrupt status. */
  lemma CachedListReturned<V, E>(g: Graph<V, E>, cached: seq<Graph<V, E>>, sets: seq<set<V>>,
                                 interruptedAt: nat -> bool)
    ensures GetComponents(g, Some(cached), sets, interruptedAt) == CallEffect(cached, Success(cached))
  {
  }

  /** Without an interrupt the result has one component per set, in the same order, and is cached. */
  lemma UninterruptedCallIsComplete<V, E>(g: Graph<V, E>, sets: seq<set<V>>, interruptedAt: nat -> bool)
    requires forall i :: 0 <= i < |sets| ==> !interruptedAt(i)
    ensures var effect := GetComponents(g, None, sets, interruptedAt);
            && effect.result == Success(effect.cache)
            && |effect.cache| == |sets|
            && forall i :: 0 <= i < |sets| ==> IsInducedSubgraph(effect.cache[i], g, sets[i])
  {
    assert sets[..|sets|] == sets;
  }

  /** An interrupt seen by the first poll aborts before any component is added. */
  lemma InterruptedOnEntry<V, E>(g: Graph<V, E>, sets: seq<set<V>>, interruptedAt: nat -> bool)
    requires |sets| > 0 && interruptedAt(0)
    ensures GetComponents(g, None, sets, interruptedAt) == CallEffect([], Failure(WrappedInterrupt))
  {
  }

  /** With no sets the flag is never polled: the result is the empty list whatever it holds. */
  lemma NoSetsNoPoll<V, E>(g: Graph<V, E>, interruptedAt: nat -> bool)
    ensures GetComponents(g, None, [], interruptedAt) == CallEffect([], Success([]))
  {
    assert Components(g, []) == [];
  }

  /** An abort after k components leaves exactly those k in the cache: the poll before the k-th
      component was the first to see the flag set. */
  lemma AbortKeepsPrefix<V, E>(g: Graph<V, E>, sets: seq<set<V>>, interruptedAt: nat -> bool)
    requires GetComponents(g, None, sets, interruptedAt).result.Failure?
    ensures var effect := GetComponents(g, None, sets, interruptedAt);
            var k := |effect.cache|;
            && effect.result == Failure(WrappedInterrupt)
            && k < |sets| && interruptedAt(k)
            && (forall j :: 0 <= j < k ==> !interruptedAt(j))
            && effect.cache == Components(g, sets)[..k]
  {
  }

  /** After an aborted call, a later call returns the partial list, whatever it is given. */
  lemma LaterCallReturnsPartialList<V, E>(g: Graph<V, E>, sets: seq<set<V>>, interruptedAt: nat -> bool,
                                          laterSets: seq<set<V>>, laterInterruptedAt: nat -> bool)
    requires GetComponents(g, None, sets, interruptedAt).result.Failure?
    ensures var first := GetComponents(g, None, sets, interruptedAt);
            var later := GetComponents(g, Some(first.cache), laterSets, laterInterruptedAt);
            && later.result == Success(first.cache)
            && |first.cache| < |sets|
  {
  }

  /** The vertex sets of the components. */
  function VertexSets<V(==), E(==)>(cs: seq<Graph<V, E>>): seq<set<V>>
  {
    seq(|cs|, i requires 0 <= i < |cs| => cs[i].vertices)
  }

  /** parts are pairwise disjoint subsets of whole that together cover it. */
  ghost predicate IsPartition<V>(parts: seq<set<V>>, whole: set<V>)
  {
    && (forall i :: 0 <= i < |parts| ==> parts[i] <= whole)
    && (forall v :: v in whole ==> exists i :: 0 <= i < |parts| && v in parts[i])
    && (forall i, j :: 0 <= i < j < |parts| ==> parts[i] * parts[j] == {})
  }

  /** When the library's sets partition the vertices, an uninterrupted call yields components whose
      vertex sets are exactly those sets, so they partition the vertices too. */
  lemma ComponentsPartitionVertices<V, E>(g: Graph<V, E>, sets: seq<set<V>>, interruptedAt: nat -> bool)
    requires IsPartition(sets, g.vertices)
    requires forall i :: 0 <= i < |sets| ==> !interruptedAt(i)
    ensures GetComponents(g, None, sets, interruptedAt).result.Success?
    ensures VertexSets(GetComponents(g, None, sets, interruptedAt).result.value) == sets
    ensures IsPartition(VertexSets(GetComponents(g, None, sets, interruptedAt).result.value), g.vertices)
  {
    UninterruptedCallIsComplete(g, sets, interruptedAt);
    var cs := GetComponents(g, None, sets, interruptedAt).result.value;
    assert forall i :: 0 <= i < |sets| ==> cs[i].vertices == sets[i] * g.vertices == sets[i];
  }

  /** A client: the second call after an interrupted first one sees the partial list. */
  method InterruptedThenRepeated<V(==), E(==)>(g: Graph<V, E>, a: set<V>, b: set<V>)
    returns (first: Result<seq<Graph<V, E>>, Throwable>, second: Result<seq<Graph<V, E>>, Throwable>)
    ensures first == Failure(WrappedInterrupt)
    ensures second == Success([Induced(g, a)])
  {
    var inspector := new KosarajuInspector(g);
    first := inspector.GetStronglyConnectedComponents([a, b], i => i >= 1);
    assert FirstInterrupt(i => i >= 1, 2, 0) == 1;
    assert Components(g, [a, b][..1]) == [Induced(g, a)];
    second := inspector.GetStronglyConnectedComponents([a, b], i => false);
  }
}
