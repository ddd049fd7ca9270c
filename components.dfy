/**
  The first phase of `color_clusters` (main.py): a depth-first search that
  splits the boid indices 0..n-1 into connected components.

  Two boids are adjacent when the distance between their positions is
  below NEIGH_DIST * 1.3. That is a floating-point test; here it is the
  relation `near` on boid indices, evaluated on the current positions.
 */
module Components {
  import opened Seqs

  /** `near` is symmetric on the indices 0..n-1 (as a distance test is). */
  ghost predicate Symmetric(near: (nat, nat) -> bool, n: nat)
  {
    forall j, k :: 0 <= j < n && 0 <= k < n ==> near(j, k) == near(k, j)
  }

  /** Every member of every cluster is a boid index below n, and no cluster is empty. */
  ghost predicate ClustersIn(clusters: seq<seq<nat>>, n: nat)
  {
    && (forall t :: 0 <= t < |clusters| ==> |clusters[t]| > 0)
    && (forall t, a :: 0 <= t < |clusters| && 0 <= a < |clusters[t]| ==> clusters[t][a] < n)
  }

  /**
    The member at position a of cluster t. Disjointness is stated on this
    name so that it is only applied where a proof mentions it.
   */
  ghost function Member(clusters: seq<seq<nat>>, t: nat, a: nat): nat
    requires t < |clusters| && a < |clusters[t]|
  {
    clusters[t][a]
  }

  /** No index is in two clusters. */
  ghost predicate Disjoint(clusters: seq<seq<nat>>)
  {
    forall t1, t2, a, b :: 0 <= t1 < t2 < |clusters| && 0 <= a < |clusters[t1]| && 0 <= b < |clusters[t2]| ==>
      Member(clusters, t1, a) != Member(clusters, t2, b)
  }

  /** x is a member of one of the first t clusters. */
  ghost predicate InEarlier(clusters: seq<seq<nat>>, t: nat, x: nat)
  {
    exists u :: 0 <= u < t && u < |clusters| && x in clusters[u]
  }

  /** Every index 0..n-1 appears in exactly one cluster, and there exactly once. */
  ghost predicate IsPartition(clusters: seq<seq<nat>>, n: nat)
  {
    && ClustersIn(clusters, n)
    && Disjoint(clusters)
    && (forall t :: 0 <= t < |clusters| ==> NoDup(clusters[t]))
    && (forall x: nat :: x < n ==> InEarlier(clusters, |clusters|, x))
  }

  /** The indices 0..n-1 as a set. */
  function Range(n: nat): (s: set<nat>)
    ensures forall x: nat :: x in s <==> x < n
  {
    if n == 0 then {} else Range(n - 1) + {n - 1}
  }

  /** The elements of a sequence of indices, as a set. */
  function Elems(s: seq<nat>): (r: set<nat>)
    ensures forall x :: x in r <==> x in s
  {
    set x | x in s
  }

  /** The member at position a of c is near some member listed before it. */
  ghost predicate NearEarlier(near: (nat, nat) -> bool, c: seq<nat>, a: nat)
  {
    a < |c| && exists b :: 0 <= b < a && near(c[b], c[a])
  }

  /** A walk along `near` steps. */
  ghost predicate IsPath(near: (nat, nat) -> bool, p: seq<nat>)
  {
    forall s :: 0 <= s < |p| - 1 ==> near(p[s], p[s + 1])
  }

  /**
    The indices k < bound, ascending, that are not in `visited` and are
    near j: what one scan of `for k in range(len(boids))` pushes.
   */
  function NewNeighbors(near: (nat, nat) -> bool, j: nat, visited: set<nat>, bound: nat): (ks: seq<nat>)
    ensures forall k: nat {:trigger k in ks} :: k in ks <==> k < bound && k !in visited && near(j, k)
  {
    if bound == 0 then []
    else
      var k := bound - 1;
      NewNeighbors(near, j, visited, k) + (if k !in visited && near(j, k) then [k] else [])
  }

  /** The scan pushes its indices in ascending order. */
  lemma {:induction false} NewNeighborsAscending(near: (nat, nat) -> bool, j: nat, visited: set<nat>, bound: nat)
    ensures forall a, b :: 0 <= a < b < |NewNeighbors(near, j, visited, bound)| ==>
              NewNeighbors(near, j, visited, bound)[a] < NewNeighbors(near, j, visited, bound)[b]
  {
    if bound > 0 {
      var k := bound - 1;
      var ks0 := NewNeighbors(near, j, visited, k);
      NewNeighborsAscending(near, j, visited, k);
      var ks := NewNeighbors(near, j, visited, bound);
      forall a, b | 0 <= a < b < |ks|
        ensures ks[a] < ks[b]
      {
        assert ks == ks0 + (if k !in visited && near(j, k) then [k] else []);
        if b >= |ks0| {
          assert ks[b] == k;
          assert ks[a] == ks0[a] && ks0[a] in ks0;
        } else {
          assert ks[a] == ks0[a] && ks[b] == ks0[b];
        }
      }
    }
  }

  /** The scan pushes each index at most once. */
  lemma NewNeighborsNoDup(near: (nat, nat) -> bool, j: nat, visited: set<nat>, bound: nat)
    ensures NoDup(NewNeighbors(near, j, visited, bound))
  {
    NewNeighborsAscending(near, j, visited, bound);
  }

  /**
    What the search promises about the clusters it returns, for any `near`.
   */
  ghost predicate IsSearchResult(near: (nat, nat) -> bool, n: nat, clusters: seq<seq<nat>>)
  {
    && IsPartition(clusters, n)
    // each cluster starts at the smallest index not in an earlier cluster
    && (forall t, x: nat :: 0 <= t < |clusters| && x < clusters[t][0] ==> InEarlier(clusters, t, x))
    && (forall t1, t2 :: 0 <= t1 < t2 < |clusters| ==> clusters[t1][0] < clusters[t2][0])
    // every neighbour of a member is in this cluster or an earlier one
    && (forall t, a, k :: 0 <= t < |clusters| && 0 <= a < |clusters[t]| && 0 <= k < n && near(clusters[t][a], k) ==>
          InEarlier(clusters, t + 1, k))
    // with a symmetric `near`, each cluster is closed under `near`
    && (Symmetric(near, n) ==>
          forall t, a, k :: 0 <= t < |clusters| && 0 <= a < |clusters[t]| && 0 <= k < n && near(clusters[t][a], k) ==>
            k in clusters[t])
    // every member after the root is near a member listed before it
    && (forall t, a :: 0 <= t < |clusters| && 0 < a < |clusters[t]| ==> NearEarlier(near, clusters[t], a))
  }

  /**
    The members of a search in the order `stack.pop()` yields them, from a
    state of the `while stack:` loop (main.py:171-175): each turn pops the
    last index, appends it to the component, and pushes its unvisited
    neighbours in ascending order, marking them visited.
   */
  ghost function Search(near: (nat, nat) -> bool, n: nat, visited: set<nat>, comp: seq<nat>, stack: seq<nat>): seq<nat>
    decreases Range(n) - visited, |stack|
  {
    if stack == [] then comp
    else
      var j := stack[|stack| - 1];
      var news := NewNeighbors(near, j, visited, n);
      if news == [] then Search(near, n, visited, comp + [j], stack[..|stack| - 1])
      else
        // the first index pushed was not visited before, and is below n
        assert news[0] in news && news[0] in Range(n);
        Search(near, n, visited + Elems(news), comp + [j], stack[..|stack| - 1] + news)
  }

  /** The component the search grows from an unvisited root i (main.py:168-175). */
  ghost function Component(near: (nat, nat) -> bool, n: nat, visited: set<nat>, i: nat): seq<nat>
  {
    Search(near, n, visited + {i}, [], [i])
  }

  /**
    The clusters the outer loop `for i in range(len(boids))` (main.py:165-176)
    appends once roots i.. are tried, given the visited set and the clusters so far.
   */
  ghost function ClustersFrom(near: (nat, nat) -> bool, n: nat, i: nat, visited: set<nat>, clusters: seq<seq<nat>>)
    : seq<seq<nat>>
    decreases n - i
  {
    if i >= n then clusters
    else if i in visited then ClustersFrom(near, n, i + 1, visited, clusters)
    else
      var comp := Component(near, n, visited, i);
      ClustersFrom(near, n, i + 1, visited + Elems(comp), clusters + [comp])
  }

  /** The clusters of the n boids, each listing its members in the order the search pops them. */
  ghost function AllClusters(near: (nat, nat) -> bool, n: nat): seq<seq<nat>>
  {
    ClustersFrom(near, n, 0, {}, [])
  }

  /**
    The inner scan of the search (main.py:173-175): every index k, in
    ascending order, that is unvisited and near j is marked visited and
    pushed on the stack.
   */
  method PushNeighbors(near: (nat, nat) -> bool, n: nat, j: nat, visited: set<nat>, stack: seq<nat>)
    returns (visited': set<nat>, stack': seq<nat>)
    ensures stack' == stack + NewNeighbors(near, j, visited, n)
    ensures visited' == visited + Elems(NewNeighbors(near, j, visited, n))
  {
    visited', stack' := visited, stack;
    for k := 0 to n
      invariant stack' == stack + NewNeighbors(near, j, visited, k)
      invariant visited' == visited + Elems(NewNeighbors(near, j, visited, k))
    {
      if k !in visited' && near(j, k) {
        visited' := visited' + {k};
        stack' := stack' + [k];
      }
    }
  }

  /**
    The depth-first search of `color_clusters` (main.py:164-176). Roots are
    taken in ascending order among the unvisited indices; the stack is
    popped from the end; neighbours are pushed in ascending order and marked
    visited when pushed. Each cluster lists its members in pop order.
   */
  method FindClusters(n: nat, near: (nat, nat) -> bool) returns (clusters: seq<seq<nat>>)
    ensures clusters == AllClusters(near, n)
    ensures IsSearchResult(near, n, clusters)
  {
    var visited: set<nat> := {};
    clusters := [];
    // the number of the cluster each visited index belongs to
    ghost var owner: map<nat, nat> := map[];
    for i := 0 to n
      invariant visited == owner.Keys
      invariant Collected(near, n, i, clusters, owner)
      invariant ClustersFrom(near, n, i, visited, clusters) == AllClusters(near, n)
    {
      visited, clusters, owner := TryRoot(near, n, i, visited, clusters, owner);
    }
    CollectedFinal(near, n, clusters, owner);
  }

  /**
    One turn of `for i in range(len(boids))` (main.py:165-176): an index
    not yet visited is the root of a new cluster, grown by a search.
   */
  method TryRoot(near: (nat, nat) -> bool, n: nat, i: nat, visited: set<nat>, clusters: seq<seq<nat>>,
                 ghost owner: map<nat, nat>)
    returns (visited': set<nat>, clusters': seq<seq<nat>>, ghost owner': map<nat, nat>)
    requires i < n && visited == owner.Keys
    requires Collected(near, n, i, clusters, owner)
    ensures visited' == owner'.Keys
    ensures Collected(near, n, i + 1, clusters', owner')
    ensures i !in visited ==>
              clusters' == clusters + [Component(near, n, visited, i)] &&
              visited' == visited + Elems(Component(near, n, visited, i))
    ensures i in visited ==> clusters' == clusters && visited' == visited
  {
    if i !in visited {
      var comp;
      comp, visited', owner' := Explore(near, n, i, visited, owner, |clusters|);
      CollectStep(near, n, i, clusters, owner, comp, owner');
      clusters' := clusters + [comp];
    } else {
      CollectSkip(near, n, i, clusters, owner);
      visited', clusters', owner' := visited, clusters, owner;
    }
  }

  /**
    The state of the outer loop of the search once the roots below i have
    been tried: `owner` gives the cluster of every visited index.
   */
  ghost predicate Collected(near: (nat, nat) -> bool, n: nat, i: nat, clusters: seq<seq<nat>>, owner: map<nat, nat>)
  {
    && Owned(n, clusters, owner)
    && Rooted(i, clusters, owner)
    && Closed(near, n, owner)
    && Discovered(near, clusters)
  }

  /** `owner` numbers exactly the members of the clusters, each cluster non-empty and listing an index once. */
  ghost predicate Owned(n: nat, clusters: seq<seq<nat>>, owner: map<nat, nat>)
  {
    && (forall x :: x in owner ==> x < n && owner[x] < |clusters| && x in clusters[owner[x]])
    && (forall t, a :: 0 <= t < |clusters| && 0 <= a < |clusters[t]| ==>
          clusters[t][a] in owner && owner[clusters[t][a]] == t)
    && (forall t :: 0 <= t < |clusters| ==> |clusters[t]| > 0 && NoDup(clusters[t]))
  }

  /** The indices below i are visited; roots are below i, increasing, and each is the least index not yet in a cluster. */
  ghost predicate Rooted(i: nat, clusters: seq<seq<nat>>, owner: map<nat, nat>)
  {
    && (forall t :: 0 <= t < |clusters| ==> |clusters[t]| > 0)
    && (forall x: nat :: x < i ==> x in owner)
    && (forall t :: 0 <= t < |clusters| ==> clusters[t][0] < i)
    && (forall t, x: nat :: 0 <= t < |clusters| && x < clusters[t][0] ==> x in owner && owner[x] < t)
    && (forall t1, t2 :: 0 <= t1 < t2 < |clusters| ==> clusters[t1][0] < clusters[t2][0])
  }

  /** A neighbour of a visited index is visited, in the same cluster or an earlier one. */
  ghost predicate Closed(near: (nat, nat) -> bool, n: nat, owner: map<nat, nat>)
  {
    forall x, k :: x in owner && 0 <= k < n && near(x, k) ==> k in owner && owner[k] <= owner[x]
  }

  /** Every member of a cluster after its root is near an earlier member. */
  ghost predicate Discovered(near: (nat, nat) -> bool, clusters: seq<seq<nat>>)
  {
    forall t, a :: 0 <= t < |clusters| && 0 < a < |clusters[t]| ==> NearEarlier(near, clusters[t], a)
  }

  /** A root already visited by an earlier search starts no new cluster. */
  lemma CollectSkip(near: (nat, nat) -> bool, n: nat, i: nat, clusters: seq<seq<nat>>, owner: map<nat, nat>)
    requires Collected(near, n, i, clusters, owner) && i in owner
    ensures Collected(near, n, i + 1, clusters, owner)
  {
  }

  /** The component found from an unvisited root i becomes the next cluster. */
  lemma CollectStep(near: (nat, nat) -> bool, n: nat, i: nat, clusters: seq<seq<nat>>, owner: map<nat, nat>,
                    comp: seq<nat>, owner': map<nat, nat>)
    requires Collected(near, n, i, clusters, owner) && i !in owner
    requires forall x :: x in owner' <==> x in owner || x in comp
    requires forall x :: x in owner ==> x in owner' && owner'[x] == owner[x]
    requires forall x :: x in owner' ==> x < n && owner'[x] <= |clusters|
    requires forall x :: (x in owner' && owner'[x] == |clusters|) <==> x in comp
    requires |comp| > 0 && comp[0] == i && NoDup(comp)
    requires forall b, k :: 0 <= b < |comp| && 0 <= k < n && near(comp[b], k) ==> k in owner'
    requires forall a :: 0 < a < |comp| ==> NearEarlier(near, comp, a)
    ensures Collected(near, n, i + 1, clusters + [comp], owner')
  {
    OwnedStep(n, clusters, owner, comp, owner');
    RootedStep(i, clusters, owner, comp, owner');
    ClosedStep(near, n, clusters, owner, comp, owner');
    DiscoveredStep(near, clusters, comp);
  }

  lemma OwnedStep(n: nat, clusters: seq<seq<nat>>, owner: map<nat, nat>, comp: seq<nat>, owner': map<nat, nat>)
    requires Owned(n, clusters, owner)
    requires forall x :: x in owner' <==> x in owner || x in comp
    requires forall x :: x in owner ==> x in owner' && owner'[x] == owner[x]
    requires forall x :: x in owner' ==> x < n && owner'[x] <= |clusters|
    requires forall x :: (x in owner' && owner'[x] == |clusters|) <==> x in comp
    requires |comp| > 0 && NoDup(comp)
    ensures Owned(n, clusters + [comp], owner')
  {
    var T, clusters' := |clusters|, clusters + [comp];
    assert forall t :: 0 <= t < T ==> clusters'[t] == clusters[t];
    assert clusters'[T] == comp;
  }

  lemma RootedStep(i: nat, clusters: seq<seq<nat>>, owner: map<nat, nat>, comp: seq<nat>, owner': map<nat, nat>)
    requires Rooted(i, clusters, owner)
    requires forall x :: x in owner ==> x in owner' && owner'[x] == owner[x]
    requires forall x :: x in owner ==> owner[x] < |clusters|
    requires |comp| > 0 && comp[0] == i
    requires forall x :: x in comp ==> x in owner'
    ensures Rooted(i + 1, clusters + [comp], owner')
  {
    var T, clusters' := |clusters|, clusters + [comp];
    assert forall t :: 0 <= t < T ==> clusters'[t] == clusters[t];
    assert clusters'[T] == comp;
    assert comp[0] in comp;
  }

  lemma ClosedStep(near: (nat, nat) -> bool, n: nat, clusters: seq<seq<nat>>, owner: map<nat, nat>,
                   comp: seq<nat>, owner': map<nat, nat>)
    requires Closed(near, n, owner)
    requires forall x :: x in owner' <==> x in owner || x in comp
    requires forall x :: x in owner ==> x in owner' && owner'[x] == owner[x]
    requires forall x :: x in owner' ==> owner'[x] <= |clusters|
    requires forall x :: (x in owner' && owner'[x] == |clusters|) <==> x in comp
    requires forall b, k :: 0 <= b < |comp| && 0 <= k < n && near(comp[b], k) ==> k in owner'
    ensures Closed(near, n, owner')
  {
    forall x, k | x in owner' && 0 <= k < n && near(x, k)
      ensures k in owner' && owner'[k] <= owner'[x]
    {
      if x in comp {
        var b :| 0 <= b < |comp| && comp[b] == x;
      }
    }
  }

  lemma DiscoveredStep(near: (nat, nat) -> bool, clusters: seq<seq<nat>>, comp: seq<nat>)
    requires Discovered(near, clusters)
    requires forall a :: 0 < a < |comp| ==> NearEarlier(near, comp, a)
    ensures Discovered(near, clusters + [comp])
  {
    var T, clusters' := |clusters|, clusters + [comp];
    assert forall t :: 0 <= t < T ==> clusters'[t] == clusters[t];
    assert clusters'[T] == comp;
  }

  /** When every root has been tried, the clusters have the properties FindClusters promises. */
  lemma CollectedFinal(near: (nat, nat) -> bool, n: nat, clusters: seq<seq<nat>>, owner: map<nat, nat>)
    requires Collected(near, n, n, clusters, owner)
    ensures IsSearchResult(near, n, clusters)
  {
    FinalPartition(near, n, clusters, owner);
    FinalRoots(near, n, clusters, owner);
    FinalNeighbors(near, n, clusters, owner);
  }

  lemma FinalPartition(near: (nat, nat) -> bool, n: nat, clusters: seq<seq<nat>>, owner: map<nat, nat>)
    requires Collected(near, n, n, clusters, owner)
    ensures IsPartition(clusters, n)
  {
    forall x: nat | x < n
      ensures InEarlier(clusters, |clusters|, x)
    {
      assert x in clusters[owner[x]];
    }
  }

  lemma FinalRoots(near: (nat, nat) -> bool, n: nat, clusters: seq<seq<nat>>, owner: map<nat, nat>)
    requires Collected(near, n, n, clusters, owner)
    ensures forall t, x: nat :: 0 <= t < |clusters| && x < clusters[t][0] ==> InEarlier(clusters, t, x)
  {
    forall t, x: nat | 0 <= t < |clusters| && x < clusters[t][0]
      ensures InEarlier(clusters, t, x)
    {
      assert x in clusters[owner[x]];
    }
  }

  lemma FinalNeighbors(near: (nat, nat) -> bool, n: nat, clusters: seq<seq<nat>>, owner: map<nat, nat>)
    requires Collected(near, n, n, clusters, owner)
    ensures forall t, a, k :: 0 <= t < |clusters| && 0 <= a < |clusters[t]| && 0 <= k < n && near(clusters[t][a], k) ==>
              InEarlier(clusters, t + 1, k)
  {
    forall t, a, k | 0 <= t < |clusters| && 0 <= a < |clusters[t]| && 0 <= k < n && near(clusters[t][a], k)
      ensures InEarlier(clusters, t + 1, k)
    {
      assert k in clusters[owner[k]];
    }
  }

  /**
    One run of the `while stack:` loop (main.py:169-175): the component
    grown from root i. Indices already in `owner` keep their cluster
    numbers; every index the search reaches gets the number T.
   */
  method Explore(near: (nat, nat) -> bool, n: nat, i: nat, visited: set<nat>,
                 ghost owner: map<nat, nat>, ghost T: nat)
    returns (comp: seq<nat>, visited': set<nat>, ghost owner': map<nat, nat>)
    requires i < n && i !in visited
    requires visited == owner.Keys
    requires forall x :: x in owner ==> x < n && owner[x] < T
    ensures visited' == owner'.Keys
    ensures forall x :: x in owner' <==> x in owner || x in comp
    ensures forall x :: x in owner ==> x in owner' && owner'[x] == owner[x]
    ensures forall x :: x in owner' ==> x < n && owner'[x] <= T
    ensures forall x :: (x in owner' && owner'[x] == T) <==> x in comp
    ensures |comp| > 0 && comp[0] == i && NoDup(comp)
    ensures forall b, k :: 0 <= b < |comp| && 0 <= k < n && near(comp[b], k) ==> k in owner'
    ensures forall a :: 0 < a < |comp| ==> NearEarlier(near, comp, a)
    ensures comp == Component(near, n, visited, i)
    ensures visited' == visited + Elems(comp)
  {
    var stack := [i];
    comp := [];
    visited' := visited + {i};
    // par[a] is the position in comp of the member whose scan pushed comp[a];
    // spar[s] is the same for stack[s] (the root has no parent: its entries are unused)
    ghost var par: seq<nat>, spar: seq<nat> := [], [0];
    while stack != []
      invariant Searching(near, n, i, visited, visited', comp, stack, par, spar)
      invariant Search(near, n, visited', comp, stack) == Component(near, n, visited, i)
      decreases Range(n) - visited', |stack|
    {
      visited', comp, stack, par, spar := PopAndScan(near, n, i, visited, visited', comp, stack, par, spar);
    }
    owner' := owner + map x | x in comp :: T;
    forall a | 0 < a < |comp|
      ensures NearEarlier(near, comp, a)
    {
      assert near(comp[par[a]], comp[a]);
    }
  }

  /** The state of the `while stack:` loop of a search from root i. */
  ghost predicate Searching(near: (nat, nat) -> bool, n: nat, i: nat, before: set<nat>, now: set<nat>,
                            comp: seq<nat>, stack: seq<nat>, par: seq<nat>, spar: seq<nat>)
  {
    && Reached(n, before, now, comp, stack)
    && ScannedNeighbors(near, n, comp, now)
    && Pushers(near, comp, par, stack, spar)
    && (comp == [] ==> stack == [i])
    && (comp != [] ==> comp[0] == i)
  }

  /**
    One turn of the `while stack:` loop (main.py:171-175): pop the last
    index, append it to the component and push its unvisited neighbours.
    Either some index is newly visited or the stack shrinks.
   */
  method PopAndScan(near: (nat, nat) -> bool, n: nat, i: nat, ghost before: set<nat>, visited: set<nat>,
                    comp: seq<nat>, stack: seq<nat>, ghost par: seq<nat>, ghost spar: seq<nat>)
    returns (visited': set<nat>, comp': seq<nat>, stack': seq<nat>, ghost par': seq<nat>, ghost spar': seq<nat>)
    requires stack != []
    requires Searching(near, n, i, before, visited, comp, stack, par, spar)
    ensures Searching(near, n, i, before, visited', comp', stack', par', spar')
    ensures comp' == comp + [stack[|stack| - 1]]
    ensures stack' == stack[..|stack| - 1] + NewNeighbors(near, stack[|stack| - 1], visited, n)
    ensures visited' == visited + Elems(NewNeighbors(near, stack[|stack| - 1], visited, n))
    ensures NewNeighbors(near, stack[|stack| - 1], visited, n) == [] ==> visited' == visited && stack' == stack[..|stack| - 1]
    ensures visited' == visited ==> |stack'| < |stack|
    ensures visited' == visited || Range(n) - visited' < Range(n) - visited
  {
    var j := stack[|stack| - 1];
    comp' := comp + [j];
    visited', stack' := PushNeighbors(near, n, j, visited, stack[..|stack| - 1]);
    par', spar' := par + [spar[|spar| - 1]], spar[..|spar| - 1] + Repeat(|comp|, |NewNeighbors(near, j, visited, n)|);
    SearchStep(near, n, i, before, visited, comp, stack, par, spar);
    PopProgress(near, n, j, visited);
  }

  /** `len` copies of v. */
  function Repeat(v: nat, len: nat): (s: seq<nat>)
    ensures |s| == len
    ensures forall x :: 0 <= x < len ==> s[x] == v
  {
    seq(len, _ => v)
  }

  /** One turn of the search loop keeps its bookkeeping. */
  lemma SearchStep(near: (nat, nat) -> bool, n: nat, i: nat, before: set<nat>, visited: set<nat>,
                   comp: seq<nat>, stack: seq<nat>, par: seq<nat>, spar: seq<nat>)
    requires stack != []
    requires Searching(near, n, i, before, visited, comp, stack, par, spar)
    ensures var j := stack[|stack| - 1];
            var news := NewNeighbors(near, j, visited, n);
            var visited' := visited + Elems(news);
            Searching(near, n, i, before, visited', comp + [j], stack[..|stack| - 1] + news,
                      par + [spar[|spar| - 1]], spar[..|spar| - 1] + Repeat(|comp|, |news|))
  {
    var j := stack[|stack| - 1];
    var news := NewNeighbors(near, j, visited, n);
    var visited' := visited + Elems(news);
    NewNeighborsNoDup(near, j, visited, n);
    ReachedStep(n, before, visited, comp, stack, news);
    ScannedStep(near, n, comp, visited, j, news);
    PushersStep(near, comp, par, stack, spar, news);
  }

  /** A scan that marks nothing pushes nothing; one that marks something leaves fewer unvisited indices. */
  lemma PopProgress(near: (nat, nat) -> bool, n: nat, j: nat, visited: set<nat>)
    ensures var news := NewNeighbors(near, j, visited, n);
            var visited' := visited + Elems(news);
            && (visited' == visited ==> news == [])
            && (visited' == visited || Range(n) - visited' < Range(n) - visited)
  {
    var news := NewNeighbors(near, j, visited, n);
    var visited' := visited + Elems(news);
    if news != [] {
      assert news[0] in news;
      assert news[0] in (Range(n) - visited) - (Range(n) - visited');
    }
  }

  /**
    The bookkeeping of one search from a root: `now` is the visited set
    `before` plus exactly the members found so far and the indices on the
    stack, all of them new, each listed once.
   */
  ghost predicate Reached(n: nat, before: set<nat>, now: set<nat>, comp: seq<nat>, stack: seq<nat>)
  {
    && (forall x :: x in now ==> x < n)
    && (forall x :: x in now <==> x in before || x in comp || x in stack)
    && (forall x :: x in comp ==> x !in before)
    && (forall x :: x in stack ==> x !in before)
    && NoDup(comp) && NoDup(stack)
    && (forall x :: x in comp ==> x !in stack)
  }

  /** Every neighbour of a member already popped has been visited. */
  ghost predicate ScannedNeighbors(near: (nat, nat) -> bool, n: nat, comp: seq<nat>, now: set<nat>)
  {
    forall b, k :: 0 <= b < |comp| && 0 <= k < n && near(comp[b], k) ==> k in now
  }

  /** Every member after the root, and every index on the stack, was pushed by an earlier member. */
  ghost predicate Pushers(near: (nat, nat) -> bool, comp: seq<nat>, par: seq<nat>, stack: seq<nat>, spar: seq<nat>)
  {
    && |par| == |comp| && |spar| == |stack|
    && (forall a :: 0 < a < |comp| ==> par[a] < a && near(comp[par[a]], comp[a]))
    && (comp != [] ==> forall s :: 0 <= s < |stack| ==> spar[s] < |comp| && near(comp[spar[s]], stack[s]))
  }

  lemma ReachedStep(n: nat, before: set<nat>, now: set<nat>, comp: seq<nat>, stack: seq<nat>, news: seq<nat>)
    requires Reached(n, before, now, comp, stack) && stack != []
    requires forall k :: k in news ==> k < n && k !in now
    requires NoDup(news)
    ensures Reached(n, before, now + Elems(news), comp + [stack[|stack| - 1]], stack[..|stack| - 1] + news)
  {
    var j, stack0 := stack[|stack| - 1], stack[..|stack| - 1];
    assert stack == stack0 + [j];
    assert j !in stack0;
    assert forall x :: x in stack0 ==> x in now;
    NoDupAppend(stack0, news);
    var now', comp', stack' := now + Elems(news), comp + [j], stack0 + news;
    assert forall x :: x in now' ==> x < n;
    assert forall x :: x in now' <==> x in before || x in comp' || x in stack';
    assert forall x :: x in comp' ==> x !in before;
    assert forall x :: x in stack' ==> x !in before;
    assert j in stack;
    forall a, b | 0 <= a < b < |comp'|
      ensures comp'[a] != comp'[b]
    {
      if b == |comp| {
        assert comp'[a] in comp;
      }
    }
    assert forall x :: x in comp' ==> x !in stack';
    assert NoDup(comp') && NoDup(stack');
  }

  lemma ScannedStep(near: (nat, nat) -> bool, n: nat, comp: seq<nat>, now: set<nat>, j: nat, news: seq<nat>)
    requires ScannedNeighbors(near, n, comp, now)
    requires forall k: nat :: k < n && k !in now && near(j, k) ==> k in news
    ensures ScannedNeighbors(near, n, comp + [j], now + Elems(news))
  {
  }

  lemma PushersStep(near: (nat, nat) -> bool, comp: seq<nat>, par: seq<nat>, stack: seq<nat>, spar: seq<nat>,
                    news: seq<nat>)
    requires Pushers(near, comp, par, stack, spar) && stack != []
    requires comp == [] ==> stack == [stack[0]]
    requires forall k :: k in news ==> near(stack[|stack| - 1], k)
    ensures Pushers(near, comp + [stack[|stack| - 1]], par + [spar[|spar| - 1]],
                    stack[..|stack| - 1] + news, spar[..|spar| - 1] + Repeat(|comp|, |news|))
  {
    var comp', stack' := comp + [stack[|stack| - 1]], stack[..|stack| - 1] + news;
    var spar' := spar[..|spar| - 1] + Repeat(|comp|, |news|);
    forall s | 0 <= s < |stack'|
      ensures spar'[s] < |comp'| && near(comp'[spar'[s]], stack'[s])
    {
      if s >= |stack| - 1 {
        assert stack'[s] == news[s - (|stack| - 1)];
        assert stack'[s] in news;
      }
    }
  }

  /** Three boids: 0 is near 1 and near 2, and 1 and 2 are not near each other. */
  ghost predicate ExampleNear(near: (nat, nat) -> bool)
  {
    forall j: nat, k: nat :: near(j, k) == ((j == 0 && 0 < k < 3) || (0 < j < 3 && k == 0))
  }

  /**
    The search pops the last index pushed: from root 0 it pushes 1 and 2 in
    ascending order and then pops 2 before 1, so the cluster lists 2 before
    1 (a breadth-first or ascending order would give [0, 1, 2]).
   */
  lemma SearchOrderExample(near: (nat, nat) -> bool)
    requires ExampleNear(near)
    ensures AllClusters(near, 3) == [[0, 2, 1]]
  {
    var comp := [0, 2, 1];
    ExampleComponent(near);
    var all := {0, 1, 2};
    assert {} + Elems(comp) == all;
    assert ClustersFrom(near, 3, 0, {}, []) == ClustersFrom(near, 3, 1, all, [comp]);
    assert ClustersFrom(near, 3, 1, all, [comp]) == [comp];
  }

  /** The search from root 0 of the example, one pop at a time. */
  lemma ExampleComponent(near: (nat, nat) -> bool)
    requires ExampleNear(near)
    ensures Component(near, 3, {}, 0) == [0, 2, 1]
  {
    var none: set<nat> := {};
    assert none + {0} == {0};
    ExamplePopRoot(near);
    ExamplePopLeaf(near, 2, [0], [1, 2]);
    ExamplePopLeaf(near, 1, [0, 2], [1]);
  }

  /** Popping the root 0 pushes 1 and 2. */
  lemma ExamplePopRoot(near: (nat, nat) -> bool)
    requires ExampleNear(near)
    ensures Search(near, 3, {0}, [], [0]) == Search(near, 3, {0, 1, 2}, [0], [1, 2])
  {
    var root: seq<nat> := [0];
    assert NewNeighbors(near, 0, {0}, 3) == [1, 2];
    assert {0} + Elems([1, 2]) == {0, 1, 2};
    assert [] + root == root && root[..0] + [1, 2] == [1, 2];
  }

  /** Popping j, once every boid is visited, pushes nothing. */
  lemma ExamplePopLeaf(near: (nat, nat) -> bool, j: nat, comp: seq<nat>, stack: seq<nat>)
    requires stack != [] && stack[|stack| - 1] == j
    ensures Search(near, 3, {0, 1, 2}, comp, stack) ==
            Search(near, 3, {0, 1, 2}, comp + [j], stack[..|stack| - 1])
  {
    NothingLeft(near, j, {0, 1, 2}, 3);
  }

  /** Once every index below the bound is visited, a scan pushes nothing. */
  lemma {:induction false} NothingLeft(near: (nat, nat) -> bool, j: nat, visited: set<nat>, bound: nat)
    requires forall k: nat :: k < bound ==> k in visited
    ensures NewNeighbors(near, j, visited, bound) == []
  {
    if bound > 0 {
      NothingLeft(near, j, visited, bound - 1);
    }
  }

  lemma NoDupAppend(s: seq<nat>, t: seq<nat>)
    requires NoDup(s) && NoDup(t)
    requires forall x :: x in s ==> x !in t
    ensures NoDup(s + t)
  {
    forall a, b | 0 <= a < b < |s + t|
      ensures (s + t)[a] != (s + t)[b]
    {
      if a < |s| && b >= |s| {
        assert (s + t)[a] in s;
        assert (s + t)[b] in t;
      }
    }
  }

  /**
    Every member of a cluster the search produces can be reached from the
    cluster's root by a walk along `near` that stays inside the cluster.
   */
  lemma {:induction false} MembersReachable(near: (nat, nat) -> bool, c: seq<nat>, a: nat)
    requires a < |c|
    requires forall a' :: 0 < a' < |c| ==> NearEarlier(near, c, a')
    ensures exists p :: |p| > 0 && p[0] == c[0] && p[|p| - 1] == c[a] && IsPath(near, p) &&
              forall s :: 0 <= s < |p| ==> p[s] in c
  {
    if a == 0 {
      var p := [c[0]];
      assert p[0] in c;
      assert IsPath(near, p);
    } else {
      assert NearEarlier(near, c, a);
      var b :| 0 <= b < a && near(c[b], c[a]);
      MembersReachable(near, c, b);
      var p :| |p| > 0 && p[0] == c[0] && p[|p| - 1] == c[b] && IsPath(near, p) &&
               forall s :: 0 <= s < |p| ==> p[s] in c;
      var q := p + [c[a]];
      assert IsPath(near, q);
      assert q[|q| - 1] == c[a];
      assert forall s :: 0 <= s < |q| ==> q[s] in c;
    }
  }
}
