/**
 * Extraction of the connected outer shell: a breadth-first search from a seed
 * face over faces that share an edge with an already accepted face, keeping only
 * cylindrical, toroidal and B-spline faces.
 */
module Patch {
  import opened Wrappers
  import opened Topology

  /**
   * A chain of faces, each of an allowed type, each after the first a face of
   * `shape` that owns an edge equal to an edge of its predecessor.
   */
  ghost predicate IsChain(shape: seq<Face>, chain: seq<Face>)
  {
    && |chain| > 0
    && (forall i :: 0 <= i < |chain| ==> IsAllowed(Classify(chain[i])))
    && (forall i :: 1 <= i < |chain| ==> chain[i] in shape && Adjacent(chain[i - 1], chain[i]))
  }

  /** Face f is reached from the seed through a chain of edge-sharing allowed faces. */
  ghost predicate Reachable(shape: seq<Face>, seed: Face, f: Face)
  {
    exists chain :: IsChain(shape, chain) && chain[0] == seed && chain[|chain| - 1] == f
  }

  /**
   * Every allowed face of `shape` owning an edge equal to an edge of a patch face
   * is itself in the patch.
   */
  ghost predicate Closed(shape: seq<Face>, patch: seq<Face>)
  {
    forall k, i, m ::
      0 <= k < |patch| && 0 <= i < |patch[k].edges| && 0 <= m < |shape|
      && OwnsEdgeLike(shape[m], patch[k].edges[i]) && IsAllowed(Classify(shape[m]))
      ==> shape[m] in patch
  }

  /** A face of the shape, or the seed itself: everything the search can handle. */
  ghost predicate Known(shape: seq<Face>, seed: Face, f: Face)
  {
    f == seed || f in shape
  }

  /** A face the search may hold: known, of an allowed type and reachable from the seed. */
  ghost predicate Good(shape: seq<Face>, seed: Face, f: Face)
  {
    Known(shape, seed, f) && IsAllowed(Classify(f)) && Reachable(shape, seed, f)
  }

  /** Visiting one more face of the universe shrinks the set of unvisited identities. */
  lemma UnvisitedShrinks(universe: set<FaceId>, visited: set<FaceId>, id: FaceId)
    requires id in universe && id !in visited
    ensures |universe - (visited + {id})| < |universe - visited|
  {
    assert universe - visited == (universe - (visited + {id})) + {id};
  }

  /** Face g has been visited or is waiting in the queue. */
  ghost predicate Covered(g: Face, visited: set<FaceId>, toVisit: seq<Face>)
  {
    g.id in visited || g in toVisit
  }

  /** The first `n` edges of `f` have had all their allowed neighbours covered. */
  ghost predicate EdgesCovered(shape: seq<Face>, f: Face, n: nat, visited: set<FaceId>, toVisit: seq<Face>)
    requires n <= |f.edges|
  {
    forall i, m ::
      0 <= i < n && 0 <= m < |shape|
      && OwnsEdgeLike(shape[m], f.edges[i]) && IsAllowed(Classify(shape[m]))
      ==> Covered(shape[m], visited, toVisit)
  }

  /** Every edge of every face in `faces` has had all its allowed neighbours covered. */
  ghost predicate AllCovered(shape: seq<Face>, faces: seq<Face>, visited: set<FaceId>, toVisit: seq<Face>)
  {
    forall k :: 0 <= k < |faces| ==> EdgesCovered(shape, faces[k], |faces[k].edges|, visited, toVisit)
  }

  lemma ReachSeed(shape: seq<Face>, seed: Face)
    requires IsAllowed(Classify(seed))
    ensures Reachable(shape, seed, seed)
  {
    var chain := [seed];
    assert IsChain(shape, chain);
  }

  lemma ReachStep(shape: seq<Face>, seed: Face, f: Face, g: Face)
    requires Reachable(shape, seed, f)
    requires g in shape && IsAllowed(Classify(g)) && Adjacent(f, g)
    ensures Reachable(shape, seed, g)
  {
    var chain :| IsChain(shape, chain) && chain[0] == seed && chain[|chain| - 1] == f;
    var longer := chain + [g];
    assert forall i :: 0 <= i < |chain| ==> longer[i] == chain[i];
    assert IsChain(shape, longer);
  }

  /** The queue only grows at its tail. */
  ghost predicate Extends(queue: seq<Face>, toVisit: seq<Face>)
  {
    |queue| >= |toVisit| && queue[..|toVisit|] == toVisit
  }

  /** Every face appended to the queue is an allowed face of the shape reachable from the seed. */
  ghost predicate GoodTail(shape: seq<Face>, seed: Face, toVisit: seq<Face>, queue: seq<Face>)
    requires Extends(queue, toVisit)
  {
    forall q :: |toVisit| <= q < |queue| ==>
      queue[q] in shape && IsAllowed(Classify(queue[q])) && Reachable(shape, seed, queue[q])
  }

  lemma CoveredExtend(g: Face, visited: set<FaceId>, toVisit: seq<Face>, queue: seq<Face>)
    requires Extends(queue, toVisit)
    requires Covered(g, visited, toVisit)
    ensures Covered(g, visited, queue)
  {
    if g.id !in visited {
      var q :| 0 <= q < |toVisit| && toVisit[q] == g;
      assert queue[q] == g;
    }
  }

  lemma EdgesCoveredExtend(shape: seq<Face>, f: Face, n: nat, visited: set<FaceId>, toVisit: seq<Face>, queue: seq<Face>)
    requires n <= |f.edges|
    requires Extends(queue, toVisit)
    requires EdgesCovered(shape, f, n, visited, toVisit)
    ensures EdgesCovered(shape, f, n, visited, queue)
  {
    forall i, m |
      0 <= i < n && 0 <= m < |shape|
      && OwnsEdgeLike(shape[m], f.edges[i]) && IsAllowed(Classify(shape[m]))
      ensures Covered(shape[m], visited, queue)
    {
      CoveredExtend(shape[m], visited, toVisit, queue);
    }
  }

  lemma AllCoveredExtend(shape: seq<Face>, faces: seq<Face>, visited: set<FaceId>, toVisit: seq<Face>, queue: seq<Face>)
    requires Extends(queue, toVisit)
    requires AllCovered(shape, faces, visited, toVisit)
    ensures AllCovered(shape, faces, visited, queue)
  {
    forall k | 0 <= k < |faces|
      ensures EdgesCovered(shape, faces[k], |faces[k].edges|, visited, queue)
    {
      EdgesCoveredExtend(shape, faces[k], |faces[k].edges|, visited, toVisit, queue);
    }
  }

  /** Popping the head of the queue and marking it visited keeps every covered face covered. */
  lemma CoveredPop(shape: seq<Face>, faces: seq<Face>, visited: set<FaceId>, toVisit: seq<Face>)
    requires |toVisit| > 0
    requires AllCovered(shape, faces, visited, toVisit)
    ensures AllCovered(shape, faces, visited + {toVisit[0].id}, toVisit[1..])
  {
    forall g: Face | Covered(g, visited, toVisit)
      ensures Covered(g, visited + {toVisit[0].id}, toVisit[1..])
    {
      if g.id !in visited && g != toVisit[0] {
        var q :| 0 <= q < |toVisit| && toVisit[q] == g;
        assert toVisit[1..][q - 1] == g;
      }
    }
  }

  lemma AllCoveredAppend(shape: seq<Face>, faces: seq<Face>, f: Face, visited: set<FaceId>, toVisit: seq<Face>)
    requires AllCovered(shape, faces, visited, toVisit)
    requires EdgesCovered(shape, f, |f.edges|, visited, toVisit)
    ensures AllCovered(shape, faces + [f], visited, toVisit)
  {
    var longer := faces + [f];
    forall k | 0 <= k < |longer|
      ensures EdgesCovered(shape, longer[k], |longer[k].edges|, visited, toVisit)
    {
      if k < |faces| {
        assert longer[k] == faces[k];
      }
    }
  }

  lemma IdsIdentifyTail(seed: Face, shape: seq<Face>)
    requires IdsIdentify([seed] + shape)
    ensures IdsIdentify(shape)
  {
    var all := [seed] + shape;
    forall k, l | 0 <= k < |shape| && 0 <= l < |shape| && shape[k].id == shape[l].id
      ensures shape[k] == shape[l]
    {
      assert all[k + 1] == shape[k] && all[l + 1] == shape[l];
    }
  }

  /** With nothing left in the queue and identities determining faces, the result is closed. */
  lemma ClosedAtEnd(shape: seq<Face>, seed: Face, result: seq<Face>)
    requires IdsIdentify([seed] + shape)
    requires forall k :: 0 <= k < |result| ==> Known(shape, seed, result[k])
    requires AllCovered(shape, result, Ids(result), [])
    ensures Closed(shape, result)
  {
    var all := [seed] + shape;
    forall k, i, m |
      0 <= k < |result| && 0 <= i < |result[k].edges| && 0 <= m < |shape|
      && OwnsEdgeLike(shape[m], result[k].edges[i]) && IsAllowed(Classify(shape[m]))
      ensures shape[m] in result
    {
      assert EdgesCovered(shape, result[k], |result[k].edges|, Ids(result), []);
      assert Covered(shape[m], Ids(result), []);
      IdsMember(result, shape[m].id);
      var h :| 0 <= h < |result| && result[h].id == shape[m].id;
      assert all[m + 1] == shape[m];
      var a: nat :| a < |all| && all[a] == result[h] by {
        if result[h] == seed {
          assert all[0] == result[h];
        } else {
          var b :| 0 <= b < |shape| && shape[b] == result[h];
          assert all[b + 1] == result[h];
        }
      }
      assert result[h] == shape[m];
    }
  }

  /** A closed patch that holds the start of a chain holds the whole chain. */
  lemma {:induction false} ClosedContainsChain(shape: seq<Face>, patch: seq<Face>, chain: seq<Face>)
    requires Closed(shape, patch)
    requires IsChain(shape, chain) && chain[0] in patch
    ensures chain[|chain| - 1] in patch
    decreases |chain|
  {
    if |chain| > 1 {
      var prefix := chain[..|chain| - 1];
      assert forall i :: 0 <= i < |prefix| ==> prefix[i] == chain[i];
      assert IsChain(shape, prefix);
      ClosedContainsChain(shape, patch, prefix);
      var prev := chain[|chain| - 2];
      var last := chain[|chain| - 1];
      assert prev in patch && Adjacent(prev, last);
      var k :| 0 <= k < |patch| && patch[k] == prev;
      var i :| 0 <= i < |prev.edges| && OwnsEdgeLike(last, prev.edges[i]);
      var m :| 0 <= m < |shape| && shape[m] == last;
      assert OwnsEdgeLike(shape[m], patch[k].edges[i]);
    }
  }

  /** Every face appended to the queue is an allowed face of the shape sharing an edge with `current`. */
  ghost predicate NeighbourTail(shape: seq<Face>, current: Face, toVisit: seq<Face>, queue: seq<Face>)
    requires Extends(queue, toVisit)
  {
    forall q :: |toVisit| <= q < |queue| ==>
      queue[q] in shape && IsAllowed(Classify(queue[q])) && Adjacent(current, queue[q])
  }

  /** Appending an unvisited allowed neighbour keeps the queue's tail made of unvisited allowed neighbours. */
  lemma EnqueueOne(shape: seq<Face>, current: Face, visited: set<FaceId>, toVisit: seq<Face>, queue: seq<Face>, adj: Face)
    requires Extends(queue, toVisit) && NeighbourTail(shape, current, toVisit, queue)
    requires forall k :: |toVisit| <= k < |queue| ==> queue[k].id !in visited
    requires adj in shape && IsAllowed(Classify(adj)) && Adjacent(current, adj) && adj.id !in visited
    ensures Extends(queue + [adj], queue)
    ensures Extends(queue + [adj], toVisit) && NeighbourTail(shape, current, toVisit, queue + [adj])
    ensures forall k :: |toVisit| <= k < |queue| + 1 ==> (queue + [adj])[k].id !in visited
  {
    var longer := queue + [adj];
    assert longer[..|queue|] == queue;
    assert longer[..|toVisit|] == queue[..|toVisit|];
    forall q | |toVisit| <= q < |longer|
      ensures longer[q] in shape && IsAllowed(Classify(longer[q])) && Adjacent(current, longer[q])
      ensures longer[q].id !in visited
    {
      if q < |queue| {
        assert longer[q] == queue[q];
      }
    }
  }

  /**
   * Appends to the queue every face of `faceList` (the faces sharing one edge of
   * `current`) that is neither visited nor of a disallowed type.
   */
  method EnqueueAllowed(shape: seq<Face>, current: Face, e: nat,
                        faceList: seq<Face>, idx: seq<nat>,
                        visited: set<FaceId>, toVisit: seq<Face>) returns (queue: seq<Face>)
    requires e < |current.edges|
    requires |idx| == |faceList|
    requires forall k :: 0 <= k < |faceList| ==> idx[k] < |shape| && faceList[k] == shape[idx[k]]
    requires forall k :: 0 <= k < |faceList| ==> OwnsEdgeLike(faceList[k], current.edges[e])
    ensures Extends(queue, toVisit) && NeighbourTail(shape, current, toVisit, queue)
    ensures forall k :: |toVisit| <= k < |queue| ==> queue[k].id !in visited
    ensures forall mm :: 0 <= mm < |faceList| && IsAllowed(Classify(faceList[mm])) ==>
              Covered(faceList[mm], visited, queue)
  {
    queue := toVisit;
    var m := 0;
    while m < |faceList|
      invariant 0 <= m <= |faceList|
      invariant Extends(queue, toVisit) && NeighbourTail(shape, current, toVisit, queue)
      invariant forall k :: |toVisit| <= k < |queue| ==> queue[k].id !in visited
      invariant forall mm :: 0 <= mm < m && IsAllowed(Classify(faceList[mm])) ==>
                  Covered(faceList[mm], visited, queue)
    {
      var adj := faceList[m];
      if adj.id !in visited && IsAllowed(Classify(adj)) {
        assert adj in shape by {
          assert shape[idx[m]] == adj;
        }
        assert Adjacent(current, adj) by {
          assert OwnsEdgeLike(adj, current.edges[e]);
        }
        ghost var before := queue;
        queue := queue + [adj];
        EnqueueOne(shape, current, visited, toVisit, before, adj);
        forall mm | 0 <= mm < m && IsAllowed(Classify(faceList[mm]))
          ensures Covered(faceList[mm], visited, queue)
        {
          CoveredExtend(faceList[mm], visited, before, queue);
        }
      }
      m := m + 1;
    }
  }

  /**
   * Appends to the queue the allowed, unvisited faces sharing each edge of
   * `current`, edge by edge, in the order the shape lists them.
   */
  method EnqueueNeighbours(shape: seq<Face>, seed: Face, current: Face,
                           visited: set<FaceId>, toVisit: seq<Face>) returns (queue: seq<Face>)
    requires Reachable(shape, seed, current)
    ensures Extends(queue, toVisit) && GoodTail(shape, seed, toVisit, queue)
    ensures forall k :: |toVisit| <= k < |queue| ==> queue[k].id !in visited
    ensures IdsIdentify(shape) ==> EdgesCovered(shape, current, |current.edges|, visited, queue)
  {
    queue := toVisit;
    var e := 0;
    while e < |current.edges|
      invariant 0 <= e <= |current.edges|
      invariant Extends(queue, toVisit) && GoodTail(shape, seed, toVisit, queue)
      invariant forall k :: |toVisit| <= k < |queue| ==> queue[k].id !in visited
      invariant IdsIdentify(shape) ==> EdgesCovered(shape, current, e, visited, queue)
    {
      var faceList, idx := GetFacesSharingEdge(shape, current.edges[e]);
      ghost var before := queue;
      queue := EnqueueAllowed(shape, current, e, faceList, idx, visited, queue);
      assert Extends(queue, toVisit) by {
        assert queue[..|toVisit|] == queue[..|before|][..|toVisit|];
      }
      assert GoodTail(shape, seed, toVisit, queue) by {
        forall q | |toVisit| <= q < |queue|
          ensures queue[q] in shape && IsAllowed(Classify(queue[q])) && Reachable(shape, seed, queue[q])
        {
          if q < |before| {
            assert queue[q] == before[q];
          } else {
            ReachStep(shape, seed, current, queue[q]);
          }
        }
      }
      assert forall k :: |toVisit| <= k < |queue| ==> queue[k].id !in visited by {
        forall k | |toVisit| <= k < |queue|
          ensures queue[k].id !in visited
        {
          if k < |before| {
            assert queue[k] == before[k];
          }
        }
      }
      if IdsIdentify(shape) {
        EdgesCoveredExtend(shape, current, e, visited, before, queue);
        forall i, n |
          0 <= i < e + 1 && 0 <= n < |shape|
          && OwnsEdgeLike(shape[n], current.edges[i]) && IsAllowed(Classify(shape[n]))
          ensures Covered(shape[n], visited, queue)
        {
          if i == e {
            var mm :| 0 <= mm < |faceList| && faceList[mm] == shape[n];
          }
        }
      }
      e := e + 1;
    }
  }

  /** The loop invariant of the search, over the result so far, the visited identities and the queue. */
  ghost predicate SearchInv(shape: seq<Face>, seed: Face, result: seq<Face>, visited: set<FaceId>, toVisit: seq<Face>)
  {
    && visited == Ids(result) && visited <= Ids([seed] + shape)
    && DistinctIds(result)
    && (|result| == 0 ==> toVisit == [seed])
    && (|result| > 0 ==> result[0] == seed)
    && (forall q :: 0 <= q < |toVisit| ==> Good(shape, seed, toVisit[q]))
    && (forall k :: 0 <= k < |result| ==> Good(shape, seed, result[k]))
    && (IdsIdentify([seed] + shape) ==> AllCovered(shape, result, visited, toVisit))
  }

  /** The seed and every face of the shape carry identities of the search's universe. */
  lemma KnownInUniverse(shape: seq<Face>, seed: Face, f: Face)
    requires Known(shape, seed, f)
    ensures f.id in Ids([seed] + shape)
  {
    var all := [seed] + shape;
    if f == seed {
      assert all[0] == f;
    } else {
      var b :| 0 <= b < |shape| && shape[b] == f;
      assert all[b + 1] == f;
    }
  }

  /** Dropping an already visited queue head keeps the search invariant. */
  lemma SkipKeepsInv(shape: seq<Face>, seed: Face, result: seq<Face>, visited: set<FaceId>, toVisit: seq<Face>)
    requires |toVisit| > 0 && toVisit[0].id in visited
    requires SearchInv(shape, seed, result, visited, toVisit)
    ensures SearchInv(shape, seed, result, visited, toVisit[1..])
  {
    IdsMember(result, toVisit[0].id);
    if IdsIdentify([seed] + shape) {
      CoveredPop(shape, result, visited, toVisit);
      assert visited + {toVisit[0].id} == visited;
    }
    forall q | 0 <= q < |toVisit| - 1
      ensures Good(shape, seed, toVisit[1..][q])
    {
      assert toVisit[1..][q] == toVisit[q + 1];
    }
  }

  /**
   * One round of the search: pop the queue head; skip it when already visited,
   * otherwise mark it visited, append it to the result and enqueue its allowed
   * unvisited neighbours. Either the unvisited identities shrink, or nothing is
   * visited and the queue shrinks.
   */
  method VisitNext(shape: seq<Face>, seed: Face, result: seq<Face>, visited: set<FaceId>, toVisit: seq<Face>)
    returns (result': seq<Face>, visited': set<FaceId>, toVisit': seq<Face>)
    requires |toVisit| > 0
    requires SearchInv(shape, seed, result, visited, toVisit)
    ensures SearchInv(shape, seed, result', visited', toVisit')
    ensures visited <= visited'
    ensures |Ids([seed] + shape) - visited'| < |Ids([seed] + shape) - visited|
            || (visited' == visited && |toVisit'| < |toVisit|)
    ensures toVisit[0].id in visited ==> result' == result
    ensures toVisit[0].id !in visited ==> result' == result + [toVisit[0]]
  {
    ghost var all := [seed] + shape;
    var current := toVisit[0];
    var rest := toVisit[1..];
    if current.id in visited {
      SkipKeepsInv(shape, seed, result, visited, toVisit);
      return result, visited, rest;
    }
    KnownInUniverse(shape, seed, current);
    UnvisitedShrinks(Ids(all), visited, current.id);
    visited' := visited + {current.id};
    result' := result + [current];
    if IdsIdentify(all) {
      IdsIdentifyTail(seed, shape);
    }
    toVisit' := EnqueueNeighbours(shape, seed, current, visited', rest);
    AcceptKeepsInv(shape, seed, result, visited, toVisit, toVisit');
  }

  /** Accepting the unvisited queue head and enqueueing its neighbours keeps the invariant. */
  lemma AcceptKeepsInv(shape: seq<Face>, seed: Face, result: seq<Face>, visited: set<FaceId>,
                       toVisit: seq<Face>, queue: seq<Face>)
    requires |toVisit| > 0 && toVisit[0].id !in visited
    requires SearchInv(shape, seed, result, visited, toVisit)
    requires Extends(queue, toVisit[1..]) && GoodTail(shape, seed, toVisit[1..], queue)
    requires IdsIdentify(shape) ==>
               EdgesCovered(shape, toVisit[0], |toVisit[0].edges|, visited + {toVisit[0].id}, queue)
    ensures SearchInv(shape, seed, result + [toVisit[0]], visited + {toVisit[0].id}, queue)
  {
    var all := [seed] + shape;
    var current := toVisit[0];
    var rest := toVisit[1..];
    var visited' := visited + {current.id};
    var result' := result + [current];
    assert current.id in Ids(all) by {
      if current == seed {
        assert all[0] == current;
      } else {
        var b :| 0 <= b < |shape| && shape[b] == current;
        assert all[b + 1] == current;
      }
    }
    IdsAppend(result, current);
    DistinctIdsAppend(result, current);
    forall q | 0 <= q < |queue|
      ensures Good(shape, seed, queue[q])
    {
      if q < |rest| {
        assert queue[q] == rest[q];
      }
    }
    forall k | 0 <= k < |result'|
      ensures Good(shape, seed, result'[k])
    {
      if k < |result| {
        assert result'[k] == result[k];
      }
    }
    if IdsIdentify(all) {
      IdsIdentifyTail(seed, shape);
      CoveredPop(shape, result, visited, toVisit);
      AllCoveredExtend(shape, result, visited', rest, queue);
      AllCoveredAppend(shape, result, current, visited', queue);
    }
  }

  /** What the search guarantees once the queue is empty. */
  lemma SearchDone(shape: seq<Face>, seed: Face, result: seq<Face>, visited: set<FaceId>)
    requires SearchInv(shape, seed, result, visited, [])
    ensures |result| > 0 && result[0] == seed
    ensures DistinctIds(result)
    ensures forall k :: 0 <= k < |result| ==> IsAllowed(Classify(result[k]))
    ensures forall k :: 0 <= k < |result| ==> result[k] == seed || result[k] in shape
    ensures forall k :: 0 <= k < |result| ==> Reachable(shape, seed, result[k])
    ensures IdsIdentify([seed] + shape) ==> Closed(shape, result)
    ensures IdsIdentify([seed] + shape) ==> forall g :: Reachable(shape, seed, g) ==> g in result
  {
    if IdsIdentify([seed] + shape) {
      ClosedAtEnd(shape, seed, result);
      forall g | Reachable(shape, seed, g)
        ensures g in result
      {
        var chain :| IsChain(shape, chain) && chain[0] == seed && chain[|chain| - 1] == g;
        assert result[0] == seed;
        ClosedContainsChain(shape, result, chain);
      }
    }
  }

  /** The search starts with the seed alone in the queue. */
  lemma SearchStart(shape: seq<Face>, seed: Face)
    requires IsAllowed(Classify(seed))
    ensures SearchInv(shape, seed, [], {}, [seed])
  {
    ReachSeed(shape, seed);
    assert Ids([]) == {};
  }

  /**
   * Grows the seed face into the connected shell of allowed faces. A seed whose
   * type is not allowed gives no result (the null shape) without any search.
   * Otherwise the faces come out in the order the FIFO queue visits them, the
   * seed first, each identity once; every face is reachable from the seed; and
   * when identities determine faces the result is closed under adjacency and
   * holds every face reachable from the seed.
   */
  method FindConnectedOuterSurface(shape: seq<Face>, seed: Face) returns (r: Option<seq<Face>>)
    ensures r.None? <==> !IsAllowed(Classify(seed))
    ensures r.Some? ==> |r.value| > 0 && r.value[0] == seed
    ensures r.Some? ==> DistinctIds(r.value)
    ensures r.Some? ==> forall k :: 0 <= k < |r.value| ==> IsAllowed(Classify(r.value[k]))
    ensures r.Some? ==> forall k :: 0 <= k < |r.value| ==> r.value[k] == seed || r.value[k] in shape
    ensures r.Some? ==> forall k :: 0 <= k < |r.value| ==> Reachable(shape, seed, r.value[k])
    ensures r.Some? && IdsIdentify([seed] + shape) ==> Closed(shape, r.value)
    ensures r.Some? && IdsIdentify([seed] + shape) ==>
              forall g :: Reachable(shape, seed, g) ==> g in r.value
  {
    if !IsAllowed(Classify(seed)) {
      return None;
    }
    ghost var universe := Ids([seed] + shape);
    SearchStart(shape, seed);
    var result: seq<Face> := [];
    var visited: set<FaceId> := {};
    var toVisit: seq<Face> := [seed];
    while |toVisit| > 0
      invariant SearchInv(shape, seed, result, visited, toVisit)
      decreases |universe - visited|, |toVisit|
    {
      result, visited, toVisit := VisitNext(shape, seed, result, visited, toVisit);
    }
    SearchDone(shape, seed, result, visited);
    return Some(result);
  }
}
