/**
 The undirected graph object: breadth-first distances from a vertex, and the diameter of a
 tree found by two such searches.
 */
module TreeDiameter {
  import opened Totals
  import opened Walks
  import opened BreadthFirst
  import opened Trees

  const MIN_VALUE := -0x8000_0000

  function MinOf(a: int, b: int): int { if a <= b then a else b }

  function MaxOf(a: int, b: int): int { if a <= b then b else a }

  /** The lists hold exactly the edges. */
  ghost predicate Lists(lists: seq<seq<int>>, edges: Edges) {
    && (forall a, b {:trigger (a, b) in edges} :: (a, b) in edges <==> 0 <= a < |lists| && b in lists[a])
    && (forall a, b {:trigger (a, b) in edges} :: (a, b) in edges ==> 0 <= b < |lists|)
  }

  /** Lists, behind a dummy parameter: whoever only passes a graph on need not unfold it. */
  ghost predicate HiddenLists(lists: seq<seq<int>>, edges: Edges, k: nat) { Lists(lists, edges) }

  ghost predicate AllFound(list: seq<int>, n: int, paths: Paths) {
    forall b :: 0 <= b < n && b < |list| ==> list[b] in paths
  }

  lemma OneMoreFound(list: seq<int>, n: int, paths: Paths, paths': Paths)
    requires AllFound(list, n, paths) && paths.Keys <= paths'.Keys && 0 <= n < |list| && list[n] in paths'
    ensures AllFound(list, n + 1, paths')
  {
  }

  class Graph {
    const nNodes: nat
    var adjacentList: seq<seq<int>>
    var habitants: array<int>
    ghost var edges: Edges

    ghost predicate Valid()
      reads this
    {
      |adjacentList| == nNodes + 1 && habitants.Length == 2 && forall k: nat :: HiddenLists(adjacentList, edges, k)
    }

    constructor (nHabitants: nat)
      ensures Valid() && nNodes == nHabitants && edges == {} && fresh(habitants)
    {
      nNodes := nHabitants;
      adjacentList := seq(nHabitants + 1, _ => []);
      habitants := new int[2];
      edges := {};
    }

    /** Each end is appended to the other's list. */
    method AddEdge(a: int, b: int)
      requires Valid() && 0 <= a <= nNodes && 0 <= b <= nNodes
      modifies this
      ensures Valid() && habitants == old(habitants)
      ensures edges == old(edges) + {(a, b), (b, a)}
    {
      assert HiddenLists(adjacentList, edges, 0);
      adjacentList := adjacentList[a := adjacentList[a] + [b]];
      adjacentList := adjacentList[b := adjacentList[b] + [a]];
      edges := edges + {(a, b), (b, a)};
    }

    /**
     Shortest distances from start, 0 for vertices out of reach; p gets, for every vertex
     reached, the neighbour it was reached from, one step closer.
     */
    method BFS(start: int, p: array<int>) returns (distance: array<int>)
      requires Valid() && 0 <= start <= nNodes && p.Length == nNodes + 1
      modifies p
      ensures fresh(distance) && distance.Length == nNodes + 1
      ensures forall v :: 0 <= v <= nNodes ==> distance[v] == Distance(edges, start, v)
      ensures forall v, k: nat :: 0 <= v <= nNodes && v != start && Reaches(edges, start, v, k) ==>
        (p[v], v) in edges && Distance(edges, start, p[v]) + 1 == Distance(edges, start, v)
    {
      var visited := new bool[nNodes + 1](_ => false);
      distance := new int[nNodes + 1](_ => 0);
      visited[start] := true;
      var queue := [start];
      ghost var paths: Paths, done: set<int> := map[start := [start]], {};
      Start(edges, start);
      while queue != []
        invariant Marked(start, paths, visited[..], distance[..], p[..])
        invariant Frontier(edges, start, paths, done, queue)
        decreases nNodes + 1 - |paths|, |queue|
      {
        var node := queue[0];
        assert queue == [node] + queue[1..];
        queue, paths := Scan(start, node, queue[1..], visited, distance, p, paths, done);
        PathsFit(start, paths, visited[..], distance[..], p[..]);
        done := done + {node};
      }
      SearchComplete(start, paths, done, visited[..], distance[..], p[..]);
    }

    /** The arrays record the paths: who was found, how far, and from where. */
    ghost predicate Marked(start: int, paths: Paths, visited: seq<bool>, distance: seq<int>, p: seq<int>) {
      && |visited| == |distance| == |p| == nNodes + 1
      && start in paths && paths[start] == [start]
      && (forall v :: v in paths ==> 0 <= v <= nNodes)
      && (forall v :: 0 <= v <= nNodes ==> (visited[v] <==> v in paths))
      && (forall v :: 0 <= v <= nNodes ==> distance[v] == if v in paths then |paths[v]| - 1 else 0)
      && (forall v :: v in paths && v != start ==> p[v] in paths && paths[v] == paths[p[v]] + [v])
    }

    lemma PathsFit(start: int, paths: Paths, visited: seq<bool>, distance: seq<int>, p: seq<int>)
      requires Marked(start, paths, visited, distance, p)
      ensures |paths| <= nNodes + 1
    {
      SubsetSize(paths.Keys, Below(nNodes + 1));
    }

    lemma SearchComplete(start: int, paths: Paths, done: set<int>, visited: seq<bool>, distance: seq<int>, p: seq<int>)
      requires Marked(start, paths, visited, distance, p) && Frontier(edges, start, paths, done, [])
      ensures forall v :: 0 <= v <= nNodes ==> distance[v] == Distance(edges, start, v)
      ensures forall v, k: nat :: 0 <= v <= nNodes && v != start && Reaches(edges, start, v, k) ==>
        (p[v], v) in edges && Distance(edges, start, p[v]) + 1 == Distance(edges, start, v)
    {
      OpenFrontier(edges, start, paths, done, []);
      forall v | v in paths
        ensures IsDistance(edges, start, v, |paths[v]| - 1)
      {
        DistancesOnPath(edges, start, paths, v, |paths[v]| - 1);
      }
      forall v | 0 <= v <= nNodes
        ensures distance[v] == Distance(edges, start, v)
      {
        if v in paths {
          SameDistance(edges, start, v, |paths[v]| - 1);
        } else {
          forall k: nat | Reaches(edges, start, v, k)
            ensures false
          {
            Exhausted(edges, start, paths, done, v, k);
          }
        }
      }
      forall v, k: nat | 0 <= v <= nNodes && v != start && Reaches(edges, start, v, k)
        ensures (p[v], v) in edges && Distance(edges, start, p[v]) + 1 == Distance(edges, start, v)
      {
        Exhausted(edges, start, paths, done, v, k);
        var w := paths[v];
        assert Hop(w, |w| - 2) == (p[v], v);
        SameDistance(edges, start, v, |w| - 1);
        SameDistance(edges, start, p[v], |w| - 2);
      }
    }

    method Scan(start: int, node: int, rest: seq<int>, visited: array<bool>, distance: array<int>, p: array<int>,
                ghost paths: Paths, ghost done: set<int>)
      returns (queue: seq<int>, ghost paths': Paths)
      requires Valid() && visited.Length == distance.Length == p.Length == nNodes + 1 && distance != p
      requires Marked(start, paths, visited[..], distance[..], p[..])
      requires Frontier(edges, start, paths, done, [node] + rest)
      modifies visited, distance, p
      ensures Marked(start, paths', visited[..], distance[..], p[..])
      ensures Frontier(edges, start, paths', done + {node}, queue)
      ensures |paths'| > |paths| || (paths' == paths && queue == rest)
    {
      queue, paths' := rest, paths;
      FrontOfQueue(edges, start, paths, done, node, rest);
      var list := adjacentList[node];
      for i := 0 to |list|
        invariant Marked(start, paths', visited[..], distance[..], p[..])
        invariant Frontier(edges, start, paths', done, [node] + queue)
        invariant AllFound(list, i, paths')
        invariant |paths'| > |paths| || (paths' == paths && queue == rest)
      {
        IsNeighbor(node, i);
        ghost var before := paths';
        queue, paths' := Visit(start, node, list[i], queue, visited, distance, p, paths', done);
        OneMoreFound(list, i, before, paths');
      }
      FinishNode(start, node, paths', done, queue);
    }

    lemma IsNeighbor(node: int, i: int)
      requires Valid() && 0 <= node <= nNodes && 0 <= i < |adjacentList[node]|
      ensures (node, adjacentList[node][i]) in edges && 0 <= adjacentList[node][i] <= nNodes
    {
      assert HiddenLists(adjacentList, edges, 0);
      var b := adjacentList[node][i];
      assert b in adjacentList[node] && (node, b) in edges;
    }

    /** A neighbour not visited yet is found from node, one step further, and queued. */
    method Visit(start: int, node: int, neighbor: int, rest: seq<int>, visited: array<bool>, distance: array<int>,
                 p: array<int>, ghost paths: Paths, ghost done: set<int>)
      returns (queue: seq<int>, ghost paths': Paths)
      requires visited.Length == distance.Length == p.Length == nNodes + 1 && distance != p
      requires (node, neighbor) in edges && 0 <= neighbor <= nNodes
      requires Marked(start, paths, visited[..], distance[..], p[..])
      requires Frontier(edges, start, paths, done, [node] + rest)
      modifies visited, distance, p
      ensures Marked(start, paths', visited[..], distance[..], p[..])
      ensures Frontier(edges, start, paths', done, [node] + queue)
      ensures neighbor in paths' && paths.Keys <= paths'.Keys
      ensures |paths'| > |paths| || (paths' == paths && queue == rest)
    {
      queue, paths' := rest, paths;
      if !visited[neighbor] {
        MarkNeighbor(start, node, queue, paths, done, visited[..], distance[..], p[..], neighbor);
        visited[neighbor] := true;
        p[neighbor] := node;
        distance[neighbor] := distance[node] + 1;
        queue := queue + [neighbor];
        paths' := paths[neighbor := paths[node] + [neighbor]];
      }
    }

    lemma MarkNeighbor(start: int, node: int, queue: seq<int>, paths: Paths, done: set<int>,
                       visited: seq<bool>, distance: seq<int>, p: seq<int>, b: int)
      requires Marked(start, paths, visited, distance, p)
      requires Frontier(edges, start, paths, done, [node] + queue)
      requires (node, b) in edges && 0 <= b <= nNodes && !visited[b]
      ensures 0 <= node <= nNodes && node in paths
      ensures Marked(start, paths[b := paths[node] + [b]], visited[b := true], distance[b := distance[node] + 1],
        p[b := node])
      ensures Frontier(edges, start, paths[b := paths[node] + [b]], done, [node] + (queue + [b]))
    {
      DiscoverFrom(edges, start, paths, done, node, queue, b);
    }

    lemma FinishNode(start: int, node: int, paths: Paths, done: set<int>, queue: seq<int>)
      requires Valid() && Frontier(edges, start, paths, done, [node] + queue) && 0 <= node <= nNodes
      requires AllFound(adjacentList[node], |adjacentList[node]|, paths)
      ensures Frontier(edges, start, paths, done + {node}, queue)
    {
      assert HiddenLists(adjacentList, edges, 0);
      forall b | (node, b) in edges
        ensures b in paths
      {
        assert b in adjacentList[node];
      }
      FinishFrom(edges, start, paths, done, node, queue);
    }

    /** Vertices are numbered from 1. */
    ghost function Vertices(): (vs: set<int>)
      ensures forall v :: v in vs <==> 1 <= v <= nNodes
    {
      Below(nNodes + 1) - {0}
    }

    /** On a tree: the greatest distance between two vertices, and a pair attaining it, in increasing order. */
    method GetDiameter() returns (maxDistance: int)
      requires Valid() && nNodes > 0 && IsTree(Vertices(), edges)
      modifies habitants
      ensures Valid()
      ensures forall x, y :: 1 <= x <= nNodes && 1 <= y <= nNodes ==> Distance(edges, x, y) <= maxDistance
      ensures 1 <= habitants[0] <= habitants[1] <= nNodes
      ensures Distance(edges, habitants[0], habitants[1]) == maxDistance
    {
      var startNode := 1;
      var p := new int[nNodes + 1](_ => -1);
      var distance := BFS(startNode, p);
      ghost var root := startNode;
      startNode := Farthest(distance, startNode);
      habitants[0] := startNode;
      LongestFrom(root, startNode, distance[..]);
      distance := BFS(startNode, p);
      maxDistance := OtherEnd(distance);
      EndsInOrder(habitants[0], habitants[1]);
      SortHabitants();
    }

    /** The first vertex at the greatest distance, or startNode if none is further. */
    method Farthest(distance: array<int>, startNode: int) returns (farthest: int)
      requires distance.Length == nNodes + 1 && 1 <= startNode <= nNodes
      ensures 1 <= farthest <= nNodes
      ensures forall v :: 1 <= v <= nNodes ==> distance[v] <= distance[farthest]
    {
      farthest := startNode;
      for i := 1 to nNodes + 1
        invariant 1 <= farthest <= nNodes
        invariant forall v :: 1 <= v < i ==> distance[v] <= distance[farthest]
      {
        if distance[i] > distance[farthest] {
          farthest := i;
        }
      }
    }

    /** The second search: the greatest distance, and its vertex as the second habitant. */
    method OtherEnd(distance: array<int>) returns (maxDistance: int)
      requires distance.Length == nNodes + 1 && nNodes > 0 && habitants.Length == 2 && distance != habitants
      requires forall v :: 1 <= v <= nNodes ==> distance[v] >= 0
      modifies habitants
      ensures habitants[0] == old(habitants[0]) && 1 <= habitants[1] <= nNodes
      ensures maxDistance == distance[habitants[1]]
      ensures forall v :: 1 <= v <= nNodes ==> distance[v] <= maxDistance
    {
      maxDistance := MIN_VALUE;
      for i := 1 to nNodes + 1
        invariant habitants[0] == old(habitants[0])
        invariant i == 1 ==> maxDistance == MIN_VALUE
        invariant i > 1 ==> 1 <= habitants[1] < i && distance[habitants[1]] == maxDistance
        invariant forall v :: 1 <= v < i ==> distance[v] <= maxDistance
      {
        if distance[i] > maxDistance {
          maxDistance := distance[i];
          habitants[1] := i;
        }
      }
    }

    method SortHabitants()
      requires habitants.Length == 2
      modifies habitants
      ensures habitants[0] == MinOf(old(habitants[0]), old(habitants[1]))
      ensures habitants[1] == MaxOf(old(habitants[0]), old(habitants[1]))
    {
      if habitants[1] < habitants[0] {
        habitants[0], habitants[1] := habitants[1], habitants[0];
      }
    }

    /** Any distance is matched by one from u, the vertex farthest from root. */
    lemma LongestFrom(root: int, u: int, distance: seq<int>)
      requires IsTree(Vertices(), edges) && 1 <= root <= nNodes && 1 <= u <= nNodes
      requires |distance| == nNodes + 1
      requires forall v :: 0 <= v <= nNodes ==> distance[v] == Distance(edges, root, v)
      requires forall v :: 1 <= v <= nNodes ==> distance[v] <= distance[u]
      ensures forall x, y {:trigger Distance(edges, x, y)} :: 1 <= x <= nNodes && 1 <= y <= nNodes ==>
        Distance(edges, x, y) <= Distance(edges, u, x) || Distance(edges, x, y) <= Distance(edges, u, y)
    {
      forall x, y | 1 <= x <= nNodes && 1 <= y <= nNodes
        ensures Distance(edges, x, y) <= Distance(edges, u, x) || Distance(edges, x, y) <= Distance(edges, u, y)
      {
        FarthestEndsLongest(Vertices(), edges, root, u, x, y);
      }
    }

    lemma EndsInOrder(a: int, b: int)
      requires IsTree(Vertices(), edges) && 1 <= a <= nNodes && 1 <= b <= nNodes
      ensures Distance(edges, MinOf(a, b), MaxOf(a, b)) == Distance(edges, a, b)
    {
      DistanceSymmetric(Vertices(), edges, a, b);
    }
  }
}
