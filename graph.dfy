/** The adjacency-list graph of graph.py: vertices carry data, `matrix[v]` lists
    the neighbours of vertex v in the order the edges were made, and a depth-first
    bypass prints the data of every vertex. */
module Graphs {
  import PyIndex

  /** What `make_connections` ends with: normally, or by raising `IndexError`. */
  datatype Outcome = Ok | IndexError

  type Adjacency = seq<seq<int>>

  predicate NoDup(s: seq<int>)
  {
    forall k, k' :: 0 <= k < k' < |s| ==> s[k] != s[k']
  }

  predicate InBounds(s: seq<int>, n: int)
  {
    forall k :: 0 <= k < |s| ==> 0 <= s[k] < n
  }

  /** Every listed neighbour is a vertex. */
  predicate Closed(m: Adjacency)
  {
    forall v :: 0 <= v < |m| ==> InBounds(m[v], |m|)
  }

  /** The shape `make_connections` keeps: neighbours are vertices, no vertex is
      its own neighbour, no neighbour is listed twice, and edges go both ways. */
  predicate WellFormed(m: Adjacency)
  {
    Closed(m) &&
    (forall v :: 0 <= v < |m| ==> NoDup(m[v]) && v !in m[v]) &&
    (forall v, u :: 0 <= v < |m| && 0 <= u < |m| && u in m[v] ==> v in m[u])
  }

  /** n vertices without edges. */
  function Isolated(n: nat): (m: Adjacency)
    ensures |m| == n && WellFormed(m)
  {
    seq(n, _ => [])
  }

  // ---------------------------------------------------------------------------
  // arrange_data

  predicate Sorted(s: seq<int>)
  {
    forall k, k' :: 0 <= k < k' < |s| ==> s[k] <= s[k']
  }

  /** `x` placed in front of the first element of `s` that is not smaller. */
  function Insert(x: int, s: seq<int>): (r: seq<int>)
    requires Sorted(s)
    ensures Sorted(r) && multiset(r) == multiset(s) + multiset{x}
    ensures r[0] == x || r[0] == s[0]
  {
    if s == [] || x <= s[0] then [x] + s
    else
      var rest := Insert(x, s[1..]);
      assert s == [s[0]] + s[1..];
      assert s[0] <= rest[0];
      [s[0]] + rest
  }

  /** A sorted copy of the arguments. */
  function ArrangeData(data: seq<int>): (r: seq<int>)
    ensures Sorted(r) && multiset(r) == multiset(data)
  {
    if data == [] then []
    else
      assert data == [data[0]] + data[1..];
      Insert(data[0], ArrangeData(data[1..]))
  }

  /** Two sorted sequences with the same elements are equal: whatever sort
      `arrange_data` uses, its result is determined. */
  lemma {:induction false} SortedUnique(a: seq<int>, b: seq<int>)
    requires Sorted(a) && Sorted(b) && multiset(a) == multiset(b)
    ensures a == b
    decreases |a|
  {
    assert |b| == |multiset(b)| == |multiset(a)| == |a|;
    if a != [] {
      HeadIsLeast(b, a[0]);
      HeadIsLeast(a, b[0]);
      assert a == [a[0]] + a[1..] && b == [b[0]] + b[1..];
      assert multiset(a[1..]) == multiset(a) - multiset{a[0]};
      assert multiset(b[1..]) == multiset(b) - multiset{b[0]};
      assert a[0] == b[0];
      assert multiset(a[1..]) == multiset(b[1..]);
      assert Sorted(a[1..]) && Sorted(b[1..]);
      SortedUnique(a[1..], b[1..]);
    }
  }

  lemma HeadIsLeast(s: seq<int>, x: int)
    requires Sorted(s) && x in multiset(s)
    ensures s[0] <= x
  {
    var k :| 0 <= k < |s| && s[k] == x;
  }

  function Min(i: int, j: int): int { if i <= j then i else j }

  function Max(i: int, j: int): int { if i <= j then j else i }

  /** Two arguments come back as their minimum and their maximum. */
  lemma ArrangePair(i: int, j: int)
    ensures ArrangeData([i, j]) == [Min(i, j), Max(i, j)]
  {
    assert [i, j][1..] == [j] && [j][1..] == [];
    assert ArrangeData([j]) == Insert(j, []) == [j];
  }

  // ---------------------------------------------------------------------------
  // make_connections

  /** The adjacency after connecting x and y: nothing changes when y is already
      a neighbour of x or when x == y; otherwise each is appended to the other's
      list. */
  function Connect(m: Adjacency, x: int, y: int): (r: Adjacency)
    requires 0 <= x < |m| && 0 <= y < |m|
    ensures |r| == |m|
  {
    if y in m[x] || x == y then m
    else m[x := m[x] + [y]][y := m[y] + [x]]
  }

  /** Connecting adds exactly the edge between x and y, in both directions, and
      no other; a pair of equal vertices adds nothing. */
  lemma ConnectEdges(m: Adjacency, x: int, y: int)
    requires WellFormed(m) && 0 <= x < |m| && 0 <= y < |m|
    ensures forall a, b :: 0 <= a < |m| && 0 <= b < |m| ==>
              (b in Connect(m, x, y)[a] <==>
               b in m[a] || (x != y && ((a == x && b == y) || (a == y && b == x))))
  {
  }

  /** Connecting keeps the adjacency well formed. */
  lemma ConnectWellFormed(m: Adjacency, x: int, y: int)
    requires WellFormed(m) && 0 <= x < |m| && 0 <= y < |m|
    ensures WellFormed(Connect(m, x, y))
  {
    var r := Connect(m, x, y);
    if !(y in m[x] || x == y) {
      assert x !in m[y];
      forall v, u | 0 <= v < |r| && 0 <= u < |r| && u in r[v]
        ensures v in r[u]
      {
        ConnectEdges(m, x, y);
      }
      forall v | 0 <= v < |r|
        ensures NoDup(r[v]) && v !in r[v] && InBounds(r[v], |r|)
      {
        if v == x || v == y {
          assert r[v] == m[v] + [if v == x then y else x];
        }
      }
    }
  }

  /** Connecting the same pair twice is connecting it once. */
  lemma ConnectIdempotent(m: Adjacency, x: int, y: int)
    requires WellFormed(m) && 0 <= x < |m| && 0 <= y < |m|
    ensures Connect(Connect(m, x, y), x, y) == Connect(m, x, y)
  {
    if !(y in m[x] || x == y) {
      var r := Connect(m, x, y);
      assert r[x] == m[x] + [y];
      assert y in r[x];
    }
  }

  /** The order of the pair does not matter. */
  lemma ConnectSymmetric(m: Adjacency, x: int, y: int)
    requires WellFormed(m) && 0 <= x < |m| && 0 <= y < |m|
    ensures Connect(m, x, y) == Connect(m, y, x)
  {
    assert y in m[x] <==> x in m[y];
  }

  // ---------------------------------------------------------------------------
  // Depth-first bypass

  /** The number of unvisited vertices. */
  function CountFalse(s: seq<bool>): (c: nat)
    ensures c <= |s|
  {
    if s == [] then 0 else CountFalse(s[..|s| - 1]) + (if s[|s| - 1] then 0 else 1)
  }

  /** Marking a vertex visited removes it from the count when it was unvisited. */
  lemma {:induction false} CountFalseMark(s: seq<bool>, i: int)
    requires 0 <= i < |s|
    ensures CountFalse(s[i := true]) == CountFalse(s) - (if s[i] then 0 else 1)
    decreases |s|
  {
    var t := s[i := true];
    if i == |s| - 1 {
      assert t[..|t| - 1] == s[..|s| - 1];
    } else {
      assert t[..|t| - 1] == s[..|s| - 1][i := true];
      CountFalseMark(s[..|s| - 1], i);
    }
  }

  /** A sequence holding only `b` counts all its entries, or none. */
  lemma {:induction false} CountFalseUniform(s: seq<bool>, b: bool)
    requires forall k :: 0 <= k < |s| ==> s[k] == b
    ensures CountFalse(s) == if b then 0 else |s|
    decreases |s|
  {
    if s != [] {
      CountFalseUniform(s[..|s| - 1], b);
    }
  }

  /** Nothing visited before is unvisited after. */
  predicate Grows(before: seq<bool>, after: seq<bool>)
  {
    |before| == |after| && forall i :: 0 <= i < |before| && before[i] ==> after[i]
  }

  /** Every neighbour of w is visited. */
  predicate Covers(m: Adjacency, vis: seq<bool>, w: int)
    requires Closed(m) && |vis| == |m| && 0 <= w < |m|
  {
    forall k :: 0 <= k < |m[w]| ==> vis[m[w][k]]
  }

  /** `dfs(v)` as a value: v is printed and marked, then every neighbour that
      is still unvisited when its turn comes is explored, in list order. The
      result is the new visited list and the vertices printed, in order. */
  function DfsFrom(m: Adjacency, vis: seq<bool>, v: int): (res: (seq<bool>, seq<int>))
    requires Closed(m) && |vis| == |m| && 0 <= v < |m|
    ensures |res.0| == |vis| && CountFalse(res.0) <= CountFalse(vis[v := true])
    ensures InBounds(res.1, |m|)
    decreases CountFalse(vis[v := true]), 1
  {
    var (after, order) := Explore(m, vis[v := true], m[v], 0);
    (after, [v] + order)
  }

  /** The loop of `dfs` over `roots` from position k (and the loop of
      `bypass_graph` when `roots` lists every vertex): each root still unvisited
      when its turn comes is explored. */
  function Explore(m: Adjacency, vis: seq<bool>, roots: seq<int>, k: nat): (res: (seq<bool>, seq<int>))
    requires Closed(m) && |vis| == |m| && InBounds(roots, |m|) && k <= |roots|
    ensures |res.0| == |vis| && CountFalse(res.0) <= CountFalse(vis)
    ensures InBounds(res.1, |m|)
    decreases CountFalse(vis), 0, |roots| - k
  {
    if k == |roots| then (vis, [])
    else if vis[roots[k]] then Explore(m, vis, roots, k + 1)
    else
      CountFalseMark(vis, roots[k]);
      var (vis1, order1) := DfsFrom(m, vis, roots[k]);
      var (vis2, order2) := Explore(m, vis1, roots, k + 1);
      (vis2, order1 + order2)
  }

  /** `dfs(v)` prints v first, then only vertices it newly visits, each once; v
      ends visited, nothing visited is forgotten, and every vertex printed has all
      its neighbours visited. */
  lemma {:induction false} DfsFromSpec(m: Adjacency, vis: seq<bool>, v: int)
    requires Closed(m) && |vis| == |m| && 0 <= v < |m|
    ensures var res := DfsFrom(m, vis, v);
            Grows(vis, res.0) && res.0[v] &&
            res.1 != [] && res.1[0] == v && NoDup(res.1) && InBounds(res.1, |m|) &&
            (forall i :: 0 <= i < |vis| ==> (i in res.1 <==> i == v || (!vis[i] && res.0[i]))) &&
            CountFalse(res.0) + |res.1| == CountFalse(vis) + (if vis[v] then 1 else 0) &&
            (forall k :: 0 <= k < |res.1| ==> Covers(m, res.0, res.1[k]))
    decreases CountFalse(vis[v := true]), 1
  {
    var marked := vis[v := true];
    CountFalseMark(vis, v);
    ExploreSpec(m, marked, m[v], 0);
    var rest := Explore(m, marked, m[v], 0);
    assert marked[v];
    assert v !in rest.1;
    var order := [v] + rest.1;
    assert forall k :: 1 <= k < |order| ==> order[k] == rest.1[k - 1];
  }

  /** An exploration prints exactly the vertices it newly visits, each once;
      every root from position k ends visited, the count of unvisited entries
      drops by what was printed, and every vertex printed has all its neighbours
      visited. */
  lemma {:induction false} ExploreSpec(m: Adjacency, vis: seq<bool>, roots: seq<int>, k: nat)
    requires Closed(m) && |vis| == |m| && InBounds(roots, |m|) && k <= |roots|
    ensures var res := Explore(m, vis, roots, k);
            Grows(vis, res.0) && NoDup(res.1) && InBounds(res.1, |m|) &&
            (forall i :: 0 <= i < |vis| ==> (i in res.1 <==> !vis[i] && res.0[i])) &&
            CountFalse(res.0) + |res.1| == CountFalse(vis) &&
            (forall j :: k <= j < |roots| ==> res.0[roots[j]]) &&
            (forall j :: 0 <= j < |res.1| ==> Covers(m, res.0, res.1[j]))
    decreases CountFalse(vis), 0, |roots| - k
  {
    if k == |roots| {
    } else if vis[roots[k]] {
      ExploreSpec(m, vis, roots, k + 1);
    } else {
      CountFalseMark(vis, roots[k]);
      DfsFromSpec(m, vis, roots[k]);
      var (vis1, order1) := DfsFrom(m, vis, roots[k]);
      ExploreSpec(m, vis1, roots, k + 1);
      var (vis2, order2) := Explore(m, vis1, roots, k + 1);
      ExploreJoin(m, vis, vis1, order1, vis2, order2);
    }
  }

  /** Two consecutive explorations compose: what the first printed and what the
      second printed are disjoint and together are what became visited. */
  lemma ExploreJoin(m: Adjacency, vis: seq<bool>, vis1: seq<bool>, order1: seq<int>,
                    vis2: seq<bool>, order2: seq<int>)
    requires Closed(m) && |vis| == |m| && Grows(vis, vis1) && Grows(vis1, vis2)
    requires NoDup(order1) && InBounds(order1, |m|) && NoDup(order2) && InBounds(order2, |m|)
    requires forall i :: 0 <= i < |vis| ==> (i in order1 <==> !vis[i] && vis1[i])
    requires forall i :: 0 <= i < |vis| ==> (i in order2 <==> !vis1[i] && vis2[i])
    requires forall j :: 0 <= j < |order1| ==> Covers(m, vis1, order1[j])
    requires forall j :: 0 <= j < |order2| ==> Covers(m, vis2, order2[j])
    ensures NoDup(order1 + order2) && InBounds(order1 + order2, |m|)
    ensures forall i :: 0 <= i < |vis| ==> (i in order1 + order2 <==> !vis[i] && vis2[i])
    ensures forall j :: 0 <= j < |order1 + order2| ==> Covers(m, vis2, (order1 + order2)[j])
  {
    var o := order1 + order2;
    forall j, j' | 0 <= j < j' < |o|
      ensures o[j] != o[j']
    {
      if j < |order1| <= j' {
        assert o[j] in order1 && o[j'] in order2;
      }
    }
    forall j | 0 <= j < |o|
      ensures Covers(m, vis2, o[j])
    {
      if j < |order1| {
        assert Covers(m, vis1, order1[j]);
      } else {
        assert o[j] == order2[j - |order1|];
      }
    }
  }

  /** A visited list of n entries, none visited. */
  function Unvisited(n: nat): (s: seq<bool>)
    ensures |s| == n && forall i :: 0 <= i < n ==> !s[i]
  {
    seq(n, _ => false)
  }

  /** The vertex indices 0, 1, ..., n - 1: what `range(n)` iterates over. */
  function Range(n: nat): (r: seq<int>)
    ensures |r| == n && InBounds(r, n)
  {
    seq(n, i => i)
  }

  /** From an all-unvisited list, the bypass prints every vertex exactly once and
      leaves every vertex visited. */
  lemma BypassVisitsEveryVertexOnce(m: Adjacency)
    requires Closed(m)
    ensures var res := Explore(m, Unvisited(|m|), Range(|m|), 0);
            NoDup(res.1) && |res.1| == |m| && (forall i :: 0 <= i < |m| ==> i in res.1) &&
            (forall i :: 0 <= i < |m| ==> res.0[i])
  {
    var res := Explore(m, Unvisited(|m|), Range(|m|), 0);
    ExploreSpec(m, Unvisited(|m|), Range(|m|), 0);
    forall i | 0 <= i < |m|
      ensures res.0[i]
    {
      assert Range(|m|)[i] == i;
    }
    CountFalseUniform(Unvisited(|m|), false);
    CountFalseUniform(res.0, true);
  }

  /** The data of the vertices listed in `order`, as `dfs` prints them. */
  function Labels<T>(vertexes: seq<T>, order: seq<int>): (r: seq<T>)
    requires InBounds(order, |vertexes|)
    ensures |r| == |order|
  {
    seq(|order|, k requires 0 <= k < |order| => vertexes[order[k]])
  }

  lemma LabelsAppend<T>(vertexes: seq<T>, a: seq<int>, b: seq<int>)
    requires InBounds(a, |vertexes|) && InBounds(b, |vertexes|)
    ensures InBounds(a + b, |vertexes|)
    ensures Labels(vertexes, a + b) == Labels(vertexes, a) + Labels(vertexes, b)
  {
  }

  /** One step of an exploration, printed as labels: a visited root is skipped;
      an unvisited one is explored first and the rest follows from there. */
  lemma ExploreStep<T>(vertexes: seq<T>, m: Adjacency, vis: seq<bool>, roots: seq<int>, k: nat)
    requires Closed(m) && |vis| == |m| == |vertexes| && InBounds(roots, |m|) && k < |roots|
    ensures vis[roots[k]] ==> Explore(m, vis, roots, k) == Explore(m, vis, roots, k + 1)
    ensures !vis[roots[k]] ==>
              var step := DfsFrom(m, vis, roots[k]);
              var rest := Explore(m, step.0, roots, k + 1);
              Explore(m, vis, roots, k).0 == rest.0 &&
              Labels(vertexes, Explore(m, vis, roots, k).1)
                == Labels(vertexes, step.1) + Labels(vertexes, rest.1)
  {
    if !vis[roots[k]] {
      var step := DfsFrom(m, vis, roots[k]);
      var rest := Explore(m, step.0, roots, k + 1);
      LabelsAppend(vertexes, step.1, rest.1);
    }
  }

  // ---------------------------------------------------------------------------
  // The graph object

  class Graph<T> {
    var n: int
    var vertexes: seq<T>
    var matrix: Adjacency
    var visited: seq<bool>
    /** What `dfs` has printed so far, oldest first. */
    var output: seq<T>

    /** `n` counts the vertices and the adjacency is well formed. `visited` is
        not tied to `n`: `add_vertex` does not extend it. */
    predicate Valid()
      reads this
    {
      Shaped() && WellFormed(matrix)
    }

    /** What the bypass needs: one adjacency list per vertex, naming vertices. */
    predicate Shaped()
      reads this
    {
      n == |vertexes| == |matrix| && Closed(matrix)
    }

    /** A graph on `data`, in order, without edges and with nothing visited. */
    constructor (data: seq<T>)
      ensures Valid() && n == |data| && vertexes == data && matrix == Isolated(|data|)
      ensures visited == Unvisited(|data|) && output == []
    {
      n := 0;
      vertexes := [];
      matrix := [];
      visited := [];
      output := [];
      new;
      ExtendVertex(data);
      visited := Unvisited(n);
    }

    /** Appends a vertex without edges; `visited` is left as it is. */
    method AddVertex(data: T)
      requires Valid()
      modifies this
      ensures Valid()
      ensures vertexes == old(vertexes) + [data] && matrix == old(matrix) + [[]] && n == old(n) + 1
      ensures visited == old(visited) && output == old(output)
    {
      vertexes := vertexes + [data];
      matrix := matrix + [[]];
      n := n + 1;
    }

    /** Adds the items of `data` one by one, in order. */
    method ExtendVertex(data: seq<T>)
      requires Valid()
      modifies this
      ensures Valid()
      ensures vertexes == old(vertexes) + data && matrix == old(matrix) + Isolated(|data|)
      ensures n == old(n) + |data| && visited == old(visited) && output == old(output)
    {
      for k := 0 to |data|
        invariant Valid()
        invariant vertexes == old(vertexes) + data[..k] && matrix == old(matrix) + Isolated(k)
        invariant n == old(n) + k && visited == old(visited) && output == old(output)
      {
        AddVertex(data[k]);
        assert data[..k + 1] == data[..k] + [data[k]];
        assert Isolated(k + 1) == Isolated(k) + [[]];
      }
      assert data[..|data|] == data;
    }

    /** Whether u is listed as a neighbour of v; a negative v counts from the end. */
    function IsConnected(v: int, u: int): (c: bool)
      requires Valid() && -n <= v < n
      reads this
      ensures c ==> 0 <= u < n && u != PyIndex.Wrap(v, n)
    {
      u in matrix[PyIndex.Wrap(v, n)]
    }

    /** Connection is symmetric between vertices. */
    lemma ConnectedBothWays(v: int, u: int)
      requires Valid() && 0 <= v < n && 0 <= u < n
      ensures IsConnected(v, u) <==> IsConnected(u, v)
    {
      if u in matrix[v] {
        assert v in matrix[u];
      }
      if v in matrix[u] {
        assert u in matrix[v];
      }
    }

    /** Connects i and j after sorting them; an index out of range raises
        `IndexError` and changes nothing. */
    method MakeConnections(i: int, j: int) returns (outcome: Outcome)
      requires Valid()
      modifies this
      ensures Valid() && n == old(n) && vertexes == old(vertexes)
      ensures visited == old(visited) && output == old(output)
      ensures outcome == IndexError <==> Min(i, j) < 0 || Max(i, j) >= |vertexes|
      ensures outcome == IndexError ==> matrix == old(matrix)
      ensures outcome == Ok ==> matrix == Connect(old(matrix), Min(i, j), Max(i, j))
    {
      var arranged := ArrangeData([i, j]);
      ArrangePair(i, j);
      var x, y := arranged[0], arranged[1];
      if y >= |vertexes| || y >= |vertexes| || x < 0 || y < 0 {
        return IndexError;
      }
      ConnectWellFormed(matrix, x, y);
      if !IsConnected(x, y) && x != y {
        matrix := matrix[x := matrix[x] + [y]];
        matrix := matrix[y := matrix[y] + [x]];
      }
      return Ok;
    }

    /** Prints v, marks it visited and recurses into every neighbour still
        unvisited when its turn comes. */
    method Dfs(v: int)
      requires Shaped() && |visited| == n && 0 <= v < n
      modifies this
      ensures n == old(n) && vertexes == old(vertexes) && matrix == old(matrix)
      ensures visited == DfsFrom(matrix, old(visited), v).0
      ensures output == old(output) + Labels(vertexes, DfsFrom(matrix, old(visited), v).1)
      decreases CountFalse(visited[v := true]), 1
    {
      output := output + [vertexes[v]];
      visited := visited[v := true];
      ghost var whole := Explore(matrix, visited, matrix[v], 0);
      LabelsAppend(vertexes, [v], whole.1);
      DfsEach(matrix[v]);
    }

    /** The loop shared by `dfs` (over the neighbours of a vertex) and
        `bypass_graph` (over all vertices): `dfs` from each root that is still
        unvisited when its turn comes. */
    method DfsEach(roots: seq<int>)
      requires Shaped() && |visited| == n && InBounds(roots, n)
      modifies this
      ensures n == old(n) && vertexes == old(vertexes) && matrix == old(matrix)
      ensures visited == Explore(matrix, old(visited), roots, 0).0
      ensures output == old(output) + Labels(vertexes, Explore(matrix, old(visited), roots, 0).1)
      decreases CountFalse(visited), 0
    {
      ghost var whole := Explore(matrix, visited, roots, 0);
      ghost var rest := whole;
      ghost var target := output + Labels(vertexes, whole.1);
      for k := 0 to |roots|
        invariant n == old(n) && vertexes == old(vertexes) && matrix == old(matrix)
        invariant |visited| == n && CountFalse(visited) <= CountFalse(old(visited))
        invariant rest == Explore(matrix, visited, roots, k) && rest.0 == whole.0
        invariant output + Labels(vertexes, rest.1) == target
      {
        var u := roots[k];
        ExploreStep(vertexes, matrix, visited, roots, k);
        if !visited[u] {
          CountFalseMark(visited, u);
          Dfs(u);
        }
        rest := Explore(matrix, visited, roots, k + 1);
      }
    }

    /** Runs `dfs` from every vertex still unvisited, in index order, then resets
        `visited` to n unvisited entries. */
    method BypassGraph()
      requires Shaped() && |visited| == n
      modifies this
      ensures n == old(n) && vertexes == old(vertexes) && matrix == old(matrix)
      ensures output == old(output) + Labels(vertexes, Explore(matrix, old(visited), Range(n), 0).1)
      ensures visited == Unvisited(n)
    {
      DfsEach(Range(n));
      visited := Unvisited(n);
    }
  }
}
