/**
 * The brute-force tour search of ect/src/tsp.rs: the all-pairs distance matrix, the score of an
 * open path through it, the search for the best-scoring ordering (sequential and as a reduction),
 * and the translation of index orderings into city orderings.
 */
module Tsp {
  import opened Common
  import opened Graph
  import opened ShortestPath

  // ---------------------------------------------------------------------------------------------
  // The distance matrix.

  /**
   * `index_map` of tsp.rs:55-58: every listed city is a key, and its value is the position of its
   * LAST occurrence in `cities`.
   */
  method BuildIndexMap(cities: seq<string>) returns (m: map<string, nat>)
    ensures m.Keys == set c | c in cities
    ensures forall c :: c in m ==> m[c] < |cities| && cities[m[c]] == c
    ensures forall c, k :: c in m && m[c] < k < |cities| ==> cities[k] != c
  {
    m := map[];
    for i := 0 to |cities|
      invariant m.Keys == set c | c in cities[..i]
      invariant forall c :: c in m ==> m[c] < i && cities[m[c]] == c
      invariant forall c, k :: c in m && m[c] < k < i ==> cities[k] != c
    {
      assert cities[..i + 1] == cities[..i] + [cities[i]];
      m := m[cities[i] := i];
    }
    assert cities[..|cities|] == cities;
  }

  /** The entry the matrix holds for the ordered pair `(a, b)`. */
  ghost predicate Entry(adj: Adjacency, a: string, b: string, d: nat)
  {
    if a == b then d == 0
    else if Reachable(adj, a, b) then IsShortest(adj, a, b, d)
    else d == U32_MAX
  }

  /** On a symmetric adjacency, the entries for `(a, b)` and `(b, a)` agree. */
  lemma EntrySymmetric(adj: Adjacency, a: string, b: string, d: nat, d': nat)
    requires Symmetric(adj) && Entry(adj, a, b, d) && Entry(adj, b, a, d')
    ensures d == d'
  {
    ReachableSymmetric(adj, a, b);
    if a != b && Reachable(adj, a, b) {
      ShortestSymmetric(adj, a, b, d);
      var p :| IsWalk(adj, p, b, a) && Weight(adj, p) == d;
      var p' :| IsWalk(adj, p', b, a) && Weight(adj, p') == d';
    }
  }

  /** `n` rows of `n` entries each. */
  predicate Square(matrix: seq<seq<nat>>)
  {
    forall i :: 0 <= i < |matrix| ==> |matrix[i]| == |matrix|
  }

  /**
   * `build_distance_matrix` (tsp.rs:51-74): an `n`-by-`n` matrix for the `n` listed cities. An
   * entry is 0 when its two cities are the same name, `u32::MAX` when no walk joins them, and the
   * shortest walk's distance otherwise; the index map is that of `BuildIndexMap`.
   */
  method BuildDistanceMatrix(graph: CityGraph, cities: seq<string>) returns (matrix: seq<seq<nat>>, indexMap: map<string, nat>)
    ensures |matrix| == |cities| && Square(matrix)
    ensures forall i, j :: 0 <= i < |cities| && 0 <= j < |cities| ==> Entry(graph.adjacency, cities[i], cities[j], matrix[i][j])
    ensures indexMap.Keys == set c | c in cities
    ensures forall c :: c in indexMap ==> indexMap[c] < |cities| && cities[indexMap[c]] == c
    ensures forall c, k :: c in indexMap && indexMap[c] < k < |cities| ==> cities[k] != c
    ensures Symmetric(graph.adjacency) ==> SymmetricMatrix(matrix)
  {
    indexMap := BuildIndexMap(cities);
    var n := |cities|;
    matrix := seq(n, _ => seq(n, _ => U32_MAX));
    for i := 0 to n
      invariant |matrix| == n && Square(matrix)
      invariant forall r, j :: 0 <= r < i && 0 <= j < n ==> Entry(graph.adjacency, cities[r], cities[j], matrix[r][j])
      invariant forall r, j :: i <= r < n && 0 <= j < n ==> matrix[r][j] == U32_MAX
    {
      for j := 0 to n
        invariant |matrix| == n && Square(matrix)
        invariant forall r, c :: 0 <= r < i && 0 <= c < n ==> Entry(graph.adjacency, cities[r], cities[c], matrix[r][c])
        invariant forall c :: 0 <= c < j ==> Entry(graph.adjacency, cities[i], cities[c], matrix[i][c])
        invariant forall c :: j <= c < n ==> matrix[i][c] == U32_MAX
        invariant forall r, c :: i < r < n && 0 <= c < n ==> matrix[r][c] == U32_MAX
      {
        if cities[i] == cities[j] {
          var row: seq<nat> := matrix[i][j := 0];
          matrix := matrix[i := row];
        } else {
          var dist := BfsDistance(graph, cities[i], cities[j]);
          if dist.Some? {
            var row: seq<nat> := matrix[i][j := dist.value];
            matrix := matrix[i := row];
          }
        }
      }
    }
    if Symmetric(graph.adjacency) {
      forall i, j | 0 <= i < |cities| && 0 <= j < |cities|
        ensures matrix[i][j] == matrix[j][i]
      {
        EntrySymmetric(graph.adjacency, cities[i], cities[j], matrix[i][j], matrix[j][i]);
      }
    }
  }

  // ---------------------------------------------------------------------------------------------
  // Path scores.

  /** Every city of `path` has an index, and every index names a row (and a column) of `matrix`. */
  predicate Scorable(path: seq<string>, matrix: seq<seq<nat>>, indexMap: map<string, nat>)
  {
    && Square(matrix)
    && forall k :: 0 <= k < |path| ==> path[k] in indexMap && indexMap[path[k]] < |matrix|
  }

  /** The matrix entry for the hop from `path[k]` to `path[k + 1]`. */
  function Hop(path: seq<string>, matrix: seq<seq<nat>>, indexMap: map<string, nat>, k: nat): nat
    requires Scorable(path, matrix, indexMap) && k + 1 < |path|
  {
    matrix[indexMap[path[k]]][indexMap[path[k + 1]]]
  }

  /** The sum of the first `n` hops. */
  function HopSum(path: seq<string>, matrix: seq<seq<nat>>, indexMap: map<string, nat>, n: nat): nat
    requires Scorable(path, matrix, indexMap) && (n == 0 || n < |path|)
  {
    if n == 0 then 0 else HopSum(path, matrix, indexMap, n - 1) + Hop(path, matrix, indexMap, n - 1)
  }

  /** One of the first `n` hops is unreachable. */
  predicate Blocked(path: seq<string>, matrix: seq<seq<nat>>, indexMap: map<string, nat>, n: nat)
    requires Scorable(path, matrix, indexMap) && (n == 0 || n < |path|)
  {
    n > 0 && (Blocked(path, matrix, indexMap, n - 1) || Hop(path, matrix, indexMap, n - 1) == U32_MAX)
  }

  /** The running total of `score_path` stays within `u32` before the first unreachable hop. */
  predicate Fits(path: seq<string>, matrix: seq<seq<nat>>, indexMap: map<string, nat>)
    requires Scorable(path, matrix, indexMap)
  {
    forall n :: 0 <= n < |path| ==> !Blocked(path, matrix, indexMap, n) ==> HopSum(path, matrix, indexMap, n) <= U32_MAX
  }

  /** The score of an open path: `u32::MAX` if some hop is unreachable, else the sum of its hops. */
  function Score(path: seq<string>, matrix: seq<seq<nat>>, indexMap: map<string, nat>): nat
    requires Scorable(path, matrix, indexMap)
  {
    if |path| <= 1 then 0
    else if Blocked(path, matrix, indexMap, |path| - 1) then U32_MAX
    else HopSum(path, matrix, indexMap, |path| - 1)
  }

  /** `Blocked` holds exactly when one of the first `n` hops is `u32::MAX`. */
  lemma {:induction false} BlockedAt(path: seq<string>, matrix: seq<seq<nat>>, indexMap: map<string, nat>, n: nat)
    requires Scorable(path, matrix, indexMap) && (n == 0 || n < |path|)
    ensures Blocked(path, matrix, indexMap, n) <==> exists k :: 0 <= k < n && Hop(path, matrix, indexMap, k) == U32_MAX
  {
    if n > 0 {
      BlockedAt(path, matrix, indexMap, n - 1);
    }
  }

  /** A path of at most one city scores 0. */
  lemma ScoreShort(path: seq<string>, matrix: seq<seq<nat>>, indexMap: map<string, nat>)
    requires Scorable(path, matrix, indexMap) && |path| <= 1
    ensures Score(path, matrix, indexMap) == 0
  {
  }

  /** A path with an unreachable hop scores `u32::MAX`, whatever its other hops. */
  lemma ScoreUnreachable(path: seq<string>, matrix: seq<seq<nat>>, indexMap: map<string, nat>, k: nat)
    requires Scorable(path, matrix, indexMap) && k + 1 < |path| && Hop(path, matrix, indexMap, k) == U32_MAX
    ensures Score(path, matrix, indexMap) == U32_MAX
  {
    BlockedAt(path, matrix, indexMap, |path| - 1);
  }

  /** A path with no unreachable hop scores the sum of its hops. */
  lemma ScoreReachable(path: seq<string>, matrix: seq<seq<nat>>, indexMap: map<string, nat>)
    requires Scorable(path, matrix, indexMap) && |path| >= 2
    requires forall k :: 0 <= k < |path| - 1 ==> Hop(path, matrix, indexMap, k) != U32_MAX
    ensures Score(path, matrix, indexMap) == HopSum(path, matrix, indexMap, |path| - 1)
  {
    BlockedAt(path, matrix, indexMap, |path| - 1);
  }

  /** The distance from row `i` to column `j` equals the one from `j` to `i`. */
  predicate SymmetricMatrix(matrix: seq<seq<nat>>)
  {
    Square(matrix) && forall i, j :: 0 <= i < |matrix| && 0 <= j < |matrix| ==> matrix[i][j] == matrix[j][i]
  }

  /** A path's cities, taken backwards, still all have indices in range. */
  lemma ReverseScorable(path: seq<string>, matrix: seq<seq<nat>>, indexMap: map<string, nat>)
    requires Scorable(path, matrix, indexMap)
    ensures |Reverse(path)| == |path| && Scorable(Reverse(path), matrix, indexMap)
  {
    var r := Reverse(path);
    forall i | 0 <= i < |r|
      ensures r[i] in indexMap && indexMap[r[i]] < |matrix|
    {
      assert r[i] == path[|path| - 1 - i];
    }
  }

  /** On a symmetric matrix, hop `k` of the reversed path is hop `|path| - 2 - k` of the path. */
  lemma ReverseHop(path: seq<string>, matrix: seq<seq<nat>>, indexMap: map<string, nat>, k: nat)
    requires Scorable(path, matrix, indexMap) && SymmetricMatrix(matrix) && k + 1 < |path|
    ensures Scorable(Reverse(path), matrix, indexMap)
    ensures Hop(Reverse(path), matrix, indexMap, k) == Hop(path, matrix, indexMap, |path| - 2 - k)
  {
    ReverseScorable(path, matrix, indexMap);
    var r := Reverse(path);
    assert r[k] == path[|path| - 1 - k] && r[k + 1] == path[|path| - 2 - k];
  }

  /** The first `n` hops of the reversed path weigh what the last `n` hops of the path weigh. */
  lemma {:induction false} ReverseHopSum(path: seq<string>, matrix: seq<seq<nat>>, indexMap: map<string, nat>, n: nat)
    requires Scorable(path, matrix, indexMap) && SymmetricMatrix(matrix) && |path| >= 2 && n <= |path| - 1
    ensures |Reverse(path)| == |path| && Scorable(Reverse(path), matrix, indexMap)
    ensures HopSum(Reverse(path), matrix, indexMap, n) + HopSum(path, matrix, indexMap, |path| - 1 - n)
      == HopSum(path, matrix, indexMap, |path| - 1)
    decreases n
  {
    ReverseScorable(path, matrix, indexMap);
    if n > 0 {
      ReverseHopSum(path, matrix, indexMap, n - 1);
      ReverseHop(path, matrix, indexMap, n - 1);
    }
  }

  /** On a symmetric matrix, a path scores the same walked backwards. */
  lemma ScoreReverse(path: seq<string>, matrix: seq<seq<nat>>, indexMap: map<string, nat>)
    requires Scorable(path, matrix, indexMap) && SymmetricMatrix(matrix)
    ensures Scorable(Reverse(path), matrix, indexMap)
    ensures Score(Reverse(path), matrix, indexMap) == Score(path, matrix, indexMap)
  {
    ReverseScorable(path, matrix, indexMap);
    var r, m := Reverse(path), |path|;
    if m >= 2 {
      forall k | 0 <= k < m - 1
        ensures Hop(r, matrix, indexMap, k) == Hop(path, matrix, indexMap, m - 2 - k)
      {
        ReverseHop(path, matrix, indexMap, k);
      }
      BlockedAt(path, matrix, indexMap, m - 1);
      BlockedAt(r, matrix, indexMap, m - 1);
      if Blocked(path, matrix, indexMap, m - 1) {
        var k :| 0 <= k < m - 1 && Hop(path, matrix, indexMap, k) == U32_MAX;
        assert Hop(r, matrix, indexMap, m - 2 - k) == U32_MAX;
      }
      if Blocked(r, matrix, indexMap, m - 1) {
        var k :| 0 <= k < m - 1 && Hop(r, matrix, indexMap, k) == U32_MAX;
        assert Hop(path, matrix, indexMap, m - 2 - k) == U32_MAX;
      }
      ReverseHopSum(path, matrix, indexMap, m - 1);
    }
  }

  /**
   * `score_path` (tsp.rs:115-131): walks the consecutive pairs, returning `u32::MAX` at the first
   * unreachable hop and the running total otherwise. Every city must have an index in range (the
   * source panics otherwise) and the total must fit a `u32` (the source's `+=` overflows otherwise).
   */
  method ScorePath(path: seq<string>, matrix: seq<seq<nat>>, indexMap: map<string, nat>) returns (total: u32)
    requires Scorable(path, matrix, indexMap) && Fits(path, matrix, indexMap)
    ensures total == Score(path, matrix, indexMap)
  {
    total := 0;
    var k := 0;
    while k + 1 < |path|
      invariant k == 0 || k < |path|
      invariant !Blocked(path, matrix, indexMap, k) && total == HopSum(path, matrix, indexMap, k)
    {
      var from := indexMap[path[k]];
      var to := indexMap[path[k + 1]];
      var dist := matrix[from][to];
      if dist == U32_MAX {
        ScoreUnreachable(path, matrix, indexMap, k);
        return U32_MAX;
      }
      assert !Blocked(path, matrix, indexMap, k + 1);
      assert HopSum(path, matrix, indexMap, k + 1) == total + dist;
      total := total + dist;
      k := k + 1;
    }
  }

  // ---------------------------------------------------------------------------------------------
  // The search for the best ordering.

  /** A candidate ordering and its score. */
  type Scored = (seq<string>, nat)

  /** The reduction's identity: no path, score `u32::MAX`. */
  const NoPath: Scored := ([], U32_MAX)

  /** The reducer of tsp.rs:111: the challenger wins only with a strictly smaller score. */
  function Better(best: Scored, current: Scored): Scored
  {
    if current.1 < best.1 then current else best
  }

  /** The left fold of `Better` from `NoPath`; `bf` computes it over its candidates in order. */
  function Reduce(ps: seq<Scored>): Scored
  {
    if ps == [] then NoPath else Better(Reduce(ps[..|ps| - 1]), ps[|ps| - 1])
  }

  /** Each ordering paired with its score (the `map` of tsp.rs:105-108). */
  function ScoreAll(perms: seq<seq<string>>, matrix: seq<seq<nat>>, indexMap: map<string, nat>): (ps: seq<Scored>)
    requires forall p :: p in perms ==> Scorable(p, matrix, indexMap)
    ensures |ps| == |perms|
    ensures forall k :: 0 <= k < |perms| ==> ps[k] == (perms[k], Score(perms[k], matrix, indexMap))
  {
    if perms == [] then []
    else ScoreAll(perms[..|perms| - 1], matrix, indexMap) + [(perms[|perms| - 1], Score(perms[|perms| - 1], matrix, indexMap))]
  }

  /**
   * `parallel_bf` (tsp.rs:95-113) as a sequential fold of the scored orderings: the result's score
   * is within `u32` and never above any ordering's score, and no orderings give `(empty, u32::MAX)`.
   */
  function ParallelBf(perms: seq<seq<string>>, matrix: seq<seq<nat>>, indexMap: map<string, nat>): (r: Scored)
    requires forall p :: p in perms ==> Scorable(p, matrix, indexMap)
    ensures r.1 <= U32_MAX
    ensures forall k :: 0 <= k < |perms| ==> r.1 <= Score(perms[k], matrix, indexMap)
    ensures perms == [] ==> r == NoPath
  {
    var ps := ScoreAll(perms, matrix, indexMap);
    ReduceLeast(ps);
    Reduce(ps)
  }

  /** `Better` is associative, so the reduction may be split anywhere. */
  lemma BetterAssociative(x: Scored, y: Scored, z: Scored)
    ensures Better(Better(x, y), z) == Better(x, Better(y, z))
  {
  }

  /**
   * Reducing two halves separately and combining the results gives the fold of the whole: every
   * split a parallel reduction makes returns the same path and score as the sequential fold.
   */
  lemma {:induction false} ReduceSplit(a: seq<Scored>, b: seq<Scored>)
    ensures Reduce(a + b) == Better(Reduce(a), Reduce(b))
    decreases |b|
  {
    if b == [] {
      assert a + b == a;
      ReduceLeast(a);
    } else {
      var b', x := b[..|b| - 1], b[|b| - 1];
      assert (a + b)[..|a + b| - 1] == a + b';
      ReduceSplit(a, b');
      BetterAssociative(Reduce(a), Reduce(b'), x);
    }
  }

  /**
   * The fold's score is at most every candidate's and at most `u32::MAX`. If it is `u32::MAX` no
   * path is kept; otherwise the kept pair is the first candidate with that score.
   */
  lemma {:induction false} ReduceLeast(ps: seq<Scored>)
    ensures Reduce(ps).1 <= U32_MAX
    ensures forall k :: 0 <= k < |ps| ==> Reduce(ps).1 <= ps[k].1
    ensures Reduce(ps).1 == U32_MAX ==> Reduce(ps) == NoPath
    ensures Reduce(ps).1 < U32_MAX ==>
      exists k :: 0 <= k < |ps| && ps[k] == Reduce(ps) && forall j :: 0 <= j < k ==> ps[j].1 > Reduce(ps).1
  {
    if ps != [] {
      var p := ps[..|ps| - 1];
      ReduceLeast(p);
      assert forall k :: 0 <= k < |p| ==> ps[k] == p[k];
      if ps[|ps| - 1].1 >= Reduce(p).1 && Reduce(p).1 < U32_MAX {
        var k :| 0 <= k < |p| && p[k] == Reduce(p) && forall j :: 0 <= j < k ==> p[j].1 > Reduce(p).1;
        assert ps[k] == Reduce(ps);
      }
    }
  }

  /**
   * What `bf` promises: no candidates give `(empty, u32::MAX)`; the score is at most every
   * candidate's; a `u32::MAX` score keeps no path; otherwise the kept path is the first candidate
   * reaching the score.
   */
  lemma BestOf(perms: seq<seq<string>>, matrix: seq<seq<nat>>, indexMap: map<string, nat>)
    requires forall p :: p in perms ==> Scorable(p, matrix, indexMap)
    ensures perms == [] ==> ParallelBf(perms, matrix, indexMap) == NoPath
    ensures forall k :: 0 <= k < |perms| ==> ParallelBf(perms, matrix, indexMap).1 <= Score(perms[k], matrix, indexMap)
    ensures ParallelBf(perms, matrix, indexMap).1 == U32_MAX ==> ParallelBf(perms, matrix, indexMap).0 == []
    ensures ParallelBf(perms, matrix, indexMap).1 < U32_MAX ==>
      exists k :: 0 <= k < |perms| && perms[k] == ParallelBf(perms, matrix, indexMap).0
        && Score(perms[k], matrix, indexMap) == ParallelBf(perms, matrix, indexMap).1
        && forall j :: 0 <= j < k ==> Score(perms[j], matrix, indexMap) > ParallelBf(perms, matrix, indexMap).1
  {
    var ps := ScoreAll(perms, matrix, indexMap);
    var r := Reduce(ps);
    assert r == ParallelBf(perms, matrix, indexMap);
    ReduceLeast(ps);
    forall k | 0 <= k < |perms|
      ensures r.1 <= Score(perms[k], matrix, indexMap)
    {
      assert ps[k].1 == Score(perms[k], matrix, indexMap);
    }
    if r.1 < U32_MAX {
      var k :| 0 <= k < |ps| && ps[k] == r && forall j :: 0 <= j < k ==> ps[j].1 > r.1;
      assert perms[k] == r.0 && Score(perms[k], matrix, indexMap) == r.1;
      assert forall j :: 0 <= j < k ==> ps[j].1 == Score(perms[j], matrix, indexMap);
    }
  }

  /** Folding one more candidate into the prefix fold: the step `bf`'s loop takes. */
  lemma BfStep(perms: seq<seq<string>>, matrix: seq<seq<nat>>, indexMap: map<string, nat>, i: nat)
    requires forall p :: p in perms ==> Scorable(p, matrix, indexMap)
    requires i < |perms|
    ensures ParallelBf(perms[..i + 1], matrix, indexMap)
      == Better(ParallelBf(perms[..i], matrix, indexMap), (perms[i], Score(perms[i], matrix, indexMap)))
  {
    assert perms[..i + 1][..i] == perms[..i];
  }

  /**
   * `bf` (tsp.rs:76-93): scores every ordering in turn and keeps a new best only on a strictly
   * smaller score. Its result is the fold `ParallelBf` computes, and so has the properties of
   * `BestOf`.
   */
  method Bf(perms: seq<seq<string>>, matrix: seq<seq<nat>>, indexMap: map<string, nat>) returns (bestPath: seq<string>, bestScore: u32)
    requires forall p :: p in perms ==> Scorable(p, matrix, indexMap) && Fits(p, matrix, indexMap)
    ensures (bestPath, bestScore) == ParallelBf(perms, matrix, indexMap)
    ensures perms == [] ==> bestPath == [] && bestScore == U32_MAX
    ensures forall k :: 0 <= k < |perms| ==> bestScore <= Score(perms[k], matrix, indexMap)
    ensures bestScore == U32_MAX ==> bestPath == []
    ensures bestScore < U32_MAX ==>
      exists k :: 0 <= k < |perms| && perms[k] == bestPath && Score(perms[k], matrix, indexMap) == bestScore
        && forall j :: 0 <= j < k ==> Score(perms[j], matrix, indexMap) > bestScore
  {
    bestScore := U32_MAX;
    bestPath := [];
    for i := 0 to |perms|
      invariant (bestPath, bestScore) == ParallelBf(perms[..i], matrix, indexMap)
    {
      var path := perms[i];
      var score := ScorePath(path, matrix, indexMap);
      BfStep(perms, matrix, indexMap, i);
      if score < bestScore {
        bestScore := score;
        bestPath := path;
      }
    }
    assert perms[..|perms|] == perms;
    BestOf(perms, matrix, indexMap);
  }

  // ---------------------------------------------------------------------------------------------
  // From index orderings to city orderings.

  /** The cities named by the indices of `p`. */
  function Rename(p: seq<nat>, cities: seq<string>): seq<string>
    requires forall k :: 0 <= k < |p| ==> p[k] < |cities|
  {
    if p == [] then [] else [cities[p[0]]] + Rename(p[1..], cities)
  }

  /** Position `k` of the renamed ordering is the city at index `p[k]`. */
  lemma {:induction false} RenameElements(p: seq<nat>, cities: seq<string>)
    requires forall k :: 0 <= k < |p| ==> p[k] < |cities|
    ensures |Rename(p, cities)| == |p|
    ensures forall k :: 0 <= k < |p| ==> Rename(p, cities)[k] == cities[p[k]]
  {
    if p != [] {
      RenameElements(p[1..], cities);
    }
  }

  /**
   * `index_perms_to_city_perms` (tsp.rs:133-141): each index ordering becomes the ordering of the
   * cities it names. Every index must be in range; the source panics otherwise.
   */
  function IndexPermsToCityPerms(indexPerms: seq<seq<nat>>, cities: seq<string>): (r: seq<seq<string>>)
    requires forall p, k :: p in indexPerms && 0 <= k < |p| ==> p[k] < |cities|
    ensures |r| == |indexPerms|
    ensures forall i :: 0 <= i < |r| ==> |r[i]| == |indexPerms[i]|
    ensures forall i, k :: 0 <= i < |r| && 0 <= k < |r[i]| ==> r[i][k] == cities[indexPerms[i][k]]
  {
    if indexPerms == [] then []
    else
      RenameElements(indexPerms[0], cities);
      [Rename(indexPerms[0], cities)] + IndexPermsToCityPerms(indexPerms[1..], cities)
  }

  /** The indices `0, 1, …, n - 1`. */
  function Range(n: nat): (r: seq<nat>)
    ensures |r| == n && forall k :: 0 <= k < n ==> r[k] == k
  {
    if n == 0 then [] else Range(n - 1) + [n - 1]
  }

  lemma UnionCommutes<T>(a: multiset<T>, b: multiset<T>)
    ensures a + b == b + a
  {
  }

  /** Indices rearranged from in-range indices are in range. */
  lemma InRange(p: seq<nat>, q: seq<nat>, n: nat)
    requires forall k :: 0 <= k < |p| ==> p[k] < n
    requires multiset(p) == multiset(q)
    ensures forall k :: 0 <= k < |q| ==> q[k] < n
  {
    forall k | 0 <= k < |q|
      ensures q[k] < n
    {
      assert q[k] in multiset(p);
    }
  }

  /** Removing position `j` of `q` removes one copy of `q[j]` from its multiset. */
  lemma RemoveAt(q: seq<nat>, j: nat)
    requires j < |q|
    ensures multiset(q[..j] + q[j + 1..]) == multiset(q) - multiset{q[j]}
  {
    assert q == q[..j] + [q[j]] + q[j + 1..];
  }

  /** Naming the indices of `q` with position `j` removed names one copy of `cities[q[j]]` fewer. */
  lemma {:induction false} RenameRemoveAt(q: seq<nat>, j: nat, cities: seq<string>)
    requires forall k :: 0 <= k < |q| ==> q[k] < |cities|
    requires j < |q|
    ensures multiset(Rename(q, cities)) == multiset(Rename(q[..j] + q[j + 1..], cities)) + multiset{cities[q[j]]}
  {
    if j == 0 {
      assert q[..j] + q[j + 1..] == q[1..];
    } else {
      var t := q[1..];
      assert q[..j] + q[j + 1..] == [q[0]] + (t[..j - 1] + t[j..]);
      RenameRemoveAt(t, j - 1, cities);
      assert t[j - 1] == q[j];
    }
  }

  /** A position of `q` holding `p[0]`, and the rest of `q` once it is removed, a rearrangement of the rest of `p`. */
  lemma Match(p: seq<nat>, q: seq<nat>, n: nat) returns (j: nat, rest: seq<nat>)
    requires p != [] && multiset(p) == multiset(q)
    requires forall k :: 0 <= k < |q| ==> q[k] < n
    ensures j < |q| && q[j] == p[0] && rest == q[..j] + q[j + 1..]
    ensures multiset(p[1..]) == multiset(rest)
    ensures forall k :: 0 <= k < |rest| ==> rest[k] < n
  {
    assert p[0] in multiset(q);
    j :| 0 <= j < |q| && q[j] == p[0];
    rest := q[..j] + q[j + 1..];
    RemoveAt(q, j);
    assert p == [p[0]] + p[1..];
    forall k | 0 <= k < |rest|
      ensures rest[k] < n
    {
      if k >= j {
        assert rest[k] == q[k + 1];
      }
    }
  }

  /** Rearranging the indices rearranges the cities they name. */
  lemma {:induction false} RenamePermutes(p: seq<nat>, q: seq<nat>, cities: seq<string>)
    requires forall k :: 0 <= k < |p| ==> p[k] < |cities|
    requires forall k :: 0 <= k < |q| ==> q[k] < |cities|
    requires multiset(p) == multiset(q)
    ensures multiset(Rename(p, cities)) == multiset(Rename(q, cities))
    decreases |p|
  {
    if p == [] {
      assert |q| == |multiset(q)| == 0;
      assert q == [];
    } else {
      var j, q' := Match(p, q, |cities|);
      RenamePermutes(p[1..], q', cities);
      RenameRemoveAt(q, j, cities);
      assert Rename(p, cities) == [cities[p[0]]] + Rename(p[1..], cities);
      UnionCommutes(multiset{cities[p[0]]}, multiset(Rename(q', cities)));
    }
  }

  /** Naming the indices `0, …, n - 1` in order lists the cities themselves. */
  lemma RenameRange(cities: seq<string>)
    ensures Rename(Range(|cities|), cities) == cities
  {
    RenameElements(Range(|cities|), cities);
  }

  /**
   * An ordering `generate_permutations` yields for the indices of `cities` names a
   * rearrangement of `cities` itself.
   */
  lemma CityPermPermutes(p: seq<nat>, cities: seq<string>)
    requires multiset(p) == multiset(Range(|cities|))
    ensures forall k :: 0 <= k < |p| ==> p[k] < |cities|
    ensures multiset(Rename(p, cities)) == multiset(cities)
  {
    InRange(Range(|cities|), p, |cities|);
    RenamePermutes(Range(|cities|), p, cities);
    RenameRange(cities);
  }

  /** Entry `i` of the translated list names the cities of `indexPerms[i]`. */
  lemma {:induction false} CityPermAt(indexPerms: seq<seq<nat>>, cities: seq<string>, i: nat)
    requires forall p, k :: p in indexPerms && 0 <= k < |p| ==> p[k] < |cities|
    requires i < |indexPerms|
    ensures IndexPermsToCityPerms(indexPerms, cities)[i] == Rename(indexPerms[i], cities)
  {
    if i > 0 {
      assert forall p :: p in indexPerms[1..] ==> p in indexPerms;
      CityPermAt(indexPerms[1..], cities, i - 1);
    }
  }

  /**
   * The orderings the search ranks: every city ordering built from index rearrangements of
   * `cities` is a rearrangement of `cities` (the pipeline of `generate_permutations` and
   * `index_perms_to_city_perms`).
   */
  lemma CityPermsArePermutations(indexPerms: seq<seq<nat>>, cities: seq<string>)
    requires forall p: seq<nat> :: p in indexPerms ==> multiset(p) == multiset(Range(|cities|))
    ensures forall p, k :: p in indexPerms && 0 <= k < |p| ==> p[k] < |cities|
    ensures forall i :: 0 <= i < |indexPerms| ==>
      multiset(IndexPermsToCityPerms(indexPerms, cities)[i]) == multiset(cities)
  {
    forall p: seq<nat> | p in indexPerms
      ensures forall k :: 0 <= k < |p| ==> p[k] < |cities|
    {
      CityPermPermutes(p, cities);
    }
    forall i | 0 <= i < |indexPerms|
      ensures multiset(IndexPermsToCityPerms(indexPerms, cities)[i]) == multiset(cities)
    {
      assert indexPerms[i] in indexPerms;
      CityPermPermutes(indexPerms[i], cities);
      CityPermAt(indexPerms, cities, i);
    }
  }
}
