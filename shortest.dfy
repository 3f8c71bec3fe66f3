/**
 * `bfs_distance` (ect/src/tsp.rs:26-49): a label-correcting shortest-path search from one city,
 * with a FIFO queue and a map of best distances found so far. A city is queued again whenever its
 * recorded distance strictly drops.
 */
module ShortestPath {
  import opened Common
  import opened Graph

  // ---------------------------------------------------------------------------------------------
  // Walks through the adjacency map.

  /** Each city of `p` after the first is a recorded neighbour of the one before it. */
  ghost predicate Steps(adj: Adjacency, p: seq<string>)
  {
    forall i :: 0 < i < |p| ==> HasEdge(adj, p[i - 1], p[i])
  }

  /** `p` is a walk from `a` to `b`. */
  ghost predicate IsWalk(adj: Adjacency, p: seq<string>, a: string, b: string)
  {
    |p| >= 1 && p[0] == a && p[|p| - 1] == b && Steps(adj, p)
  }

  /** The total distance of the steps of `p`. */
  ghost function Weight(adj: Adjacency, p: seq<string>): nat
    requires Steps(adj, p)
  {
    if |p| <= 1 then 0
    else
      StepsPrefix(adj, p, |p| - 1);
      assert HasEdge(adj, p[|p| - 2], p[|p| - 1]);
      Weight(adj, p[..|p| - 1]) + adj[p[|p| - 2]][p[|p| - 1]]
  }

  lemma StepsPrefix(adj: Adjacency, p: seq<string>, n: nat)
    requires Steps(adj, p) && n <= |p|
    ensures Steps(adj, p[..n])
  {
    var q := p[..n];
    forall i | 0 < i < |q|
      ensures HasEdge(adj, q[i - 1], q[i])
    {
      assert q[i - 1] == p[i - 1] && q[i] == p[i];
    }
  }

  ghost predicate Reachable(adj: Adjacency, a: string, b: string)
  {
    exists p :: IsWalk(adj, p, a, b)
  }

  /** `d` is the least distance of any walk from `a` to `b`, and some walk has it. */
  ghost predicate IsShortest(adj: Adjacency, a: string, b: string, d: nat)
  {
    && (exists p :: IsWalk(adj, p, a, b) && Weight(adj, p) == d)
    && (forall p :: IsWalk(adj, p, a, b) ==> d <= Weight(adj, p))
  }

  /** Extending a walk by one recorded neighbour adds that step's distance. */
  lemma WalkSnoc(adj: Adjacency, p: seq<string>, a: string, u: string, v: string)
    requires IsWalk(adj, p, a, u) && HasEdge(adj, u, v)
    ensures IsWalk(adj, p + [v], a, v)
    ensures Weight(adj, p + [v]) == Weight(adj, p) + adj[u][v]
  {
    var q := p + [v];
    assert q[..|q| - 1] == p;
    forall i | 0 < i < |q|
      ensures HasEdge(adj, q[i - 1], q[i])
    {
      if i < |p| {
        assert q[i - 1] == p[i - 1] && q[i] == p[i];
      }
    }
  }

  /** `p` walked backwards. */
  ghost function Reverse(p: seq<string>): seq<string>
  {
    seq(|p|, i requires 0 <= i < |p| => p[|p| - 1 - i])
  }

  /** Putting a recorded step in front of a walk adds that step's distance. */
  lemma {:induction false} WeightCons(adj: Adjacency, v: string, q: seq<string>)
    requires |q| >= 1 && Steps(adj, [v] + q)
    ensures Steps(adj, q) && HasEdge(adj, v, q[0])
    ensures Weight(adj, [v] + q) == adj[v][q[0]] + Weight(adj, q)
    decreases |q|
  {
    var r := [v] + q;
    assert HasEdge(adj, r[0], r[1]);
    forall i | 0 < i < |q|
      ensures HasEdge(adj, q[i - 1], q[i])
    {
      assert q[i - 1] == r[i] && q[i] == r[i + 1];
    }
    if |q| > 1 {
      var q' := q[..|q| - 1];
      assert r[..|r| - 1] == [v] + q';
      StepsPrefix(adj, r, |r| - 1);
      WeightCons(adj, v, q');
    }
  }

  /** On a symmetric adjacency, a walk taken backwards is a walk of the same distance. */
  lemma {:induction false} ReverseWalk(adj: Adjacency, p: seq<string>)
    requires Symmetric(adj) && |p| >= 1 && Steps(adj, p)
    ensures |Reverse(p)| == |p| && Reverse(p)[0] == p[|p| - 1] && Reverse(p)[|p| - 1] == p[0]
    ensures Steps(adj, Reverse(p)) && Weight(adj, Reverse(p)) == Weight(adj, p)
    decreases |p|
  {
    if |p| > 1 {
      var p', u, v := p[..|p| - 1], p[|p| - 2], p[|p| - 1];
      StepsPrefix(adj, p, |p| - 1);
      ReverseWalk(adj, p');
      var q := Reverse(p');
      assert Reverse(p) == [v] + q;
      assert HasEdge(adj, u, v);
      forall i | 0 < i < |p|
        ensures HasEdge(adj, ([v] + q)[i - 1], ([v] + q)[i])
      {
        if i > 1 {
          assert ([v] + q)[i - 1] == q[i - 2] && ([v] + q)[i] == q[i - 1];
        }
      }
      WeightCons(adj, v, q);
    }
  }

  /** On a symmetric adjacency, `b` is reachable from `a` exactly when `a` is reachable from `b`. */
  lemma ReachableSymmetric(adj: Adjacency, a: string, b: string)
    requires Symmetric(adj)
    ensures Reachable(adj, a, b) <==> Reachable(adj, b, a)
  {
    if Reachable(adj, a, b) {
      var p :| IsWalk(adj, p, a, b);
      ReverseWalk(adj, p);
      assert IsWalk(adj, Reverse(p), b, a);
    }
    if Reachable(adj, b, a) {
      var p :| IsWalk(adj, p, b, a);
      ReverseWalk(adj, p);
      assert IsWalk(adj, Reverse(p), a, b);
    }
  }

  /** On a symmetric adjacency, the shortest distance from `a` to `b` is the one from `b` to `a`. */
  lemma ShortestSymmetric(adj: Adjacency, a: string, b: string, d: nat)
    requires Symmetric(adj) && IsShortest(adj, a, b, d)
    ensures IsShortest(adj, b, a, d)
  {
    var p :| IsWalk(adj, p, a, b) && Weight(adj, p) == d;
    ReverseWalk(adj, p);
    assert IsWalk(adj, Reverse(p), b, a);
    forall q | IsWalk(adj, q, b, a)
      ensures d <= Weight(adj, q)
    {
      ReverseWalk(adj, q);
      assert IsWalk(adj, Reverse(q), a, b);
    }
  }

  /** Every city that can appear in the search: the start, every key, every neighbour. */
  ghost function Nodes(adj: Adjacency, start: string): set<string>
  {
    {start} + adj.Keys + (set a, b | a in adj && b in adj[a] :: b)
  }

  // ---------------------------------------------------------------------------------------------
  // The search state.

  /** Every neighbour of `u` is labelled, no further than `u`'s label plus the step. */
  ghost predicate Closed(adj: Adjacency, visited: map<string, nat>, u: string)
    requires u in visited
  {
    u in adj ==> forall b {:trigger b in adj[u]} :: b in adj[u] ==> b in visited && visited[b] <= visited[u] + adj[u][b]
  }

  /** Each label is the distance of a recorded walk from `start`. */
  ghost predicate Witnessed(adj: Adjacency, start: string, visited: map<string, nat>, trail: map<string, seq<string>>)
  {
    && visited.Keys <= trail.Keys
    && forall v {:trigger trail[v]} :: v in visited ==> IsWalk(adj, trail[v], start, v) && Weight(adj, trail[v]) == visited[v]
  }

  /** With every label closed, each walk from `start` ends at a label no larger than its distance. */
  lemma {:induction false} ClosedBound(adj: Adjacency, start: string, visited: map<string, nat>, p: seq<string>, b: string)
    requires start in visited && visited[start] == 0
    requires Settled(adj, visited)
    requires IsWalk(adj, p, start, b)
    ensures b in visited && visited[b] <= Weight(adj, p)
    decreases |p|
  {
    if |p| > 1 {
      var q, u := p[..|p| - 1], p[|p| - 2];
      assert q[|q| - 1] == u;
      StepsPrefix(adj, p, |p| - 1);
      assert HasEdge(adj, p[|p| - 2], p[|p| - 1]);
      ClosedBound(adj, start, visited, q, u);
      assert Closed(adj, visited, u);
    }
  }

  /** Sum of the labels of the listed cities (a city listed twice counts twice). */
  function LabelSum(nodes: seq<string>, visited: map<string, nat>): nat
  {
    if nodes == [] then 0
    else LabelSum(nodes[1..], visited) + (if nodes[0] in visited then visited[nodes[0]] else 0)
  }

  /** Lowering the label of a listed city lowers the sum. */
  lemma {:induction false} LabelSumLower(nodes: seq<string>, visited: map<string, nat>, v: string, x: nat)
    requires v in visited && x < visited[v]
    ensures LabelSum(nodes, visited[v := x]) <= LabelSum(nodes, visited)
    ensures v in nodes ==> LabelSum(nodes, visited[v := x]) < LabelSum(nodes, visited)
  {
    if nodes != [] {
      LabelSumLower(nodes[1..], visited, v, x);
    }
  }

  /** A lowered label never raises the label sum. */
  lemma LabelSumMonotone(nodes: seq<string>, visited: map<string, nat>, v: string, x: nat)
    requires v in visited ==> x < visited[v]
    ensures v in visited ==> LabelSum(nodes, visited[v := x]) <= LabelSum(nodes, visited)
  {
    if v in visited {
      LabelSumLower(nodes, visited, v, x);
    }
  }

  /** Every finite set of names can be listed. */
  lemma {:induction false} Listing(s: set<string>) returns (xs: seq<string>)
    ensures forall x :: x in xs <==> x in s
    decreases |s|
  {
    if s == {} {
      xs := [];
    } else {
      var x :| x in s;
      var rest := Listing(s - {x});
      xs := [x] + rest;
    }
  }

  /** The search's bookkeeping: labels within `all`, `start` at 0, every queued city labelled. */
  ghost predicate Searching(all: set<string>, start: string, visited: map<string, nat>, queue: seq<string>)
  {
    && visited.Keys <= all && start in visited && visited[start] == 0
    && forall k :: 0 <= k < |queue| ==> queue[k] in visited
  }

  /** Cities closed before stay labelled and stay closed unless queued again; new labels and old queue entries are queued. */
  ghost predicate Kept(adj: Adjacency, visited: map<string, nat>, queue: seq<string>, visited': map<string, nat>, queue': seq<string>)
  {
    && (forall u {:trigger Closed(adj, visited, u)} ::
          u in visited && Closed(adj, visited, u) ==> u in visited' && (u in queue' || Closed(adj, visited', u)))
    && (forall u :: u in visited' && u !in visited ==> u in queue')
    && (forall u :: u in queue ==> u in queue')
  }

  /** Nothing changed, or the number of unlabelled cities dropped, or it stayed and the label sum dropped. */
  ghost predicate Progressed(all: set<string>, nodes: seq<string>, visited: map<string, nat>, queue: seq<string>, visited': map<string, nat>, queue': seq<string>)
  {
    || (visited' == visited && queue' == queue)
    || |all - visited'.Keys| < |all - visited.Keys|
    || (|all - visited'.Keys| == |all - visited.Keys| && LabelSum(nodes, visited') < LabelSum(nodes, visited))
  }

  /** Every neighbour of `current` outside `rest` is labelled within `d` plus its step. */
  ghost predicate Reached(adj: Adjacency, current: string, d: nat, rest: set<string>, visited: map<string, nat>)
    requires current in adj
  {
    forall b {:trigger b in adj[current]} :: b in adj[current] && b !in rest ==> b in visited && visited[b] <= d + adj[current][b]
  }

  /** The neighbour loop's invariant. */
  ghost predicate Relabelling(
    adj: Adjacency, start: string, all: set<string>, nodes: seq<string>, current: string, d: nat,
    visited: map<string, nat>, queue: seq<string>, rest: set<string>,
    visited': map<string, nat>, queue': seq<string>)
    requires current in adj
  {
    && rest <= adj[current].Keys
    && Searching(all, start, visited', queue')
    && current in visited' && visited'[current] == d
    && Kept(adj, visited, queue, visited', queue')
    && Reached(adj, current, d, rest, visited')
    && Progressed(all, nodes, visited, queue, visited', queue')
  }

  lemma StepKept(adj: Adjacency, visited: map<string, nat>, queue: seq<string>, visited': map<string, nat>, queue': seq<string>, b: string, next: nat)
    requires Kept(adj, visited, queue, visited', queue') && (b in visited' ==> next < visited'[b])
    ensures Kept(adj, visited, queue, visited'[b := next], queue' + [b])
  {
    RelaxClosed(adj, visited', b, next);
    forall u | u in visited && Closed(adj, visited, u)
      ensures u in visited'[b := next] && (u in queue' + [b] || Closed(adj, visited'[b := next], u))
    {
      assert u in visited' && (u in queue' || Closed(adj, visited', u));
    }
  }

  lemma StepProgressed(
    all: set<string>, nodes: seq<string>, visited: map<string, nat>, queue: seq<string>,
    visited': map<string, nat>, queue': seq<string>, b: string, next: nat)
    requires Progressed(all, nodes, visited, queue, visited', queue')
    requires visited'.Keys <= all && b in all && forall x :: x in all <==> x in nodes
    requires b in visited' ==> next < visited'[b]
    ensures Progressed(all, nodes, visited, queue, visited'[b := next], queue' + [b])
  {
    RelaxMeasure(visited', b, next, all, nodes);
    LabelSumMonotone(nodes, visited', b, next);
  }

  lemma StepReached(adj: Adjacency, current: string, d: nat, rest: set<string>, visited': map<string, nat>, b: string)
    requires current in adj && b in adj[current] && Reached(adj, current, d, rest, visited')
    ensures Reached(adj, current, d, rest - {b}, visited'[b := d + adj[current][b]])
  {
    forall x | x in adj[current] && x !in rest - {b}
      ensures x in visited'[b := d + adj[current][b]] && visited'[b := d + adj[current][b]][x] <= d + adj[current][x]
    {
      if x != b {
        assert x !in rest;
      }
    }
  }

  /** Relabelling one neighbour whose label drops (or that has none) keeps the neighbour loop's invariant. */
  lemma RelabelStep(
    adj: Adjacency, start: string, all: set<string>, nodes: seq<string>, current: string, d: nat,
    visited: map<string, nat>, queue: seq<string>, rest: set<string>,
    visited': map<string, nat>, queue': seq<string>, b: string, next: nat)
    requires current in adj && b in rest && b in adj[current] && next == d + adj[current][b]
    requires Relabelling(adj, start, all, nodes, current, d, visited, queue, rest, visited', queue')
    requires forall x :: x in adj[current] ==> x in all
    requires forall x :: x in all <==> x in nodes
    requires b in visited' ==> next < visited'[b]
    ensures Relabelling(adj, start, all, nodes, current, d, visited, queue, rest - {b}, visited'[b := next], queue' + [b])
  {
    RelaxSearching(all, start, visited', queue', b, next);
    StepKept(adj, visited, queue, visited', queue', b, next);
    StepProgressed(all, nodes, visited, queue, visited', queue', b, next);
    StepReached(adj, current, d, rest, visited', b);
    assert b != current;
  }

  /**
   * The neighbour loop of tsp.rs:38-44 for the dequeued `current`: each neighbour whose label would
   * drop (or that has none) is relabelled and queued. Afterwards `current` is closed, cities closed
   * before stay closed unless queued again, and either nothing changed or the search's termination
   * measure dropped.
   */
  method Relabel(
    adj: Adjacency, start: string, current: string, visited: map<string, nat>, queue: seq<string>,
    ghost trail: map<string, seq<string>>, ghost all: set<string>, ghost nodes: seq<string>)
    returns (visited': map<string, nat>, queue': seq<string>, ghost trail': map<string, seq<string>>)
    requires Searching(all, start, visited, queue) && Witnessed(adj, start, visited, trail)
    requires current in visited && current in adj
    requires forall b :: b in adj[current] ==> b in all
    requires forall x :: x in all <==> x in nodes
    ensures Searching(all, start, visited', queue') && Witnessed(adj, start, visited', trail')
    ensures current in visited' && Closed(adj, visited', current)
    ensures Kept(adj, visited, queue, visited', queue')
    ensures Progressed(all, nodes, visited, queue, visited', queue')
  {
    visited', queue', trail' := visited, queue, trail;
    var currentDist := visited[current];
    var neighbors := adj[current];
    var rest := neighbors.Keys;
    while rest != {}
      invariant Relabelling(adj, start, all, nodes, current, currentDist, visited, queue, rest, visited', queue')
      invariant Witnessed(adj, start, visited', trail')
      decreases rest
    {
      var neighbor :| neighbor in rest;
      var weight := neighbors[neighbor];
      var nextDist := currentDist + weight;
      if neighbor !in visited' || visited'[neighbor] > nextDist {
        RelaxWitnessed(adj, start, visited', trail', current, neighbor, nextDist);
        RelabelStep(adj, start, all, nodes, current, currentDist, visited, queue, rest, visited', queue', neighbor, nextDist);
        trail' := trail'[neighbor := trail'[current] + [neighbor]];
        visited' := visited'[neighbor := nextDist];
        queue' := queue' + [neighbor];
      }
      rest := rest - {neighbor};
    }
  }

  /** Every label is closed: no recorded step from a labelled city leads to a better label. */
  ghost predicate Settled(adj: Adjacency, visited: map<string, nat>)
  {
    forall u {:trigger Closed(adj, visited, u)} :: u in visited ==> Closed(adj, visited, u)
  }

  /**
   * The loop of tsp.rs:29-46: runs until the queue is empty. Every final label is the distance of
   * a recorded walk from `start`, `start` keeps label 0, and every label is closed.
   */
  method Search(adj: Adjacency, start: string) returns (visited: map<string, nat>, ghost trail: map<string, seq<string>>)
    ensures start in visited && visited[start] == 0
    ensures Witnessed(adj, start, visited, trail) && Settled(adj, visited)
  {
    visited := map[start := 0];
    trail := map[start := [start]];
    var queue: seq<string> := [start];
    ghost var all := Nodes(adj, start);
    ghost var nodes := Listing(all);
    SearchStart(adj, start, all);

    while queue != []
      invariant Searching(all, start, visited, queue) && Witnessed(adj, start, visited, trail)
      invariant forall u {:trigger Closed(adj, visited, u)} :: u in visited && u !in queue ==> Closed(adj, visited, u)
      decreases |all - visited.Keys|, LabelSum(nodes, visited), |queue|
    {
      visited, queue, trail := Visit(adj, start, visited, queue, trail, all, nodes);
    }
  }

  /**
   * `bfs_distance` (tsp.rs:26-49), with labels as unbounded naturals. Returns `Some(d)` exactly when
   * `goal` is reachable from `start`, and then `d` is the least distance of any walk between them.
   */
  method BfsDistance(graph: CityGraph, start: string, goal: string) returns (r: Option<nat>)
    ensures r.Some? <==> Reachable(graph.adjacency, start, goal)
    ensures r.Some? ==> IsShortest(graph.adjacency, start, goal, r.value)
  {
    var adj := graph.adjacency;
    var visited;
    ghost var trail;
    visited, trail := Search(adj, start);
    if goal in visited {
      r := Some(visited[goal]);
      ClosedShortest(adj, start, goal, visited, trail);
    } else {
      r := None;
      if Reachable(adj, start, goal) {
        var p :| IsWalk(adj, p, start, goal);
        ClosedBound(adj, start, visited, p, goal);
      }
    }
  }

  /** The search starts with `start` alone labelled, at 0, along the one-city walk, and queued. */
  lemma SearchStart(adj: Adjacency, start: string, all: set<string>)
    requires all == Nodes(adj, start)
    ensures Searching(all, start, map[start := 0], [start])
    ensures Witnessed(adj, start, map[start := 0], map[start := [start]])
  {
  }

  /** The search's termination measure dropped: fewer unlabelled cities, or a smaller label sum, or a shorter queue. */
  ghost predicate Decreased(
    all: set<string>, nodes: seq<string>,
    visited: map<string, nat>, queue: seq<string>, visited': map<string, nat>, queue': seq<string>)
  {
    || |all - visited'.Keys| < |all - visited.Keys|
    || (|all - visited'.Keys| == |all - visited.Keys| && LabelSum(nodes, visited') < LabelSum(nodes, visited))
    || (|all - visited'.Keys| == |all - visited.Keys| && LabelSum(nodes, visited') == LabelSum(nodes, visited) && |queue'| < |queue|)
  }

  /**
   * One round of the search loop (tsp.rs:32-46): dequeue the front city and relabel its neighbours.
   * Every label stays witnessed, every unqueued label stays closed, and the measure drops.
   */
  method Visit(
    adj: Adjacency, start: string, visited: map<string, nat>, queue: seq<string>,
    ghost trail: map<string, seq<string>>, ghost all: set<string>, ghost nodes: seq<string>)
    returns (visited': map<string, nat>, queue': seq<string>, ghost trail': map<string, seq<string>>)
    requires queue != [] && all == Nodes(adj, start) && forall x :: x in all <==> x in nodes
    requires Searching(all, start, visited, queue) && Witnessed(adj, start, visited, trail)
    requires forall u {:trigger Closed(adj, visited, u)} :: u in visited && u !in queue ==> Closed(adj, visited, u)
    ensures Searching(all, start, visited', queue') && Witnessed(adj, start, visited', trail')
    ensures forall u {:trigger Closed(adj, visited', u)} :: u in visited' && u !in queue' ==> Closed(adj, visited', u)
    ensures Decreased(all, nodes, visited, queue, visited', queue')
  {
    var current := queue[0];
    visited', queue', trail' := visited, queue[1..], trail;
    assert forall u :: u in queue ==> u == current || u in queue';
    if current in adj {
      NeighboursListed(adj, start, current, all);
      visited', queue', trail' := Relabel(adj, start, current, visited, queue[1..], trail, all, nodes);
      forall u | u in visited' && u !in queue'
        ensures Closed(adj, visited', u)
      {
        if u != current {
          assert u in visited && u !in queue;
          assert Closed(adj, visited, u);
        }
      }
    }
  }

  lemma NeighboursListed(adj: Adjacency, start: string, u: string, all: set<string>)
    requires all == Nodes(adj, start) && u in adj
    ensures forall b :: b in adj[u] ==> b in all
  {
  }

  /** Relabelling and queueing `v`, a neighbour of `u`, with a label below its old one keeps the search's invariant. */
  lemma RelaxSearching(
    all: set<string>, start: string, visited: map<string, nat>, queue: seq<string>, v: string, d: nat)
    requires Searching(all, start, visited, queue) && v in all
    requires v in visited ==> d < visited[v]
    ensures Searching(all, start, visited[v := d], queue + [v])
  {
    var q := queue + [v];
    forall k | 0 <= k < |q|
      ensures q[k] in visited[v := d]
    {
      if k < |queue| {
        assert q[k] == queue[k];
      }
    }
  }

  /** Relabelling `v`, a neighbour of the labelled `u`, with `u`'s label plus the step keeps the labels witnessed. */
  lemma RelaxWitnessed(adj: Adjacency, start: string, visited: map<string, nat>, trail: map<string, seq<string>>, u: string, v: string, d: nat)
    requires Witnessed(adj, start, visited, trail) && u in visited && HasEdge(adj, u, v) && d == visited[u] + adj[u][v]
    ensures Witnessed(adj, start, visited[v := d], trail[v := trail[u] + [v]])
  {
    WalkSnoc(adj, trail[u], start, u, v);
  }

  /** Lowering or adding the label of `v` keeps every other closed city closed. */
  lemma RelaxClosed(adj: Adjacency, visited: map<string, nat>, v: string, d: nat)
    requires v in visited ==> d < visited[v]
    ensures forall x {:trigger Closed(adj, visited[v := d], x)} :: x in visited && x != v && Closed(adj, visited, x) ==> Closed(adj, visited[v := d], x)
  {
  }

  /** Relabelling a city of `all` lowers the termination measure of the search. */
  lemma RelaxMeasure(visited: map<string, nat>, v: string, d: nat, all: set<string>, nodes: seq<string>)
    requires visited.Keys <= all && v in all && forall x :: x in all <==> x in nodes
    requires v in visited ==> d < visited[v]
    ensures v !in visited ==> |all - visited[v := d].Keys| < |all - visited.Keys|
    ensures v in visited ==> visited[v := d].Keys == visited.Keys && LabelSum(nodes, visited[v := d]) < LabelSum(nodes, visited)
  {
    if v !in visited {
      assert all - visited[v := d].Keys == (all - visited.Keys) - {v};
    } else {
      LabelSumLower(nodes, visited, v, d);
    }
  }

  /** Once every label is closed, the label of `goal` is its shortest distance. */
  lemma ClosedShortest(adj: Adjacency, start: string, goal: string, visited: map<string, nat>, trail: map<string, seq<string>>)
    requires Witnessed(adj, start, visited, trail) && goal in visited
    requires start in visited && visited[start] == 0
    requires Settled(adj, visited)
    ensures Reachable(adj, start, goal) && IsShortest(adj, start, goal, visited[goal])
  {
    assert IsWalk(adj, trail[goal], start, goal);
    forall p | IsWalk(adj, p, start, goal)
      ensures visited[goal] <= Weight(adj, p)
    {
      ClosedBound(adj, start, visited, p, goal);
    }
  }
}
