/**
 * The spanning-forest reducer (`build_mst` in ect/src/mst.rs, repeated as `CityGraph::build_mst`
 * in ect/src/graph.rs): collect every undirected edge once, sort by distance, and keep an edge
 * exactly when a disjoint-set forest says it joins two different components (Kruskal).
 */
module Mst {
  import opened Common
  import opened Graph
  import opened UnionFindForest

  // ---------------------------------------------------------------------------------------------
  // Rust's `<` on `String`: lexicographic, a proper prefix before its extensions.

  predicate Less(a: string, b: string)
    decreases |a|
  {
    if |a| == 0 then |b| > 0
    else if |b| == 0 then false
    else if a[0] != b[0] then a[0] < b[0]
    else Less(a[1..], b[1..])
  }

  lemma {:induction false} LessIrreflexive(a: string)
    ensures !Less(a, a)
    decreases |a|
  {
    if |a| > 0 {
      LessIrreflexive(a[1..]);
    }
  }

  lemma {:induction false} LessAsymmetric(a: string, b: string)
    ensures Less(a, b) ==> !Less(b, a)
    decreases |a|
  {
    if |a| > 0 && |b| > 0 && a[0] == b[0] {
      LessAsymmetric(a[1..], b[1..]);
    }
  }

  lemma {:induction false} LessTotal(a: string, b: string)
    ensures a != b ==> Less(a, b) || Less(b, a)
    decreases |a|
  {
    if |a| > 0 && |b| > 0 && a[0] == b[0] {
      LessTotal(a[1..], b[1..]);
      if a[1..] == b[1..] {
        assert a == [a[0]] + a[1..] && b == [b[0]] + b[1..];
      }
    }
  }

  /** The `seen` key of a directed entry: its endpoints, smaller name first. */
  function Key(from: string, to: string): (string, string)
  {
    if Less(from, to) then (from, to) else (to, from)
  }

  /** Both directions of an entry give the same key, and the key names exactly its two endpoints. */
  lemma KeySymmetric(a: string, b: string)
    ensures Key(a, b) == Key(b, a)
    ensures Key(a, b) == (a, b) || Key(a, b) == (b, a)
  {
    LessAsymmetric(a, b);
    LessTotal(a, b);
  }

  function KeyOf(e: Edge): (string, string)
  {
    (e.from, e.to)
  }

  /**
   * `e` is what the collection loop pushes for some entry of `adj`: its endpoints in key order and
   * the distance stored in the visited direction.
   */
  predicate Collected(adj: Adjacency, e: Edge)
  {
    && Key(e.from, e.to) == KeyOf(e)
    && ((HasEdge(adj, e.from, e.to) && adj[e.from][e.to] == e.weight)
        || (HasEdge(adj, e.to, e.from) && adj[e.to][e.from] == e.weight))
  }

  /** The collection loop's ledger: `edges` are collected entries with distinct keys, and `seen` holds exactly their keys. */
  ghost predicate Ledger(adj: Adjacency, edges: seq<Edge>, seen: set<(string, string)>)
  {
    && (forall i :: 0 <= i < |edges| ==> Collected(adj, edges[i]))
    && (forall i, j :: 0 <= i < j < |edges| ==> KeyOf(edges[i]) != KeyOf(edges[j]))
    && (forall k :: k in seen <==> exists i :: 0 <= i < |edges| && KeyOf(edges[i]) == k)
  }

  /** Pushing a collected edge whose key is unseen, and marking its key seen, keeps the ledger. */
  lemma PushFresh(adj: Adjacency, edges: seq<Edge>, seen: set<(string, string)>, e: Edge)
    requires Ledger(adj, edges, seen) && Collected(adj, e) && KeyOf(e) !in seen
    ensures Ledger(adj, edges + [e], seen + {KeyOf(e)})
  {
    var edges' := edges + [e];
    forall k | k in seen + {KeyOf(e)}
      ensures exists i :: 0 <= i < |edges'| && KeyOf(edges'[i]) == k
    {
      if k != KeyOf(e) {
        var i :| 0 <= i < |edges| && KeyOf(edges[i]) == k;
        assert edges'[i] == edges[i];
      } else {
        assert edges'[|edges|] == e;
      }
    }
    forall i, j | 0 <= i < j < |edges'|
      ensures KeyOf(edges'[i]) != KeyOf(edges'[j])
    {
      assert edges'[i] == edges[i];
      if j < |edges| {
        assert edges'[j] == edges[j];
      }
    }
  }

  /**
   * The edge list of mst.rs:41-56: every entry of `adj` is visited, once in each direction, and
   * pushed the first time its key is met, so each undirected pair appears exactly once.
   */
  method CollectEdges(adj: Adjacency) returns (edges: seq<Edge>)
    ensures forall i :: 0 <= i < |edges| ==> Collected(adj, edges[i])
    ensures forall i, j :: 0 <= i < j < |edges| ==> !Joins(edges[j], edges[i].from, edges[i].to)
    ensures forall a, b :: HasEdge(adj, a, b) ==> exists i :: 0 <= i < |edges| && Joins(edges[i], a, b)
  {
    edges := [];
    var seen: set<(string, string)> := {};
    var todo := adj.Keys;
    while todo != {}
      invariant todo <= adj.Keys
      invariant Ledger(adj, edges, seen)
      invariant forall a, b :: HasEdge(adj, a, b) && a !in todo ==> Key(a, b) in seen
      decreases todo
    {
      var from :| from in todo;
      var neighbors := adj[from];
      var rest := neighbors.Keys;
      while rest != {}
        invariant rest <= neighbors.Keys
        invariant Ledger(adj, edges, seen)
        invariant forall a, b :: HasEdge(adj, a, b) && a !in todo ==> Key(a, b) in seen
        invariant forall b :: b in neighbors && b !in rest ==> Key(from, b) in seen
        decreases rest
      {
        var to :| to in rest;
        var key := Key(from, to);
        if key !in seen {
          KeySymmetric(from, to);
          var e := Edge(neighbors[to], key.0, key.1);
          KeySymmetric(key.0, key.1);
          assert Collected(adj, e);
          PushFresh(adj, edges, seen, e);
          seen := seen + {key};
          edges := edges + [e];
        }
        rest := rest - {to};
      }
      todo := todo - {from};
    }
    forall i, j | 0 <= i < j < |edges|
      ensures !Joins(edges[j], edges[i].from, edges[i].to)
    {
      var ei, ej := edges[i], edges[j];
      if Joins(ej, ei.from, ei.to) {
        assert KeyOf(ei) != KeyOf(ej);
        assert ej.from == ei.to && ej.to == ei.from;
        LessAsymmetric(ei.from, ei.to);
        LessIrreflexive(ei.from);
        assert false;
      }
    }
    forall a, b | HasEdge(adj, a, b)
      ensures exists i :: 0 <= i < |edges| && Joins(edges[i], a, b)
    {
      assert Key(a, b) in seen;
      var i :| 0 <= i < |edges| && KeyOf(edges[i]) == Key(a, b);
      KeySymmetric(a, b);
      assert Joins(edges[i], a, b);
    }
  }

  // ---------------------------------------------------------------------------------------------
  // `edges.sort_by_key(|&(distance, _, _)| distance)` (mst.rs:58): a stable sort by distance.

  predicate SortedByWeight(es: seq<Edge>)
  {
    forall i, j :: 0 <= i < j < |es| ==> es[i].weight <= es[j].weight
  }

  /** The edges of `es` whose distance is `w`, in their order in `es`. */
  function WithWeight(es: seq<Edge>, w: u32): seq<Edge>
  {
    if es == [] then [] else (if es[0].weight == w then [es[0]] else []) + WithWeight(es[1..], w)
  }

  lemma {:induction false} WithWeightConcat(a: seq<Edge>, b: seq<Edge>, w: u32)
    ensures WithWeight(a + b, w) == WithWeight(a, w) + WithWeight(b, w)
  {
    if a == [] {
      assert a + b == b;
    } else {
      assert (a + b)[0] == a[0] && (a + b)[1..] == a[1..] + b;
      WithWeightConcat(a[1..], b, w);
    }
  }

  lemma {:induction false} WithWeightNone(es: seq<Edge>, w: u32)
    requires forall i :: 0 <= i < |es| ==> es[i].weight != w
    ensures WithWeight(es, w) == []
  {
    if es != [] {
      WithWeightNone(es[1..], w);
    }
  }

  /** Inserts `e` after every edge not heavier than it. */
  function Insert(e: Edge, s: seq<Edge>): (r: seq<Edge>)
    ensures multiset(r) == multiset(s) + multiset{e}
  {
    if s == [] then [e]
    else if e.weight < s[0].weight then [e] + s
    else
      assert s == [s[0]] + s[1..];
      [s[0]] + Insert(e, s[1..])
  }

  /** Every edge of the insertion result is `e` or comes from `s`. */
  lemma InsertFrom(e: Edge, s: seq<Edge>, k: int)
    requires 0 <= k < |Insert(e, s)|
    ensures Insert(e, s)[k] == e || Insert(e, s)[k] in s
  {
    assert Insert(e, s)[k] in multiset(Insert(e, s));
  }

  /** Inserting into a sorted list keeps it sorted. */
  lemma {:induction false} InsertSorted(e: Edge, s: seq<Edge>)
    requires SortedByWeight(s)
    ensures SortedByWeight(Insert(e, s))
  {
    if s != [] && e.weight >= s[0].weight {
      var t := Insert(e, s[1..]);
      InsertSorted(e, s[1..]);
      forall k | 0 <= k < |t|
        ensures s[0].weight <= t[k].weight
      {
        InsertFrom(e, s[1..], k);
      }
      assert Insert(e, s) == [s[0]] + t;
    }
  }

  /** Inserting `e` puts it after every edge of its distance already present, moving no other edge of any distance. */
  lemma WithWeightSingle(e: Edge, w: u32)
    ensures WithWeight([e], w) == if e.weight == w then [e] else []
  {
    assert [e][0] == e && [e][1..] == [];
  }

  /** Putting `e` in front of edges all heavier than it is the same, for every distance, as putting it behind. */
  lemma InsertFront(e: Edge, s: seq<Edge>, w: u32)
    requires forall i :: 0 <= i < |s| ==> e.weight < s[i].weight
    ensures WithWeight([e] + s, w) == WithWeight(s, w) + WithWeight([e], w)
  {
    WithWeightConcat([e], s, w);
    WithWeightSingle(e, w);
    if w == e.weight {
      WithWeightNone(s, w);
    }
  }

  lemma {:induction false} InsertStable(e: Edge, s: seq<Edge>, w: u32)
    requires SortedByWeight(s)
    ensures WithWeight(Insert(e, s), w) == WithWeight(s, w) + WithWeight([e], w)
  {
    if s == [] {
      assert WithWeight(s, w) + WithWeight([e], w) == WithWeight([e], w);
    } else if e.weight < s[0].weight {
      InsertFront(e, s, w);
    } else {
      var head, tail := [s[0]], s[1..];
      assert s == head + tail;
      InsertStable(e, tail, w);
      WithWeightConcat(head, Insert(e, tail), w);
      WithWeightConcat(head, tail, w);
      assert WithWeight(head, w) + (WithWeight(tail, w) + WithWeight([e], w)) ==
        (WithWeight(head, w) + WithWeight(tail, w)) + WithWeight([e], w);
    }
  }

  /** Sorts by distance as a stable insertion sort. */
  function SortByWeight(es: seq<Edge>): (r: seq<Edge>)
    ensures SortedByWeight(r)
    ensures multiset(r) == multiset(es)
  {
    if es == [] then []
    else
      assert es == es[..|es| - 1] + [es[|es| - 1]];
      InsertSorted(es[|es| - 1], SortByWeight(es[..|es| - 1]));
      Insert(es[|es| - 1], SortByWeight(es[..|es| - 1]))
  }

  /** The sort is stable: the edges of each distance keep their input order. */
  lemma {:induction false} SortStable(es: seq<Edge>, w: u32)
    ensures WithWeight(SortByWeight(es), w) == WithWeight(es, w)
  {
    if es != [] {
      var init, last := es[..|es| - 1], es[|es| - 1];
      assert es == init + [last];
      SortStable(init, w);
      InsertStable(last, SortByWeight(init), w);
      WithWeightConcat(init, [last], w);
    }
  }

  // ---------------------------------------------------------------------------------------------
  // Connectivity through a list of undirected edges.

  /** `x` and `y` are joined by a path of edges of `es` (taken in either direction). */
  ghost predicate Conn(es: seq<Edge>, x: string, y: string)
  {
    if es == [] then x == y
    else
      var init, e := es[..|es| - 1], es[|es| - 1];
      || Conn(init, x, y)
      || (Conn(init, x, e.from) && Conn(init, e.to, y))
      || (Conn(init, x, e.to) && Conn(init, e.from, y))
  }

  /** Appending an edge keeps every connection. */
  lemma ConnAppend(es: seq<Edge>, e: Edge, x: string, y: string)
    requires Conn(es, x, y)
    ensures Conn(es + [e], x, y)
  {
    assert (es + [e])[..|es|] == es;
  }

  /** After appending `e`, two nodes are connected exactly when they were, or when each was connected to a different end of `e`. */
  lemma ConnSnoc(es: seq<Edge>, e: Edge, x: string, y: string)
    ensures Conn(es + [e], x, y) <==>
      Conn(es, x, y) || (Conn(es, x, e.from) && Conn(es, e.to, y)) || (Conn(es, x, e.to) && Conn(es, e.from, y))
  {
    assert (es + [e])[..|es|] == es;
  }

  lemma {:induction false} ConnReflexive(es: seq<Edge>, x: string)
    ensures Conn(es, x, x)
  {
    if es != [] {
      ConnReflexive(es[..|es| - 1], x);
    }
  }

  lemma {:induction false} ConnSymmetric(es: seq<Edge>, x: string, y: string)
    requires Conn(es, x, y)
    ensures Conn(es, y, x)
  {
    if es != [] {
      var init, e := es[..|es| - 1], es[|es| - 1];
      if Conn(init, x, y) {
        ConnSymmetric(init, x, y);
      } else if Conn(init, x, e.from) && Conn(init, e.to, y) {
        ConnSymmetric(init, x, e.from);
        ConnSymmetric(init, e.to, y);
      } else {
        ConnSymmetric(init, x, e.to);
        ConnSymmetric(init, e.from, y);
      }
    }
  }

  /** An edge connects its own two ends. */
  lemma ConnEdge(es: seq<Edge>, e: Edge)
    ensures Conn(es + [e], e.from, e.to)
  {
    ConnReflexive(es, e.from);
    ConnReflexive(es, e.to);
    ConnSnoc(es, e, e.from, e.to);
  }

  /** The edges of `es` no heavier than `w`, in order. */
  function Light(es: seq<Edge>, w: nat): seq<Edge>
  {
    if es == [] then []
    else Light(es[..|es| - 1], w) + (if es[|es| - 1].weight <= w then [es[|es| - 1]] else [])
  }

  lemma LightSnoc(es: seq<Edge>, e: Edge, w: nat)
    ensures Light(es + [e], w) == Light(es, w) + (if e.weight <= w then [e] else [])
  {
    assert (es + [e])[..|es|] == es;
  }

  lemma {:induction false} LightAll(es: seq<Edge>, w: nat)
    requires forall k :: 0 <= k < |es| ==> es[k].weight <= w
    ensures Light(es, w) == es
  {
    if es != [] {
      LightAll(es[..|es| - 1], w);
    }
  }

  /** A connection through the light edges is a connection through all of them. */
  lemma {:induction false} ConnLight(es: seq<Edge>, w: nat, x: string, y: string)
    requires Conn(Light(es, w), x, y)
    ensures Conn(es, x, y)
    decreases |es|
  {
    if es != [] {
      var init, e := es[..|es| - 1], es[|es| - 1];
      var l := Light(init, w);
      if e.weight <= w {
        ConnSnoc(l, e, x, y);
      } else {
        assert l + [] == l;
      }
      ConnSnoc(init, e, x, y);
      if Conn(l, x, y) {
        ConnLight(init, w, x, y);
      } else if Conn(l, x, e.from) && Conn(l, e.to, y) {
        ConnLight(init, w, x, e.from);
        ConnLight(init, w, e.to, y);
      } else {
        ConnLight(init, w, x, e.to);
        ConnLight(init, w, e.from, y);
      }
    }
  }

  /** No edge of `forest` joins two nodes already connected by the edges before it. */
  ghost predicate Acyclic(forest: seq<Edge>)
  {
    forall k :: 0 <= k < |forest| ==> !Conn(forest[..k], forest[k].from, forest[k].to)
  }

  /** Two registered names share a root of the forest exactly when `es` connects them. */
  ghost predicate Tracks(parent: map<string, string>, rank: map<string, nat>, bound: nat, es: seq<Edge>)
  {
    && Ranked(parent, rank, bound)
    && forall x, y {:trigger Conn(es, x, y)} :: x in parent && y in parent ==>
         (Root(parent, rank, bound, x) == Root(parent, rank, bound, y) <==> Conn(es, x, y))
  }

  /** A forest of singletons tracks the empty edge list. */
  lemma TracksInitial(parent: map<string, string>, rank: map<string, nat>, bound: nat)
    requires Ranked(parent, rank, bound)
    requires forall x :: x in parent ==> parent[x] == x
    ensures Tracks(parent, rank, bound, [])
  {
  }

  /**
   * A union of `e`'s ends that merged two sets tracks the edge list extended by `e`; one that
   * merged nothing tracks the same list.
   */
  lemma TracksUnion(
    parent: map<string, string>, rank: map<string, nat>, bound: nat,
    parent': map<string, string>, rank': map<string, nat>, bound': nat,
    es: seq<Edge>, e: Edge, merged: bool)
    requires Tracks(parent, rank, bound, es) && Ranked(parent', rank', bound')
    requires e.from in parent && e.to in parent && parent'.Keys == parent.Keys
    requires merged <==> Root(parent, rank, bound, e.from) != Root(parent, rank, bound, e.to)
    requires forall y {:trigger Root(parent', rank', bound', y)} :: y in parent' ==>
      Root(parent', rank', bound', y) ==
        var ry := Root(parent, rank, bound, y);
        if merged && ry == Root(parent, rank, bound, e.from) then Root(parent, rank, bound, e.to) else ry
    ensures Tracks(parent', rank', bound', if merged then es + [e] else es)
  {
    var es' := if merged then es + [e] else es;
    forall x, y | x in parent' && y in parent'
      ensures Root(parent', rank', bound', x) == Root(parent', rank', bound', y) <==> Conn(es', x, y)
    {
      assert Root(parent', rank', bound', x) == Root(parent', rank', bound', y) <==>
        Root(parent, rank, bound, x) == Root(parent, rank, bound, y) ||
        (merged && Root(parent, rank, bound, x) == Root(parent, rank, bound, e.from) && Root(parent, rank, bound, y) == Root(parent, rank, bound, e.to)) ||
        (merged && Root(parent, rank, bound, x) == Root(parent, rank, bound, e.to) && Root(parent, rank, bound, y) == Root(parent, rank, bound, e.from));
      assert Conn(es, x, y) <==> Root(parent, rank, bound, x) == Root(parent, rank, bound, y);
      if merged {
        ConnSnoc(es, e, x, y);
        assert Conn(es, x, e.from) <==> Root(parent, rank, bound, x) == Root(parent, rank, bound, e.from);
        assert Conn(es, e.to, y) <==> Root(parent, rank, bound, e.to) == Root(parent, rank, bound, y);
        assert Conn(es, x, e.to) <==> Root(parent, rank, bound, x) == Root(parent, rank, bound, e.to);
        assert Conn(es, e.from, y) <==> Root(parent, rank, bound, e.from) == Root(parent, rank, bound, y);
      }
    }
  }

  // ---------------------------------------------------------------------------------------------
  // The reducer.

  /** `graph.cities.keys().cloned().collect()`: the city names, each once, in map order. */
  method CityNames(cities: map<string, City>) returns (names: seq<string>)
    ensures (set n | n in names) == cities.Keys
    ensures |names| == |cities.Keys|
  {
    names := [];
    var rest := cities.Keys;
    while rest != {}
      invariant rest <= cities.Keys
      invariant (set n | n in names) == cities.Keys - rest
      invariant |names| + |rest| == |cities.Keys|
      invariant forall n :: n in names ==> n !in rest
      decreases rest
    {
      var name :| name in rest;
      assert (set n | n in names + [name]) == (set n | n in names) + {name};
      names := names + [name];
      rest := rest - {name};
    }
  }

  /** Every key of the city table is the name of the city stored under it. */
  predicate Keyed(cities: map<string, City>)
  {
    forall k :: k in cities ==> cities[k].name == k
  }

  /** The city-table copy of mst.rs:62-65: each city is stored again under its own name. */
  method CopyCities(cities: map<string, City>, mst: CityGraph)
    requires mst.cities == map[]
    modifies mst`cities
    ensures mst.cities.Keys == set k | k in cities :: cities[k].name
    ensures forall n :: n in mst.cities ==> mst.cities[n].name == n && mst.cities[n] in cities.Values
    ensures Keyed(cities) ==> mst.cities == cities
  {
    var rest := cities.Keys;
    while rest != {}
      invariant rest <= cities.Keys
      invariant mst.cities.Keys == set k | k in cities && k !in rest :: cities[k].name
      invariant forall n :: n in mst.cities ==> mst.cities[n].name == n && mst.cities[n] in cities.Values
      invariant Keyed(cities) ==> mst.cities == map k | k in cities && k !in rest :: cities[k]
      decreases rest
    {
      var key :| key in rest;
      mst.AddCity(cities[key]);
      rest := rest - {key};
    }
  }

  /** Every kept edge precedes `edges[i]` in the sorted list, so none is heavier. */
  lemma KeptLighter(forest: seq<Edge>, edges: seq<Edge>, i: int)
    requires 0 <= i < |edges| && SortedByWeight(edges)
    requires forall k :: 0 <= k < |forest| ==> forest[k] in edges[..i]
    ensures forall k :: 0 <= k < |forest| ==> forest[k].weight <= edges[i].weight
  {
    forall k | 0 <= k < |forest|
      ensures forest[k].weight <= edges[i].weight
    {
      var j :| 0 <= j < i && edges[..i][j] == forest[k];
      assert edges[j] == forest[k];
    }
  }

  /** Keeping `edges[i]` leaves the kept list drawn from the edges seen, in sorted order. */
  lemma KeepDrawn(forest: seq<Edge>, edges: seq<Edge>, i: int)
    requires 0 <= i < |edges| && SortedByWeight(edges) && SortedByWeight(forest)
    requires forall k :: 0 <= k < |forest| ==> forest[k] in edges[..i]
    ensures forall k :: 0 <= k < |forest| + 1 ==> (forest + [edges[i]])[k] in edges[..i + 1]
    ensures SortedByWeight(forest + [edges[i]])
  {
    var f := forest + [edges[i]];
    forall k | 0 <= k < |f|
      ensures f[k] in edges[..i + 1]
    {
      if k < |forest| {
        assert f[k] == forest[k];
        var j :| 0 <= j < i && edges[..i][j] == forest[k];
        assert edges[..i + 1][j] == forest[k];
      } else {
        assert edges[..i + 1][i] == edges[i];
      }
    }
    KeptLighter(forest, edges, i);
    forall k, l | 0 <= k < l < |f|
      ensures f[k].weight <= f[l].weight
    {
      assert f[k] == forest[k];
      if l < |forest| {
        assert f[l] == forest[l];
      }
    }
  }

  /** Keeping an edge whose ends were not yet connected keeps the kept list acyclic. */
  lemma KeepAcyclic(forest: seq<Edge>, e: Edge)
    requires Acyclic(forest) && !Conn(forest, e.from, e.to)
    ensures Acyclic(forest + [e])
  {
    var f := forest + [e];
    forall k | 0 <= k < |f|
      ensures !Conn(f[..k], f[k].from, f[k].to)
    {
      if k < |forest| {
        assert f[..k] == forest[..k] && f[k] == forest[k];
      } else {
        assert f[..k] == forest && f[k] == e;
      }
    }
  }

  /**
   * Keeping `edges[i]` connects it through edges no heavier than itself, and keeps every such
   * connection of the edges before it.
   */
  lemma KeepLight(forest: seq<Edge>, edges: seq<Edge>, i: int)
    requires 0 <= i < |edges|
    requires forall j :: 0 <= j < i ==> Conn(Light(forest, edges[j].weight), edges[j].from, edges[j].to)
    ensures forall j :: 0 <= j < i + 1 ==>
      Conn(Light(forest + [edges[i]], edges[j].weight), edges[j].from, edges[j].to)
  {
    var e := edges[i];
    forall j | 0 <= j < i + 1
      ensures Conn(Light(forest + [e], edges[j].weight), edges[j].from, edges[j].to)
    {
      var w := edges[j].weight;
      LightSnoc(forest, e, w);
      if j < i {
        if e.weight <= w {
          ConnAppend(Light(forest, w), e, edges[j].from, edges[j].to);
        } else {
          assert Light(forest, w) + [] == Light(forest, w);
        }
      } else {
        ConnEdge(Light(forest, w), e);
      }
    }
  }

  /**
   * Skipping `edges[i]`, whose ends the kept edges connect already, still connects it through
   * edges no heavier than it, since every kept edge precedes it in the sorted list.
   */
  lemma KruskalSkip(forest: seq<Edge>, edges: seq<Edge>, i: int)
    requires 0 <= i < |edges| && SortedByWeight(edges)
    requires forall k :: 0 <= k < |forest| ==> forest[k] in edges[..i]
    requires Conn(forest, edges[i].from, edges[i].to)
    ensures Conn(Light(forest, edges[i].weight), edges[i].from, edges[i].to)
  {
    KeptLighter(forest, edges, i);
    LightAll(forest, edges[i].weight);
  }

  /**
   * One iteration of mst.rs:68-71: unite the ends of `e` and, when that merged two sets, record
   * `e` in both directions. It merges exactly when the edges kept so far do not connect `e`'s ends.
   */
  method Consider(e: Edge, uf: UnionFind, mst: CityGraph, ghost forest: seq<Edge>) returns (merged: bool)
    requires Tracks(uf.parent, uf.rank, uf.bound, forest) && e.from in uf.parent && e.to in uf.parent
    requires mst.adjacency == Link(forest)
    modifies uf`parent, uf`rank, uf`bound, mst`adjacency
    ensures uf.parent.Keys == old(uf.parent.Keys)
    ensures merged <==> !Conn(forest, e.from, e.to)
    ensures Tracks(uf.parent, uf.rank, uf.bound, if merged then forest + [e] else forest)
    ensures mst.adjacency == Link(if merged then forest + [e] else forest)
  {
    ghost var p, rk, bd := uf.parent, uf.rank, uf.bound;
    merged := uf.Union(e.from, e.to);
    TracksUnion(p, rk, bd, uf.parent, uf.rank, uf.bound, forest, e, merged);
    if merged {
      mst.AddEdge(e.from, e.to, e.weight);
      mst.AddEdge(e.to, e.from, e.weight);
      assert (forest + [e])[..|forest|] == forest;
    }
  }

  /**
   * The selection loop of mst.rs:67-72 over the sorted `edges`, starting from singleton sets and
   * an empty adjacency: an edge is kept, in both directions, exactly when its ends lie in
   * different sets. Yields the kept edges as a ghost.
   */
  method Kruskal(edges: seq<Edge>, uf: UnionFind, mst: CityGraph) returns (ghost forest: seq<Edge>)
    requires uf.Valid() && forall x :: x in uf.parent ==> uf.parent[x] == x
    requires forall i :: 0 <= i < |edges| ==> edges[i].from in uf.parent && edges[i].to in uf.parent
    requires SortedByWeight(edges) && mst.adjacency == map[]
    modifies uf`parent, uf`rank, uf`bound, mst`adjacency
    ensures mst.adjacency == Link(forest)
    ensures forall k :: 0 <= k < |forest| ==> forest[k] in edges
    ensures SortedByWeight(forest) && Acyclic(forest)
    ensures forall i :: 0 <= i < |edges| ==> Conn(Light(forest, edges[i].weight), edges[i].from, edges[i].to)
  {
    TracksInitial(uf.parent, uf.rank, uf.bound);
    ghost var keys := uf.parent.Keys;
    forest := [];
    for i := 0 to |edges|
      invariant uf.parent.Keys == keys
      invariant Tracks(uf.parent, uf.rank, uf.bound, forest)
      invariant mst.adjacency == Link(forest)
      invariant forall k :: 0 <= k < |forest| ==> forest[k] in edges[..i]
      invariant SortedByWeight(forest) && Acyclic(forest)
      invariant forall j :: 0 <= j < i ==> Conn(Light(forest, edges[j].weight), edges[j].from, edges[j].to)
    {
      var e := edges[i];
      var merged := Consider(e, uf, mst, forest);
      if merged {
        KeepDrawn(forest, edges, i);
        KeepAcyclic(forest, e);
        KeepLight(forest, edges, i);
        forest := forest + [e];
      } else {
        KruskalSkip(forest, edges, i);
      }
    }
    forall k | 0 <= k < |forest|
      ensures forest[k] in edges
    {
      assert edges[..|edges|] == edges;
    }
  }

  /**
   * Kruskal's reduction of `g` (mst.rs:40-75). Alongside the new graph it yields, as ghosts, the
   * sorted edge list and the kept edges `forest`: the graph holds exactly `forest` in both
   * directions, `forest` never closes a cycle, it connects the two ends of every entry of `g`, and
   * it connects the ends of every listed edge through edges no heavier than that edge (the cycle
   * property of a minimum spanning forest). Every endpoint must be a registered city: the source
   * unwraps the union-find lookup.
   */
  method BuildMst(g: CityGraph) returns (mst: CityGraph, ghost edges: seq<Edge>, ghost forest: seq<Edge>)
    requires forall a, b :: HasEdge(g.adjacency, a, b) ==> a in g.cities && b in g.cities
    ensures fresh(mst)
    ensures SortedByWeight(edges)
    ensures forall i :: 0 <= i < |edges| ==> Collected(g.adjacency, edges[i])
    ensures forall a, b :: HasEdge(g.adjacency, a, b) ==> exists i :: 0 <= i < |edges| && Joins(edges[i], a, b)
    ensures mst.adjacency == Link(forest)
    ensures forall k :: 0 <= k < |forest| ==> forest[k] in edges
    ensures SortedByWeight(forest) && Acyclic(forest)
    ensures forall i :: 0 <= i < |edges| ==> Conn(Light(forest, edges[i].weight), edges[i].from, edges[i].to)
    ensures forall a, b :: HasEdge(g.adjacency, a, b) ==> Conn(forest, a, b)
    ensures mst.cities.Keys == set k | k in g.cities :: g.cities[k].name
    ensures forall n :: n in mst.cities ==> mst.cities[n].name == n && mst.cities[n] in g.cities.Values
    ensures Keyed(g.cities) ==> mst.cities == g.cities
  {
    var adj, cities := g.adjacency, g.cities;
    var collected := CollectEdges(adj);
    var sorted := SortByWeight(collected);
    edges := sorted;
    SortedCollected(adj, cities, collected, sorted);

    var names := CityNames(cities);
    var uf := new UnionFind(names);
    mst := new CityGraph();
    CopyCities(cities, mst);
    forest := Kruskal(sorted, uf, mst);
    SpansEntries(adj, sorted, forest);
  }

  /** The sorted list keeps the collected edges' properties, and its endpoints are registered cities. */
  lemma SortedCollected(adj: Adjacency, cities: map<string, City>, collected: seq<Edge>, sorted: seq<Edge>)
    requires forall a, b :: HasEdge(adj, a, b) ==> a in cities && b in cities
    requires multiset(sorted) == multiset(collected)
    requires forall i :: 0 <= i < |collected| ==> Collected(adj, collected[i])
    requires forall a, b :: HasEdge(adj, a, b) ==> exists i :: 0 <= i < |collected| && Joins(collected[i], a, b)
    ensures forall i :: 0 <= i < |sorted| ==> Collected(adj, sorted[i])
    ensures forall i :: 0 <= i < |sorted| ==> sorted[i].from in cities && sorted[i].to in cities
    ensures forall a, b :: HasEdge(adj, a, b) ==> exists i :: 0 <= i < |sorted| && Joins(sorted[i], a, b)
  {
    forall i | 0 <= i < |sorted|
      ensures Collected(adj, sorted[i])
    {
      assert sorted[i] in multiset(collected);
    }
    forall a, b | HasEdge(adj, a, b)
      ensures exists i :: 0 <= i < |sorted| && Joins(sorted[i], a, b)
    {
      var j :| 0 <= j < |collected| && Joins(collected[j], a, b);
      assert collected[j] in multiset(sorted);
    }
  }

  /** A forest connecting the ends of every listed edge connects the two ends of every entry those edges cover. */
  lemma SpansEntries(adj: Adjacency, edges: seq<Edge>, forest: seq<Edge>)
    requires forall a, b :: HasEdge(adj, a, b) ==> exists i :: 0 <= i < |edges| && Joins(edges[i], a, b)
    requires forall i :: 0 <= i < |edges| ==> Conn(Light(forest, edges[i].weight), edges[i].from, edges[i].to)
    ensures forall a, b :: HasEdge(adj, a, b) ==> Conn(forest, a, b)
  {
    forall a, b | HasEdge(adj, a, b)
      ensures Conn(forest, a, b)
    {
      var i :| 0 <= i < |edges| && Joins(edges[i], a, b);
      ConnLight(forest, edges[i].weight, edges[i].from, edges[i].to);
      if edges[i].from != a {
        ConnSymmetric(forest, edges[i].from, edges[i].to);
      }
    }
  }
}
