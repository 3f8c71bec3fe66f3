/**
 * The graph store: an adjacency map from city name to (neighbour name -> distance) and a
 * city table, updated in place by `AddCity` and `AddEdge` (ect/src/graph.rs).
 */
module Graph {
  import opened Common

  type Adjacency = map<string, map<string, u32>>

  /** `b` is recorded as a neighbour of `a`. */
  predicate HasEdge(adj: Adjacency, a: string, b: string)
  {
    a in adj && b in adj[a]
  }

  /** The adjacency relation is symmetric, with equal distances in both directions. */
  ghost predicate Symmetric(adj: Adjacency)
  {
    forall a, b :: HasEdge(adj, a, b) ==> HasEdge(adj, b, a) && adj[b][a] == adj[a][b]
  }

  /**
   * The adjacency after `adjacency_list.entry(from).or_insert_with(HashMap::new).insert(to, d)`.
   */
  function InsertEdge(adj: Adjacency, from: string, to: string, d: u32): (r: Adjacency)
    ensures HasEdge(r, from, to) && r[from][to] == d
    ensures r.Keys == adj.Keys + {from}
    ensures from !in adj ==> r[from].Keys == {to}
    ensures forall a, b :: HasEdge(r, a, b) <==> HasEdge(adj, a, b) || (a == from && b == to)
    ensures forall a, b :: HasEdge(adj, a, b) && (a != from || b != to) ==> HasEdge(r, a, b) && r[a][b] == adj[a][b]
  {
    var inner := if from in adj then adj[from] else map[];
    adj[from := inner[to := d]]
  }

  /** Both directed entries of one undirected edge, as `add_edge(from, to, d); add_edge(to, from, d)`. */
  function AddBoth(adj: Adjacency, e: Edge): (r: Adjacency)
    ensures forall a, b :: HasEdge(r, a, b) <==> HasEdge(adj, a, b) || Joins(e, a, b)
    ensures forall a, b :: Joins(e, a, b) ==> HasEdge(r, a, b) && r[a][b] == e.weight
    ensures forall a, b :: HasEdge(adj, a, b) && !Joins(e, a, b) ==> HasEdge(r, a, b) && r[a][b] == adj[a][b]
    ensures r.Keys == adj.Keys + {e.from, e.to}
  {
    var r1 := InsertEdge(adj, e.from, e.to, e.weight);
    InsertEdge(r1, e.to, e.from, e.weight)
  }

  /** The adjacency that inserting every edge of `es` in both directions, in order, builds from nothing. */
  function Link(es: seq<Edge>): Adjacency
  {
    if es == [] then map[] else AddBoth(Link(es[..|es| - 1]), es[|es| - 1])
  }

  /** `es[k]` is the last edge of `es` between `a` and `b`. */
  ghost predicate LastJoin(es: seq<Edge>, k: int, a: string, b: string)
  {
    0 <= k < |es| && Joins(es[k], a, b) && forall j :: k < j < |es| ==> !Joins(es[j], a, b)
  }

  /** `e` has `a` as one of its endpoints. */
  predicate Touches(e: Edge, a: string)
  {
    e.from == a || e.to == a
  }

  /** Inserting edges in both directions yields a symmetric adjacency. */
  lemma {:induction false} LinkSymmetric(es: seq<Edge>)
    ensures Symmetric(Link(es))
  {
    if es != [] {
      LinkSymmetric(es[..|es| - 1]);
    }
  }

  /** Every edge of `es` is recorded, in both directions, in `Link(es)`. */
  lemma {:induction false} LinkHasEdge(es: seq<Edge>, k: int, a: string, b: string)
    requires 0 <= k < |es| && Joins(es[k], a, b)
    ensures HasEdge(Link(es), a, b)
  {
    if k < |es| - 1 {
      var p := es[..|es| - 1];
      assert p[k] == es[k];
      LinkHasEdge(p, k, a, b);
    }
  }

  /** Every entry of `Link(es)` comes from an edge of `es`: `k` is one joining its endpoints. */
  lemma {:induction false} LinkEdgeFrom(es: seq<Edge>, a: string, b: string) returns (k: nat)
    requires HasEdge(Link(es), a, b)
    ensures k < |es| && Joins(es[k], a, b)
  {
    var p, e := es[..|es| - 1], es[|es| - 1];
    if Joins(e, a, b) {
      k := |es| - 1;
    } else {
      k := LinkEdgeFrom(p, a, b);
      assert es[k] == p[k];
    }
  }

  /** The distance `Link(es)` records between `a` and `b` is that of the last edge of `es` joining them. */
  lemma {:induction false} LinkWeight(es: seq<Edge>, k: int, a: string, b: string)
    requires LastJoin(es, k, a, b)
    ensures HasEdge(Link(es), a, b) && Link(es)[a][b] == es[k].weight
  {
    var p, e := es[..|es| - 1], es[|es| - 1];
    if k < |es| - 1 {
      assert !Joins(e, a, b);
      assert LastJoin(p, k, a, b);
      LinkWeight(p, k, a, b);
    }
  }

  /** Both endpoints of every edge of `es` are keys of `Link(es)`. */
  lemma {:induction false} LinkHasKey(es: seq<Edge>, k: int, a: string)
    requires 0 <= k < |es| && Touches(es[k], a)
    ensures a in Link(es)
  {
    if k < |es| - 1 {
      var p := es[..|es| - 1];
      assert p[k] == es[k];
      LinkHasKey(p, k, a);
    }
  }

  /** Every key of `Link(es)` is an endpoint of an edge of `es`: `k` is one touching it. */
  lemma {:induction false} LinkKeyFrom(es: seq<Edge>, a: string) returns (k: nat)
    requires a in Link(es)
    ensures k < |es| && Touches(es[k], a)
  {
    var p, e := es[..|es| - 1], es[|es| - 1];
    if Touches(e, a) {
      k := |es| - 1;
    } else {
      k := LinkKeyFrom(p, a);
      assert es[k] == p[k];
    }
  }

  /** The city table entry made for `name` unless one exists (the `contains_key` guard). */
  function Register(cities: map<string, City>, name: string, country: string): (r: map<string, City>)
    ensures r.Keys == cities.Keys + {name}
    ensures name in cities ==> r == cities
    ensures name !in cities ==> r[name] == City(name, country)
    ensures forall n :: n in cities ==> r[n] == cities[n]
  {
    if name in cities then cities else cities[name := City(name, country)]
  }

  /** The city table after registering both endpoints of every record, in order. */
  function CitiesOf(ds: seq<DatasetEdge>): map<string, City>
  {
    if ds == [] then map[]
    else
      var d := ds[|ds| - 1];
      Register(Register(CitiesOf(ds[..|ds| - 1]), d.fromCity, d.fromCountry), d.toCity, d.toCountry)
  }

  /** The edge a dataset record contributes. */
  function EdgeOf(d: DatasetEdge): Edge
  {
    Edge(d.distance, d.fromCity, d.toCity)
  }

  function ToEdges(ds: seq<DatasetEdge>): (es: seq<Edge>)
    ensures |es| == |ds| && forall k :: 0 <= k < |ds| ==> es[k] == EdgeOf(ds[k])
  {
    seq(|ds|, k requires 0 <= k < |ds| => EdgeOf(ds[k]))
  }

  predicate Mentions(d: DatasetEdge, name: string)
  {
    d.fromCity == name || d.toCity == name
  }

  /** The country the record `d` gives for `name` (the from side wins on a self-loop). */
  function CountryAt(d: DatasetEdge, name: string): string
  {
    if d.fromCity == name then d.fromCountry else d.toCountry
  }

  /** `ds[k]` is the first record that mentions `name`. */
  ghost predicate FirstMention(ds: seq<DatasetEdge>, k: int, name: string)
  {
    0 <= k < |ds| && Mentions(ds[k], name) && forall j :: 0 <= j < k ==> !Mentions(ds[j], name)
  }

  /**
   * The city table built from records: its keys are exactly the mentioned names, every entry is
   * stored under its own name, and a city's country is the one given by the first record that
   * mentions it.
   */
  lemma {:induction false} CitiesOfAt(ds: seq<DatasetEdge>, name: string)
    ensures name in CitiesOf(ds) <==> exists k :: 0 <= k < |ds| && Mentions(ds[k], name)
    ensures name in CitiesOf(ds) ==> CitiesOf(ds)[name].name == name
    ensures forall k :: FirstMention(ds, k, name) ==> CitiesOf(ds)[name] == City(name, CountryAt(ds[k], name))
  {
    if ds != [] {
      var p, d := ds[..|ds| - 1], ds[|ds| - 1];
      CitiesOfAt(p, name);
      assert forall k :: 0 <= k < |p| ==> p[k] == ds[k];
      if name in CitiesOf(p) {
        var k :| 0 <= k < |p| && Mentions(p[k], name);
        assert Mentions(ds[k], name);
        forall j | FirstMention(ds, j, name) ensures FirstMention(p, j, name) {
          assert j <= k;
        }
      } else {
        forall k | 0 <= k < |p| ensures !Mentions(ds[k], name) {
          assert p[k] == ds[k];
        }
        if Mentions(d, name) {
          assert Mentions(ds[|ds| - 1], name);
        }
      }
    }
  }

  /** `ToEdges` commutes with taking a prefix. */
  lemma ToEdgesPrefix(ds: seq<DatasetEdge>, i: nat)
    requires i <= |ds|
    ensures ToEdges(ds[..i]) == ToEdges(ds)[..i]
  {
  }

  /**
   * In the graph built from records, every key of the adjacency and every neighbour is a key of
   * the city table.
   */
  lemma BuiltGraphRegistered(ds: seq<DatasetEdge>, a: string, b: string)
    requires a in Link(ToEdges(ds))
    ensures a in CitiesOf(ds)
    ensures HasEdge(Link(ToEdges(ds)), a, b) ==> b in CitiesOf(ds)
  {
    var es := ToEdges(ds);
    var k := LinkKeyFrom(es, a);
    assert Mentions(ds[k], a);
    CitiesOfAt(ds, a);
    if HasEdge(Link(es), a, b) {
      var j := LinkEdgeFrom(es, a, b);
      assert Mentions(ds[j], b);
      CitiesOfAt(ds, b);
    }
  }

  /** One more record extends the edge fold by its edge and the city fold by its two endpoints. */
  lemma BuildStep(ds: seq<DatasetEdge>, i: nat)
    requires i < |ds|
    ensures Link(ToEdges(ds[..i + 1])) == AddBoth(Link(ToEdges(ds[..i])), EdgeOf(ds[i]))
    ensures CitiesOf(ds[..i + 1]) ==
      Register(Register(CitiesOf(ds[..i]), ds[i].fromCity, ds[i].fromCountry), ds[i].toCity, ds[i].toCountry)
  {
    assert ds[..i + 1][..i] == ds[..i];
    ToEdgesPrefix(ds, i);
    ToEdgesPrefix(ds, i + 1);
    assert ToEdges(ds[..i + 1])[..i] == ToEdges(ds[..i]);
  }

  /** A weighted undirected graph of cities, as `CityGraph` in ect/src/graph.rs. */
  class CityGraph {
    var adjacency: Adjacency
    var cities: map<string, City>

    constructor ()
      ensures adjacency == map[] && cities == map[]
    {
      adjacency := map[];
      cities := map[];
    }

    /** Stores `city` under its name, replacing any previous entry. */
    method AddCity(city: City)
      modifies this`cities
      ensures cities == old(cities)[city.name := city]
    {
      cities := cities[city.name := city];
    }

    /** Records `to` as a neighbour of `from` at distance `distance`. */
    method AddEdge(from: string, to: string, distance: u32)
      modifies this`adjacency
      ensures adjacency == InsertEdge(old(adjacency), from, to, distance)
    {
      adjacency := InsertEdge(adjacency, from, to, distance);
    }
  }

  /** The body of the loop in `build_graph_from_edges`: registers both endpoints and links them. */
  method AddRecord(graph: CityGraph, edge: DatasetEdge)
    modifies graph
    ensures graph.adjacency == AddBoth(old(graph.adjacency), EdgeOf(edge))
    ensures graph.cities ==
      Register(Register(old(graph.cities), edge.fromCity, edge.fromCountry), edge.toCity, edge.toCountry)
  {
    if edge.fromCity !in graph.cities {
      graph.AddCity(City(edge.fromCity, edge.fromCountry));
    }
    if edge.toCity !in graph.cities {
      graph.AddCity(City(edge.toCity, edge.toCountry));
    }
    graph.AddEdge(edge.fromCity, edge.toCity, edge.distance);
    graph.AddEdge(edge.toCity, edge.fromCity, edge.distance);
  }

  /** Builds a graph from dataset records, inserting each record in both directions. */
  method BuildGraphFromEdges(edges: seq<DatasetEdge>) returns (graph: CityGraph)
    ensures fresh(graph)
    ensures graph.adjacency == Link(ToEdges(edges))
    ensures graph.cities == CitiesOf(edges)
  {
    graph := new CityGraph();
    for i := 0 to |edges|
      invariant graph.adjacency == Link(ToEdges(edges[..i]))
      invariant graph.cities == CitiesOf(edges[..i])
    {
      AddRecord(graph, edges[i]);
      BuildStep(edges, i);
    }
    assert edges[..|edges|] == edges;
  }
}
