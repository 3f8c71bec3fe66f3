/** Values shared by the graph store, the spanning-forest reducer and the tour search. */
module Common {

  /** Largest value of Rust's `u32`; the distance matrix and the path scorer use it as "unreachable". */
  const U32_MAX: nat := 0xFFFF_FFFF

  /** An unsigned 32-bit integer, as stored for edge distances. */
  type u32 = x: nat | x <= U32_MAX

  datatype Option<T> = None | Some(value: T)

  /** City metadata kept in the graph's city table. */
  datatype City = City(name: string, country: string)

  /** One record of the input dataset: an undirected road between two cities. */
  datatype DatasetEdge = DatasetEdge(
    fromCity: string,
    fromCountry: string,
    toCity: string,
    toCountry: string,
    distance: u32)

  /** A weighted edge `(distance, from, to)`, the tuple the reducer collects and sorts. */
  datatype Edge = Edge(weight: u32, from: string, to: string)

  /** True when `e` joins `a` and `b`, in either direction. */
  predicate Joins(e: Edge, a: string, b: string)
  {
    (e.from == a && e.to == b) || (e.from == b && e.to == a)
  }
}
