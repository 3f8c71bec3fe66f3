/**
 * A disjoint-set forest over city names (`UnionFind` in ect/src/mst.rs): a parent map in which
 * every chain ends at a root, a name that is its own parent. The ghost `rank` strictly increases
 * along every parent pointer and never exceeds the ghost `bound`; neither is consulted by the
 * code, they only prove that `Find` terminates.
 */
module UnionFindForest {

  /**
   * Every parent is registered, every rank is at most `bound`, and ranks strictly increase from
   * a child to its parent.
   */
  ghost predicate Ranked(parent: map<string, string>, rank: map<string, nat>, bound: nat)
  {
    && parent.Values <= parent.Keys
    && parent.Keys <= rank.Keys
    && (forall x {:trigger rank[x]} :: x in rank ==> rank[x] <= bound)
    && (forall x {:trigger parent[x]} :: x in parent && parent[x] != x ==> rank[x] < rank[parent[x]])
  }

  /** The root reached by following parent pointers from `x`. */
  ghost function Root(parent: map<string, string>, rank: map<string, nat>, bound: nat, x: string): (r: string)
    requires Ranked(parent, rank, bound) && x in parent
    ensures r in parent && parent[r] == r
    decreases bound - rank[x]
  {
    if parent[x] == x then x else Root(parent, rank, bound, parent[x])
  }

  /** The root of a non-root element has a strictly larger rank than the element. */
  lemma {:induction false} RootRank(parent: map<string, string>, rank: map<string, nat>, bound: nat, x: string)
    requires Ranked(parent, rank, bound) && x in parent && parent[x] != x
    ensures rank[x] < rank[Root(parent, rank, bound, x)]
    decreases bound - rank[x]
  {
    var p := parent[x];
    if parent[p] != p {
      RootRank(parent, rank, bound, p);
    }
  }

  /** Pointing `x` directly at its root changes no element's root (path compression, one step). */
  lemma {:induction false} CompressRoot(parent: map<string, string>, rank: map<string, nat>, bound: nat, x: string, y: string)
    requires Ranked(parent, rank, bound) && x in parent && y in parent
    requires Ranked(parent[x := Root(parent, rank, bound, x)], rank, bound)
    ensures Root(parent[x := Root(parent, rank, bound, x)], rank, bound, y) == Root(parent, rank, bound, y)
    decreases bound - rank[y]
  {
    var r := Root(parent, rank, bound, x);
    var p' := parent[x := r];
    if y == x {
      if r != x {
        assert p'[r] == r;
      }
    } else if parent[y] != y {
      CompressRoot(parent, rank, bound, x, parent[y]);
    }
  }

  /** Path compression at `x` keeps the forest well ranked and keeps every element's root. */
  lemma CompressPreserves(parent: map<string, string>, rank: map<string, nat>, bound: nat, x: string)
    requires Ranked(parent, rank, bound) && x in parent
    ensures Ranked(parent[x := Root(parent, rank, bound, x)], rank, bound)
    ensures forall y {:trigger Root(parent[x := Root(parent, rank, bound, x)], rank, bound, y)} :: y in parent ==>
      Root(parent[x := Root(parent, rank, bound, x)], rank, bound, y) == Root(parent, rank, bound, y)
  {
    if parent[x] != x {
      RootRank(parent, rank, bound, x);
    }
    forall y | y in parent
      ensures Root(parent[x := Root(parent, rank, bound, x)], rank, bound, y) == Root(parent, rank, bound, y)
    {
      CompressRoot(parent, rank, bound, x, y);
    }
  }

  /** The rank of `rb` once root `ra` hangs below it. */
  function Lifted(rank: map<string, nat>, ra: string, rb: string): nat
    requires ra in rank && rb in rank
  {
    if rank[rb] > rank[ra] then rank[rb] else rank[ra] + 1
  }

  /** Linking two distinct roots keeps the forest well ranked. */
  lemma LinkRanked(parent: map<string, string>, rank: map<string, nat>, bound: nat, ra: string, rb: string)
    requires Ranked(parent, rank, bound) && ra in parent && rb in parent
    requires parent[ra] == ra && parent[rb] == rb && ra != rb
    ensures Ranked(parent[ra := rb], rank[rb := Lifted(rank, ra, rb)], bound + 1)
  {
  }

  /** After linking root `ra` under root `rb`, every element of `ra`'s set has root `rb`; no other root changes. */
  lemma {:induction false} LinkRoot(parent: map<string, string>, rank: map<string, nat>, bound: nat, ra: string, rb: string, y: string)
    requires Ranked(parent, rank, bound) && ra in parent && rb in parent && y in parent
    requires parent[ra] == ra && parent[rb] == rb && ra != rb
    requires Ranked(parent[ra := rb], rank[rb := Lifted(rank, ra, rb)], bound + 1)
    ensures Root(parent[ra := rb], rank[rb := Lifted(rank, ra, rb)], bound + 1, y) ==
            if Root(parent, rank, bound, y) == ra then rb else Root(parent, rank, bound, y)
    decreases bound - rank[y]
  {
    var p', rank' := parent[ra := rb], rank[rb := Lifted(rank, ra, rb)];
    if parent[y] == y {
      if y == ra {
        assert Root(p', rank', bound + 1, ra) == Root(p', rank', bound + 1, rb);
      }
    } else {
      LinkRoot(parent, rank, bound, ra, rb, parent[y]);
    }
  }

  /** Linking root `ra` under root `rb` keeps the forest well ranked and merges exactly their two sets. */
  lemma LinkPreserves(parent: map<string, string>, rank: map<string, nat>, bound: nat, ra: string, rb: string)
    requires Ranked(parent, rank, bound) && ra in parent && rb in parent
    requires parent[ra] == ra && parent[rb] == rb && ra != rb
    ensures Ranked(parent[ra := rb], rank[rb := Lifted(rank, ra, rb)], bound + 1)
    ensures forall y {:trigger Root(parent[ra := rb], rank[rb := Lifted(rank, ra, rb)], bound + 1, y)} :: y in parent ==>
      Root(parent[ra := rb], rank[rb := Lifted(rank, ra, rb)], bound + 1, y) ==
        if Root(parent, rank, bound, y) == ra then rb else Root(parent, rank, bound, y)
  {
    LinkRanked(parent, rank, bound, ra, rb);
    forall y | y in parent
      ensures Root(parent[ra := rb], rank[rb := Lifted(rank, ra, rb)], bound + 1, y) ==
              if Root(parent, rank, bound, y) == ra then rb else Root(parent, rank, bound, y)
    {
      LinkRoot(parent, rank, bound, ra, rb, y);
    }
  }

  /** A disjoint-set forest, as `UnionFind` in ect/src/mst.rs. */
  class UnionFind {
    var parent: map<string, string>
    ghost var rank: map<string, nat>
    ghost var bound: nat

    ghost predicate Valid()
      reads this
    {
      Ranked(parent, rank, bound)
    }

    /** Registers every element as its own parent. */
    constructor (elements: seq<string>)
      ensures Valid()
      ensures parent.Keys == set e | e in elements
      ensures forall x :: x in parent ==> parent[x] == x
    {
      var p := map[];
      for i := 0 to |elements|
        invariant p.Keys == set e | e in elements[..i]
        invariant forall x :: x in p ==> p[x] == x
      {
        assert elements[..i + 1] == elements[..i] + [elements[i]];
        p := p[elements[i] := elements[i]];
      }
      assert elements[..|elements|] == elements;
      parent := p;
      rank := map x | x in p :: 0;
      bound := 0;
    }

    /**
     * Returns the root of `x`, pointing every element on the way directly at it. `x` must be
     * registered: the source unwraps the lookup and panics otherwise.
     */
    method Find(x: string) returns (r: string)
      requires Valid() && x in parent
      modifies this`parent
      ensures Valid() && parent.Keys == old(parent.Keys)
      ensures r == Root(old(parent), rank, bound, x)
      ensures parent[r] == r && parent[x] == r
      ensures forall y {:trigger Root(parent, rank, bound, y)} :: y in parent ==>
        Root(parent, rank, bound, y) == Root(old(parent), rank, bound, y)
      decreases bound - rank[x]
    {
      var px := parent[x];
      if px != x {
        ghost var p0 := parent;
        r := Find(px);
        assert r == Root(p0, rank, bound, x);
        assert Root(parent, rank, bound, x) == r;
        CompressPreserves(parent, rank, bound, x);
        parent := parent[x := r];
      } else {
        r := px;
      }
    }

    /** Hangs root `ra` under root `rb` (mst.rs:34), merging exactly their two sets. */
    method Link(ra: string, rb: string)
      requires Valid() && ra in parent && rb in parent
      requires parent[ra] == ra && parent[rb] == rb && ra != rb
      modifies this`parent, this`rank, this`bound
      ensures Valid() && parent.Keys == old(parent.Keys)
      ensures forall y {:trigger Root(parent, rank, bound, y)} :: y in parent ==>
        Root(parent, rank, bound, y) ==
          if Root(old(parent), old(rank), old(bound), y) == ra then rb else Root(old(parent), old(rank), old(bound), y)
    {
      LinkPreserves(parent, rank, bound, ra, rb);
      rank := rank[rb := Lifted(rank, ra, rb)];
      bound := bound + 1;
      parent := parent[ra := rb];
    }

    /**
     * Merges the sets of `a` and `b` by putting `a`'s root under `b`'s; returns false, changing no
     * set, when they already share a root.
     */
    method Union(a: string, b: string) returns (merged: bool)
      requires Valid() && a in parent && b in parent
      modifies this`parent, this`rank, this`bound
      ensures Valid() && parent.Keys == old(parent.Keys)
      ensures merged <==> Root(old(parent), old(rank), old(bound), a) != Root(old(parent), old(rank), old(bound), b)
      ensures forall y {:trigger Root(parent, rank, bound, y)} :: y in parent ==>
        Root(parent, rank, bound, y) ==
          var ry := Root(old(parent), old(rank), old(bound), y);
          if merged && ry == Root(old(parent), old(rank), old(bound), a) then Root(old(parent), old(rank), old(bound), b) else ry
      ensures Root(parent, rank, bound, a) == Root(parent, rank, bound, b)
    {
      ghost var p0 := parent;
      var ra := Find(a);
      ghost var p1 := parent;
      var rb := Find(b);
      assert rb == Root(p0, rank, bound, b) by {
        assert rb == Root(p1, rank, bound, b);
      }
      assert Root(parent, rank, bound, ra) == ra by {
        assert Root(p1, rank, bound, ra) == ra;
      }
      if ra == rb {
        merged := false;
      } else {
        Link(ra, rb);
        merged := true;
      }
    }
  }
}
