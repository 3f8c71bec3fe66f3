/**
 * `generate_permutations` and `permute` (ect/src/tsp.rs:6-24): every ordering of a list of city
 * indices, produced by swapping in place. For each position `start`, every element from `start`
 * onwards is swapped into that position in turn, the rest is permuted recursively, and the swap is
 * undone.
 */
module Permutations {

  /** `a` with the elements at `i` and `j` exchanged (`Vec::swap`). */
  function Swap(a: seq<nat>, i: nat, j: nat): (r: seq<nat>)
    requires i < |a| && j < |a|
    ensures |r| == |a| && r[i] == a[j] && r[j] == a[i]
    ensures forall k :: 0 <= k < |a| && k != i && k != j ==> r[k] == a[k]
  {
    a[i := a[j]][j := a[i]]
  }

  /** The orderings `permute(a, start)` pushes, in push order. */
  function PermsFrom(a: seq<nat>, start: nat): seq<seq<nat>>
    decreases |a| - start, 1, 0
  {
    if start >= |a| then [a] else Branches(a, start, |a|)
  }

  /** The orderings pushed by the first `i - start` rounds of the loop at position `start`. */
  function Branches(a: seq<nat>, start: nat, i: nat): seq<seq<nat>>
    requires start < |a| && i <= |a|
    decreases |a| - start, 0, i
  {
    if i <= start then [] else Branches(a, start, i - 1) + PermsFrom(Swap(a, start, i - 1), start + 1)
  }

  function Factorial(n: nat): (r: nat)
    ensures r >= 1
  {
    if n == 0 then 1 else n * Factorial(n - 1)
  }

  /** `permute(a, start)` pushes `(|a| - start)!` orderings. */
  lemma {:induction false} PermsCount(a: seq<nat>, start: nat)
    requires start <= |a|
    ensures |PermsFrom(a, start)| == Factorial(|a| - start)
    decreases |a| - start, 1, 0
  {
    if start < |a| {
      BranchesCount(a, start, |a|);
      assert Factorial(|a| - start) == (|a| - start) * Factorial(|a| - start - 1);
    }
  }

  lemma {:induction false} BranchesCount(a: seq<nat>, start: nat, i: nat)
    requires start < |a| && start <= i <= |a|
    ensures |Branches(a, start, i)| == (i - start) * Factorial(|a| - start - 1)
    decreases |a| - start, 0, i
  {
    if i > start {
      var f := Factorial(|a| - start - 1);
      BranchesCount(a, start, i - 1);
      PermsCount(Swap(a, start, i - 1), start + 1);
      assert |Branches(a, start, i)| == |Branches(a, start, i - 1)| + f;
      OneMore(i - start, f);
    }
  }

  lemma OneMore(m: nat, f: nat)
    requires m >= 1
    ensures (m - 1) * f + f == m * f
  {
  }

  /** Every ordering pushed is a rearrangement of `a` that leaves the first `start` positions alone. */
  lemma {:induction false} PermsArePermutations(a: seq<nat>, start: nat, p: seq<nat>)
    requires p in PermsFrom(a, start)
    ensures multiset(p) == multiset(a) && |p| == |a|
    ensures forall k :: 0 <= k < start && k < |a| ==> p[k] == a[k]
    decreases |a| - start, 1, 0
  {
    if start < |a| {
      BranchesArePermutations(a, start, |a|, p);
    }
  }

  lemma {:induction false} BranchesArePermutations(a: seq<nat>, start: nat, i: nat, p: seq<nat>)
    requires start < |a| && i <= |a| && p in Branches(a, start, i)
    ensures multiset(p) == multiset(a) && |p| == |a|
    ensures forall k :: 0 <= k < start ==> p[k] == a[k]
    decreases |a| - start, 0, i
  {
    if i > start {
      if p in Branches(a, start, i - 1) {
        BranchesArePermutations(a, start, i - 1, p);
      } else {
        var b := Swap(a, start, i - 1);
        SwapMultiset(a, start, i - 1);
        PermsArePermutations(b, start + 1, p);
      }
    }
  }

  lemma SwapMultiset(a: seq<nat>, i: nat, j: nat)
    requires i < |a| && j < |a|
    ensures multiset(Swap(a, i, j)) == multiset(a)
  {
  }

  /**
   * Every rearrangement of `a` that leaves the first `start` positions alone is pushed by
   * `permute(a, start)`.
   */
  lemma {:induction false} PermsComplete(a: seq<nat>, start: nat, q: seq<nat>)
    requires start <= |a| && |q| == |a| && multiset(q) == multiset(a)
    requires forall k :: 0 <= k < start ==> q[k] == a[k]
    ensures q in PermsFrom(a, start)
    decreases |a| - start
  {
    if start == |a| {
      assert q == a;
    } else {
      var i := Pick(a, start, q);
      var b := Swap(a, start, i);
      SwapMultiset(a, start, i);
      PermsComplete(b, start + 1, q);
      BranchesContain(a, start, |a|, i);
    }
  }

  /** A position at or after `start` holding `q[start]`, when `q` and `a` agree before `start`. */
  lemma Pick(a: seq<nat>, start: nat, q: seq<nat>) returns (i: nat)
    requires start < |a| && |q| == |a| && multiset(q) == multiset(a)
    requires forall k :: 0 <= k < start ==> q[k] == a[k]
    ensures start <= i < |a| && a[i] == q[start]
  {
    assert a == a[..start] + a[start..];
    assert q == q[..start] + q[start..];
    assert multiset(a) == multiset(a[..start]) + multiset(a[start..]);
    assert multiset(q) == multiset(q[..start]) + multiset(q[start..]);
    assert a[..start] == q[..start];
    assert multiset(a[start..]) == multiset(a) - multiset(a[..start]);
    assert multiset(q[start..]) == multiset(q) - multiset(q[..start]);
    assert q[start] == q[start..][0];
    assert q[start] in multiset(a[start..]);
    assert q[start] in a[start..];
    var k :| 0 <= k < |a[start..]| && a[start..][k] == q[start];
    i := start + k;
  }

  lemma {:induction false} BranchesContain(a: seq<nat>, start: nat, i: nat, j: nat)
    requires start <= j < i <= |a|
    ensures forall p :: p in PermsFrom(Swap(a, start, j), start + 1) ==> p in Branches(a, start, i)
    decreases i
  {
    if j < i - 1 {
      BranchesContain(a, start, i - 1, j);
    }
  }

  /**
   * `permute` (tsp.rs:13-24): appends `PermsFrom(arr, start)` to `results` and leaves `arr` as it
   * found it.
   */
  method Permute(arr: array<nat>, start: nat, results: seq<seq<nat>>) returns (out: seq<seq<nat>>)
    modifies arr
    ensures arr[..] == old(arr[..])
    ensures out == results + PermsFrom(old(arr[..]), start)
    decreases arr.Length - start
  {
    if start >= arr.Length {
      out := results + [arr[..]];
      return;
    }
    ghost var a := arr[..];
    out := results;
    for i := start to arr.Length
      invariant arr[..] == a
      invariant out == results + Branches(a, start, i)
    {
      arr[start], arr[i] := arr[i], arr[start];
      assert arr[..] == Swap(a, start, i);
      out := Permute(arr, start + 1, out);
      arr[start], arr[i] := arr[i], arr[start];
      assert arr[..] == a;
    }
  }

  /**
   * `generate_permutations` (tsp.rs:6-11): all `|items|!` orderings of `items`, each a
   * rearrangement of it, and every rearrangement among them.
   */
  method GeneratePermutations(items: seq<nat>) returns (r: seq<seq<nat>>)
    ensures r == PermsFrom(items, 0)
    ensures |r| == Factorial(|items|)
    ensures forall p: seq<nat> :: p in r ==> multiset(p) == multiset(items)
    ensures forall q: seq<nat> :: |q| == |items| && multiset(q) == multiset(items) ==> q in r
  {
    var current := new nat[|items|](k requires 0 <= k < |items| => items[k]);
    assert current[..] == items;
    r := Permute(current, 0, []);
    PermsCount(items, 0);
    forall p: seq<nat> | p in r
      ensures multiset(p) == multiset(items)
    {
      PermsArePermutations(items, 0, p);
    }
    forall q: seq<nat> | |q| == |items| && multiset(q) == multiset(items)
      ensures q in r
    {
      PermsComplete(items, 0, q);
    }
  }
}
