/** `Array.prototype.map` and `Array.prototype.filter` over sequences, with the facts the
    settings panel and the badge resolver rely on. */
module Lists {

  /** Concatenation is associative (stated once so that proofs need not rediscover it). */
  lemma AppendAssoc<T>(a: seq<T>, b: seq<T>, c: seq<T>)
    ensures (a + b) + c == a + (b + c)
  {
  }

  /** A list is its first `n` entries followed by the rest. */
  lemma TakeDrop<T>(xs: seq<T>, n: nat)
    requires n <= |xs|
    ensures xs[..n] + xs[n..] == xs
  {
  }

  /** A three-entry list is the display of its entries. */
  lemma Three<T>(r: seq<T>)
    requires |r| == 3
    ensures r == [r[0], r[1], r[2]]
  {
  }

  /** A property of each of three entries is a property of every entry. */
  lemma EachOfThree<T>(p: T -> bool, xs: seq<T>)
    requires |xs| == 3 && p(xs[0]) && p(xs[1]) && p(xs[2])
    ensures forall k | 0 <= k < |xs| :: p(xs[k])
  {
  }

  // ---------------------------------------------------------------- map

  /** `xs.map(f)`. */
  function Map<T, U>(f: T -> U, xs: seq<T>): (r: seq<U>)
    ensures |r| == |xs|
  {
    if xs == [] then [] else [f(xs[0])] + Map(f, xs[1..])
  }

  /** Entry `k` of the mapped list is `f` applied to entry `k`. */
  lemma {:induction false} MapAt<T, U>(f: T -> U, xs: seq<T>, k: nat)
    requires k < |xs|
    ensures Map(f, xs)[k] == f(xs[k])
    decreases k
  {
    if k > 0 {
      MapAt(f, xs[1..], k - 1);
    }
  }

  /** The map distributes over concatenation. */
  lemma {:induction false} MapAppend<T, U>(f: T -> U, xs: seq<T>, ys: seq<T>)
    ensures Map(f, xs + ys) == Map(f, xs) + Map(f, ys)
    decreases |xs|
  {
    if xs == [] {
      assert xs + ys == ys;
    } else {
      var head := [f(xs[0])];
      assert Map(f, xs + ys) == head + Map(f, xs[1..] + ys) by {
        assert (xs + ys)[0] == xs[0] && (xs + ys)[1..] == xs[1..] + ys;
      }
      MapAppend(f, xs[1..], ys);
      AppendAssoc(head, Map(f, xs[1..]), Map(f, ys));
    }
  }

  // ---------------------------------------------------------------- filter

  /** `xs.filter(keep)`: the entries `keep` accepts, in their order. */
  function Filter<T>(keep: T -> bool, xs: seq<T>): (r: seq<T>)
    ensures |r| <= |xs|
  {
    if xs == [] then []
    else (if keep(xs[0]) then [xs[0]] else []) + Filter(keep, xs[1..])
  }

  /** The filter keeps exactly the accepted entries. */
  lemma {:induction false} FilterMembership<T>(keep: T -> bool, xs: seq<T>, x: T)
    ensures x in Filter(keep, xs) <==> keep(x) && x in xs
    decreases |xs|
  {
    if xs != [] {
      var head := if keep(xs[0]) then [xs[0]] else [];
      FilterMembership(keep, xs[1..], x);
      assert xs == [xs[0]] + xs[1..];
      assert x in head + Filter(keep, xs[1..]) <==> x in head || x in Filter(keep, xs[1..]);
    }
  }

  /** The filter distributes over concatenation. */
  lemma {:induction false} FilterAppend<T>(keep: T -> bool, xs: seq<T>, ys: seq<T>)
    ensures Filter(keep, xs + ys) == Filter(keep, xs) + Filter(keep, ys)
    decreases |xs|
  {
    if xs == [] {
      assert xs + ys == ys;
    } else {
      var head := if keep(xs[0]) then [xs[0]] else [];
      assert Filter(keep, xs + ys) == head + Filter(keep, xs[1..] + ys) by {
        assert (xs + ys)[0] == xs[0] && (xs + ys)[1..] == xs[1..] + ys;
      }
      FilterAppend(keep, xs[1..], ys);
      AppendAssoc(head, Filter(keep, xs[1..]), Filter(keep, ys));
    }
  }

  /** When every entry is accepted the filter keeps everything. */
  lemma {:induction false} FilterAll<T>(keep: T -> bool, xs: seq<T>)
    requires forall k | 0 <= k < |xs| :: keep(xs[k])
    ensures Filter(keep, xs) == xs
    decreases |xs|
  {
    if xs != [] {
      FilterAll(keep, xs[1..]);
      assert [xs[0]] + xs[1..] == xs;
    }
  }

  /** When no entry is accepted the filter keeps nothing. */
  lemma {:induction false} FilterNone<T>(keep: T -> bool, xs: seq<T>)
    requires forall k | 0 <= k < |xs| :: !keep(xs[k])
    ensures Filter(keep, xs) == []
    decreases |xs|
  {
    if xs != [] {
      FilterNone(keep, xs[1..]);
    }
  }

  /** The indices at or after `from` of the entries `keep` accepts, in increasing order. */
  function KeptFrom<T>(keep: T -> bool, xs: seq<T>, from: nat): (ks: seq<nat>)
    requires from <= |xs|
    ensures forall j | 0 <= j < |ks| :: from <= ks[j] < |xs| && keep(xs[ks[j]])
    ensures forall j, j' | 0 <= j < j' < |ks| :: ks[j] < ks[j']
    ensures forall k | from <= k < |xs| && keep(xs[k]) :: k in ks
    decreases |xs| - from
  {
    if from == |xs| then []
    else
      var rest := KeptFrom(keep, xs, from + 1);
      if keep(xs[from]) then
        var ks := [from] + rest;
        assert forall j | 0 < j < |ks| :: ks[j] == rest[j - 1];
        ks
      else rest
  }

  /** The filter is an order-preserving image of the accepted indices: its `j`-th entry is
      the entry at the `j`-th accepted index. */
  lemma {:induction false} FilterIndices<T>(keep: T -> bool, xs: seq<T>, from: nat)
    requires from <= |xs|
    ensures var r := Filter(keep, xs[from..]);
      var ks := KeptFrom(keep, xs, from);
      |r| == |ks| && forall j | 0 <= j < |ks| :: r[j] == xs[ks[j]]
    decreases |xs| - from
  {
    if from < |xs| {
      var r := Filter(keep, xs[from..]);
      var r' := Filter(keep, xs[from + 1..]);
      var ks := KeptFrom(keep, xs, from);
      var ks' := KeptFrom(keep, xs, from + 1);
      FilterIndices(keep, xs, from + 1);
      assert r == (if keep(xs[from]) then [xs[from]] else []) + r' by {
        assert xs[from..][1..] == xs[from + 1..];
        assert xs[from..][0] == xs[from];
      }
      if keep(xs[from]) {
        forall j | 0 < j < |ks| ensures r[j] == xs[ks[j]] {
          assert r[j] == r'[j - 1] && ks[j] == ks'[j - 1];
        }
      }
    }
  }
}
