/** The "uniform random" values of the static-data baker. Instead of drawing one random value
    per object, collection or polygon, the baker spreads values evenly over [0, 1], shuffles
    them, and blends each with a random draw. The shuffle and the draws are left out; this
    module models the values before the shuffle and the blend that follows it. */
module UniformValues {
  import opened Wrappers
  import opened Numeric

  // ---------------------------------------------------------------------------
  // The spread for objects and collections
  // ---------------------------------------------------------------------------

  /** The evenly spread values for `n` items: a single item gets 0.5, otherwise item `i` gets
      `i / (n - 1)`, so every value lies in [0, 1]. */
  function Spread(n: nat): (r: seq<real>)
    ensures |r| == n
    ensures n == 1 ==> r == [0.5]
    ensures forall i :: 0 <= i < n ==> 0.0 <= r[i] <= 1.0
  {
    if n == 1 then [0.5]
    else
      var r := seq(n, i requires 0 <= i < n => i as real / (n - 1) as real);
      assert forall i :: 0 <= i < n ==> 0.0 <= r[i] <= 1.0 by {
        forall i | 0 <= i < n
          ensures 0.0 <= r[i] <= 1.0
        {
          QuotientInUnit(i, n - 1);
        }
      }
      r
  }

  /** The loop that builds the values: index and divisor start at 1 and 2 for a single item
      and at 0 and `n - 1` otherwise, and the index moves up by one per item. The source
      reports failure when the index is still 0 afterwards. */
  method SpreadValues<T>(items: seq<T>) returns (values: seq<real>, ok: bool)
    ensures values == Spread(|items|)
    ensures ok <==> |items| > 0
  {
    var n := |items|;
    var index: int := if n == 1 then 1 else 0;
    var count: int := if n == 1 then 2 else n - 1;
    values := [];
    var k := 0;
    while k < n
      invariant 0 <= k <= n
      invariant index == k + (if n == 1 then 1 else 0)
      invariant |values| == k
      invariant forall i :: 0 <= i < k ==> values[i] == Spread(n)[i]
    {
      values := values + [index as real / count as real];
      index := index + 1;
      k := k + 1;
    }
    ok := index != 0;
  }

  lemma QuotientInUnit(i: nat, d: nat)
    requires 0 < d && i <= d
    ensures 0.0 <= i as real / d as real <= 1.0
  {
    var q := i as real / d as real;
    assert q * d as real == i as real;
    if q > 1.0 {
      MulCancel(1.0, q, d as real);
    }
  }

  /** With two items or more the spread starts at exactly 0 and ends at exactly 1. */
  lemma SpreadEnds(n: nat)
    requires n >= 2
    ensures Spread(n)[0] == 0.0 && Spread(n)[n - 1] == 1.0
  {
    var d := (n - 1) as real;
    assert Spread(n)[0] == 0.0 / d;
    assert Spread(n)[n - 1] == d / d;
    SelfQuotient(d);
  }

  /** Consecutive values are one step of `1 / (n - 1)` apart. */
  lemma SpreadEvenlySpaced(n: nat, i: nat)
    requires n >= 2 && i + 1 < n
    ensures Spread(n)[i + 1] - Spread(n)[i] == 1.0 / (n - 1) as real
  {
  }

  /** The values strictly increase, so no two items share one. */
  lemma SpreadIncreasing(n: nat, i: nat, j: nat)
    requires i < j < n
    ensures Spread(n)[i] < Spread(n)[j]
  {
    var d := (n - 1) as real;
    assert Spread(n)[j] - Spread(n)[i] == (j - i) as real / d;
  }

  /** The spread is symmetric about 0.5: the values from both ends add up to 1. */
  lemma SpreadSymmetric(n: nat, i: nat)
    requires i < n
    ensures Spread(n)[i] + Spread(n)[n - 1 - i] == 1.0
  {
    if n >= 2 {
      var d := (n - 1) as real;
      var a := i as real;
      var b := (n - 1 - i) as real;
      assert Spread(n)[i] == a / d;
      assert Spread(n)[n - 1 - i] == b / d;
      assert a + b == d;
      AddQuotients(a, b, d);
      SelfQuotient(d);
    }
  }

  lemma SelfQuotient(d: real)
    requires d > 0.0
    ensures d / d == 1.0
  {
  }

  lemma AddQuotients(a: real, b: real, d: real)
    requires d > 0.0
    ensures a / d + b / d == (a + b) / d
  {
  }

  // ---------------------------------------------------------------------------
  // The spread for polygons, as written
  // ---------------------------------------------------------------------------

  function Sum(counts: seq<nat>): nat {
    if |counts| == 0 then 0 else Sum(counts[..|counts| - 1]) + counts[|counts| - 1]
  }

  /** The per-polygon values as the source computes them: a single polygon gets 0.5,
      otherwise polygon `i` gets `i / polyCount`, not `i / (polyCount - 1)`, so no value
      reaches 1. */
  function PolySpread(polyCount: nat): (r: seq<real>)
    ensures |r| == polyCount
    ensures forall i :: 0 <= i < polyCount ==> 0.0 <= r[i] < 1.0
  {
    if polyCount == 1 then [0.5]
    else
      var r := seq(polyCount, i requires 0 <= i < polyCount => i as real / polyCount as real);
      assert forall i :: 0 <= i < polyCount ==> 0.0 <= r[i] < 1.0 by {
        forall i | 0 <= i < polyCount
          ensures 0.0 <= r[i] < 1.0
        {
          QuotientBelowOne(i, polyCount);
        }
      }
      r
  }

  lemma QuotientBelowOne(i: nat, d: nat)
    requires i < d
    ensures 0.0 <= i as real / d as real < 1.0
  {
    var q := i as real / d as real;
    assert q * d as real == i as real;
    if q >= 1.0 {
      MulCancel(1.0, q, d as real);
    }
  }

  /** The nested loop over meshes and their polygons that builds the per-polygon values,
      numbering the polygons of all meshes one after the other. No polygon at all is a
      failure, reported before any value is built. */
  method PolySpreadValues(polyCounts: seq<nat>) returns (values: seq<real>, ok: bool)
    ensures ok <==> Sum(polyCounts) > 0
    ensures ok ==> values == PolySpread(Sum(polyCounts))
    ensures !ok ==> values == []
  {
    var total := 0;
    var m := 0;
    while m < |polyCounts|
      invariant 0 <= m <= |polyCounts|
      invariant total == Sum(polyCounts[..m])
    {
      assert polyCounts[..m + 1][..m] == polyCounts[..m];
      total := total + polyCounts[m];
      m := m + 1;
    }
    assert polyCounts[..|polyCounts|] == polyCounts;
    values := [];
    if total == 0 {
      return values, false;
    }
    var index: int := if total == 1 then 1 else 0;
    var count: int := if total == 1 then 2 else total;
    m := 0;
    while m < |polyCounts|
      invariant 0 <= m <= |polyCounts|
      invariant |values| == Sum(polyCounts[..m]) <= total
      invariant index == |values| + (if total == 1 then 1 else 0)
      invariant forall i :: 0 <= i < |values| ==> values[i] == PolySpread(total)[i]
    {
      SumPrefixGrows(polyCounts, m);
      var f := 0;
      while f < polyCounts[m]
        invariant 0 <= f <= polyCounts[m]
        invariant |values| == Sum(polyCounts[..m]) + f <= total
        invariant index == |values| + (if total == 1 then 1 else 0)
        invariant forall i :: 0 <= i < |values| ==> values[i] == PolySpread(total)[i]
      {
        values := values + [index as real / count as real];
        index := index + 1;
        f := f + 1;
      }
      m := m + 1;
    }
    ok := true;
  }

  /** The running total over a prefix grows by the next count and never passes the total. */
  lemma SumPrefixGrows(counts: seq<nat>, m: nat)
    requires m < |counts|
    ensures Sum(counts[..m + 1]) == Sum(counts[..m]) + counts[m]
    ensures Sum(counts[..m + 1]) <= Sum(counts)
  {
    assert counts[..m + 1][..m] == counts[..m];
    SumPrefixBounded(counts, m + 1);
  }

  lemma {:induction false} SumPrefixBounded(counts: seq<nat>, m: nat)
    requires m <= |counts|
    ensures Sum(counts[..m]) <= Sum(counts)
    decreases |counts|
  {
    if m < |counts| {
      var init := counts[..|counts| - 1];
      assert counts[..m] == init[..m];
      SumPrefixBounded(init, m);
    } else {
      assert counts[..m] == counts;
    }
  }

  /** The values promised for 101 polygons are 0.00, 0.01, ..., 1.0; as written the last
      one is 100/101 instead, and for five polygons the values stop at 0.8. The even spread
      used for objects and collections gives the promised values. */
  lemma PolySpreadMissesOne()
    ensures PolySpread(101)[100] == 100.0 / 101.0 != 1.0
    ensures PolySpread(5)[4] == 0.8
    ensures Spread(101)[1] == 0.01 && Spread(101)[100] == 1.0
    ensures Spread(5) == [0.0, 0.25, 0.5, 0.75, 1.0]
  {
    assert Spread(5)[1] == 0.25 && Spread(5)[2] == 0.5 && Spread(5)[3] == 0.75;
  }

  // ---------------------------------------------------------------------------
  // Collections
  // ---------------------------------------------------------------------------

  /** All elements of a list of lists, in order. */
  function Flatten<T>(ss: seq<seq<T>>): seq<T> {
    if |ss| == 0 then [] else Flatten(ss[..|ss| - 1]) + ss[|ss| - 1]
  }

  lemma {:induction false} FlattenMembers<T>(ss: seq<seq<T>>)
    ensures forall i, x :: 0 <= i < |ss| && x in ss[i] ==> x in Flatten(ss)
  {
    if |ss| > 0 {
      var n := |ss| - 1;
      FlattenMembers(ss[..n]);
      forall i, x | 0 <= i < |ss| && x in ss[i]
        ensures x in Flatten(ss)
      {
        if i < n {
          assert ss[..n][i] == ss[i];
        }
      }
    }
  }

  predicate NoDuplicates<T(==)>(s: seq<T>) {
    forall i, j :: 0 <= i < j < |s| ==> s[i] != s[j]
  }

  /** The elements of a list in order of first appearance, each once. */
  function Dedupe<T(==)>(s: seq<T>): seq<T> {
    if |s| == 0 then []
    else
      var kept := Dedupe(s[..|s| - 1]);
      if s[|s| - 1] in kept then kept else kept + [s[|s| - 1]]
  }

  /** Deduplication keeps every element, adds none, and repeats none. */
  lemma {:induction false} DedupeIsSet<T>(s: seq<T>)
    ensures forall x :: x in Dedupe(s) <==> x in s
    ensures NoDuplicates(Dedupe(s))
  {
    if |s| > 0 {
      var init := s[..|s| - 1];
      DedupeIsSet(init);
      assert s == init + [s[|s| - 1]];
    }
  }

  /** The collections the meshes belong to, gathered mesh by mesh, each once. */
  function Collections<C(==)>(meshCollections: seq<seq<C>>): seq<C> {
    Dedupe(Flatten(meshCollections))
  }

  /** Position of the first occurrence of `x` in `s`. */
  function IndexOf<T(==)>(s: seq<T>, x: T): (i: nat)
    requires x in s
    ensures i < |s| && s[i] == x && x !in s[..i]
  {
    if s[0] == x then 0 else 1 + IndexOf(s[1..], x)
  }

  /** The value a mesh gets before the blend: the value of its first collection, or none for
      a mesh in no collection. The lookup never fails, since every first collection was
      gathered. */
  function CollectionValue<C(==)>(meshCollections: seq<seq<C>>, values: seq<real>, m: nat): (r: Option<real>)
    requires m < |meshCollections|
    requires |values| == |Collections(meshCollections)|
    ensures r.Some? <==> |meshCollections[m]| > 0
  {
    if |meshCollections[m]| == 0 then None
    else
      FlattenMembers(meshCollections);
      DedupeIsSet(Flatten(meshCollections));
      Some(values[IndexOf(Collections(meshCollections), meshCollections[m][0])])
  }

  /** With the even spread, two meshes get the same value exactly when their first
      collections are the same. */
  lemma CollectionValueSameIffSameCollection<C>(meshCollections: seq<seq<C>>, m1: nat, m2: nat)
    requires m1 < |meshCollections| && m2 < |meshCollections|
    requires |meshCollections[m1]| > 0 && |meshCollections[m2]| > 0
    ensures var values := Spread(|Collections(meshCollections)|);
      var sameValue := CollectionValue(meshCollections, values, m1) == CollectionValue(meshCollections, values, m2);
      sameValue <==> meshCollections[m1][0] == meshCollections[m2][0]
  {
    var cols := Collections(meshCollections);
    var values := Spread(|cols|);
    FlattenMembers(meshCollections);
    DedupeIsSet(Flatten(meshCollections));
    var i := IndexOf(cols, meshCollections[m1][0]);
    var j := IndexOf(cols, meshCollections[m2][0]);
    if i < j {
      SpreadIncreasing(|cols|, i, j);
    } else if j < i {
      SpreadIncreasing(|cols|, j, i);
    }
  }

  // ---------------------------------------------------------------------------
  // The blend with a random draw
  // ---------------------------------------------------------------------------

  /** `uniform` weighs the evenly spread value against a random draw in [0, 1]. With a weight
      in [0, 1] the result lies between the two, so two unit-interval values blend into
      [0, 1]; weight 1 keeps the spread value and weight 0 keeps the draw. */
  function Blend(value: real, uniform: real, draw: real): (r: real)
    ensures 0.0 <= uniform <= 1.0 ==> Between(r, value, draw)
    ensures 0.0 <= value <= 1.0 && 0.0 <= uniform <= 1.0 && 0.0 <= draw <= 1.0 ==> 0.0 <= r <= 1.0
    ensures uniform == 1.0 ==> r == value
    ensures uniform == 0.0 ==> r == draw
  {
    assert 0.0 <= uniform <= 1.0 ==> Between(value * uniform + (1.0 - uniform) * draw, value, draw) by {
      if 0.0 <= uniform <= 1.0 {
        BetweenEnds(value, uniform, draw);
      }
    }
    value * uniform + (1.0 - uniform) * draw
  }

  /** `x` lies between `a` and `b`, in either order. */
  predicate Between(x: real, a: real, b: real) {
    a <= x <= b || b <= x <= a
  }

  /** The blend moves from the draw towards the value by the weight. */
  lemma BetweenEnds(value: real, uniform: real, draw: real)
    requires 0.0 <= uniform <= 1.0
    ensures Between(value * uniform + (1.0 - uniform) * draw, value, draw)
  {
    var r := value * uniform + (1.0 - uniform) * draw;
    assert r == draw + uniform * (value - draw);
    assert r == value - (1.0 - uniform) * (value - draw);
    if value >= draw {
      MulNonNegative(uniform, value - draw);
      MulNonNegative(1.0 - uniform, value - draw);
    } else {
      MulNonNegative(uniform, draw - value);
      MulNonNegative(1.0 - uniform, draw - value);
    }
  }
}
