/**
 * The `Intersection` record and the `Intersections` collection (sketch.js lines
 * 95-133). An intersection pairs a ray parameter `t` with the object that was hit;
 * the object type is a parameter so that this module does not depend on spheres.
 */
module Intersections {
  import opened Wrappers

  /** A ray parameter `t` and the object met there (the source's field `object`). */
  datatype Intersection<O> = Intersection(t: real, obj: O)

  /**
   * `k` is the entry `hit` keeps: its `t` is non-negative, no non-negative entry
   * has a smaller `t`, and no earlier non-negative entry has the same `t` (the
   * scan replaces its candidate only on a strictly smaller `t`).
   */
  ghost predicate IsHit<O>(xs: seq<Intersection<O>>, k: int) {
    && 0 <= k < |xs|
    && 0.0 <= xs[k].t
    && (forall i :: 0 <= i < |xs| && 0.0 <= xs[i].t ==> xs[k].t <= xs[i].t)
    && (forall i :: 0 <= i < k && 0.0 <= xs[i].t ==> xs[k].t < xs[i].t)
  }

  /** At most one entry is the hit, so the hit is determined by the list. */
  lemma HitUnique<O>(xs: seq<Intersection<O>>, j: int, k: int)
    requires IsHit(xs, j) && IsHit(xs, k)
    ensures j == k
  {
    assert xs[j].t == xs[k].t;
  }

  /** Some entry is the hit exactly when some entry has a non-negative `t`. */
  lemma HitExists<O>(xs: seq<Intersection<O>>)
    ensures (exists k :: IsHit(xs, k)) <==> (exists i :: 0 <= i < |xs| && 0.0 <= xs[i].t)
  {
    if exists i :: 0 <= i < |xs| && 0.0 <= xs[i].t {
      var k := FirstNearest(xs);
      assert IsHit(xs, k);
    }
  }

  /** The index of the first entry with the smallest non-negative `t`, by recursion from the back. */
  function FirstNearest<O>(xs: seq<Intersection<O>>): (k: int)
    requires exists i :: 0 <= i < |xs| && 0.0 <= xs[i].t
    ensures IsHit(xs, k)
    decreases |xs|
  {
    var last := |xs| - 1;
    if !(exists i :: 0 <= i < last && 0.0 <= xs[i].t) then
      last
    else
      var k := FirstNearest(xs[..last]);
      assert forall i :: 0 <= i < last ==> xs[..last][i] == xs[i];
      if 0.0 <= xs[last].t && xs[last].t < xs[k].t then last else k
  }

  /** An immutable list of intersections together with its length. */
  datatype Intersections<O> = Intersections(intersections: seq<Intersection<O>>) {

    function Length(): nat {
      |intersections|
    }

    /** The entry at `index`, or nothing when the index is out of range. */
    function At(index: int): (r: Option<Intersection<O>>)
      ensures r.None? <==> (index < 0 || Length() <= index)
      ensures r.Some? ==> r.value == intersections[index]
    {
      if index >= Length() || index < 0 then None else Some(intersections[index])
    }

    /**
     * The visible intersection: the first entry with the smallest non-negative `t`,
     * or nothing when every `t` is negative.
     */
    method Hit() returns (r: Option<Intersection<O>>)
      ensures r.None? <==> (forall i :: 0 <= i < |intersections| ==> intersections[i].t < 0.0)
      ensures r.Some? ==> exists k :: IsHit(intersections, k) && r.value == intersections[k]
    {
      var xs := intersections;
      r := None;
      ghost var k := -1;
      for i := 0 to |xs|
        invariant r.None? <==> (forall j :: 0 <= j < i ==> xs[j].t < 0.0)
        invariant r.Some? ==> 0 <= k < i && r.value == xs[k] && IsHit(xs[..i], k)
      {
        if xs[i].t < 0.0 {
          assert forall j :: 0 <= j < i ==> xs[..i + 1][j] == xs[..i][j];
          continue;
        }
        if r.None? || xs[i].t < r.value.t {
          r := Some(xs[i]);
          k := i;
        }
        assert forall j :: 0 <= j < i ==> xs[..i + 1][j] == xs[..i][j];
      }
      assert xs[..|xs|] == xs;
    }
  }

  /** Over entries at 5, 7, -3 and 2, `hit` returns the last entry, at 2. */
  method HitOfMixedList<O>(o: O) returns (r: Option<Intersection<O>>)
    ensures r == Some(Intersection(2.0, o))
  {
    var xs := [Intersection(5.0, o), Intersection(7.0, o), Intersection(-3.0, o), Intersection(2.0, o)];
    r := Intersections(xs).Hit();
    assert 0.0 <= xs[0].t;
    ghost var k :| IsHit(xs, k) && r.value == xs[k];
    assert IsHit(xs, 3);
    HitUnique(xs, k, 3);
  }

  /** When every entry is behind the ray's origin, `hit` returns nothing. */
  method NoHitBehind<O>(o: O) returns (r: Option<Intersection<O>>)
    ensures r == None
  {
    var xs := [Intersection(-1.0, o), Intersection(-2.0, o)];
    r := Intersections(xs).Hit();
  }

  /** Of two entries with the same `t`, `hit` returns the first. */
  method HitOfTie<O>(a: O, b: O) returns (r: Option<Intersection<O>>)
    ensures r == Some(Intersection(1.0, a))
  {
    var xs := [Intersection(1.0, a), Intersection(1.0, b)];
    r := Intersections(xs).Hit();
    assert 0.0 <= xs[0].t;
    ghost var k :| IsHit(xs, k) && r.value == xs[k];
    assert IsHit(xs, 0);
    HitUnique(xs, k, 0);
  }
}
