/** Axis-aligned bounding boxes of the asset loader, over exact reals. */
module BoundingBoxes {
  import opened Wrappers
  import opened Vectors

  datatype Aabb = Aabb(min: Vec3, max: Vec3)

  /** The smallest element of a non-empty sequence. */
  function MinOf(s: seq<real>): (r: real)
    requires |s| > 0
    ensures r in s
    ensures forall i :: 0 <= i < |s| ==> r <= s[i]
  {
    if |s| == 1 then s[0]
    else
      var m := MinOf(s[1..]);
      assert forall i :: 1 <= i < |s| ==> s[i] == s[1..][i - 1];
      if s[0] <= m then s[0] else m
  }

  /** The largest element of a non-empty sequence. */
  function MaxOf(s: seq<real>): (r: real)
    requires |s| > 0
    ensures r in s
    ensures forall i :: 0 <= i < |s| ==> s[i] <= r
  {
    if |s| == 1 then s[0]
    else
      var m := MaxOf(s[1..]);
      assert forall i :: 1 <= i < |s| ==> s[i] == s[1..][i - 1];
      if s[0] >= m then s[0] else m
  }

  function MinXs(bs: seq<Aabb>): (r: seq<real>) ensures |r| == |bs| { seq(|bs|, i requires 0 <= i < |bs| => bs[i].min.x) }
  function MinYs(bs: seq<Aabb>): (r: seq<real>) ensures |r| == |bs| { seq(|bs|, i requires 0 <= i < |bs| => bs[i].min.y) }
  function MinZs(bs: seq<Aabb>): (r: seq<real>) ensures |r| == |bs| { seq(|bs|, i requires 0 <= i < |bs| => bs[i].min.z) }
  function MaxXs(bs: seq<Aabb>): (r: seq<real>) ensures |r| == |bs| { seq(|bs|, i requires 0 <= i < |bs| => bs[i].max.x) }
  function MaxYs(bs: seq<Aabb>): (r: seq<real>) ensures |r| == |bs| { seq(|bs|, i requires 0 <= i < |bs| => bs[i].max.y) }
  function MaxZs(bs: seq<Aabb>): (r: seq<real>) ensures |r| == |bs| { seq(|bs|, i requires 0 <= i < |bs| => bs[i].max.z) }

  /** `box` lies inside `outer`. */
  predicate Within(box: Aabb, outer: Aabb) {
    && outer.min.x <= box.min.x && outer.min.y <= box.min.y && outer.min.z <= box.min.z
    && box.max.x <= outer.max.x && box.max.y <= outer.max.y && box.max.z <= outer.max.z
  }

  /** `Aabb::union`: nothing for no boxes, the box itself for one, and the
      component-wise minimum and maximum corners otherwise. */
  function Union(bs: seq<Aabb>): (r: Option<Aabb>)
    ensures r.None? <==> |bs| == 0
    ensures |bs| == 1 ==> r == Some(bs[0])
    ensures r.Some? ==> forall i :: 0 <= i < |bs| ==> Within(bs[i], r.value)
  {
    if |bs| == 0 then None
    else if |bs| == 1 then Some(bs[0])
    else
      var lo := Vec3(MinOf(MinXs(bs)), MinOf(MinYs(bs)), MinOf(MinZs(bs)));
      var hi := Vec3(MaxOf(MaxXs(bs)), MaxOf(MaxYs(bs)), MaxOf(MaxZs(bs)));
      assert forall i :: 0 <= i < |bs| ==>
        MinXs(bs)[i] == bs[i].min.x && MinYs(bs)[i] == bs[i].min.y && MinZs(bs)[i] == bs[i].min.z
        && MaxXs(bs)[i] == bs[i].max.x && MaxYs(bs)[i] == bs[i].max.y && MaxZs(bs)[i] == bs[i].max.z;
      Some(Aabb(lo, hi))
  }

  /** The union is the tightest enclosing box: each of its six faces touches
      some input box. */
  lemma UnionIsTight(bs: seq<Aabb>)
    requires |bs| > 0
    ensures var u := Union(bs).value;
      && (exists i :: 0 <= i < |bs| && bs[i].min.x == u.min.x)
      && (exists i :: 0 <= i < |bs| && bs[i].min.y == u.min.y)
      && (exists i :: 0 <= i < |bs| && bs[i].min.z == u.min.z)
      && (exists i :: 0 <= i < |bs| && bs[i].max.x == u.max.x)
      && (exists i :: 0 <= i < |bs| && bs[i].max.y == u.max.y)
      && (exists i :: 0 <= i < |bs| && bs[i].max.z == u.max.z)
  {
    if |bs| > 1 {
      var u := Union(bs).value;
      assert u.min.x == MinOf(MinXs(bs)) && u.min.y == MinOf(MinYs(bs)) && u.min.z == MinOf(MinZs(bs));
      assert u.max.x == MaxOf(MaxXs(bs)) && u.max.y == MaxOf(MaxYs(bs)) && u.max.z == MaxOf(MaxZs(bs));
      var i := IndexOf(MinXs(bs), u.min.x);
      assert bs[i].min.x == u.min.x;
      var j := IndexOf(MinYs(bs), u.min.y);
      assert bs[j].min.y == u.min.y;
      var k := IndexOf(MinZs(bs), u.min.z);
      assert bs[k].min.z == u.min.z;
      var l := IndexOf(MaxXs(bs), u.max.x);
      assert bs[l].max.x == u.max.x;
      var m := IndexOf(MaxYs(bs), u.max.y);
      assert bs[m].max.y == u.max.y;
      var n := IndexOf(MaxZs(bs), u.max.z);
      assert bs[n].max.z == u.max.z;
    } else {
      assert bs[0].min == Union(bs).value.min && bs[0].max == Union(bs).value.max;
    }
  }

  /** A position at which `r` occurs in `s`. */
  function IndexOf(s: seq<real>, r: real): (i: nat)
    requires r in s
    ensures i < |s| && s[i] == r
  {
    if s[0] == r then 0 else 1 + IndexOf(s[1..], r)
  }

  /** Two enclosing boxes that are both tight are the same box. */
  lemma {:induction false} TightBoxUnique(bs: seq<Aabb>, a: Aabb, b: Aabb)
    requires forall i :: 0 <= i < |bs| ==> Within(bs[i], a) && Within(bs[i], b)
    requires exists i :: 0 <= i < |bs| && bs[i].min.x == a.min.x
    requires exists i :: 0 <= i < |bs| && bs[i].min.y == a.min.y
    requires exists i :: 0 <= i < |bs| && bs[i].min.z == a.min.z
    requires exists i :: 0 <= i < |bs| && bs[i].max.x == a.max.x
    requires exists i :: 0 <= i < |bs| && bs[i].max.y == a.max.y
    requires exists i :: 0 <= i < |bs| && bs[i].max.z == a.max.z
    requires exists i :: 0 <= i < |bs| && bs[i].min.x == b.min.x
    requires exists i :: 0 <= i < |bs| && bs[i].min.y == b.min.y
    requires exists i :: 0 <= i < |bs| && bs[i].min.z == b.min.z
    requires exists i :: 0 <= i < |bs| && bs[i].max.x == b.max.x
    requires exists i :: 0 <= i < |bs| && bs[i].max.y == b.max.y
    requires exists i :: 0 <= i < |bs| && bs[i].max.z == b.max.z
    ensures a == b
  {
    var i1 :| 0 <= i1 < |bs| && bs[i1].min.x == a.min.x;
    var i2 :| 0 <= i2 < |bs| && bs[i2].min.x == b.min.x;
    var j1 :| 0 <= j1 < |bs| && bs[j1].min.y == a.min.y;
    var j2 :| 0 <= j2 < |bs| && bs[j2].min.y == b.min.y;
    var k1 :| 0 <= k1 < |bs| && bs[k1].min.z == a.min.z;
    var k2 :| 0 <= k2 < |bs| && bs[k2].min.z == b.min.z;
    var l1 :| 0 <= l1 < |bs| && bs[l1].max.x == a.max.x;
    var l2 :| 0 <= l2 < |bs| && bs[l2].max.x == b.max.x;
    var m1 :| 0 <= m1 < |bs| && bs[m1].max.y == a.max.y;
    var m2 :| 0 <= m2 < |bs| && bs[m2].max.y == b.max.y;
    var n1 :| 0 <= n1 < |bs| && bs[n1].max.z == a.max.z;
    var n2 :| 0 <= n2 < |bs| && bs[n2].max.z == b.max.z;
    assert Within(bs[i1], b) && Within(bs[i2], a);
    assert Within(bs[j1], b) && Within(bs[j2], a);
    assert Within(bs[k1], b) && Within(bs[k2], a);
    assert Within(bs[l1], b) && Within(bs[l2], a);
    assert Within(bs[m1], b) && Within(bs[m2], a);
    assert Within(bs[n1], b) && Within(bs[n2], a);
  }

  /** The union does not depend on the order of the boxes. */
  lemma UnionOrderIndependent(bs: seq<Aabb>, cs: seq<Aabb>)
    requires multiset(bs) == multiset(cs)
    ensures Union(bs) == Union(cs)
  {
    assert |bs| == |multiset(bs)| == |cs|;
    if |bs| == 1 {
      assert bs[0] in multiset(cs);
      assert cs == [cs[0]];
    } else if |bs| > 1 {
      var u := Union(bs).value;
      var v := Union(cs).value;
      forall i | 0 <= i < |bs|
        ensures Within(bs[i], v)
      {
        assert bs[i] in multiset(cs);
      }
      forall i | 0 <= i < |cs|
        ensures Within(cs[i], u) && cs[i] in bs
      {
        assert cs[i] in multiset(bs);
      }
      UnionIsTight(bs);
      UnionIsTight(cs);
      TransferTight(cs, bs, v);
      TightBoxUnique(bs, u, v);
    }
  }

  /** A face touching some box of `cs` touches some box of `bs` when every box
      of `cs` is a box of `bs`. */
  lemma TransferTight(cs: seq<Aabb>, bs: seq<Aabb>, v: Aabb)
    requires forall i :: 0 <= i < |cs| ==> cs[i] in bs
    requires exists i :: 0 <= i < |cs| && cs[i].min.x == v.min.x
    requires exists i :: 0 <= i < |cs| && cs[i].min.y == v.min.y
    requires exists i :: 0 <= i < |cs| && cs[i].min.z == v.min.z
    requires exists i :: 0 <= i < |cs| && cs[i].max.x == v.max.x
    requires exists i :: 0 <= i < |cs| && cs[i].max.y == v.max.y
    requires exists i :: 0 <= i < |cs| && cs[i].max.z == v.max.z
    ensures exists i :: 0 <= i < |bs| && bs[i].min.x == v.min.x
    ensures exists i :: 0 <= i < |bs| && bs[i].min.y == v.min.y
    ensures exists i :: 0 <= i < |bs| && bs[i].min.z == v.min.z
    ensures exists i :: 0 <= i < |bs| && bs[i].max.x == v.max.x
    ensures exists i :: 0 <= i < |bs| && bs[i].max.y == v.max.y
    ensures exists i :: 0 <= i < |bs| && bs[i].max.z == v.max.z
  {
    var i1 :| 0 <= i1 < |cs| && cs[i1].min.x == v.min.x;
    var i2 :| 0 <= i2 < |cs| && cs[i2].min.y == v.min.y;
    var i3 :| 0 <= i3 < |cs| && cs[i3].min.z == v.min.z;
    var i4 :| 0 <= i4 < |cs| && cs[i4].max.x == v.max.x;
    var i5 :| 0 <= i5 < |cs| && cs[i5].max.y == v.max.y;
    var i6 :| 0 <= i6 < |cs| && cs[i6].max.z == v.max.z;
    var j1 :| 0 <= j1 < |bs| && bs[j1] == cs[i1];
    var j2 :| 0 <= j2 < |bs| && bs[j2] == cs[i2];
    var j3 :| 0 <= j3 < |bs| && bs[j3] == cs[i3];
    var j4 :| 0 <= j4 < |bs| && bs[j4] == cs[i4];
    var j5 :| 0 <= j5 < |bs| && bs[j5] == cs[i5];
    var j6 :| 0 <= j6 < |bs| && bs[j6] == cs[i6];
  }

  function Abs(x: real): (r: real)
    ensures r >= 0.0 && (r == x || r == -x)
  {
    if x < 0.0 then -x else x
  }

  /** The first strictly largest of three values, the order `get_larger_side_size`
      compares them in. */
  function Max3(x: real, y: real, z: real): (r: real)
    ensures r >= x && r >= y && r >= z && (r == x || r == y || r == z)
  {
    if x > y && x > z then x else if y > z then y else z
  }

  /** `get_larger_side_size`: the longest of the three side lengths. */
  function LargerSideSize(b: Aabb): (r: real)
    ensures var v := Sides(b); r >= v.x && r >= v.y && r >= v.z && (r == v.x || r == v.y || r == v.z)
  {
    Max3(Sides(b).x, Sides(b).y, Sides(b).z)
  }

  function ScaleVec(v: Vec3, k: real): Vec3 {
    Vec3(v.x * k, v.y * k, v.z * k)
  }

  /** `Aabb * f32`: both corners scaled. */
  function Scale(b: Aabb, k: real): (r: Aabb)
    ensures r.min == ScaleVec(b.min, k) && r.max == ScaleVec(b.max, k)
  {
    Aabb(ScaleVec(b.min, k), ScaleVec(b.max, k))
  }

  /** Scaling composes multiplicatively and a factor of 1 leaves a box alone. */
  lemma ScaleComposes(b: Aabb, j: real, k: real)
    ensures Scale(Scale(b, j), k) == Scale(b, j * k)
    ensures Scale(b, 1.0) == b
  {
    ScaleVecComposes(b.min, j, k);
    ScaleVecComposes(b.max, j, k);
  }

  lemma ScaleVecComposes(v: Vec3, j: real, k: real)
    ensures ScaleVec(ScaleVec(v, j), k) == ScaleVec(v, j * k)
  {
    assert v.x * j * k == v.x * (j * k);
    assert v.y * j * k == v.y * (j * k);
    assert v.z * j * k == v.z * (j * k);
  }

  /** The three side lengths of a box. */
  function Sides(b: Aabb): Vec3 {
    Vec3(Abs(b.max.x - b.min.x), Abs(b.max.y - b.min.y), Abs(b.max.z - b.min.z))
  }

  /** A non-negative factor scales every side length by that factor. */
  lemma SidesScale(b: Aabb, k: real)
    requires k >= 0.0
    ensures Sides(Scale(b, k)).x == Sides(b).x * k
    ensures Sides(Scale(b, k)).y == Sides(b).y * k
    ensures Sides(Scale(b, k)).z == Sides(b).z * k
  {
    AbsScale(b.max.x, b.min.x, k);
    AbsScale(b.max.y, b.min.y, k);
    AbsScale(b.max.z, b.min.z, k);
  }

  /** The longest side of a box scaled by a non-negative factor is the longest
      of its scaled sides; with `Max3Scale` that is the old longest side times
      the factor. */
  lemma ScaledLargerSide(b: Aabb, k: real)
    requires k >= 0.0
    ensures LargerSideSize(Scale(b, k)) == Max3(Sides(b).x * k, Sides(b).y * k, Sides(b).z * k)
  {
    SidesScale(b, k);
  }

  /** Scaling by a non-negative factor commutes with taking the largest of three. */
  lemma Max3Scale(v: Vec3, k: real)
    requires k >= 0.0
    ensures Max3(v.x * k, v.y * k, v.z * k) == Max3(v.x, v.y, v.z) * k
  {
    var x, y, z := v.x, v.y, v.z;
    var m := Max3(x, y, z);
    MulMonoReal(x, m, k);
    MulMonoReal(y, m, k);
    MulMonoReal(z, m, k);
    var n := Max3(x * k, y * k, z * k);
    assert n >= m * k;
    assert n == x * k || n == y * k || n == z * k;
  }

  lemma AbsScale(a: real, b: real, k: real)
    requires k >= 0.0
    ensures Abs(a * k - b * k) == Abs(a - b) * k
  {
    var d := a - b;
    assert a * k - b * k == d * k;
    if d < 0.0 {
      assert (-d) * k >= 0.0;
      assert d * k == -((-d) * k);
    } else {
      assert d * k >= 0.0;
    }
  }

  lemma MulMonoReal(a: real, b: real, k: real)
    requires k >= 0.0
    ensures a <= b ==> a * k <= b * k
  {
    if a <= b {
      assert b * k - a * k == (b - a) * k;
    }
  }

  /** `get_aabb`: the accessor bounds as a box. */
  function FromBounds(min: Vec3, max: Vec3): (r: Aabb)
    ensures r.min == min && r.max == max
  {
    Aabb(min, max)
  }
}
