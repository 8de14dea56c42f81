/**
 * The sphere projector shared by the planet scripts: a tile-local point
 * (x, y in the unit square, z a height offset) is sent to longitude
 * phi = phiMin + x (phiMax - phiMin) and colatitude
 * theta = thetaMin + y (thetaMax - thetaMin), at radius R + z.
 *
 * Sine and cosine are not computed here: they are the two functions of a
 * `Trig` value, and only the radius lemma assumes sin^2 + cos^2 = 1.
 */
module Sphere {
  import opened Geometry

  /** numpy's `np.pi` (the double nearest to pi), read as an exact real. */
  const Pi: real := 3.141592653589793

  datatype Trig = Trig(sin: real -> real, cos: real -> real)

  /** The Pythagorean identity, for every angle. */
  ghost predicate Pythagorean(t: Trig)
  {
    forall a :: t.sin(a) * t.sin(a) + t.cos(a) * t.cos(a) == 1.0
  }

  /** An angular interval (lo, hi) as the scripts pass them around. */
  datatype Bounds = Bounds(lo: real, hi: real)

  /** `bounds[0] + s * (bounds[1] - bounds[0])`: the endpoints map to the bounds and [0,1] maps into them. */
  function Lerp(b: Bounds, s: real): (r: real)
    ensures s == 0.0 ==> r == b.lo
    ensures s == 1.0 ==> r == b.hi
    ensures b.lo <= b.hi && 0.0 <= s <= 1.0 ==> b.lo <= r <= b.hi
  {
    var r := b.lo + s * (b.hi - b.lo);
    LerpBetween(b, s);
    r
  }

  lemma LerpBetween(b: Bounds, s: real)
    ensures b.lo <= b.hi && 0.0 <= s <= 1.0 ==> 0.0 <= s * (b.hi - b.lo) <= b.hi - b.lo
  {
    if b.lo <= b.hi && 0.0 <= s <= 1.0 {
      var d := b.hi - b.lo;
      assert 0.0 <= s * d;
      assert d - s * d == (1.0 - s) * d;
      assert 0.0 <= (1.0 - s) * d;
    }
  }

  /** One vertex of `map_to_sphere`. */
  function Project(v: Vec3, theta: Bounds, phi: Bounds, radius: real, t: Trig): Vec3
  {
    var ph := Lerp(phi, v.x);
    var th := Lerp(theta, v.y);
    var rho := radius + v.z;
    Vec3(rho * t.sin(th) * t.cos(ph), rho * t.sin(th) * t.sin(ph), rho * t.cos(th))
  }

  function SquaredNorm(v: Vec3): real
  {
    v.x * v.x + v.y * v.y + v.z * v.z
  }

  /** `map_to_sphere`: one output point per input vertex, in order. */
  function MapToSphere(vs: seq<Vec3>, theta: Bounds, phi: Bounds, radius: real, t: Trig): (r: seq<Vec3>)
    ensures |r| == |vs|
    ensures forall i :: 0 <= i < |vs| ==> r[i] == Project(vs[i], theta, phi, radius, t)
  {
    seq(|vs|, i requires 0 <= i < |vs| => Project(vs[i], theta, phi, radius, t))
  }

  /**
   * Height is purely radial: under sin^2 + cos^2 = 1 a projected vertex has
   * norm |R + z|, so a vertex with z = 0 lands exactly on the sphere of radius R.
   */
  lemma ProjectRadius(v: Vec3, theta: Bounds, phi: Bounds, radius: real, t: Trig)
    requires Pythagorean(t)
    ensures SquaredNorm(Project(v, theta, phi, radius, t)) == (radius + v.z) * (radius + v.z)
    ensures v.z == 0.0 ==> SquaredNorm(Project(v, theta, phi, radius, t)) == radius * radius
  {
    var ph := Lerp(phi, v.x);
    var th := Lerp(theta, v.y);
    var rho := radius + v.z;
    var s, c, sp, cp := t.sin(th), t.cos(th), t.sin(ph), t.cos(ph);
    var p := Project(v, theta, phi, radius, t);
    assert sp * sp + cp * cp == 1.0;
    assert s * s + c * c == 1.0;
    calc {
      SquaredNorm(p);
      (rho * s * cp) * (rho * s * cp) + (rho * s * sp) * (rho * s * sp) + (rho * c) * (rho * c);
      { Regroup(rho, s, c, cp, sp); }
      rho * rho * (s * s * (cp * cp + sp * sp) + c * c);
      rho * rho * (s * s + c * c);
      rho * rho;
    }
  }

  lemma Regroup(rho: real, s: real, c: real, cp: real, sp: real)
    ensures (rho * s * cp) * (rho * s * cp) + (rho * s * sp) * (rho * s * sp) + (rho * c) * (rho * c)
         == rho * rho * (s * s * (cp * cp + sp * sp) + c * c)
  {
  }

  /** Every vertex `map_to_sphere` produces lies at distance |R + z| from the centre. */
  lemma MapToSphereRadii(vs: seq<Vec3>, theta: Bounds, phi: Bounds, radius: real, t: Trig)
    requires Pythagorean(t)
    ensures forall i :: 0 <= i < |vs| ==>
      SquaredNorm(MapToSphere(vs, theta, phi, radius, t)[i]) == (radius + vs[i].z) * (radius + vs[i].z)
  {
    forall i | 0 <= i < |vs|
      ensures SquaredNorm(MapToSphere(vs, theta, phi, radius, t)[i]) == (radius + vs[i].z) * (radius + vs[i].z)
    {
      ProjectRadius(vs[i], theta, phi, radius, t);
    }
  }
}
