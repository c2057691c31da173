/** WGS 84 geodetic-to-Earth-fixed conversion and the closed-form maximum
    ecliptic height of a surface point. The transcendental functions (sine,
    cosine, square root, two-argument arctangent) and the prime-vertical radius
    of curvature `N(phi) = a / sqrt(1 - e2 * sin(phi)^2)` are left uninterpreted:
    they are supplied as the fields of a `Trig` value, and everything built on
    top of them is stated exactly. */
module Geodesy {

  /** Math library stand-ins. Angles are in radians, as in Python's `math`. */
  datatype Trig = Trig(
    sin: real -> real,
    cos: real -> real,
    sqrt: real -> real,
    atan2: (real, real) -> real,
    /** Prime-vertical radius of curvature for a geodetic latitude in degrees. */
    primeVertical: real -> real)

  datatype Vec3 = Vec3(x: real, y: real, z: real)

  /** `math.pi` as its shortest decimal representation. */
  const PI: real := 3.141592653589793
  const DEG2RAD: real := PI / 180.0
  /** First eccentricity squared of the WGS 84 ellipsoid. */
  const WGS84_E2: real := 0.00669437999014
  /** J2000 mean obliquity of the ecliptic, in degrees. */
  const OBLIQUITY_DEG: real := 23.4392911

  function SinE(t: Trig): real {
    t.sin(OBLIQUITY_DEG * DEG2RAD)
  }

  function CosE(t: Trig): real {
    t.cos(OBLIQUITY_DEG * DEG2RAD)
  }

  /** `max(elev, 0)`: ocean floor is not part of the search surface. */
  function Clamp(elev: int): (e: nat)
    ensures elev >= 0 ==> e == elev
    ensures elev <= 0 ==> e == 0
  {
    if elev > 0 then elev else 0
  }

  /** `geodetic_to_ecef(lat_deg, lon_deg, elev_m)`. */
  function ToEcef(t: Trig, latDeg: real, lonDeg: real, elev: real): Vec3 {
    var lat := latDeg * DEG2RAD;
    var lon := lonDeg * DEG2RAD;
    var n := t.primeVertical(latDeg);
    Vec3((n + elev) * t.cos(lat) * t.cos(lon),
         (n + elev) * t.cos(lat) * t.sin(lon),
         (n * (1.0 - WGS84_E2) + elev) * t.sin(lat))
  }

  /** Raising a point by `elev` moves it `elev` along the ellipsoid normal
      `(cos lat cos lon, cos lat sin lon, sin lat)` from its sea-level
      position. */
  lemma ElevationAlongNormal(t: Trig, latDeg: real, lonDeg: real, elev: real)
    ensures var lat, lon := latDeg * DEG2RAD, lonDeg * DEG2RAD;
      var p, p0 := ToEcef(t, latDeg, lonDeg, elev), ToEcef(t, latDeg, lonDeg, 0.0);
      && p.x == p0.x + elev * t.cos(lat) * t.cos(lon)
      && p.y == p0.y + elev * t.cos(lat) * t.sin(lon)
      && p.z == p0.z + elev * t.sin(lat)
  {
  }

  /** `x^2 + y^2`: squared distance from the rotation axis. */
  function HorizontalSq(v: Vec3): real {
    v.x * v.x + v.y * v.y
  }

  /** `sin(e) * sqrt(x^2 + y^2) +- cos(e) * z`, the largest projection of `v`
      onto the ecliptic pole as the Earth turns; the sign of the `z` term
      selects the target hemisphere. */
  function HmaxOfPoint(t: Trig, v: Vec3, south: bool): real {
    var rxy := t.sqrt(HorizontalSq(v));
    if south then SinE(t) * rxy - CosE(t) * v.z
    else SinE(t) * rxy + CosE(t) * v.z
  }

  /** The south height of a point is the north height of its mirror image
      in the equatorial plane. */
  lemma HemisphereMirror(t: Trig, v: Vec3)
    ensures HmaxOfPoint(t, Vec3(v.x, v.y, -v.z), true) == HmaxOfPoint(t, v, false)
    ensures HmaxOfPoint(t, Vec3(v.x, v.y, -v.z), false) == HmaxOfPoint(t, v, true)
  {
    assert HorizontalSq(Vec3(v.x, v.y, -v.z)) == HorizontalSq(v);
  }

  /** `ecliptic_hmax`: the closed-form maximum ecliptic height of a surface
      point over all times, with its elevation clamped at sea level. */
  function EclipticHmax(t: Trig, latDeg: real, lonDeg: real, elev: int, south: bool): real {
    HmaxOfPoint(t, ToEcef(t, latDeg, lonDeg, Clamp(elev) as real), south)
  }

  /** `optimal_gmst_rad`: the sidereal angle at which the point reaches it. */
  function OptimalGmst(t: Trig, latDeg: real, lonDeg: real, elev: int, south: bool): real {
    var v := ToEcef(t, latDeg, lonDeg, Clamp(elev) as real);
    if south then t.atan2(v.x, v.y) else t.atan2(-v.x, -v.y)
  }

  /** Elevations at or below sea level are indistinguishable to both the
      height and the angle. */
  lemma SeaLevelClamp(t: Trig, latDeg: real, lonDeg: real, elev: int, south: bool)
    requires elev <= 0
    ensures EclipticHmax(t, latDeg, lonDeg, elev, south) == EclipticHmax(t, latDeg, lonDeg, 0, south)
    ensures OptimalGmst(t, latDeg, lonDeg, elev, south) == OptimalGmst(t, latDeg, lonDeg, 0, south)
  {
  }

  /** The ellipsoid height as `compute_optimal_ellipsoid_lat` writes it out:
      `sin(e) N cos(lat) + sign * cos(e) N (1 - e2) sin(lat)`. */
  function EllipsoidHeightDirect(t: Trig, latDeg: real, south: bool): real {
    var lat := latDeg * DEG2RAD;
    var n := t.primeVertical(latDeg);
    var cosSign := if south then -1.0 else 1.0;
    SinE(t) * n * t.cos(lat) + cosSign * CosE(t) * n * (1.0 - WGS84_E2) * t.sin(lat)
  }

  /** Distance from the rotation axis of a sea-level point on the meridian
      plane at this latitude, `N(lat) cos(lat)`. */
  function AxisDistance(t: Trig, latDeg: real): real {
    t.primeVertical(latDeg) * t.cos(latDeg * DEG2RAD)
  }

  /** Where the square root behaves on that distance (true whenever the
      distance is non-negative, i.e. away from the far side of the poles). */
  predicate RadialSound(t: Trig, latDeg: real) {
    var w := AxisDistance(t, latDeg);
    t.sqrt(HorizontalSq(Vec3(w, 0.0, 0.0))) == w
  }

  /** The two scripts' ellipsoid heights agree: the direct formula is the
      closed form evaluated at longitude 0 and elevation 0. */
  lemma DirectFormulaAgrees(t: Trig, latDeg: real, south: bool)
    requires t.sin(0.0) == 0.0 && t.cos(0.0) == 1.0
    requires RadialSound(t, latDeg)
    ensures EllipsoidHeightDirect(t, latDeg, south) == EclipticHmax(t, latDeg, 0.0, 0, south)
  {
    var v := ToEcef(t, latDeg, 0.0, 0.0);
    var w := AxisDistance(t, latDeg);
    assert v.x == w && v.y == 0.0;
    assert HorizontalSq(v) == HorizontalSq(Vec3(w, 0.0, 0.0));
    assert Clamp(0) as real == 0.0;
    assert EclipticHmax(t, latDeg, 0.0, 0, south) == HmaxOfPoint(t, v, south);
    assert v.z == t.primeVertical(latDeg) * (1.0 - WGS84_E2) * t.sin(latDeg * DEG2RAD);
  }
}
