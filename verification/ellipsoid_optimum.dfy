/** The bare-ellipsoid baseline: the latitude, within a five-degree band
    around the polar circle, whose closed-form maximum ecliptic height is
    largest, sampled every 0.001 degree. Both scripts compute it; they differ
    only in how the height is written and in the latitude they report before
    any sample is taken. */
module EllipsoidOptimum {
  import opened Numeric
  import opened Geodesy
  import opened Argmax

  const LAT_RESOLUTION: real := 0.001

  /** `(lat_start, lat_end)` of the searched band. */
  function BandStart(south: bool): real {
    if south then -69.0 else 64.0
  }

  function BandEnd(south: bool): real {
    if south then -64.0 else 69.0
  }

  /** `len(range(int((end - start) / 0.001) + 1))`. */
  function SampleCount(start: real, end: real): (n: nat)
    ensures start <= end ==> n >= 1
  {
    var m := Trunc((end - start) / LAT_RESOLUTION) + 1;
    if m > 0 then m else 0
  }

  /** `lat_start + i * 0.001`. */
  function SampleLat(start: real, i: nat): real {
    start + i as real * LAT_RESOLUTION
  }

  /** Both bands are sampled at 5001 latitudes, end points included. */
  lemma BandSampleCount(south: bool)
    ensures SampleCount(BandStart(south), BandEnd(south)) == 5001
    ensures SampleLat(BandStart(south), 5000) == BandEnd(south)
  {
    assert (BandEnd(south) - BandStart(south)) / LAT_RESOLUTION == 5000.0;
  }

  /** The result of one sweep: `(best_lat, best_h)`. */
  datatype Optimum = Optimum(lat: real, height: ExtReal)

  /** The sweep itself, for a height `h` of latitude: first maximising sample
      wins; with no samples the seed latitude and `-inf` come back. */
  function Sweep(start: real, n: nat, h: real -> real, seedLat: real): (r: Optimum)
    ensures n == 0 ==> r == Optimum(seedLat, NegInf)
    ensures n > 0 ==> r.height.Fin?
    ensures n > 0 ==> (
      exists k ::
        && 0 <= k < n
        && r.lat == SampleLat(start, k)
        && r.height.v == h(SampleLat(start, k))
        && (forall i :: 0 <= i < k ==> h(SampleLat(start, i)) < r.height.v))
    ensures forall i :: 0 <= i < n ==> r.height.Bounds(h(SampleLat(start, i)))
  {
    var hs := (i: nat) => h(SampleLat(start, i));
    var k := FirstArgmax(hs, n);
    if k < 0 then Optimum(seedLat, NegInf)
    else
      assert forall i :: 0 <= i < n ==> hs(i) == h(SampleLat(start, i));
      Optimum(SampleLat(start, k), Fin(hs(k)))
  }

  /** Two heights that agree on every sample give the same sweep. */
  lemma SweepLocal(start: real, n: nat, h1: real -> real, h2: real -> real, seedLat: real)
    requires n > 0
    requires forall i :: 0 <= i < n ==> h1(SampleLat(start, i)) == h2(SampleLat(start, i))
    ensures Sweep(start, n, h1, seedLat) == Sweep(start, n, h2, seedLat)
  {
    var hs1 := (i: nat) => h1(SampleLat(start, i));
    var hs2 := (i: nat) => h2(SampleLat(start, i));
    FirstArgmaxLocal(hs1, hs2, n);
  }

  /** `compute_ellipsoid_optimum(south)` of the analysis script: heights from
      `ecliptic_hmax(lat, 0, 0, south)`, seed latitude 0. */
  function ComputeEllipsoidOptimum(t: Trig, south: bool): (r: Optimum)
    ensures r.height.Fin?
    ensures forall i :: 0 <= i < 5001 ==>
      EclipticHmax(t, SampleLat(BandStart(south), i), 0.0, 0, south) <= r.height.v
    ensures exists k ::
      && 0 <= k < 5001
      && r.lat == SampleLat(BandStart(south), k)
      && r.height.v == EclipticHmax(t, r.lat, 0.0, 0, south)
      && (forall i :: 0 <= i < k ==> EclipticHmax(t, SampleLat(BandStart(south), i), 0.0, 0, south) < r.height.v)
  {
    BandSampleCount(south);
    Sweep(BandStart(south), SampleCount(BandStart(south), BandEnd(south)),
          lat => EclipticHmax(t, lat, 0.0, 0, south), 0.0)
  }

  /** `compute_optimal_ellipsoid_lat(south)` of the track script: the same
      sweep over the written-out height formula, seed latitude +-66.56. */
  function OptimalEllipsoidLat(t: Trig, south: bool): (r: Optimum)
    ensures r.height.Fin?
    ensures forall i :: 0 <= i < 5001 ==>
      EllipsoidHeightDirect(t, SampleLat(BandStart(south), i), south) <= r.height.v
    ensures exists k ::
      && 0 <= k < 5001
      && r.lat == SampleLat(BandStart(south), k)
      && r.height.v == EllipsoidHeightDirect(t, r.lat, south)
      && (forall i :: 0 <= i < k ==> EllipsoidHeightDirect(t, SampleLat(BandStart(south), i), south) < r.height.v)
  {
    BandSampleCount(south);
    Sweep(BandStart(south), SampleCount(BandStart(south), BandEnd(south)),
          lat => EllipsoidHeightDirect(t, lat, south), if south then -66.56 else 66.56)
  }

  /** Wherever the square root is exact on the sampled latitudes, the two
      scripts find the same baseline latitude and height. */
  lemma BaselinesAgree(t: Trig, south: bool)
    requires t.sin(0.0) == 0.0 && t.cos(0.0) == 1.0
    requires forall i :: 0 <= i < 5001 ==> RadialSound(t, SampleLat(BandStart(south), i))
    ensures ComputeEllipsoidOptimum(t, south) == OptimalEllipsoidLat(t, south)
  {
    BandSampleCount(south);
    var start := BandStart(south);
    forall i | 0 <= i < 5001
      ensures EclipticHmax(t, SampleLat(start, i), 0.0, 0, south) == EllipsoidHeightDirect(t, SampleLat(start, i), south)
    {
      DirectFormulaAgrees(t, SampleLat(start, i), south);
    }
    SweepLocal(start, 5001, lat => EclipticHmax(t, lat, 0.0, 0, south),
               lat => EllipsoidHeightDirect(t, lat, south), 0.0);
    SweepSeedIrrelevant(start, 5001, lat => EllipsoidHeightDirect(t, lat, south), 0.0,
                        if south then -66.56 else 66.56);
  }

  /** Once there is a sample, the seed latitude never survives. */
  lemma SweepSeedIrrelevant(start: real, n: nat, h: real -> real, seed1: real, seed2: real)
    requires n > 0
    ensures Sweep(start, n, h, seed1) == Sweep(start, n, h, seed2)
  {
  }
}
